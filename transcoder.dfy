/**
 The image transcoder: the per-pixel loops of `pack_image` and
 `unpack_image`. Reading, decoding, encoding and saving image files are left
 to the caller. A decoded image is handed over as its pixels in row-major
 order, which is how the image library stores them and the order in which
 its pixel iterators visit them: the pixel at position k is the one at
 column `k % width`, row `k / width`.
 */
module Transcoder {
  import opened Codec
  import opened Layout

  /** The failure that `unpack_image` reports for an input it cannot use. */
  datatype ImageError = FormatMismatch

  datatype Result<T> = Ok(value: T) | Err(error: ImageError)

  /** A decoded image as the image library hands it over, one variant per
      pixel format. Only the single-channel 16-bit variant is read pixel by
      pixel here, so only it carries its samples, in row-major order. */
  datatype DynamicImage =
    | ImageLuma8(width: nat, height: nat)
    | ImageLumaA8(width: nat, height: nat)
    | ImageRgb8(width: nat, height: nat)
    | ImageRgba8(width: nat, height: nat)
    | ImageLuma16(width: nat, height: nat, samples: seq<uint16>)
    | ImageLumaA16(width: nat, height: nat)
    | ImageRgb16(width: nat, height: nat)
    | ImageRgba16(width: nat, height: nat)
    | ImageRgb32F(width: nat, height: nat)
    | ImageRgba32F(width: nat, height: nat)
  {
    /** The image's `(width, height)`. */
    function Dimensions(): (d: (nat, nat))
      // a valid 16-bit image has one sample per cell of the width x height grid
      ensures Valid() && ImageLuma16? ==> d.0 * d.1 == |samples|
    {
      (width, height)
    }

    /** The library's own guarantee: a 16-bit image holds one sample per
        pixel. */
    predicate Valid(): (ok: bool)
      // only the 16-bit variant carries samples that could disagree with its size
      ensures !ImageLuma16? ==> ok
    {
      ImageLuma16? ==> |samples| == width * height
    }
  }

  /** An 8-bit RGBA image buffer: `width * height` pixels in row-major order. */
  class RgbaImage {
    const width: nat
    const height: nat
    const data: array<Rgba>

    ghost predicate Valid()
    {
      data.Length == width * height
    }

    /** The pixel at column x, row y. */
    function GetPixel(x: nat, y: nat): Rgba
      requires Valid() && x < width && y < height
      reads data
    {
      IndexInBounds(x, y, width, height);
      data[Index(x, y, width)]
    }

    /** A new image of the given size, every pixel transparent black. */
    constructor (width: nat, height: nat)
      ensures Valid() && fresh(data)
      ensures this.width == width && this.height == height
      ensures forall x: nat, y: nat :: x < width && y < height ==> GetPixel(x, y) == Rgba(0, 0, 0, 0)
    {
      this.width := width;
      this.height := height;
      data := new Rgba[width * height](_ => Rgba(0, 0, 0, 0));
      AllIndicesInBounds(width, height);
    }

    /** Overwrites the pixel at column x, row y and no other. */
    method PutPixel(x: nat, y: nat, p: Rgba)
      requires Valid() && x < width && y < height
      modifies data
      ensures Index(x, y, width) < data.Length
      ensures data[..] == old(data[..])[Index(x, y, width) := p]
      ensures GetPixel(x, y) == p
      ensures forall i: nat, j: nat :: i < width && j < height && (i != x || j != y) ==>
        GetPixel(i, j) == old(GetPixel(i, j))
    {
      IndexInBounds(x, y, width, height);
      data[Index(x, y, width)] := p;
      forall i: nat, j: nat | i < width && j < height && (i != x || j != y)
        ensures GetPixel(i, j) == old(GetPixel(i, j))
      {
        if Index(i, j, width) == Index(x, y, width) {
          IndexInjective(i, j, x, y, width);
        }
      }
    }
  }

  /** One source pixel as `pack_image` packs it: its alpha is binarised with
      `a > 0`. */
  function PackPixel(p: Rgba): (w: uint16)
    // any nonzero source alpha becomes opaque, a zero alpha transparent
    ensures w >= 0x8000 <==> p.a != 0
  {
    Pack(p.r, p.g, p.b, p.a > 0)
  }

  /** What `pack_image` makes of a whole image: every pixel packed, in the
      same order. */
  function PackAll(pixels: seq<Rgba>): (words: seq<uint16>)
    // one word per pixel
    ensures |words| == |pixels|
  {
    if pixels == [] then []
    else PackAll(pixels[..|pixels| - 1]) + [PackPixel(pixels[|pixels| - 1])]
  }

  /** Word k of a packed image is pixel k packed. */
  lemma {:induction false} PackAllAt(pixels: seq<Rgba>, k: nat)
    requires k < |pixels|
    ensures PackAll(pixels)[k] == PackPixel(pixels[k])
  {
    if k < |pixels| - 1 {
      PackAllAt(pixels[..|pixels| - 1], k);
    }
  }

  /** What `unpack_image` makes of the samples of a 16-bit image: every
      sample unpacked, in the same order. */
  function UnpackAll(words: seq<uint16>): (pixels: seq<Rgba>)
    // one pixel per sample
    ensures |pixels| == |words|
  {
    if words == [] then []
    else UnpackAll(words[..|words| - 1]) + [Unpack(words[|words| - 1])]
  }

  /** Pixel k of an unpacked image is sample k unpacked. */
  lemma {:induction false} UnpackAllAt(words: seq<uint16>, k: nat)
    requires k < |words|
    ensures UnpackAll(words)[k] == Unpack(words[k])
  {
    if k < |words| - 1 {
      UnpackAllAt(words[..|words| - 1], k);
    }
  }

  /** Unpacking a 16-bit ARGB-1555 image and packing the result gives back
      the very same samples: the `unpack` then `pack` direction loses
      nothing. */
  lemma {:induction false} ImageRoundTrip(words: seq<uint16>)
    ensures PackAll(UnpackAll(words)) == words
  {
    if words != [] {
      var init, last := words[..|words| - 1], words[|words| - 1];
      var pixels := UnpackAll(words);
      assert pixels == UnpackAll(init) + [Unpack(last)];
      assert pixels[..|pixels| - 1] == UnpackAll(init);
      assert PackAll(pixels) == PackAll(UnpackAll(init)) + [PackPixel(Unpack(last))];
      ImageRoundTrip(init);
      UnpackPackRoundTrip(last);
      assert words == init + [last];
    }
  }

  /** The loop of `pack_image`: allocates `width * height` zeroed words and,
      for each pixel the iterator yields at column x, row y, stores the
      packed pixel at position `y * width + x`, computed in `u32`. The
      decoded image is `pixels`, row-major. */
  method PackImage(pixels: seq<Rgba>, width: nat, height: nat) returns (argb: array<uint16>)
    requires |pixels| == width * height
    requires width * height <= U32_MAX
    ensures fresh(argb)
    ensures argb[..] == PackAll(pixels)
  {
    argb := new uint16[width * height](_ => 0);
    var k := 0;
    while k < |pixels|
      invariant 0 <= k <= |pixels|
      invariant argb.Length == |pixels|
      invariant argb[..k] == PackAll(pixels[..k])
    {
      var x, y := Column(k, width, height), Row(k, width, height);
      // the u32 position `y * width + x` does not wrap
      assert Index(x, y, width) < U32_MAX;
      argb[Index(x, y, width)] := PackPixel(pixels[k]);
      assert pixels[..k + 1][..k] == pixels[..k];
      k := k + 1;
    }
    assert pixels[..|pixels|] == pixels;
    assert argb[..] == argb[..|pixels|];
  }

  /** `unpack_image` after decoding: refuses every format but single-channel
      16-bit; otherwise creates an RGBA image of the same size and, for each
      sample the iterator yields at column x, row y, puts the unpacked sample
      at pixel (x, y). */
  method UnpackImage(img: DynamicImage) returns (r: Result<RgbaImage>)
    requires img.Valid()
    ensures r.Err? <==> !img.ImageLuma16?
    ensures r.Err? ==> r.error == FormatMismatch
    ensures r.Ok? ==> img.ImageLuma16? && fresh(r.value) && fresh(r.value.data) && r.value.Valid()
    ensures r.Ok? ==> (r.value.width, r.value.height) == img.Dimensions()
    ensures r.Ok? ==> r.value.data[..] == UnpackAll(img.samples)
  {
    if !img.ImageLuma16? {
      return Err(FormatMismatch);
    }
    var width, height, samples := img.width, img.height, img.samples;
    var rgba := new RgbaImage(width, height);
    var k := 0;
    while k < |samples|
      invariant 0 <= k <= |samples|
      invariant rgba.Valid() && rgba.width == width && rgba.height == height
      invariant rgba.data[..k] == UnpackAll(samples[..k])
    {
      var x, y := Column(k, width, height), Row(k, width, height);
      rgba.PutPixel(x, y, Unpack(samples[k]));
      assert samples[..k + 1][..k] == samples[..k];
      k := k + 1;
    }
    assert samples[..|samples|] == samples;
    assert rgba.data[..] == rgba.data[..|samples|];
    r := Ok(rgba);
  }

  /** The pixel `UnpackImage` puts at column x, row y is the unpacked sample
      that the 16-bit image holds for column x, row y. */
  lemma UnpackedPixelAt(img: DynamicImage, rgba: RgbaImage, x: nat, y: nat)
    requires img.ImageLuma16? && img.Valid()
    requires rgba.Valid() && (rgba.width, rgba.height) == img.Dimensions()
    requires rgba.data[..] == UnpackAll(img.samples)
    requires x < img.width && y < img.height
    ensures Index(x, y, img.width) < |img.samples|
    ensures rgba.GetPixel(x, y) == Unpack(img.samples[Index(x, y, img.width)])
  {
    IndexInBounds(x, y, img.width, img.height);
    UnpackAllAt(img.samples, Index(x, y, img.width));
  }

  /** A two-pixel image, opaque red then transparent green, packs to
      `[0xFC00, 0x03E0]`. */
  method PackRedGreenScenario() returns (argb: array<uint16>)
    ensures argb[..] == [0xFC00, 0x03E0]
  {
    argb := PackImage([Rgba(255, 0, 0, 255), Rgba(0, 255, 0, 0)], 2, 1);
    PackAllAt([Rgba(255, 0, 0, 255), Rgba(0, 255, 0, 0)], 0);
    PackAllAt([Rgba(255, 0, 0, 255), Rgba(0, 255, 0, 0)], 1);
    PackOpaqueRed();
    PackTransparentGreen();
  }

  /** Unpacking a three-channel 8-bit image is refused with a format
      mismatch instead of being reinterpreted. */
  method UnpackRgb8Scenario() returns (r: Result<RgbaImage>)
    ensures r == Err(FormatMismatch)
  {
    r := UnpackImage(ImageRgb8(4, 3));
  }
}
