# image-packer in Dafny

A model of image-packer's conversion logic. The tool turns an 8-bit RGBA
image into a single-channel 16-bit image whose samples are ARGB-1555 words,
and turns such an image back into 8-bit RGBA. An ARGB-1555 word has 1 alpha
bit (bit 15) and three 5-bit colour fields: red in bits 14-10, green in bits
9-5, blue in bits 4-0.

- `codec.dfy`, module `Codec`: the pixel codec `pack` / `unpack` as
  functions. Rust's `u8`, `u16` and `u32` are the bounded integer types
  `uint8`, `uint16` and `uint32`. Every intermediate value is stored at its
  Rust type, so the verifier checks that no arithmetic overflows and no
  `as u8` cast truncates. A right shift by n is division by 2^n, a mask is a
  remainder, and the bitwise or of fields that do not overlap is their sum.
  Contracts and lemmas state the field layout, the alpha binarisation,
  nearest-level rounding, the round trip over all 65536 words, monotonicity,
  the error bound and literal fixtures.
- `arithmetic.dfy`, module `Arithmetic`: two facts about integer
  multiplication and division that the other modules use.
- `layout.dfy`, module `Layout`: the row-major position `y * width + x` and
  its facts. It is in bounds and one-to-one, and `Column` / `Row` invert it
  on every position of the buffer.
- `transcoder.dfy`, module `Transcoder`: the pixel loops of `pack_image` and
  `unpack_image` as methods with one `while` loop each over the pixels in
  row-major order. That is the order in which the image library stores a
  decoded image and in which `pixels()` and `enumerate_pixels()` visit it:
  the pixel at position k has column `k % width` and row `k / width`. The
  decoded RGBA input of `pack_image` is that pixel sequence. The decoded
  input of `unpack_image` is a `DynamicImage` that carries its pixel format.
  The RGBA output buffer is the class `RgbaImage` with `PutPixel`. Each loop
  is proved against a recursive function over the pixel sequence, `PackAll`
  or `UnpackAll`. An image-level round trip relates the two functions. Two
  scenario methods pin down packing a two-pixel image, opaque red then
  transparent green, and the format-mismatch refusal.

An opaque red pixel packs to `0xFC00`, because bit 15 is set for any nonzero
alpha (src/main.rs:46, 50, 60).

## Model

| member | source | states |
|---|---|---|
| Codec.Quantize | src/main.rs:47-49 | the 5-bit level is below 32; the 16-bit computation `c*31+127` never overflows; the level is the one nearest to c·31/255 (error at most 127/255 of a step) |
| Codec.Expand | src/main.rs:39-42 | the 32-bit computation never overflows and the `as u8` cast never truncates; the result is the 8-bit value nearest to c5·255/31 (error at most 15/31); level 0 maps to 0 and only 0, level 31 maps to 255 and only 255 |
| Codec.AlphaBit | src/main.rs:33 | `(v >> 15) & 1` is 0 or 1 |
| Codec.RedField | src/main.rs:34 | `(v >> 10) & 0x1F` is a 5-bit level, below 32 |
| Codec.GreenField | src/main.rs:35 | `(v >> 5) & 0x1F` is a 5-bit level, below 32 |
| Codec.BlueField | src/main.rs:36 | `v & 0x1F` is a 5-bit level, below 32 |
| Codec.Assemble | src/main.rs:50 | for an alpha bit and three 5-bit levels, `(a<<15)\|(r5<<10)\|(g5<<5)\|b5` fits in 16 bits and is at least 0x8000 exactly when the alpha bit is 1 |
| Codec.AssembleReadsBack | src/main.rs:33-36 | for an alpha bit and three 5-bit levels, the alpha, red, green and blue readers of the assembled word `(a<<15)\|(r5<<10)\|(g5<<5)\|b5` return exactly the values put in |
| Codec.WordIsAssembled | src/main.rs:33-36 | every 16-bit word equals the assembly of its own alpha bit and three 5-bit fields |
| Codec.AlphaBitIsTop | src/main.rs:33 | `(v >> 15) & 1` is 1 exactly for the words from 0x8000 up |
| Codec.FieldsDetermineWord | src/main.rs:33-36 | two words with the same four fields are equal |
| Codec.Pack | src/main.rs:45-51 | the packed word is at least 0x8000 (bit 15 set) if and only if `a`, whatever r, g, b are, and it fits in 16 bits |
| Codec.PackFields | src/main.rs:46-50 | bit 15 of `pack(r,g,b,a)` is `a`, and bits 14-10, 9-5 and 4-0 hold the quantised r, g and b |
| Codec.PackUnique | src/main.rs:45-51 | `pack(r,g,b,a)` is the only word whose alpha bit is `a` and whose fields are the quantised channels |
| Codec.Unpack | src/main.rs:31-43 | alpha is 255 when bit 15 is set and 0 otherwise |
| Codec.UnpackFields | src/main.rs:34-42 | re-quantising each channel that `unpack` returns gives back the 5-bit field it was expanded from |
| Codec.QuantizeExpand | src/main.rs:39-49 | for each of the 32 levels, quantising its expansion returns the level |
| Codec.UnpackPackRoundTrip | src/main.rs:31-51 | for every 16-bit word v, packing unpack(v) again, with its alpha tested by `> 0` as the pack path does, gives v exactly |
| Codec.RepackStable | src/main.rs:31-51 | unpacking a packed pixel and packing it again gives the same word; the alpha that comes back is 255 or 0 according to `a` |
| Codec.ExpandQuantizeError | src/main.rs:39-49 | quantising then expanding moves a channel value by at most 4 |
| Codec.PackUnpackError | src/main.rs:31-51 | pack then unpack moves each colour channel by at most 4 |
| Codec.QuantizeMonotone | src/main.rs:47-49 | c1 ≤ c2 implies Quantize(c1) ≤ Quantize(c2) |
| Codec.ExpandMonotone | src/main.rs:39-41 | l1 ≤ l2 < 32 implies Expand(l1) ≤ Expand(l2) |
| Codec.PackOpaqueRed | src/main.rs:45-51 | pack(255, 0, 0, true) = 0xFC00 |
| Codec.PackTransparentGreen | src/main.rs:45-51 | pack(0, 255, 0, false) = 0x03E0 |
| Codec.PackTransparentBlack | src/main.rs:45-51 | pack(0, 0, 0, false) = 0 |
| Codec.PackOpaqueWhite | src/main.rs:45-51 | pack(255, 255, 255, true) = 0xFFFF |
| Layout.Index | src/main.rs:61 | for x < width, position `y*width+x` lies in row y's stretch of the buffer, from `y*width` to `y*width+width-1` |
| Layout.IndexInBounds | src/main.rs:57-61 | for x < width and y < height, position `y*width+x` is below `width*height`, the buffer's length |
| Layout.AllIndicesInBounds | src/main.rs:57-61 | the same bound for every pixel of the grid at once |
| Layout.IndexInverse | src/main.rs:61 | division and remainder by the width recover row y and column x from the position |
| Layout.IndexInjective | src/main.rs:61 | two pixels of the grid never share a position |
| Layout.IndexOnto | src/main.rs:57-61 | every position below `width*height` is the position of a pixel of the grid |
| Layout.Column | src/main.rs:58 | the column that the pixel iterator reports for the pixel at position k, below `width*height`, is below the width |
| Layout.Row | src/main.rs:58 | the row reported for the pixel at position k is below the height, and `row*width+column` is k again, so the write at src/main.rs:61 lands on the pixel's own position |
| Transcoder.DynamicImage.Dimensions | src/main.rs:72 | for a valid 16-bit image, the product of the reported width and height is the number of samples |
| Transcoder.DynamicImage.Valid | src/main.rs:71-75 | a decoded 16-bit image holds one sample per pixel; every other format, whose pixels are not read here, is valid |
| Transcoder.PackPixel | src/main.rs:59-60 | the word packed from a source pixel is opaque (at least 0x8000) if and only if the source alpha is nonzero |
| Transcoder.PackAll | src/main.rs:58-62 | the packed image has exactly one word per pixel |
| Transcoder.PackAllAt | src/main.rs:58-62 | word k of the packed image is pack of pixel k, with its alpha tested by `a > 0` |
| Transcoder.UnpackAll | src/main.rs:80-84 | the unpacked image has exactly one pixel per sample |
| Transcoder.UnpackAllAt | src/main.rs:80-84 | pixel k of the unpacked image is unpack of sample k |
| Transcoder.ImageRoundTrip | src/main.rs:31-51 | for every sequence of 16-bit samples, packing the unpacked image gives back exactly the original samples |
| Transcoder.PackImage | src/main.rs:56-62 | the buffer is newly allocated and holds exactly `PackAll` of the pixels. It has width·height words, entry k is pixel k packed, and no entry of the zero fill is left. The u32 computation of each position `y*width+x` does not overflow |
| Transcoder.RgbaImage.constructor | src/main.rs:79 | a new image of the given size whose pixels are all (0,0,0,0) |
| Transcoder.RgbaImage.PutPixel | src/main.rs:83 | the buffer changes only at position `y*width+x`, which now holds the given pixel. Pixel (x, y) becomes the given value and every other pixel is unchanged |
| Transcoder.UnpackImage | src/main.rs:72-84 | fails with FormatMismatch if and only if the decoded image is not 16-bit single-channel. Otherwise it returns a new image of the input's dimensions whose pixel buffer is exactly `UnpackAll` of the samples |
| Transcoder.UnpackedPixelAt | src/main.rs:80-83 | in the image `UnpackImage` returns, the pixel at column x, row y is unpack of the sample at column x, row y |
| Transcoder.PackRedGreenScenario | src/main.rs:56-62 | packing the 2×1 image [(255,0,0,255), (0,255,0,0)] yields exactly [0xFC00, 0x03E0] |
| Transcoder.UnpackRgb8Scenario | src/main.rs:74-77 | unpacking a 3-channel 8-bit image yields the FormatMismatch error |

## Left out

- Reading and decoding the input file (`ImageReader::open(...).decode()`) is not modelled. It is I/O and container parsing done by the image library. The decoded image is a parameter.
- `DynamicImage::pixels` is not modelled. Its conversion of any pixel format to RGBA belongs to the image library, so `PackImage` takes the converted RGBA pixels as a row-major sequence. That the iterator visits the pixels in row-major order is the library's behaviour; the model takes it as given.
- Building the output image (`ImageBuffer::from_vec(...).expect`) and saving it (`save`) are not modelled. They are library calls that write to disk. `PackImage` and `UnpackImage` return the filled buffers.
- The command line (`Args` and `main`) is not modelled. It is argument parsing and dispatch with no conversion logic.
- Error construction and message text (`color_eyre`) is left out. The format mismatch is the value `FormatMismatch`.
- Transcoder.PackImage: requires the pixel sequence to hold `width * height` pixels, which every decoded image does.
- Transcoder.PackImage: requires `width * height` to fit in a `u32`. It does not model what happens when the product computed at src/main.rs:57 overflows, a platform limit.
- Transcoder.RgbaImage: the buffer is one `Rgba` value per pixel. The image library stores four bytes per pixel in a `Vec<u8>`, and that byte-level layout is not modelled.
- Transcoder.UnpackImage: requires the decoded 16-bit image to hold one sample per pixel. The image library guarantees this for every image it decodes.
- Transcoder.UnpackImage: the pixel data of formats other than 16-bit single-channel is not modelled. Those images are refused before any pixel is read, so only their format and dimensions matter.
- The reading of `>>`, `&` and `|` on `u16` as division, remainder and sum is not proved against bit-vector operations. It is the standard arithmetic meaning of these operators on unsigned values whose fields do not overlap, and relating Dafny's bit-vectors to integers costs more solver effort than the rest of the model.
