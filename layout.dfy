/**
 Row-major layout of a width x height image in a flat buffer: pixel (x, y)
 lives at position `y * width + x`. Both the packed `Vec<u16>` and the RGBA
 output buffer use it.
 */
module Layout {
  import opened Arithmetic

  /** The largest value of Rust's `u32`, in which the tool computes positions. */
  const U32_MAX: nat := 0xFFFF_FFFF

  /** Position of column x, row y in a buffer `width` pixels wide. */
  function Index(x: nat, y: nat, width: nat): (k: nat)
    // a pixel inside the row lies in row y's stretch of the buffer, which
    // starts at y * width and holds width entries
    ensures x < width ==> y * width <= k < y * width + width
  {
    y * width + x
  }

  /** Every pixel of the grid has a position inside the buffer of
      `width * height` entries. */
  lemma IndexInBounds(x: nat, y: nat, width: nat, height: nat)
    requires x < width && y < height
    ensures Index(x, y, width) < width * height
  {
    calc {
      Index(x, y, width);
      <  y * width + width;
      == (y + 1) * width;
      <= { MulMonotone(y + 1, height, width); } height * width;
    }
  }

  /** The same for all pixels at once. */
  lemma AllIndicesInBounds(width: nat, height: nat)
    ensures forall x: nat, y: nat :: x < width && y < height ==> Index(x, y, width) < width * height
  {
    forall x: nat, y: nat | x < width && y < height
      ensures Index(x, y, width) < width * height
    {
      IndexInBounds(x, y, width, height);
    }
  }

  /** Position and pixel determine each other: division and remainder by
      the width recover the row and the column. */
  lemma IndexInverse(x: nat, y: nat, width: nat)
    requires x < width
    ensures Index(x, y, width) / width == y
    ensures Index(x, y, width) % width == x
  {
    DivModUnique(Index(x, y, width), width, y, x);
  }

  /** Two pixels of the grid never share a position. */
  lemma IndexInjective(x1: nat, y1: nat, x2: nat, y2: nat, width: nat)
    requires x1 < width && x2 < width
    requires Index(x1, y1, width) == Index(x2, y2, width)
    ensures x1 == x2 && y1 == y2
  {
    IndexInverse(x1, y1, width);
    IndexInverse(x2, y2, width);
  }

  /** Every position of the buffer belongs to some pixel of the grid. */
  lemma IndexOnto(k: nat, width: nat, height: nat)
    requires k < width * height
    ensures width > 0 && k % width < width && k / width < height
    ensures Index(k % width, k / width, width) == k
  {
    if width == 0 {
      assert false;
    }
    if k / width >= height {
      MulMonotone(height, k / width, width);
      assert false;
    }
  }

  /** The column of the pixel stored at position k of a width x height
      buffer: the x that the image's pixel iterator reports with it. */
  function Column(k: nat, width: nat, height: nat): (x: nat)
    requires k < width * height
    ensures x < width
  {
    IndexOnto(k, width, height);
    k % width
  }

  /** The row of the pixel stored at position k, the y that the pixel
      iterator reports with it: together with `Column` it names the one pixel
      whose position is k. */
  function Row(k: nat, width: nat, height: nat): (y: nat)
    requires k < width * height
    ensures y < height
    ensures Index(Column(k, width, height), y, width) == k
  {
    IndexOnto(k, width, height);
    k / width
  }
}
