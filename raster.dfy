/**
 * The decoded image as the canvas hands it out: a flat buffer of
 * `width * height` pixels in row-major order, four bytes per pixel
 * (red, green, blue, alpha). This module states what the trim must
 * compute, independently of how the scan and the copy compute it.
 */
module Raster {

  /** Byte index of the first pixel of row y: every row is `4 * width` bytes long. */
  function RowStart(width: nat, y: nat): nat
  {
    if y == 0 then 0 else RowStart(width, y - 1) + 4 * width
  }

  /** Byte index of the first channel of pixel (x, y). */
  function PixelOffset(width: nat, x: nat, y: nat): nat
  {
    RowStart(width, y) + 4 * x
  }

  /** `data` holds exactly `width * height` RGBA pixels. */
  predicate IsBuffer(data: seq<bv8>, width: nat, height: nat)
  {
    |data| == RowStart(width, height)
  }

  /** Row y starts `4 * width * y` bytes into the buffer. */
  lemma {:induction false} RowStartIsProduct(width: nat, y: nat)
    ensures RowStart(width, y) == 4 * width * y
  {
    if y > 0 {
      RowStartIsProduct(width, y - 1);
    }
  }

  /**
   * The layout the scan reads: pixel (x, y) starts at byte `(y * width + x) * 4`
   * and a buffer of `width * height` pixels has `4 * width * height` bytes.
   */
  lemma SourceLayout(data: seq<bv8>, width: nat, height: nat, x: nat, y: nat)
    ensures PixelOffset(width, x, y) == (y * width + x) * 4
    ensures IsBuffer(data, width, height) <==> |data| == 4 * width * height
  {
    RowStartIsProduct(width, y);
    RowStartIsProduct(width, height);
  }

  /** Rows further down start further into the buffer. */
  lemma {:induction false} RowStartMonotone(width: nat, y: nat, y': nat)
    requires y <= y'
    ensures RowStart(width, y) <= RowStart(width, y')
  {
    if y < y' {
      RowStartMonotone(width, y, y' - 1);
    }
  }

  /** All four bytes of a pixel inside the image lie inside its buffer, within its row. */
  lemma PixelInBounds(width: nat, height: nat, x: nat, y: nat)
    requires x < width && y < height
    ensures PixelOffset(width, x, y) + 4 <= RowStart(width, y + 1) <= RowStart(width, height)
  {
    RowStartMonotone(width, y + 1, height);
  }

  /** The alpha byte of pixel (x, y): its fourth channel. */
  function Alpha(data: seq<bv8>, width: nat, height: nat, x: nat, y: nat): bv8
    requires IsBuffer(data, width, height) && x < width && y < height
  {
    PixelInBounds(width, height, x, y);
    data[PixelOffset(width, x, y) + 3]
  }

  /** A pixel counts as content when its alpha is non-zero, however faint. */
  predicate IsOpaque(data: seq<bv8>, width: nat, height: nat, x: nat, y: nat)
    requires IsBuffer(data, width, height) && x < width && y < height
  {
    Alpha(data, width, height, x, y) > 0
  }

  /** A crop rectangle, with inclusive bounds as the scan keeps them. */
  datatype Box = Box(top: nat, left: nat, right: nat, bottom: nat)
  {
    predicate Within(width: nat, height: nat)
    {
      left <= right < width && top <= bottom < height
    }

    function Width(): nat
      requires left <= right
    {
      right - left + 1
    }

    function Height(): nat
      requires top <= bottom
    {
      bottom - top + 1
    }

    predicate Contains(x: nat, y: nat)
    {
      left <= x <= right && top <= y <= bottom
    }
  }

  /** The whole extent of a non-empty image. */
  function FullBox(width: nat, height: nat): (b: Box)
    requires width > 0 && height > 0
    ensures b.Within(width, height) && b.Width() == width && b.Height() == height
    ensures forall x: nat, y: nat :: x < width && y < height <==> b.Contains(x, y)
  {
    Box(0, 0, width - 1, height - 1)
  }

  /** Some pixel of the image has non-zero alpha. */
  ghost predicate HasOpaque(data: seq<bv8>, width: nat, height: nat)
    requires IsBuffer(data, width, height)
  {
    exists x: nat, y: nat :: x < width && y < height && IsOpaque(data, width, height, x, y)
  }

  /** Every pixel with non-zero alpha lies inside `b`. */
  ghost predicate Encloses(data: seq<bv8>, width: nat, height: nat, b: Box)
    requires IsBuffer(data, width, height)
  {
    forall x: nat, y: nat ::
      x < width && y < height && IsOpaque(data, width, height, x, y) ==> b.Contains(x, y)
  }

  /** Row `y` holds a pixel of non-zero alpha. */
  ghost predicate RowTouched(data: seq<bv8>, width: nat, height: nat, y: nat)
    requires IsBuffer(data, width, height) && y < height
  {
    exists x: nat :: x < width && IsOpaque(data, width, height, x, y)
  }

  /** Column `x` holds a pixel of non-zero alpha. */
  ghost predicate ColumnTouched(data: seq<bv8>, width: nat, height: nat, x: nat)
    requires IsBuffer(data, width, height) && x < width
  {
    exists y: nat :: y < height && IsOpaque(data, width, height, x, y)
  }

  /**
   * `b` is the tight bounding box of the non-transparent pixels: it lies in the
   * image, encloses all of them, and each of its four edges touches one of them.
   */
  ghost predicate IsTightBox(data: seq<bv8>, width: nat, height: nat, b: Box)
    requires IsBuffer(data, width, height)
  {
    && b.Within(width, height)
    && Encloses(data, width, height, b)
    && RowTouched(data, width, height, b.top)
    && RowTouched(data, width, height, b.bottom)
    && ColumnTouched(data, width, height, b.left)
    && ColumnTouched(data, width, height, b.right)
  }

  /** The full extent encloses every pixel. */
  lemma FullBoxEncloses(data: seq<bv8>, width: nat, height: nat)
    requires IsBuffer(data, width, height) && width > 0 && height > 0
    ensures Encloses(data, width, height, FullBox(width, height))
  {
  }

  /** A tight box, when there is one, is unique: it is the minimum and maximum row and column. */
  lemma TightBoxUnique(data: seq<bv8>, width: nat, height: nat, b1: Box, b2: Box)
    requires IsBuffer(data, width, height)
    requires IsTightBox(data, width, height, b1) && IsTightBox(data, width, height, b2)
    ensures b1 == b2
  {
    var x1: nat :| x1 < width && IsOpaque(data, width, height, x1, b1.top);
    var x2: nat :| x2 < width && IsOpaque(data, width, height, x2, b2.top);
    assert b1.top == b2.top by { assert b2.Contains(x1, b1.top) && b1.Contains(x2, b2.top); }
    var x3: nat :| x3 < width && IsOpaque(data, width, height, x3, b1.bottom);
    var x4: nat :| x4 < width && IsOpaque(data, width, height, x4, b2.bottom);
    assert b1.bottom == b2.bottom by { assert b2.Contains(x3, b1.bottom) && b1.Contains(x4, b2.bottom); }
    var y1: nat :| y1 < height && IsOpaque(data, width, height, b1.left, y1);
    var y2: nat :| y2 < height && IsOpaque(data, width, height, b2.left, y2);
    assert b1.left == b2.left by { assert b2.Contains(b1.left, y1) && b1.Contains(b2.left, y2); }
    var y3: nat :| y3 < height && IsOpaque(data, width, height, b1.right, y3);
    var y4: nat :| y4 < height && IsOpaque(data, width, height, b2.right, y4);
    assert b1.right == b2.right by { assert b2.Contains(b1.right, y3) && b1.Contains(b2.right, y4); }
  }

  /** Only an image with a pixel of non-zero alpha has a tight box. */
  lemma TightBoxNeedsOpaque(data: seq<bv8>, width: nat, height: nat, b: Box)
    requires IsBuffer(data, width, height) && IsTightBox(data, width, height, b)
    ensures HasOpaque(data, width, height)
  {
    var x: nat :| x < width && IsOpaque(data, width, height, x, b.top);
    assert b.top < height;
  }

  /** Two buffers whose pixels agree on alpha, whatever their colour bytes. */
  ghost predicate SameAlpha(d1: seq<bv8>, d2: seq<bv8>, width: nat, height: nat)
    requires IsBuffer(d1, width, height) && IsBuffer(d2, width, height)
  {
    forall x: nat, y: nat :: x < width && y < height ==>
      Alpha(d1, width, height, x, y) == Alpha(d2, width, height, x, y)
  }

  /** Only the alpha bytes decide the box: colour bytes never change it. */
  lemma OnlyAlphaDecides(d1: seq<bv8>, d2: seq<bv8>, width: nat, height: nat, b: Box)
    requires IsBuffer(d1, width, height) && IsBuffer(d2, width, height)
    requires SameAlpha(d1, d2, width, height)
    ensures HasOpaque(d1, width, height) <==> HasOpaque(d2, width, height)
    ensures IsTightBox(d1, width, height, b) <==> IsTightBox(d2, width, height, b)
  {
    assert forall x: nat, y: nat :: x < width && y < height ==>
      (IsOpaque(d1, width, height, x, y) <==> IsOpaque(d2, width, height, x, y));
  }

  /** The bytes of row y of the box: a contiguous slice of row y of the image. */
  function RowBytes(data: seq<bv8>, width: nat, height: nat, b: Box, y: nat): (r: seq<bv8>)
    requires IsBuffer(data, width, height) && b.Within(width, height) && y < height
    ensures |r| == 4 * b.Width()
  {
    PixelInBounds(width, height, b.right, y);
    data[PixelOffset(width, b.left, y) .. PixelOffset(width, b.right, y) + 4]
  }

  /** The first `n` rows of the box, one after another. */
  function CropRows(data: seq<bv8>, width: nat, height: nat, b: Box, n: nat): (r: seq<bv8>)
    requires IsBuffer(data, width, height) && b.Within(width, height) && n <= b.Height()
    ensures |r| == RowStart(b.Width(), n)
  {
    if n == 0 then [] else CropRows(data, width, height, b, n - 1) + RowBytes(data, width, height, b, b.top + n - 1)
  }

  /**
   * The sub-rectangle `b` of the image as a buffer of its own, starting at
   * the rectangle's top-left pixel: its rows, one after another.
   */
  function Crop(data: seq<bv8>, width: nat, height: nat, b: Box): (r: seq<bv8>)
    requires IsBuffer(data, width, height) && b.Within(width, height)
    ensures IsBuffer(r, b.Width(), b.Height())
  {
    CropRows(data, width, height, b, b.Height())
  }

  /** Byte `c` of pixel i of a row of the box is byte `c` of pixel left + i of that image row. */
  lemma RowBytesAt(data: seq<bv8>, width: nat, height: nat, b: Box, y: nat, i: nat, c: nat)
    requires IsBuffer(data, width, height) && b.Within(width, height) && y < height
    requires i < b.Width() && c < 4
    ensures PixelOffset(width, b.left + i, y) + c < |data|
    ensures RowBytes(data, width, height, b, y)[4 * i + c] == data[PixelOffset(width, b.left + i, y) + c]
  {
    PixelInBounds(width, height, b.left + i, y);
  }

  /** The first `m` rows of the box are a prefix of its first `n` rows. */
  lemma {:induction false} CropRowsPrefix(data: seq<bv8>, width: nat, height: nat, b: Box, m: nat, n: nat)
    requires IsBuffer(data, width, height) && b.Within(width, height) && m <= n <= b.Height()
    ensures RowStart(b.Width(), m) <= RowStart(b.Width(), n)
    ensures CropRows(data, width, height, b, n)[..RowStart(b.Width(), m)] == CropRows(data, width, height, b, m)
  {
    RowStartMonotone(b.Width(), m, n);
    if m < n {
      CropRowsPrefix(data, width, height, b, m, n - 1);
      var prefix := CropRows(data, width, height, b, n - 1);
      assert CropRows(data, width, height, b, n) == prefix + RowBytes(data, width, height, b, b.top + n - 1);
      RowStartMonotone(b.Width(), m, n - 1);
    }
  }

  /** Row j of the crop is row `top + j` of the image, cut to the box's columns. */
  lemma CropRow(data: seq<bv8>, width: nat, height: nat, b: Box, j: nat)
    requires IsBuffer(data, width, height) && b.Within(width, height) && j < b.Height()
    ensures RowStart(b.Width(), j) <= RowStart(b.Width(), j + 1) <= |Crop(data, width, height, b)|
    ensures Crop(data, width, height, b)[RowStart(b.Width(), j)..RowStart(b.Width(), j + 1)]
         == RowBytes(data, width, height, b, b.top + j)
  {
    CropRowsPrefix(data, width, height, b, j + 1, b.Height());
    assert CropRows(data, width, height, b, j + 1)
        == CropRows(data, width, height, b, j) + RowBytes(data, width, height, b, b.top + j);
  }

  /** Byte `c` of pixel (i, j) of the crop is byte `c` of pixel (left + i, top + j) of the image. */
  lemma CropAt(data: seq<bv8>, width: nat, height: nat, b: Box, i: nat, j: nat, c: nat)
    requires IsBuffer(data, width, height) && b.Within(width, height)
    requires i < b.Width() && j < b.Height() && c < 4
    ensures PixelOffset(width, b.left + i, b.top + j) + c < |data|
    ensures PixelOffset(b.Width(), i, j) + c < |Crop(data, width, height, b)|
    ensures Crop(data, width, height, b)[PixelOffset(b.Width(), i, j) + c]
         == data[PixelOffset(width, b.left + i, b.top + j) + c]
  {
    var w := b.Width();
    CropRow(data, width, height, b, j);
    RowBytesAt(data, width, height, b, b.top + j, i, c);
    var crop := Crop(data, width, height, b);
    assert crop[PixelOffset(w, i, j) + c] == crop[RowStart(w, j)..RowStart(w, j + 1)][4 * i + c];
  }

  /** A pixel of the crop has non-zero alpha exactly when its source pixel does. */
  lemma CropOpaque(data: seq<bv8>, width: nat, height: nat, b: Box, i: nat, j: nat)
    requires IsBuffer(data, width, height) && b.Within(width, height)
    requires i < b.Width() && j < b.Height()
    ensures IsOpaque(Crop(data, width, height, b), b.Width(), b.Height(), i, j)
        <==> IsOpaque(data, width, height, b.left + i, b.top + j)
  {
    CropAt(data, width, height, b, i, j, 3);
  }

  /** Over the whole extent, the first `n` rows are the first `n` rows of the image. */
  lemma {:induction false} CropRowsFull(data: seq<bv8>, width: nat, height: nat, n: nat)
    requires IsBuffer(data, width, height) && width > 0 && height > 0 && n <= height
    ensures RowStart(width, n) <= |data|
    ensures CropRows(data, width, height, FullBox(width, height), n) == data[..RowStart(width, n)]
  {
    RowStartMonotone(width, n, height);
    if n > 0 {
      CropRowsFull(data, width, height, n - 1);
      var start, end := RowStart(width, n - 1), RowStart(width, n);
      assert data[..start] + data[start..end] == data[..end];
    }
  }

  /** Cropping to the whole extent gives back the image unchanged. */
  lemma CropFull(data: seq<bv8>, width: nat, height: nat)
    requires IsBuffer(data, width, height) && width > 0 && height > 0
    ensures Crop(data, width, height, FullBox(width, height)) == data
  {
    CropRowsFull(data, width, height, height);
  }
}
