/**
 * The transparent-border trim: a row-major scan that keeps the running
 * extrema `top`, `left`, `right` and `bottom` of the pixels with non-zero
 * alpha, then a copy of the rectangle they span into a fresh buffer.
 * Decoding the image and encoding the result are left to the caller.
 */
module Trim {
  import opened Wrappers
  import opened Raster

  /**
   * The four running extrema read as a box, as the size computation and the
   * copy read them: JavaScript reads an extremum still `null` as 0, so
   * extrema still unset make the 1x1 box at the origin.
   */
  function Extent(top: Option<nat>, left: Option<nat>, right: Option<nat>, bottom: Option<nat>): (b: Box)
    ensures top.None? && left.None? && right.None? && bottom.None? ==> b == Box(0, 0, 0, 0)
    ensures top.Some? && left.Some? && right.Some? && bottom.Some? ==>
      b == Box(top.value, left.value, right.value, bottom.value)
  {
    Box(if top.None? then 0 else top.value, if left.None? then 0 else left.value,
        if right.None? then 0 else right.value, if bottom.None? then 0 else bottom.value)
  }

  /** Pixel (px, py) is visited before position (x, y) in row-major order. */
  ghost predicate Visited(x: nat, y: nat, px: nat, py: nat)
  {
    py < y || (py == y && px < x)
  }

  /** No pixel visited before (x, y) has non-zero alpha. */
  ghost predicate NoneSeen(data: seq<bv8>, width: nat, height: nat, x: nat, y: nat)
    requires IsBuffer(data, width, height)
  {
    forall px: nat, py: nat :: px < width && py < height && Visited(x, y, px, py) ==>
      !IsOpaque(data, width, height, px, py)
  }

  /** `b` is the tight box of the non-transparent pixels visited before (x, y). */
  ghost predicate TightSoFar(data: seq<bv8>, width: nat, height: nat, x: nat, y: nat, b: Box)
    requires IsBuffer(data, width, height)
  {
    && b.Within(width, height)
    && b.bottom <= y
    && (forall px: nat, py: nat ::
          px < width && py < height && Visited(x, y, px, py) && IsOpaque(data, width, height, px, py)
          ==> b.Contains(px, py))
    && (exists px: nat :: px < width && Visited(x, y, px, b.top) && IsOpaque(data, width, height, px, b.top))
    && (exists px: nat :: px < width && Visited(x, y, px, b.bottom) && IsOpaque(data, width, height, px, b.bottom))
    && (exists py: nat :: py < height && Visited(x, y, b.left, py) && IsOpaque(data, width, height, b.left, py))
    && (exists py: nat :: py < height && Visited(x, y, b.right, py) && IsOpaque(data, width, height, b.right, py))
  }

  /** Passing a transparent pixel changes nothing. */
  lemma StepTransparent(data: seq<bv8>, width: nat, height: nat, x: nat, y: nat, b: Box)
    requires IsBuffer(data, width, height) && x < width && y < height
    requires !IsOpaque(data, width, height, x, y)
    ensures NoneSeen(data, width, height, x, y) ==> NoneSeen(data, width, height, x + 1, y)
    ensures TightSoFar(data, width, height, x, y, b) ==> TightSoFar(data, width, height, x + 1, y, b)
  {
    if TightSoFar(data, width, height, x, y, b) {
      var x1: nat :| x1 < width && Visited(x, y, x1, b.top) && IsOpaque(data, width, height, x1, b.top);
      assert Visited(x + 1, y, x1, b.top);
      var x2: nat :| x2 < width && Visited(x, y, x2, b.bottom) && IsOpaque(data, width, height, x2, b.bottom);
      assert Visited(x + 1, y, x2, b.bottom);
      var y1: nat :| y1 < height && Visited(x, y, b.left, y1) && IsOpaque(data, width, height, b.left, y1);
      assert Visited(x + 1, y, b.left, y1);
      var y2: nat :| y2 < height && Visited(x, y, b.right, y2) && IsOpaque(data, width, height, b.right, y2);
      assert Visited(x + 1, y, b.right, y2);
    }
  }

  /** The first pixel with non-zero alpha is the whole box so far. */
  lemma StepFirst(data: seq<bv8>, width: nat, height: nat, x: nat, y: nat)
    requires IsBuffer(data, width, height) && x < width && y < height
    requires IsOpaque(data, width, height, x, y) && NoneSeen(data, width, height, x, y)
    ensures TightSoFar(data, width, height, x + 1, y, Box(y, x, x, y))
  {
    assert Visited(x + 1, y, x, y);
  }

  /** A further pixel with non-zero alpha widens the box to reach it and moves its bottom to its row. */
  lemma StepExtend(data: seq<bv8>, width: nat, height: nat, x: nat, y: nat, b: Box)
    requires IsBuffer(data, width, height) && x < width && y < height
    requires IsOpaque(data, width, height, x, y) && TightSoFar(data, width, height, x, y, b)
    ensures TightSoFar(data, width, height, x + 1, y,
                       Box(b.top, if x < b.left then x else b.left, if x > b.right then x else b.right, y))
  {
    var b' := Box(b.top, if x < b.left then x else b.left, if x > b.right then x else b.right, y);
    assert Visited(x + 1, y, x, y);
    var x1: nat :| x1 < width && Visited(x, y, x1, b.top) && IsOpaque(data, width, height, x1, b.top);
    assert Visited(x + 1, y, x1, b.top);
    var y1: nat :| y1 < height && Visited(x, y, b.left, y1) && IsOpaque(data, width, height, b.left, y1);
    assert Visited(x + 1, y, b.left, y1);
    var y2: nat :| y2 < height && Visited(x, y, b.right, y2) && IsOpaque(data, width, height, b.right, y2);
    assert Visited(x + 1, y, b.right, y2);
    forall px: nat, py: nat |
      px < width && py < height && Visited(x + 1, y, px, py) && IsOpaque(data, width, height, px, py)
      ensures b'.Contains(px, py)
    {
      if Visited(x, y, px, py) {
        assert b.Contains(px, py);
      }
    }
  }

  /** Finishing a row is the same as standing at the start of the next one. */
  lemma RowDone(data: seq<bv8>, width: nat, height: nat, y: nat, b: Box)
    requires IsBuffer(data, width, height)
    ensures NoneSeen(data, width, height, width, y) ==> NoneSeen(data, width, height, 0, y + 1)
    ensures TightSoFar(data, width, height, width, y, b) ==> TightSoFar(data, width, height, 0, y + 1, b)
  {
    if TightSoFar(data, width, height, width, y, b) {
      var x1: nat :| x1 < width && Visited(width, y, x1, b.top) && IsOpaque(data, width, height, x1, b.top);
      assert Visited(0, y + 1, x1, b.top);
      var x2: nat :| x2 < width && Visited(width, y, x2, b.bottom) && IsOpaque(data, width, height, x2, b.bottom);
      assert Visited(0, y + 1, x2, b.bottom);
      var y1: nat :| y1 < height && Visited(width, y, b.left, y1) && IsOpaque(data, width, height, b.left, y1);
      assert Visited(0, y + 1, b.left, y1);
      var y2: nat :| y2 < height && Visited(width, y, b.right, y2) && IsOpaque(data, width, height, b.right, y2);
      assert Visited(0, y + 1, b.right, y2);
    }
  }

  /**
   * The state of the scan at position (x, y): the four extrema are all unset
   * while no visited pixel has non-zero alpha, and otherwise all set to the
   * tight box of the visited ones.
   */
  ghost predicate ScanState(data: seq<bv8>, width: nat, height: nat, x: nat, y: nat,
                            top: Option<nat>, left: Option<nat>, right: Option<nat>, bottom: Option<nat>)
    requires IsBuffer(data, width, height)
  {
    if top.None? then
      left.None? && right.None? && bottom.None? && NoneSeen(data, width, height, x, y)
    else
      && left.Some? && right.Some? && bottom.Some?
      && TightSoFar(data, width, height, x, y, Box(top.value, left.value, right.value, bottom.value))
  }

  /** Visiting pixel (x, y) as the loop body does keeps the scan state. */
  lemma ScanStep(data: seq<bv8>, width: nat, height: nat, x: nat, y: nat,
                 top: Option<nat>, left: Option<nat>, right: Option<nat>, bottom: Option<nat>,
                 top': Option<nat>, left': Option<nat>, right': Option<nat>, bottom': Option<nat>)
    requires IsBuffer(data, width, height) && x < width && y < height
    requires ScanState(data, width, height, x, y, top, left, right, bottom)
    requires IsOpaque(data, width, height, x, y) ==>
      && top' == (if top.None? then Some(y) else top)
      && left' == (if left.None? || x < left.value then Some(x) else left)
      && right' == (if right.None? || x > right.value then Some(x) else right)
      && bottom' == Some(y)
    requires !IsOpaque(data, width, height, x, y) ==>
      top' == top && left' == left && right' == right && bottom' == bottom
    ensures ScanState(data, width, height, x + 1, y, top', left', right', bottom')
  {
    var b := Extent(top, left, right, bottom);
    if !IsOpaque(data, width, height, x, y) {
      StepTransparent(data, width, height, x, y, b);
    } else if top.None? {
      StepFirst(data, width, height, x, y);
    } else {
      StepExtend(data, width, height, x, y, b);
    }
  }

  /** Finishing a row keeps the scan state at the start of the next one; finishing all rows gives the answer. */
  lemma ScanRowDone(data: seq<bv8>, width: nat, height: nat, y: nat,
                    top: Option<nat>, left: Option<nat>, right: Option<nat>, bottom: Option<nat>)
    requires IsBuffer(data, width, height)
    requires ScanState(data, width, height, width, y, top, left, right, bottom)
    ensures ScanState(data, width, height, 0, y + 1, top, left, right, bottom)
  {
    RowDone(data, width, height, y, Extent(top, left, right, bottom));
  }

  /** Once every row is visited, the scan state answers for the whole image. */
  lemma ScanDone(data: seq<bv8>, width: nat, height: nat,
                 top: Option<nat>, left: Option<nat>, right: Option<nat>, bottom: Option<nat>)
    requires IsBuffer(data, width, height)
    requires ScanState(data, width, height, 0, height, top, left, right, bottom)
    ensures top.None? <==> !HasOpaque(data, width, height)
    ensures top.Some? ==> IsTightBox(data, width, height, Extent(top, left, right, bottom))
  {
    if top.Some? {
      TightBoxNeedsOpaque(data, width, height, Extent(top, left, right, bottom));
    }
  }

  /**
   * The inner loop over row y: reads the alpha byte of each pixel (x, y) at
   * `(y * width + x) * 4 + 3` and, when it is non-zero, sets `top` if it is
   * unset, lowers `left` or raises `right` to x when x lies beyond them, and
   * sets `bottom` to y.
   */
  method ScanRow(data: array<bv8>, width: nat, height: nat, y: nat,
                 top: Option<nat>, left: Option<nat>, right: Option<nat>, bottom: Option<nat>)
    returns (top': Option<nat>, left': Option<nat>, right': Option<nat>, bottom': Option<nat>)
    requires IsBuffer(data[..], width, height) && y < height
    requires ScanState(data[..], width, height, 0, y, top, left, right, bottom)
    ensures ScanState(data[..], width, height, 0, y + 1, top', left', right', bottom')
  {
    top', left', right', bottom' := top, left, right, bottom;
    var x := 0;
    while x < width
      invariant x <= width
      invariant ScanState(data[..], width, height, x, y, top', left', right', bottom')
    {
      PixelInBounds(width, height, x, y);
      SourceLayout(data[..], width, height, x, y);
      var index := (y * width + x) * 4;
      var alpha := data[index + 3];
      ghost var top0, left0, right0, bottom0 := top', left', right', bottom';
      if alpha > 0 {
        if top' == None { top' := Some(y); }
        if left' == None || x < left'.value { left' := Some(x); }
        if right' == None || x > right'.value { right' := Some(x); }
        bottom' := Some(y);
      }
      ScanStep(data[..], width, height, x, y, top0, left0, right0, bottom0, top', left', right', bottom');
      x := x + 1;
    }
    ScanRowDone(data[..], width, height, y, top', left', right', bottom');
  }

  /**
   * The bounding-box scan: the outer loop over the rows, in increasing order.
   * It keeps the smallest and largest row and column of the pixels whose
   * alpha is non-zero and reports `None` when there is no such pixel, where
   * the running extrema are never set. The buffer is only read.
   */
  method ScanBounds(data: array<bv8>, width: nat, height: nat) returns (r: Option<Box>)
    requires IsBuffer(data[..], width, height)
    ensures r.None? <==> !HasOpaque(data[..], width, height)
    ensures r.Some? ==> IsTightBox(data[..], width, height, r.value)
    ensures r.Some? ==> 1 <= r.value.Width() <= width && 1 <= r.value.Height() <= height
  {
    var top: Option<nat>, left: Option<nat>, right: Option<nat>, bottom: Option<nat> := None, None, None, None;
    var y := 0;
    while y < height
      invariant y <= height
      invariant ScanState(data[..], width, height, 0, y, top, left, right, bottom)
    {
      top, left, right, bottom := ScanRow(data, width, height, y, top, left, right, bottom);
      y := y + 1;
    }
    ScanDone(data[..], width, height, top, left, right, bottom);
    if top == None {
      r := None;
    } else {
      r := Some(Extent(top, left, right, bottom));
    }
  }

  /**
   * Copies row j of the box, `4 * b.Width()` bytes, into row j of `out`,
   * leaving every other byte of `out` as it was.
   */
  method CopyRow(data: array<bv8>, width: nat, height: nat, b: Box, out: array<bv8>, j: nat)
    requires IsBuffer(data[..], width, height) && b.Within(width, height) && j < b.Height()
    requires out != data && out.Length == RowStart(b.Width(), b.Height())
    modifies out
    ensures RowStart(b.Width(), j + 1) <= out.Length
    ensures out[..RowStart(b.Width(), j)] == old(out[..RowStart(b.Width(), j)])
    ensures out[RowStart(b.Width(), j)..RowStart(b.Width(), j + 1)] == RowBytes(data[..], width, height, b, b.top + j)
    ensures out[RowStart(b.Width(), j + 1)..] == old(out[RowStart(b.Width(), j + 1)..])
  {
    var w := b.Width();
    ghost var row := RowBytes(data[..], width, height, b, b.top + j);
    PixelInBounds(width, height, b.right, b.top + j);
    PixelInBounds(w, b.Height(), 0, j);
    var src := PixelOffset(width, b.left, b.top + j);
    var dst := RowStart(w, j);
    var k := 0;
    while k < 4 * w
      invariant k <= 4 * w
      invariant forall m :: 0 <= m < dst ==> out[m] == old(out[m])
      invariant forall m :: dst <= m < dst + k ==> out[m] == row[m - dst]
      invariant forall m :: dst + 4 * w <= m < out.Length ==> out[m] == old(out[m])
    {
      out[dst + k] := data[src + k];
      k := k + 1;
    }
  }

  /**
   * The copy into the cropped canvas: a fresh buffer of the box's size
   * holding its rows one after another, so that its pixel (i, j) is the
   * source pixel (left + i, top + j), byte for byte (lemma CropAt).
   */
  method CopyRegion(data: array<bv8>, width: nat, height: nat, b: Box) returns (out: array<bv8>)
    requires IsBuffer(data[..], width, height) && b.Within(width, height)
    ensures fresh(out)
    ensures out[..] == Crop(data[..], width, height, b)
  {
    var w, h := b.Width(), b.Height();
    out := new bv8[RowStart(w, h)];
    var j := 0;
    while j < h
      invariant j <= h
      invariant RowStart(w, j) <= out.Length
      invariant out[..RowStart(w, j)] == CropRows(data[..], width, height, b, j)
    {
      CopyRow(data, width, height, b, out, j);
      assert out[..RowStart(w, j + 1)] == out[..RowStart(w, j)] + out[RowStart(w, j)..RowStart(w, j + 1)];
      j := j + 1;
    }
  }

  /** A trimmed image: the box it was cut to and its pixel buffer. */
  datatype Trimmed = Trimmed(box: Box, pixels: array<bv8>)

  /**
   * The whole trim on a decoded image: scan for the tight box, then copy it
   * out. A fully transparent image has no box and yields `None`.
   */
  method CropTransparentPixels(data: array<bv8>, width: nat, height: nat) returns (r: Option<Trimmed>)
    requires IsBuffer(data[..], width, height)
    ensures r.None? <==> !HasOpaque(data[..], width, height)
    ensures r.Some? ==> IsTightBox(data[..], width, height, r.value.box)
    ensures r.Some? ==> fresh(r.value.pixels) && r.value.pixels[..] == Crop(data[..], width, height, r.value.box)
  {
    var box := ScanBounds(data, width, height);
    if box == None {
      return None;
    }
    var pixels := CopyRegion(data, width, height, box.value);
    r := Some(Trimmed(box.value, pixels));
  }

  /** A row of the tight box that holds a visible pixel still holds one in the crop. */
  lemma CropKeepsRow(data: seq<bv8>, width: nat, height: nat, b: Box, y: nat)
    requires IsBuffer(data, width, height) && IsTightBox(data, width, height, b)
    requires b.top <= y <= b.bottom && RowTouched(data, width, height, y)
    ensures RowTouched(Crop(data, width, height, b), b.Width(), b.Height(), y - b.top)
  {
    var x: nat :| x < width && IsOpaque(data, width, height, x, y);
    assert b.Contains(x, y);
    CropOpaque(data, width, height, b, x - b.left, y - b.top);
  }

  /** A column of the tight box that holds a visible pixel still holds one in the crop. */
  lemma CropKeepsColumn(data: seq<bv8>, width: nat, height: nat, b: Box, x: nat)
    requires IsBuffer(data, width, height) && IsTightBox(data, width, height, b)
    requires b.left <= x <= b.right && ColumnTouched(data, width, height, x)
    ensures ColumnTouched(Crop(data, width, height, b), b.Width(), b.Height(), x - b.left)
  {
    var y: nat :| y < height && IsOpaque(data, width, height, x, y);
    assert b.Contains(x, y);
    CropOpaque(data, width, height, b, x - b.left, y - b.top);
  }

  /** The crop to a tight box has no transparent border left: its own tight box is its full extent. */
  lemma CropIsTight(data: seq<bv8>, width: nat, height: nat, b: Box)
    requires IsBuffer(data, width, height) && IsTightBox(data, width, height, b)
    ensures IsTightBox(Crop(data, width, height, b), b.Width(), b.Height(), FullBox(b.Width(), b.Height()))
  {
    var c, w, h := Crop(data, width, height, b), b.Width(), b.Height();
    FullBoxEncloses(c, w, h);
    CropKeepsRow(data, width, height, b, b.top);
    CropKeepsRow(data, width, height, b, b.bottom);
    CropKeepsColumn(data, width, height, b, b.left);
    CropKeepsColumn(data, width, height, b, b.right);
  }

  /**
   * Trimming is idempotent: the trimmed image still has content, its only
   * tight box is its full extent, and copying that extent gives it back.
   */
  lemma TrimIdempotent(data: seq<bv8>, width: nat, height: nat, b: Box)
    requires IsBuffer(data, width, height) && IsTightBox(data, width, height, b)
    ensures var c := Crop(data, width, height, b);
      && HasOpaque(c, b.Width(), b.Height())
      && (forall b': Box :: IsTightBox(c, b.Width(), b.Height(), b') <==> b' == FullBox(b.Width(), b.Height()))
      && Crop(c, b.Width(), b.Height(), FullBox(b.Width(), b.Height())) == c
  {
    var c, w, h := Crop(data, width, height, b), b.Width(), b.Height();
    CropIsTight(data, width, height, b);
    TightBoxNeedsOpaque(c, w, h, FullBox(w, h));
    forall b': Box | IsTightBox(c, w, h, b')
      ensures b' == FullBox(w, h)
    {
      TightBoxUnique(c, w, h, b', FullBox(w, h));
    }
    CropFull(c, w, h);
  }

  /** Trimming twice gives the same pixels as trimming once, the second time over the whole extent. */
  method TrimTwice(data: array<bv8>, width: nat, height: nat) returns (once: Option<Trimmed>, twice: Option<Trimmed>)
    requires IsBuffer(data[..], width, height)
    ensures once.None? <==> !HasOpaque(data[..], width, height)
    ensures once.Some? ==> IsTightBox(data[..], width, height, once.value.box)
    ensures once.Some? ==> twice.Some? && twice.value.pixels[..] == once.value.pixels[..]
    ensures once.Some? ==> twice.value.box == FullBox(once.value.box.Width(), once.value.box.Height())
  {
    once := CropTransparentPixels(data, width, height);
    twice := None;
    if once.Some? {
      var b := once.value.box;
      TrimIdempotent(data[..], width, height, b);
      twice := CropTransparentPixels(once.value.pixels, b.Width(), b.Height());
    }
  }

  /** Each border row and column of the image holds a pixel of non-zero alpha. */
  ghost predicate BordersTouched(data: seq<bv8>, width: nat, height: nat)
    requires IsBuffer(data, width, height) && width > 0 && height > 0
  {
    && RowTouched(data, width, height, 0)
    && RowTouched(data, width, height, height - 1)
    && ColumnTouched(data, width, height, 0)
    && ColumnTouched(data, width, height, width - 1)
  }

  /**
   * The full extent is the tight box exactly when every border row and column
   * holds a non-transparent pixel, and such an image is copied unchanged.
   */
  lemma NoBorderUnchanged(data: seq<bv8>, width: nat, height: nat)
    requires IsBuffer(data, width, height) && width > 0 && height > 0
    ensures IsTightBox(data, width, height, FullBox(width, height)) <==> BordersTouched(data, width, height)
    ensures BordersTouched(data, width, height) ==> Crop(data, width, height, FullBox(width, height)) == data
  {
    CropFull(data, width, height);
  }

  /**
   * The routine on an image with content on every border row and column
   * keeps the whole extent and returns the same pixels.
   */
  method BorderTouchedUnchanged(data: array<bv8>, width: nat, height: nat) returns (r: Option<Trimmed>)
    requires IsBuffer(data[..], width, height) && width > 0 && height > 0
    requires BordersTouched(data[..], width, height)
    ensures r.Some? && r.value.box == FullBox(width, height) && r.value.pixels[..] == data[..]
  {
    r := CropTransparentPixels(data, width, height);
    NoBorderUnchanged(data[..], width, height);
    TightBoxNeedsOpaque(data[..], width, height, FullBox(width, height));
    TightBoxUnique(data[..], width, height, r.value.box, FullBox(width, height));
  }
}
