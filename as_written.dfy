/**
 * What the source does with an image that has no pixel of non-zero alpha.
 * Its scan leaves the four extrema `null`, and the copy reads them as 0,
 * so it returns the 1x1 image holding pixel (0, 0). `Trim` returns
 * `None` for such an image instead; this module proves what the source
 * computes in its place.
 */
module AsWritten {
  import opened Wrappers
  import opened Raster
  import opened Trim

  /** The 1x1 box at the origin crops to the first four bytes of the buffer. */
  lemma CropFirstPixel(data: seq<bv8>, width: nat, height: nat)
    requires IsBuffer(data, width, height) && width > 0 && height > 0
    ensures Box(0, 0, 0, 0).Within(width, height)
    ensures Crop(data, width, height, Box(0, 0, 0, 0)) == data[..4]
  {
    PixelInBounds(width, height, 0, 0);
    assert RowBytes(data, width, height, Box(0, 0, 0, 0), 0) == data[0..4];
  }

  /** The first four bytes of the buffer, read as a 1x1 image, are visible exactly when pixel (0, 0) is. */
  lemma FirstPixelOpaque(data: seq<bv8>, width: nat, height: nat)
    requires IsBuffer(data, width, height) && width > 0 && height > 0
    ensures 4 <= |data|
    ensures IsOpaque(data[..4], 1, 1, 0, 0) <==> IsOpaque(data, width, height, 0, 0)
  {
    PixelInBounds(width, height, 0, 0);
    assert RowStart(width, 0) == 0 && RowStart(1, 0) == 0 && RowStart(1, 1) == 4;
    assert Alpha(data, width, height, 0, 0) == data[3];
    assert Alpha(data[..4], 1, 1, 0, 0) == data[3];
  }

  /** The 1x1 crop at the origin holds pixel (0, 0) and is visible exactly when that pixel is. */
  lemma OriginCrop(data: seq<bv8>, width: nat, height: nat)
    requires IsBuffer(data, width, height) && width > 0 && height > 0
    ensures Box(0, 0, 0, 0).Within(width, height)
    ensures Crop(data, width, height, Box(0, 0, 0, 0)) == data[..4]
    ensures IsOpaque(data[..4], 1, 1, 0, 0) <==> IsOpaque(data, width, height, 0, 0)
  {
    PixelInBounds(width, height, 0, 0);
    assert 4 <= |data|;
    CropFirstPixel(data, width, height);
    FirstPixelOpaque(data, width, height);
  }

  /** An image with no pixel of non-zero alpha has no tight box at all. */
  lemma TransparentHasNoTightBox(data: seq<bv8>, width: nat, height: nat)
    requires IsBuffer(data, width, height) && !HasOpaque(data, width, height)
    ensures forall b: Box :: !IsTightBox(data, width, height, b)
  {
    forall b: Box
      ensures !IsTightBox(data, width, height, b)
    {
      if IsTightBox(data, width, height, b) {
        TightBoxNeedsOpaque(data, width, height, b);
      }
    }
  }

  /**
   * The source as written does not check for a fully transparent image: it
   * reads the four extrema while they are still `null`, which JavaScript
   * turns into 0 (`Extent(None, None, None, None)` is the box at the origin),
   * so it crops a 1x1 image holding the transparent pixel (0, 0), where no
   * box fits the content because there is none.
   */
  lemma TransparentImageAsWritten(data: seq<bv8>, width: nat, height: nat)
    requires IsBuffer(data, width, height) && width > 0 && height > 0
    requires !HasOpaque(data, width, height)
    ensures Box(0, 0, 0, 0).Within(width, height)
    ensures Box(0, 0, 0, 0).Width() == 1 && Box(0, 0, 0, 0).Height() == 1
    ensures Crop(data, width, height, Box(0, 0, 0, 0)) == data[..4]
    ensures !IsOpaque(data[..4], 1, 1, 0, 0)
  {
    assert !IsOpaque(data, width, height, 0, 0);
    OriginCrop(data, width, height);
  }

  /**
   * The routine as written, with no check for an image without content: the
   * same scan, then the four extrema read as a box whatever they hold, then
   * the copy. With content it crops to the tight box; without, it copies out
   * the transparent pixel (0, 0).
   */
  method CropAsWritten(data: array<bv8>, width: nat, height: nat) returns (b: Box, out: array<bv8>)
    requires IsBuffer(data[..], width, height) && width > 0 && height > 0
    ensures fresh(out)
    ensures b.Within(width, height)
    ensures out[..] == Crop(data[..], width, height, b)
    ensures HasOpaque(data[..], width, height) ==> IsTightBox(data[..], width, height, b)
    ensures !HasOpaque(data[..], width, height) ==>
      b == Box(0, 0, 0, 0) && out[..] == data[..4] && !IsOpaque(out[..], 1, 1, 0, 0)
  {
    var top: Option<nat>, left: Option<nat>, right: Option<nat>, bottom: Option<nat> := None, None, None, None;
    var y := 0;
    while y < height
      invariant y <= height
      invariant ScanState(data[..], width, height, 0, y, top, left, right, bottom)
    {
      top, left, right, bottom := ScanRow(data, width, height, y, top, left, right, bottom);
      y := y + 1;
    }
    ScanDone(data[..], width, height, top, left, right, bottom);
    b := Extent(top, left, right, bottom);
    if !HasOpaque(data[..], width, height) {
      TransparentImageAsWritten(data[..], width, height);
    }
    out := CopyRegion(data, width, height, b);
  }
}
