# Pokemon card: sprite trim and type colours

This project models the two pieces of logic in the random-Pokemon card.

**Sprite trim (`cropTransparentPixels`).** It loads a sprite, reads its
pixels as a row-major RGBA byte buffer and scans every pixel in order. It
keeps the running extrema `top`, `left`, `right` and `bottom` of the pixels
whose alpha byte is non-zero. It then copies the rectangle they span onto a
canvas of that rectangle's size. A pixel counts as content as soon as its
alpha is above zero, however faint.

**Type colours (`getTypeStyles`).** It looks up the first one or two type names in a fixed
table of 18 background and border colours. A single type gives plain
colours. Two or more types give a 135-degree gradient split halfway between
the first two types' colours, for both the background and the border image.

The model is organised in four modules plus an `Option` datatype:

- `Raster` (`raster.dfy`) is the reference definition of the trim. It
  defines:
  - the buffer layout;
  - the alpha of a pixel;
  - the *tight box* of the content: inside the image, enclosing every
    pixel of non-zero alpha, each edge touching one;
  - `Crop`, the sub-rectangle as a buffer of its own, row by row.
- `Trim` (`trim.dfy`) holds the routine itself as imperative code over an
  `array<bv8>` that it only reads:
  - the row-major scan, with the inner loop over one row in a method of
    its own (`ScanRow`) and the outer loop in `ScanBounds`;
  - `Extent`, which reads the running extrema as a box the way JavaScript
    does, turning a `null` extremum into 0;
  - the copy of the rectangle, one row at a time (`CopyRow`, `CopyRegion`);
  - `CropTransparentPixels`, which chains the two.
  Each method is proved against the `Raster` definitions.
- `AsWritten` (`as_written.dfy`) holds the routine as written
  (`CropAsWritten`), which has no check for an image without content. It
  states what that routine produces for such an image (see Findings).
- `TypeStyles` (`typestyles.dfy`) holds the colour table, the style
  function, the gradient builder `LinearGradient` and `GradientColours`,
  which reads the two colours back out of a gradient string. Reading a
  gradient back recovers the two colours it was built from.

## Model

| member | source | states |
|---|---|---|
| Raster.SourceLayout | src/Components/PokemonCard.jsx:41-42 | pixel (x, y) starts at byte `(y * width + x) * 4` of the layout the model uses, and a buffer holds the image exactly when it has `4 * width * height` bytes |
| Raster.PixelInBounds | src/Components/PokemonCard.jsx:39-42 | for every pixel inside the image, all four bytes lie in the buffer and within the pixel's own row, so reading the alpha at `index + 3` never leaves the buffer |
| Raster.FullBox | src/Components/PokemonCard.jsx:27-31 | the whole canvas as a box: it lies inside the image, has the image's width and height, and contains exactly the image's pixels |
| Raster.TightBoxUnique | src/Components/PokemonCard.jsx:44-54 | an image has at most one tight box: two boxes that both enclose all content and touch it on every edge are equal |
| Raster.TightBoxNeedsOpaque | src/Components/PokemonCard.jsx:44-49 | a tight box exists only when some pixel has non-zero alpha |
| Raster.OnlyAlphaDecides | src/Components/PokemonCard.jsx:42-44 | two images with the same alpha bytes have the same content and the same tight boxes; the colour bytes play no part in the scan |
| Raster.RowBytesAt | src/Components/PokemonCard.jsx:61-71 | byte c of pixel i of a row cut to the box is byte c of pixel `left + i` of the same image row |
| Raster.CropRow | src/Components/PokemonCard.jsx:61-71 | row j of the copied rectangle is row `top + j` of the image, cut to columns `left` to `right` |
| Raster.CropAt | src/Components/PokemonCard.jsx:61-71 | byte c of pixel (i, j) of the copy is byte c of source pixel (`left + i`, `top + j`), with both indices inside their buffers |
| Raster.CropOpaque | src/Components/PokemonCard.jsx:61-71 | a pixel of the copy has non-zero alpha exactly when its source pixel does |
| Raster.CropFull | src/Components/PokemonCard.jsx:61-71 | copying the whole extent gives back the image unchanged |
| Trim.Extent | src/Components/PokemonCard.jsx:53-71 | the box the size computation and the copy read from the four extrema: the 1x1 box at the origin when all four are still `null`, and exactly the four values when all are set |
| Trim.ScanStep | src/Components/PokemonCard.jsx:44-49 | one visit of the loop body keeps the scan state: either the extrema are all unset and no visited pixel has content, or they are all set to the tight box of the visited pixels |
| Trim.ScanDone | src/Components/PokemonCard.jsx:39-54 | after the last row, `top` is unset exactly when the image has no content, and otherwise the four extrema form its tight box |
| Trim.ScanRow | src/Components/PokemonCard.jsx:40-50 | the inner loop over row y carries the scan state from the start of row y to the start of row y + 1 |
| Trim.ScanBounds | src/Components/PokemonCard.jsx:34-54 | the scan yields no box exactly when no pixel has non-zero alpha; otherwise it yields the tight box, whose width `right - left + 1` and height `bottom - top + 1` lie between 1 and the image's own |
| Trim.CopyRow | src/Components/PokemonCard.jsx:61-71 | copies row j of the rectangle into row j of the output and leaves every other output byte as it was |
| Trim.CopyRegion | src/Components/PokemonCard.jsx:56-71 | the new canvas is a fresh buffer of the rectangle's size whose bytes are the crop of the source |
| Trim.CropTransparentPixels | src/Components/PokemonCard.jsx:18-76 | the result is absent exactly when the image has no content; otherwise its box is the tight box and its pixels are a fresh buffer equal to the crop to that box |
| Trim.CropKeepsRow | src/Components/PokemonCard.jsx:53-71 | a row of the tight box that holds content still holds content in the copy |
| Trim.CropKeepsColumn | src/Components/PokemonCard.jsx:53-71 | a column of the tight box that holds content still holds content in the copy |
| Trim.CropIsTight | src/Components/PokemonCard.jsx:34-71 | the copy has no transparent border left: its own tight box is its whole extent |
| Trim.TrimIdempotent | src/Components/PokemonCard.jsx:18-76 | trimming is idempotent: the trimmed image has content, its only tight box is its full extent, and copying that extent returns it unchanged |
| Trim.TrimTwice | src/Components/PokemonCard.jsx:18-76 | running the routine on its own output succeeds, keeps the whole extent and returns the same pixels |
| Trim.NoBorderUnchanged | src/Components/PokemonCard.jsx:34-71 | the whole extent is the tight box exactly when the first and last row and column each hold content, and such an image is copied unchanged |
| Trim.BorderTouchedUnchanged | src/Components/PokemonCard.jsx:18-76 | the routine run on an image whose first and last row and column each hold content keeps the whole extent as its box and returns exactly the same pixels |
| AsWritten.CropFirstPixel | src/Components/PokemonCard.jsx:53-71 | the 1x1 box at the origin lies in any non-empty image and copies out the first four bytes of the buffer |
| AsWritten.FirstPixelOpaque | src/Components/PokemonCard.jsx:42-44 | those four bytes, read as a 1x1 image, have content exactly when pixel (0, 0) does |
| AsWritten.OriginCrop | src/Components/PokemonCard.jsx:53-71 | the 1x1 copy at the origin is the first four bytes of the buffer, with content exactly when pixel (0, 0) has it |
| AsWritten.TransparentHasNoTightBox | src/Components/PokemonCard.jsx:34-54 | an image without content has no tight box at all |
| AsWritten.TransparentImageAsWritten | src/Components/PokemonCard.jsx:53-71 | for a non-empty image without content, the 1x1 box at the origin lies in the image, and copying it gives the first four bytes of the buffer: pixel (0, 0), whose alpha is 0 |
| AsWritten.CropAsWritten | src/Components/PokemonCard.jsx:34-71 | the routine as written, with no check for an image without content: the scan, the extrema read as a box, and the copy. It returns a fresh buffer equal to the crop to a box inside the image. With content that box is the tight box; without content it is the 1x1 box at the origin, and the result is the transparent pixel (0, 0) |
| TypeStyles.TableColourCodes | src/Components/PokemonCard.jsx:78-97 | every background and border colour in the table is a seven-character code |
| TypeStyles.LinearGradient | src/Components/PokemonCard.jsx:107-108 | reading the two colours back out of the split gradient built from two colour codes gives exactly those colours, in order |
| TypeStyles.GradientColoursExact | src/Components/PokemonCard.jsx:107-108 | any string the colours are read back from is exactly the gradient between them |
| TypeStyles.GradientInjective | src/Components/PokemonCard.jsx:107-108 | different pairs of colour codes give different gradients |
| TypeStyles.GetTypeStyles | src/Components/PokemonCard.jsx:99-117 | a style exists exactly when the first type, and the second when there are two or more, are in the table. A single type gives plain colours equal to its table entry; two or more give a gradient with border style `solid` and width `4px` |
| TypeStyles.DualTypeColours | src/Components/PokemonCard.jsx:103-115 | with two or more types, the background reads back as the first two types' backgrounds and the border image as their borders, first type first, followed by the slice ` 1` |
| TypeStyles.OnlyFirstTwoTypes | src/Components/PokemonCard.jsx:99-117 | types after the second change nothing in the style |

## Left out

- Fetching the Pokemon record (`fetchPokemonData`, lines 3-16) is network I/O. It is not modelled, and neither is its logging on failure.
- Loading the sprite is not modelled: the `Image`, its `onload` callback, the canvases and the `drawImage` onto the first canvas. The model starts from the pixel buffer that `getImageData` returns, given as an array with its width and height.
- The browser decodes the image before `getImageData` returns it. Any rounding of colour channels from premultiplied alpha happens there and is outside the model. The model copies bytes exactly, which is what `drawImage` does at the same scale.
- Encoding the result with `toDataURL` (line 73) is not modelled. The model returns the box and the cropped pixel buffer instead of a PNG data URL.
- An image that never loads leaves the promise pending forever. The model has no such case.
- The React component is not modelled: the random id from `Math.random` (line 123), the state and effect hooks, the rendering, and the race between overlapping loads. The page shell in `src/App.jsx` is not modelled either.
- Trim.CropTransparentPixels: for an image of zero width or height it returns `None`. In the source, reading the pixels of an empty canvas throws first.
- TypeStyles.GetTypeStyles: the source looks type names up in a plain object, so names of inherited object properties (`constructor`, `toString`, ...) find a value there and give `undefined` colours instead of throwing. The model treats them as missing and returns `None`.
- TypeStyles.GetTypeStyles: a thrown `TypeError` is modelled as `None`, without its message.
- TypeStyles.IsColourCode: checks only the length of a colour code, not that its characters are hex digits. Reading a gradient back relies on nothing more.

## Findings

| source | as written | input that shows it | evidently intended | confidence | as-written member | corrected member |
|---|---|---|---|---|---|---|
| src/Components/PokemonCard.jsx:34-71 | when no pixel has non-zero alpha, the four extrema stay `null`. `right - left + 1` and `bottom - top + 1` read them as 0, so the routine copies a 1x1 image made of the transparent pixel (0, 0) | a 1x1 image whose four bytes are all 0, or any image whose alpha bytes are all 0 | report that there is nothing to trim, since such an image has no bounding box of content | not executed; follows from JavaScript turning `null` into 0 in arithmetic | AsWritten.CropAsWritten | Trim.CropTransparentPixels |
