# photo-ascii: the image-to-ASCII mapping, in Dafny

photo-ascii is a browser tool. It turns an uploaded picture into ASCII art. The
picture is resampled to a grid of `width` columns. Each pixel becomes one
character of a chosen palette, darker pixels taking earlier characters, and
optionally its colour is kept. The result can be copied, downloaded as text, or
re-drawn glyph by glyph into a PNG.

This project models the computational part of `src/components/ascii-converter.tsx`:

- `Palette` (`palette.dfy`): the four palettes of `CHAR_SETS`, and the per-pixel
  brightness and palette index in exact integer arithmetic. The brightness is
  `v = (299 r + 587 g + 114 b) * a` on the scale `Scale = 1000 * 255 * 255`. The
  index is `v * (n - 1) / Scale`, or `(Scale - v) * (n - 1) / Scale` when inverted.
- `Converter` (`converter.dfy`): the row count `Math.round(width * imgH / imgW * 0.45)`
  (rounded half up), the byte offset of each pixel, and the nested loops of
  `generateAscii`. `GenerateAscii`, `MapPixels` (outer loop), `MapRow` (inner loop) and
  `MapPixel` (one pixel) are methods; the loops carry invariants.
  They are proved to produce the newline-terminated text `Layout(GlyphRows(..))`
  and the grid of CSS colours `ColourGrid(..)`. The lemmas then state the shape,
  palette membership, split round trip and colour properties of those two values.
- `Export` (`export.dfy`): the PNG export of `handleDownloadImage` as a method
  with nested loops. It returns the canvas size, the background and the sequence
  of `fillText` calls, or nothing when there is no line to draw. Also here: the
  glyph colour fallback of the PNG and of `renderColoredAscii`, and the
  download file names.
- `Text` (`text.dfy`): JavaScript's `split` on one character, `join`, the text
  layout, and decimal number formatting, with their round-trip lemmas.

The pixel buffer that `getImageData` returns is an input: a `seq<byte>` of
`width * height * 4` bytes. React state is not modelled as such.
`generateAscii` returns the text and colour grid it would store with
`setAscii` and `setColorData`. The export functions take them as arguments.

Three behaviours of the code a reader may not expect:

- Inversion does not exactly mirror the index. Because of the floor, the
  inverted and plain indices of one brightness add up to `n - 1` only on a bin
  boundary. Otherwise they add up to `n - 2` (`Palette.InversionMirror`).
- A transparent pixel is the first palette character (a space) only when not
  inverted. Under inversion it is the last character (`Palette.TransparentGlyph`).
- The plain-text download has no guard against empty text, unlike the PNG export.

## Model

| member | source | states |
|---|---|---|
| `Palette.Chars` | src/components/ascii-converter.tsx:11-16 | every palette has at least two characters, starts with a space and contains no newline |
| `Palette.Luminance` | src/components/ascii-converter.tsx:69 | the weighted sum `0.299 r + 0.587 g + 0.114 b`, scaled by 1000, is at most `255000` |
| `Palette.Brightness` | src/components/ascii-converter.tsx:69 | the alpha-faded brightness lies in `0 .. Scale` and is zero for a transparent pixel |
| `Palette.Index` | src/components/ascii-converter.tsx:70-73 | the palette index is below the palette length, inverted or not |
| `Palette.Glyph` | src/components/ascii-converter.tsx:54-74 | every pixel's character is a member of the selected palette and is not a newline |
| `Palette.TransparentGlyph` | src/components/ascii-converter.tsx:69-73 | a pixel with alpha 0 maps to a space when not inverted and to the last palette character when inverted, whatever its RGB |
| `Palette.IndexMonotone` | src/components/ascii-converter.tsx:70-73 | a larger brightness never gives a smaller index, and under inversion never a larger one |
| `Palette.GlyphMonotone` | src/components/ascii-converter.tsx:69-73 | with alpha fixed, a larger `299 r + 587 g + 114 b` never decreases the index (never increases it when inverted) |
| `Palette.InversionMirror` | src/components/ascii-converter.tsx:70-73 | inverted index plus plain index is `n - 1` exactly when `v (n - 1)` is a multiple of `Scale`, and `n - 2` otherwise |
| `Palette.OpaqueRedIsSemicolon` | src/components/ascii-converter.tsx:69-74 | an opaque pure red pixel on the standard palette is `;` (index 4) |
| `Converter.RowCount` | src/components/ascii-converter.tsx:44-46 | the row count is the nearest integer to `0.45 * width * imgH / imgW`, halves rounded up |
| `Converter.HalfUp` | src/components/ascii-converter.tsx:46 | `(p + u) / (2 u)` is a natural number within half a step of `p / (2 u)`, which is what `Math.round` returns for a non-negative value |
| `Converter.WideImageRows` | src/components/ascii-converter.tsx:44-46 | a 200 by 100 image at 40 columns has 9 rows |
| `Converter.PixelOffset` | src/components/ascii-converter.tsx:63-67 | the offset of pixel `(y, x)` is a multiple of 4, and it and the next three bytes lie inside the `width * height * 4` buffer |
| `Converter.GenerateAscii` | src/components/ascii-converter.tsx:44-79 | with the row count from the aspect ratio, the text is the glyph rows laid out with a newline after each, and the colours are the colour grid |
| `Converter.MapPixels` | src/components/ascii-converter.tsx:56-79 | the outer loop builds exactly `Layout(GlyphRows(..))` (each row followed by one newline) and `ColourGrid(..)` |
| `Converter.MapRow` | src/components/ascii-converter.tsx:60-76 | the inner loop builds exactly row `y` of the glyph rows and row `y` of the colour grid |
| `Converter.MapPixel` | src/components/ascii-converter.tsx:63-75 | one iteration yields the character and the colour text of cell `(y, x)` of the two grids |
| `Converter.CellGlyph` | src/components/ascii-converter.tsx:63-74 | the character of pixel `(y, x)` is a palette character and never a newline |
| `Converter.CellColour` | src/components/ascii-converter.tsx:63-75 | the colour text of pixel `(y, x)` reads back as the raw red, green and blue bytes at that pixel's offset |
| `Converter.GlyphRow` | src/components/ascii-converter.tsx:60-76 | row `y` of characters has `width` entries |
| `Converter.ColourRow` | src/components/ascii-converter.tsx:61-75 | row `y` of colours has `width` entries |
| `Converter.GlyphRows` | src/components/ascii-converter.tsx:59-79 | the character rows are `height` rows of `width` characters each |
| `Converter.ColourGrid` | src/components/ascii-converter.tsx:57-79 | the colour grid is `height` rows of `width` entries each |
| `Converter.GlyphAt` | src/components/ascii-converter.tsx:63-74 | glyph row `y`, column `x` is the palette character at the index computed from the four bytes at that pixel's offset |
| `Converter.ColourAt` | src/components/ascii-converter.tsx:63-75 | colour entry `(y, x)` is `rgb(r,g,b)` of the bytes at that pixel's offset |
| `Converter.RowsOverPalette` | src/components/ascii-converter.tsx:59-76 | every generated row has `width` characters, all from the palette, and no newline |
| `Converter.TextShape` | src/components/ascii-converter.tsx:59-79 | the text has length `height * (width + 1)`; cell `(y, x)` is at `y * (width + 1) + x` and row `y`'s newline at `y * (width + 1) + width` |
| `Converter.TextInPalette` | src/components/ascii-converter.tsx:54-77 | a character of the text is a newline exactly at positions `width` modulo `width + 1`, and every other character is in the palette |
| `Converter.SplitText` | src/components/ascii-converter.tsx:77 | splitting the text on newlines gives back the rows followed by one empty piece |
| `Converter.CssRgb` | src/components/ascii-converter.tsx:75 | the colour text is 10 to 16 characters long, opens with `rgb(` and closes with `)` |
| `Converter.CssRgbRoundTrip` | src/components/ascii-converter.tsx:75 | the text `rgb(r,g,b)` parses back to the same three channel values and is never empty |
| `Converter.ColourGridEntry` | src/components/ascii-converter.tsx:63-75 | entry `(y, x)` of the colour grid parses to the raw bytes at offsets `(y * width + x) * 4 + 0..2` |
| `Converter.ColourIgnoresAlpha` | src/components/ascii-converter.tsx:63-75 | two buffers that differ only in their alpha bytes give the same colour grid (colours are not faded by alpha) |
| `Converter.OpaqueRedImage` | src/components/ascii-converter.tsx:44-79 | an opaque red 200 by 100 image at 40 columns on the standard palette gives 9 rows of 40 semicolons |
| `Text.Split` | src/components/ascii-converter.tsx:112 | `split` always yields at least one piece |
| `Text.JoinSplit` | src/components/ascii-converter.tsx:112 | no piece of a split contains the separator, and joining the pieces with it restores the string |
| `Text.SplitJoin` | src/components/ascii-converter.tsx:112 | splitting a join of separator-free pieces gives the pieces back |
| `Text.SplitHead` | src/components/ascii-converter.tsx:106 | the first piece of a split is the longest separator-free prefix |
| `Text.LayoutAppend` | src/components/ascii-converter.tsx:77 | appending a row to the text appends the row and one newline |
| `Text.SplitLayout` | src/components/ascii-converter.tsx:77 | newline-free rows laid out and split on newlines come back, with a trailing empty piece |
| `Text.LayoutCell` | src/components/ascii-converter.tsx:77 | for rows of width `w`, row `y`'s character `x` is at `y * (w + 1) + x` and its newline at `y * (w + 1) + w` |
| `Text.LayoutAtIndex` | src/components/ascii-converter.tsx:77 | for newline-free rows of width `w`, position `i` is a newline exactly when `i % (w + 1) == w`, and otherwise holds row `i / (w + 1)`, column `i % (w + 1)` |
| `Text.Layout` | src/components/ascii-converter.tsx:77 | the text is empty exactly when there are no rows, has at least one character per row, and otherwise ends with a newline |
| `Text.Decimal` | src/components/ascii-converter.tsx:75 | a number is written as a non-empty run of digits: one digit below 10, at most two below 100, at most three below 1000 |
| `Text.DecimalRoundTrip` | src/components/ascii-converter.tsx:75 | a number written in decimal is digits only, reads back as the number, and has no leading zero |
| `Export.NonEmpty` | src/components/ascii-converter.tsx:112 | the filter keeps every non-empty line of the input and nothing else: each kept line is non-empty and comes from the input |
| `Export.ExportLines` | src/components/ascii-converter.tsx:112 | every line the export draws is non-empty and newline-free; a non-empty text without a newline is drawn as its one line |
| `Export.NonEmptyAppend` | src/components/ascii-converter.tsx:112 | filtering a concatenation filters each part |
| `Export.NonEmptyUniform` | src/components/ascii-converter.tsx:112 | lines all of one positive length are kept whole; lines all empty are all dropped |
| `Export.ScreenColour` | src/components/ascii-converter.tsx:154 | a glyph shows in its recorded colour when that entry exists and is non-empty, and in `#a1e89a` otherwise; never an empty colour |
| `Export.FillColour` | src/components/ascii-converter.tsx:130-134 | the PNG fill is the recorded colour only in colour mode with a non-empty entry present, and `#a1e89a` in every other case; never an empty colour |
| `Export.RowDraws` | src/components/ascii-converter.tsx:129-136 | line `y` gives one draw per character, left to right, at `(6 x, 8 y)`, with a non-empty fill |
| `Export.Draws` | src/components/ascii-converter.tsx:128-137 | the draws of the first `n` lines lie within the first `n` glyph rows, never have an empty fill, and go top to bottom |
| `Export.DrawLine` | src/components/ascii-converter.tsx:129-136 | the inner loop of the export issues exactly line `y`'s draws, in the recorded colour in colour mode when the entry is non-empty and in `#a1e89a` otherwise |
| `Export.DownloadImage` | src/components/ascii-converter.tsx:111-144 | no image exactly when the text has no non-empty line; otherwise the canvas is `|lines[0]| * 6` by `|lines| * 8` on `#08080a`, with one draw per character in line order |
| `Export.DrawsAt` | src/components/ascii-converter.tsx:128-137 | for lines of width `w`, there are `n * w` draws and the draw of line `y`, column `x` is at `y * w + x`, at `(6 x, 8 y)` with its fill colour |
| `Export.ExportLinesOfText` | src/components/ascii-converter.tsx:112-113 | the export recovers exactly the generated rows when `width >= 1`, and no line (no PNG) exactly when the width or the height is zero |
| `Export.PngCanvasOfText` | src/components/ascii-converter.tsx:115-119 | for generated text the canvas is `width * 6` by `height * 8` |
| `Export.PngDrawsOfText` | src/components/ascii-converter.tsx:128-137 | draw `y * width + x` of generated text is cell `(y, x)`'s character at `(6 x, 8 y)`, in the cell's colour in colour mode and `#a1e89a` otherwise |
| `Export.FillOfPresentColour` | src/components/ascii-converter.tsx:130-134 | where the grid holds a non-empty colour, the fill is that colour in colour mode and the accent otherwise |
| `Export.ScreenCells` | src/components/ascii-converter.tsx:146-161 | the coloured view has one line per piece of the text split on newlines, one cell per character of that piece, no newline cell, and each cell in `ScreenColour(colorData, y, x)`: the recorded colour when present and non-empty, `#a1e89a` otherwise, never empty |
| `Export.ScreenOfText` | src/components/ascii-converter.tsx:146-161 | the coloured view of generated text shows `height` lines of `width` characters, each in its cell's colour, then one empty line |
| `Export.Stem` | src/components/ascii-converter.tsx:106 | the stem has no dot, is a prefix of the file name, and is followed by a dot or the end of the name |
| `Export.DownloadName` | src/components/ascii-converter.tsx:106 | the download name is the file name up to its first dot (or all of it), which holds no dot, followed by `-ascii.` and the extension |
| `Export.StemUnique` | src/components/ascii-converter.tsx:142 | any dot-free prefix followed by a dot or the end of the name is the stem |
| `Export.DottedNameExample` | src/components/ascii-converter.tsx:106 | `a.b.png` downloads as `a-ascii.txt` |
| `Export.LeadingDotExample` | src/components/ascii-converter.tsx:142 | `.png` downloads its image as `-ascii.png` (empty stem) |

## Left out

- Resampling the image into the buffer (`drawImage`, `getImageData`, lines 48-52) is browser image scaling. The buffer is a parameter.
- Floating point: the brightness, the normalisation and `Math.round` of the aspect ratio use exact integers and rationals here. IEEE-754 rounding can move a value at a bin or rounding boundary by one.
- `Converter.RowCount` requires a positive image width. With width 0 the source divides by zero and gets an infinite or NaN row count, which is not modelled.
- A zero-size area: when the row count is 0 (or the width is 0, which the slider's minimum of 40 at line 225 rules out), `getImageData` at line 52 throws before the loops run. The model does not reject these sizes. A zero-height or zero-width grid gives empty or newline-only text and a colour grid with no cells (no rows for height 0, `height` empty rows for width 0), and the PNG export then draws nothing (`Export.ExportLinesOfText`). This is behaviour of the model only.
- The early returns when the canvas, the 2D context or the image is missing (lines 37-41, 120-121) are browser state.
- Image loading in `useEffect`/`onload` (lines 85-93) is left out, including the race between overlapping loads. It is asynchronous.
- Copying to the clipboard (lines 95-99) is left out, and so are the `Blob`, object URL and anchor click of both downloads (lines 102-108, 139-143) and `toDataURL`. The text download's name is `DownloadName(fileName, "txt")` and its content is the text unchanged. Only the name is modelled.
- Rasterising the PNG is left out: the font, the text baseline and the pixels `fillText` paints. The export is modelled as the canvas size, the background and the ordered list of `fillText` calls.
- React state and hooks, the JSX, element keys, styling and the display font size (lines 25-34, 164-324) are left out.
- The MIME check in `src/components/upload-zone.tsx` and the data-URL reading in `src/app/page.tsx` are input plumbing and are not part of this model. `src/app/layout.tsx` and `src/components/header.tsx` are static markup.
