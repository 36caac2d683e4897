/** The sampling and mapping step of `generateAscii`: the number of text
    rows, the position of each pixel in the RGBA buffer, the nested loops
    that build the text and the parallel grid of CSS colours. The buffer is
    what `getImageData` returns for the resampled image, `width * height * 4`
    channel bytes in row-major order. */
module Converter {
  import opened Text
  import opened Palette

  /** `Math.round(width * (imgH / imgW) * 0.45)` in exact arithmetic:
      `9 * width * imgH / (20 * imgW)` rounded half up. */
  function RowCount(width: nat, imgW: nat, imgH: nat): (h: nat)
    requires imgW > 0
    ensures (2 * h - 1) * (10 * imgW) <= 9 * width * imgH < (2 * h + 1) * (10 * imgW)
  {
    var p, u := 9 * width * imgH, 10 * imgW;
    HalfUp(p, u);
    (p + u) / (2 * u)
  }

  /** `(p + u) / (2 u)` is `p / (2 u)` rounded to the nearest integer,
      halves up. */
  lemma HalfUp(p: nat, u: nat)
    requires u > 0
    ensures var h := (p + u) / (2 * u);
            0 <= h && (2 * h - 1) * u <= p < (2 * h + 1) * u
  {
    var h, r := (p + u) / (2 * u), (p + u) % (2 * u);
    assert p + u == h * (2 * u) + r;
    assert h * (2 * u) == 2 * (h * u);
    assert (2 * h - 1) * u == 2 * (h * u) - u;
    assert (2 * h + 1) * u == 2 * (h * u) + u;
  }

  /** The worked example: a 200 by 100 image at 40 columns has 9 rows. */
  lemma WideImageRows()
    ensures RowCount(40, 200, 100) == 9
  {
  }

  /** `(y * width + x) * 4`, the offset of a pixel's red byte; its green,
      blue and alpha bytes follow, and all four lie inside the buffer. */
  function PixelOffset(width: nat, height: nat, y: nat, x: nat): (i: nat)
    requires y < height && x < width
    ensures i % 4 == 0
    ensures i + 3 < width * height * 4
  {
    assert y * width + x < height * width by {
      assert y * width + x < (y + 1) * width;
      MulLe(y + 1, height, width, width);
    }
    (y * width + x) * 4
  }

  /** The buffer `getImageData` hands over for a `width` by `height` area. */
  predicate IsBuffer(pixels: seq<byte>, width: nat, height: nat)
  {
    |pixels| == width * height * 4
  }

  /** The character for the pixel in row `y`, column `x`: a palette
      character, never a newline. */
  function CellGlyph(pixels: seq<byte>, width: nat, height: nat, cs: CharSet, inverted: bool, y: nat, x: nat): (c: char)
    requires IsBuffer(pixels, width, height) && y < height && x < width
    ensures c in Chars(cs) && c != '\n'
  {
    var i := PixelOffset(width, height, y, x);
    Glyph(cs, inverted, pixels[i], pixels[i + 1], pixels[i + 2], pixels[i + 3])
  }

  /** The CSS colour recorded for the pixel in row `y`, column `x`: its raw
      red, green and blue bytes, not faded by alpha. */
  function CellColour(pixels: seq<byte>, width: nat, height: nat, y: nat, x: nat): (c: string)
    requires IsBuffer(pixels, width, height) && y < height && x < width
    ensures var i := PixelOffset(width, height, y, x);
            ParseCssRgb(c) == Some(Rgb(pixels[i] as int, pixels[i + 1] as int, pixels[i + 2] as int))
  {
    var i := PixelOffset(width, height, y, x);
    CssRgbRoundTrip(pixels[i], pixels[i + 1], pixels[i + 2]);
    CssRgb(pixels[i], pixels[i + 1], pixels[i + 2])
  }

  /** The characters of row `y`. */
  function GlyphRow(pixels: seq<byte>, width: nat, height: nat, cs: CharSet, inverted: bool, y: nat): (row: string)
    requires IsBuffer(pixels, width, height) && y < height
    ensures |row| == width
  {
    seq(width, x requires 0 <= x < width => CellGlyph(pixels, width, height, cs, inverted, y, x))
  }

  /** The rows of characters the loops produce: `height` rows of `width`
      characters. */
  function GlyphRows(pixels: seq<byte>, width: nat, height: nat, cs: CharSet, inverted: bool): (rows: seq<string>)
    requires IsBuffer(pixels, width, height)
    ensures |rows| == height
    ensures forall k | 0 <= k < |rows| :: |rows[k]| == width
  {
    seq(height, y requires 0 <= y < height => GlyphRow(pixels, width, height, cs, inverted, y))
  }

  /** The colours of row `y`. */
  function ColourRow(pixels: seq<byte>, width: nat, height: nat, y: nat): (row: seq<string>)
    requires IsBuffer(pixels, width, height) && y < height
    ensures |row| == width
  {
    seq(width, x requires 0 <= x < width => CellColour(pixels, width, height, y, x))
  }

  /** The rows of colours the loops produce: `height` rows of `width`
      entries. */
  function ColourGrid(pixels: seq<byte>, width: nat, height: nat): (grid: seq<seq<string>>)
    requires IsBuffer(pixels, width, height)
    ensures |grid| == height
    ensures forall k | 0 <= k < |grid| :: |grid[k]| == width
  {
    seq(height, y requires 0 <= y < height => ColourRow(pixels, width, height, y))
  }

  /** The template literal `rgb(${r},${g},${b})`: between `rgb(0,0,0)` and
      `rgb(255,255,255)` in length, opened by `rgb(` and closed by `)`. */
  function CssRgb(r: byte, g: byte, b: byte): (s: string)
    ensures 10 <= |s| <= 16
    ensures s[..4] == "rgb(" && s[|s| - 1] == ')'
  {
    "rgb(" + Decimal(r as int) + "," + Decimal(g as int) + "," + Decimal(b as int) + ")"
  }

  /** A colour read back from its CSS text. */
  datatype Rgb = Rgb(red: nat, green: nat, blue: nat)

  /** Reads `rgb(R,G,B)` with three decimal numbers; anything else is `None`. */
  function ParseCssRgb(s: string): Option<Rgb>
  {
    if |s| >= 5 && s[..4] == "rgb(" && s[|s| - 1] == ')' then
      var parts := Split(s[4..|s| - 1], ',');
      if |parts| == 3 && IsDigits(parts[0]) && IsDigits(parts[1]) && IsDigits(parts[2]) then
        Some(Rgb(DigitsValue(parts[0]), DigitsValue(parts[1]), DigitsValue(parts[2])))
      else None
    else None
  }

  /** The CSS text of a colour reads back as that colour, so no two colours
      share a text, and it is never empty. */
  lemma CssRgbRoundTrip(r: byte, g: byte, b: byte)
    ensures ParseCssRgb(CssRgb(r, g, b)) == Some(Rgb(r as int, g as int, b as int))
    ensures CssRgb(r, g, b) != ""
  {
    DecimalRoundTrip(r as int);
    DecimalRoundTrip(g as int);
    DecimalRoundTrip(b as int);
    ParseDigits(Decimal(r as int), Decimal(g as int), Decimal(b as int));
  }

  lemma ParseDigits(dr: string, dg: string, db: string)
    requires IsDigits(dr) && IsDigits(dg) && IsDigits(db)
    ensures ParseCssRgb("rgb(" + dr + "," + dg + "," + db + ")")
            == Some(Rgb(DigitsValue(dr), DigitsValue(dg), DigitsValue(db)))
  {
    var mid := dr + [','] + dg + [','] + db;
    var s := "rgb(" + dr + "," + dg + "," + db + ")";
    assert s == "rgb(" + mid + ")";
    assert s[..4] == "rgb(";
    assert s[4..|s| - 1] == mid;
    SplitThree(dr, dg, db);
  }

  lemma SplitThree(dr: string, dg: string, db: string)
    requires IsDigits(dr) && IsDigits(dg) && IsDigits(db)
    ensures Split(dr + [','] + dg + [','] + db, ',') == [dr, dg, db]
  {
    assert ',' !in dr && ',' !in dg && ',' !in db;
    assert dr + [','] + dg + [','] + db == dr + [','] + (dg + [','] + db);
    SplitAfter(dr, dg + [','] + db, ',');
    SplitAfter(dg, db, ',');
    SplitWithoutSep(db, ',');
  }

  /** `generateAscii`: the row count from the column count and the image's
      aspect ratio, then the loops over the buffer the browser resampled
      the image into. */
  method GenerateAscii(pixels: seq<byte>, width: nat, imgW: nat, imgH: nat, cs: CharSet, inverted: bool)
    returns (text: string, colors: seq<seq<string>>)
    requires imgW > 0
    requires |pixels| == width * RowCount(width, imgW, imgH) * 4
    ensures text == Layout(GlyphRows(pixels, width, RowCount(width, imgW, imgH), cs, inverted))
    ensures colors == ColourGrid(pixels, width, RowCount(width, imgW, imgH))
  {
    var height := RowCount(width, imgW, imgH);
    text, colors := MapPixels(pixels, width, height, cs, inverted);
  }

  /** The loops of `generateAscii`: each row's characters and colours
      come from `MapRow`; the row and a newline are appended to the text and
      the colour row to the grid. */
  method MapPixels(pixels: seq<byte>, width: nat, height: nat, cs: CharSet, inverted: bool)
    returns (text: string, colors: seq<seq<string>>)
    requires IsBuffer(pixels, width, height)
    ensures text == Layout(GlyphRows(pixels, width, height, cs, inverted))
    ensures colors == ColourGrid(pixels, width, height)
  {
    ghost var rows := GlyphRows(pixels, width, height, cs, inverted);
    ghost var grid := ColourGrid(pixels, width, height);
    text := "";
    colors := [];
    for y := 0 to height
      invariant text == Layout(rows[..y])
      invariant colors == grid[..y]
    {
      var row, colorRow := MapRow(pixels, width, height, cs, inverted, y);
      assert row == rows[y] && colorRow == grid[y];
      assert rows[..y + 1] == rows[..y] + [row];
      LayoutAppend(rows[..y], row);
      text := text + row + "\n";
      colors := colors + [colorRow];
    }
    assert rows[..height] == rows;
    assert grid[..height] == grid;
  }

  /** The inner loop of `generateAscii` for row `y`: the palette character
      of each pixel is appended to `row` and its colour to `colorRow`. */
  method MapRow(pixels: seq<byte>, width: nat, height: nat, cs: CharSet, inverted: bool, y: nat)
    returns (row: string, colorRow: seq<string>)
    requires IsBuffer(pixels, width, height) && y < height
    ensures row == GlyphRow(pixels, width, height, cs, inverted, y)
    ensures colorRow == ColourRow(pixels, width, height, y)
  {
    ghost var glyphs := GlyphRow(pixels, width, height, cs, inverted, y);
    ghost var colours := ColourRow(pixels, width, height, y);
    row := "";
    colorRow := [];
    for x := 0 to width
      invariant row == glyphs[..x]
      invariant colorRow == colours[..x]
    {
      var ch, colour := MapPixel(pixels, width, height, cs, inverted, y, x);
      PrefixExtend(glyphs, x);
      PrefixExtend(colours, x);
      row := row + [ch];
      colorRow := colorRow + [colour];
    }
    assert glyphs[..width] == glyphs && colours[..width] == colours;
  }

  /** One iteration of the inner loop: the four bytes of pixel `(y, x)`,
      the palette index of its brightness and its `rgb(...)` colour. */
  method MapPixel(pixels: seq<byte>, width: nat, height: nat, cs: CharSet, inverted: bool, y: nat, x: nat)
    returns (ch: char, colour: string)
    requires IsBuffer(pixels, width, height) && y < height && x < width
    ensures ch == GlyphRow(pixels, width, height, cs, inverted, y)[x]
    ensures colour == ColourRow(pixels, width, height, y)[x]
  {
    var chars := Chars(cs);
    var i := PixelOffset(width, height, y, x);
    var r, g, b, a := pixels[i], pixels[i + 1], pixels[i + 2], pixels[i + 3];
    var charIndex := Index(cs, Brightness(r, g, b, a), inverted);
    ch := chars[charIndex];
    colour := CssRgb(r, g, b);
    GlyphAt(pixels, width, height, cs, inverted, y, x);
    ColourAt(pixels, width, height, y, x);
  }

  /** Taking one more element of a sequence appends that element. */
  lemma PrefixExtend<T>(s: seq<T>, i: nat)
    requires i < |s|
    ensures s[..i + 1] == s[..i] + [s[i]]
  {
  }

  /** The character at row `y`, column `x`, as the loop body computes it. */
  lemma GlyphAt(pixels: seq<byte>, width: nat, height: nat, cs: CharSet, inverted: bool, y: nat, x: nat)
    requires IsBuffer(pixels, width, height) && y < height && x < width
    ensures var i := PixelOffset(width, height, y, x);
            GlyphRow(pixels, width, height, cs, inverted, y)[x]
              == Chars(cs)[Index(cs, Brightness(pixels[i], pixels[i + 1], pixels[i + 2], pixels[i + 3]), inverted)]
  {
  }

  /** The colour at row `y`, column `x`, as the loop body computes it. */
  lemma ColourAt(pixels: seq<byte>, width: nat, height: nat, y: nat, x: nat)
    requires IsBuffer(pixels, width, height) && y < height && x < width
    ensures var i := PixelOffset(width, height, y, x);
            ColourRow(pixels, width, height, y)[x] == CssRgb(pixels[i], pixels[i + 1], pixels[i + 2])
  {
  }

  /** Every row holds `width` palette characters and no newline. */
  lemma RowsOverPalette(pixels: seq<byte>, width: nat, height: nat, cs: CharSet, inverted: bool)
    requires IsBuffer(pixels, width, height)
    ensures var rows := GlyphRows(pixels, width, height, cs, inverted);
            forall k | 0 <= k < |rows| ::
              && |rows[k]| == width
              && '\n' !in rows[k]
              && forall x | 0 <= x < width :: rows[k][x] in Chars(cs)
  {
    var rows := GlyphRows(pixels, width, height, cs, inverted);
    forall k | 0 <= k < |rows|
      ensures '\n' !in rows[k]
      ensures forall x | 0 <= x < width :: rows[k][x] in Chars(cs)
    {
      assert forall x | 0 <= x < width :: rows[k][x] == CellGlyph(pixels, width, height, cs, inverted, k, x);
    }
  }

  /** The text has `height` rows of `width` characters, each followed by a
      newline: cell `(y, x)` is at `y * (width + 1) + x` and row `y`'s
      newline at `y * (width + 1) + width`. */
  lemma TextShape(pixels: seq<byte>, width: nat, height: nat, cs: CharSet, inverted: bool, y: nat, x: nat)
    requires IsBuffer(pixels, width, height)
    requires y < height && x <= width
    ensures var text := Layout(GlyphRows(pixels, width, height, cs, inverted));
            && |text| == height * (width + 1)
            && y * (width + 1) + x < |text|
            && text[y * (width + 1) + x] == if x < width then CellGlyph(pixels, width, height, cs, inverted, y, x) else '\n'
  {
    var rows := GlyphRows(pixels, width, height, cs, inverted);
    LayoutLength(rows, width);
    LayoutCell(rows, width, y, x);
    if x < width {
      assert rows[y][x] == CellGlyph(pixels, width, height, cs, inverted, y, x);
    }
  }

  /** Every character of the text is a newline exactly at the end of each
      `width + 1` block, and is otherwise a character of the palette. */
  lemma TextInPalette(pixels: seq<byte>, width: nat, height: nat, cs: CharSet, inverted: bool)
    requires IsBuffer(pixels, width, height)
    ensures var text := Layout(GlyphRows(pixels, width, height, cs, inverted));
            forall i | 0 <= i < |text| ::
              && (text[i] == '\n' <==> i % (width + 1) == width)
              && (text[i] != '\n' ==> text[i] in Chars(cs))
  {
    var rows := GlyphRows(pixels, width, height, cs, inverted);
    var text := Layout(rows);
    RowsOverPalette(pixels, width, height, cs, inverted);
    forall i | 0 <= i < |text|
      ensures text[i] == '\n' <==> i % (width + 1) == width
      ensures text[i] != '\n' ==> text[i] in Chars(cs)
    {
      LayoutAtIndex(rows, width, i);
    }
  }

  /** Splitting the text on newlines gives the rows back, followed by one
      empty piece after the final newline. */
  lemma SplitText(pixels: seq<byte>, width: nat, height: nat, cs: CharSet, inverted: bool)
    requires IsBuffer(pixels, width, height)
    ensures var rows := GlyphRows(pixels, width, height, cs, inverted);
            Split(Layout(rows), '\n') == rows + [""]
  {
    RowsOverPalette(pixels, width, height, cs, inverted);
    SplitLayout(GlyphRows(pixels, width, height, cs, inverted));
  }

  /** Entry `(y, x)` of the colour grid reads back as the raw red, green
      and blue bytes at that pixel's offset. */
  lemma ColourGridEntry(pixels: seq<byte>, width: nat, height: nat, y: nat, x: nat)
    requires IsBuffer(pixels, width, height) && y < height && x < width
    ensures var grid := ColourGrid(pixels, width, height);
            && |grid| == height && |grid[y]| == width
            && var i := (y * width + x) * 4;
               ParseCssRgb(grid[y][x]) == Some(Rgb(pixels[i] as int, pixels[i + 1] as int, pixels[i + 2] as int))
  {
    var i := PixelOffset(width, height, y, x);
    CssRgbRoundTrip(pixels[i], pixels[i + 1], pixels[i + 2]);
  }

  /** The colour grid does not depend on the alpha bytes: two buffers that
      differ only in alpha give the same grid. */
  lemma ColourIgnoresAlpha(p: seq<byte>, q: seq<byte>, width: nat, height: nat)
    requires IsBuffer(p, width, height) && IsBuffer(q, width, height)
    requires forall i | 0 <= i < |p| && i % 4 != 3 :: p[i] == q[i]
    ensures ColourGrid(p, width, height) == ColourGrid(q, width, height)
  {
    var gp, gq := ColourGrid(p, width, height), ColourGrid(q, width, height);
    forall y | 0 <= y < height ensures gp[y] == gq[y] {
      forall x | 0 <= x < width ensures gp[y][x] == gq[y][x] {
        CellIgnoresAlpha(p, q, width, height, y, x);
      }
    }
  }

  lemma CellIgnoresAlpha(p: seq<byte>, q: seq<byte>, width: nat, height: nat, y: nat, x: nat)
    requires IsBuffer(p, width, height) && IsBuffer(q, width, height)
    requires forall i | 0 <= i < |p| && i % 4 != 3 :: p[i] == q[i]
    requires y < height && x < width
    ensures ColourRow(p, width, height, y)[x] == ColourRow(q, width, height, y)[x]
  {
    var i := PixelOffset(width, height, y, x);
    assert (i + 1) % 4 == 1 && (i + 2) % 4 == 2;
    ColourAt(p, width, height, y, x);
    ColourAt(q, width, height, y, x);
  }

  /** A buffer in which every pixel is opaque red. */
  predicate AllOpaqueRed(pixels: seq<byte>)
  {
    forall i | 0 <= i < |pixels| :: pixels[i] == if i % 4 == 0 || i % 4 == 3 then 255 else 0
  }

  /** The worked example: an opaque red 200 by 100 image at 40 columns on
      the standard palette is 9 rows of 40 semicolons. */
  lemma OpaqueRedImage(pixels: seq<byte>)
    requires |pixels| == 40 * 9 * 4 && AllOpaqueRed(pixels)
    ensures RowCount(40, 200, 100) == 9
    ensures forall r <- GlyphRows(pixels, 40, 9, Standard, false) :: r == seq(40, _ => ';')
  {
    var rows := GlyphRows(pixels, 40, 9, Standard, false);
    forall y, x | 0 <= y < 9 && 0 <= x < 40
      ensures CellGlyph(pixels, 40, 9, Standard, false, y, x) == ';'
    {
      var i := PixelOffset(40, 9, y, x);
      assert (i + 1) % 4 == 1 && (i + 2) % 4 == 2 && (i + 3) % 4 == 3;
      OpaqueRedIsSemicolon();
    }
  }
}
