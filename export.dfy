/** What happens to the text and the colour grid afterwards: the PNG export
    of `handleDownloadImage` (re-splitting the text, sizing the canvas,
    choosing each glyph's fill and drawing it), the per-character colours
    of the coloured on-screen view (`renderColoredAscii`) and the names of
    the downloaded files. */
module Export {
  import opened Text
  import opened Palette
  import opened Converter

  /** Width and height, in canvas pixels, of one glyph cell of the PNG. */
  const CharWidth: nat := 6
  const CharHeight: nat := 8

  /** The fill used when a glyph has no colour of its own. */
  const Accent: string := "#a1e89a"

  /** The background the PNG canvas is filled with. */
  const Background: string := "#08080a"

  /** `parts.filter((l) => l.length > 0)`. */
  function NonEmpty(parts: seq<string>): (kept: seq<string>)
    ensures |kept| <= |parts|
    ensures forall k | 0 <= k < |kept| :: kept[k] != [] && kept[k] in parts
    ensures forall k | 0 <= k < |parts| && parts[k] != [] :: parts[k] in kept
    decreases |parts|
  {
    if parts == [] then []
    else
      var rest := NonEmpty(parts[1..]);
      assert forall k | 1 <= k < |parts| :: parts[k] == parts[1..][k - 1];
      (if parts[0] == [] then [] else [parts[0]]) + rest
  }

  /** Filtering a concatenation filters each part. */
  lemma {:induction false} NonEmptyAppend(a: seq<string>, b: seq<string>)
    ensures NonEmpty(a + b) == NonEmpty(a) + NonEmpty(b)
    decreases |a|
  {
    if a != [] {
      var head: seq<string> := if a[0] == [] then [] else [a[0]];
      assert (a + b)[0] == a[0];
      assert (a + b)[1..] == a[1..] + b;
      NonEmptyAppend(a[1..], b);
      assert NonEmpty(a + b) == head + (NonEmpty(a[1..]) + NonEmpty(b));
      assert NonEmpty(a) == head + NonEmpty(a[1..]);
    } else {
      assert a + b == b;
    }
  }

  /** Filtering keeps a list of non-empty lines whole, and drops a list of
      empty lines entirely. */
  lemma {:induction false} NonEmptyUniform(parts: seq<string>, w: nat)
    requires forall k | 0 <= k < |parts| :: |parts[k]| == w
    ensures NonEmpty(parts) == if w == 0 then [] else parts
    decreases |parts|
  {
    if parts != [] {
      assert forall k | 0 <= k < |parts| - 1 :: parts[1..][k] == parts[k + 1];
      NonEmptyUniform(parts[1..], w);
      assert [parts[0]] + parts[1..] == parts;
    }
  }

  /** The lines the PNG export draws: the text split on newlines, empty
      lines dropped. */
  function ExportLines(ascii: string): (lines: seq<string>)
    ensures forall k | 0 <= k < |lines| :: lines[k] != [] && '\n' !in lines[k]
    ensures ascii != [] && '\n' !in ascii ==> lines == [ascii]
  {
    JoinSplit(ascii, '\n');
    assert '\n' !in ascii ==> Split(ascii, '\n') == [ascii] by {
      if '\n' !in ascii { SplitWithoutSep(ascii, '\n'); }
    }
    NonEmpty(Split(ascii, '\n'))
  }

  /** `colorData[y]?.[x] || "#a1e89a"`: the recorded colour when there is a
      non-empty one, the accent colour otherwise. */
  function ScreenColour(colorData: seq<seq<string>>, y: nat, x: nat): (c: string)
    ensures c != Accent ==> y < |colorData| && x < |colorData[y]| && c == colorData[y][x]
    ensures y < |colorData| && x < |colorData[y]| && colorData[y][x] != "" ==> c == colorData[y][x]
    ensures c != ""
  {
    if y < |colorData| && x < |colorData[y]| && colorData[y][x] != "" then colorData[y][x] else Accent
  }

  /** The PNG export's fill for the glyph at line `y`, column `x`: the
      recorded colour in colour mode when there is one, the accent colour
      otherwise. */
  function FillColour(colored: bool, colorData: seq<seq<string>>, y: nat, x: nat): (c: string)
    ensures c != Accent ==> colored && y < |colorData| && x < |colorData[y]| && c == colorData[y][x]
    ensures colored && y < |colorData| && x < |colorData[y]| && colorData[y][x] != "" ==> c == colorData[y][x]
    ensures c != ""
  {
    if colored then ScreenColour(colorData, y, x) else Accent
  }

  /** One `fillText` call: a glyph, its fill style and its top-left corner. */
  datatype Draw = FillText(glyph: char, fill: string, left: nat, top: nat)

  /** The exported image: file name, canvas size, background and the glyph
      draws in the order they are issued. */
  datatype Png = Png(name: string, width: nat, height: nat, background: string, draws: seq<Draw>)

  /** The draws for line `y`, left to right. */
  function RowDraws(lines: seq<string>, y: nat, colored: bool, colorData: seq<seq<string>>): (d: seq<Draw>)
    requires y < |lines|
    ensures |d| == |lines[y]|
    ensures forall x | 0 <= x < |d| ::
              && d[x].glyph == lines[y][x]
              && d[x].left == x * CharWidth && d[x].top == y * CharHeight
              && d[x].fill != ""
  {
    seq(|lines[y]|, x requires 0 <= x < |lines[y]| =>
      FillText(lines[y][x], FillColour(colored, colorData, y, x), x * CharWidth, y * CharHeight))
  }

  /** The draws for the first `n` lines, top to bottom: every draw lies
      within the first `n` glyph rows, none has an empty fill, and no draw
      comes after a draw lower on the canvas. */
  function Draws(lines: seq<string>, n: nat, colored: bool, colorData: seq<seq<string>>): (d: seq<Draw>)
    requires n <= |lines|
    ensures forall k | 0 <= k < |d| :: d[k].top < n * CharHeight && d[k].fill != ""
    ensures forall i, j | 0 <= i < j < |d| :: d[i].top <= d[j].top
    decreases n
  {
    if n == 0 then [] else Draws(lines, n - 1, colored, colorData) + RowDraws(lines, n - 1, colored, colorData)
  }

  /** `handleDownloadImage`: nothing when the text has no non-empty line;
      otherwise a canvas as wide as the first line and as tall as the
      number of lines, in glyph cells, filled with the background, with one
      draw per character in line order. */
  method DownloadImage(ascii: string, fileName: string, colored: bool, colorData: seq<seq<string>>)
    returns (png: Option<Png>)
    ensures png.None? <==> ExportLines(ascii) == []
    ensures png.Some? ==>
              var lines := ExportLines(ascii);
              png.value == Png(DownloadName(fileName, "png"), |lines[0]| * CharWidth, |lines| * CharHeight,
                               Background, Draws(lines, |lines|, colored, colorData))
  {
    var lines := NonEmpty(Split(ascii, '\n'));
    if |lines| == 0 {
      return None;
    }
    var draws: seq<Draw> := [];
    for y := 0 to |lines|
      invariant draws == Draws(lines, y, colored, colorData)
    {
      var row := DrawLine(lines, y, colored, colorData);
      draws := draws + row;
    }
    png := Some(Png(DownloadName(fileName, "png"), |lines[0]| * CharWidth, |lines| * CharHeight, Background, draws));
  }

  /** The inner loop of `handleDownloadImage` for line `y`: one `fillText`
      per character, left to right, in the recorded colour when colour mode
      is on and the entry is non-empty, in the accent colour otherwise. */
  method DrawLine(lines: seq<string>, y: nat, colored: bool, colorData: seq<seq<string>>)
    returns (row: seq<Draw>)
    requires y < |lines|
    ensures row == RowDraws(lines, y, colored, colorData)
  {
    ghost var want := RowDraws(lines, y, colored, colorData);
    row := [];
    for x := 0 to |lines[y]|
      invariant row == want[..x]
    {
      var fill;
      if colored && y < |colorData| && x < |colorData[y]| && colorData[y][x] != "" {
        fill := colorData[y][x];
      } else {
        fill := Accent;
      }
      PrefixExtend(want, x);
      row := row + [FillText(lines[y][x], fill, x * CharWidth, y * CharHeight)];
    }
    assert want[..|lines[y]|] == want;
  }

  /** For lines all of length `w`, the draws of the first `n` lines are
      `n * w` long, and the draw of line `y`, column `x` is at `y * w + x`. */
  lemma {:induction false} DrawsAt(lines: seq<string>, n: nat, w: nat, colored: bool, colorData: seq<seq<string>>, y: nat, x: nat)
    requires n <= |lines|
    requires forall k | 0 <= k < |lines| :: |lines[k]| == w
    requires y < n && x < w
    ensures |Draws(lines, n, colored, colorData)| == n * w
    ensures y * w + x < n * w
    ensures Draws(lines, n, colored, colorData)[y * w + x]
            == FillText(lines[y][x], FillColour(colored, colorData, y, x), x * CharWidth, y * CharHeight)
    decreases n
  {
    var d := Draws(lines, n, colored, colorData);
    var prev := Draws(lines, n - 1, colored, colorData);
    var last := RowDraws(lines, n - 1, colored, colorData);
    assert d == prev + last;
    assert n * w == (n - 1) * w + w;
    if y < n - 1 {
      DrawsAt(lines, n - 1, w, colored, colorData, y, x);
      assert y * w + x < (n - 1) * w;
      assert d[y * w + x] == prev[y * w + x];
    } else {
      if n - 1 > 0 {
        DrawsAt(lines, n - 1, w, colored, colorData, 0, x);
      }
      assert |prev| == (n - 1) * w;
      assert y * w + x == |prev| + x;
      assert d[y * w + x] == last[x];
    }
  }

  /** The lines the PNG export recovers from generated text: the generated
      rows themselves when the width is at least one, none (so no PNG) when
      the width or the height is zero. */
  lemma ExportLinesOfText(pixels: seq<byte>, width: nat, height: nat, cs: CharSet, inverted: bool)
    requires IsBuffer(pixels, width, height)
    ensures var rows := GlyphRows(pixels, width, height, cs, inverted);
            ExportLines(Layout(rows)) == if width == 0 then [] else rows
    ensures ExportLines(Layout(GlyphRows(pixels, width, height, cs, inverted))) == [] <==> width == 0 || height == 0
  {
    var rows := GlyphRows(pixels, width, height, cs, inverted);
    SplitText(pixels, width, height, cs, inverted);
    NonEmptyAppend(rows, [""]);
    NonEmptyUniform(rows, width);
    assert NonEmpty([""]) == [];
  }

  /** The PNG canvas for generated text is `width * 6` by `height * 8`
      canvas pixels, when it is made at all. */
  lemma PngCanvasOfText(pixels: seq<byte>, width: nat, height: nat, cs: CharSet, inverted: bool)
    requires IsBuffer(pixels, width, height)
    requires width > 0 && height > 0
    ensures var lines := ExportLines(Layout(GlyphRows(pixels, width, height, cs, inverted)));
            && |lines| == height
            && |lines[0]| * CharWidth == width * 6
            && |lines| * CharHeight == height * 8
  {
    ExportLinesOfText(pixels, width, height, cs, inverted);
  }

  /** In the PNG of generated text and its colour grid, the draw at
      position `y * width + x` is the character of cell `(y, x)` at
      `(6 x, 8 y)`, filled with the cell's colour in colour mode and with
      the accent colour otherwise; there are `height * width` draws. */
  lemma PngDrawsOfText(pixels: seq<byte>, width: nat, height: nat, cs: CharSet, inverted: bool,
                       colored: bool, y: nat, x: nat)
    requires IsBuffer(pixels, width, height)
    requires y < height && x < width
    ensures var rows := GlyphRows(pixels, width, height, cs, inverted);
            && ExportLines(Layout(rows)) == rows
            && |rows| == height
            && var draws := Draws(rows, height, colored, ColourGrid(pixels, width, height));
            && |draws| == height * width
            && 0 <= y * width + x < height * width
            && draws[y * width + x]
               == FillText(CellGlyph(pixels, width, height, cs, inverted, y, x),
                           if colored then CellColour(pixels, width, height, y, x) else Accent,
                           x * 6, y * 8)
  {
    var rows := GlyphRows(pixels, width, height, cs, inverted);
    var grid := ColourGrid(pixels, width, height);
    ExportLinesOfText(pixels, width, height, cs, inverted);
    assert |rows| == height;
    DrawsAt(rows, height, width, colored, grid, y, x);
    var draws := Draws(rows, height, colored, grid);
    var i := PixelOffset(width, height, y, x);
    CssRgbRoundTrip(pixels[i], pixels[i + 1], pixels[i + 2]);
    ColourAt(pixels, width, height, y, x);
    assert grid[y][x] == CellColour(pixels, width, height, y, x);
    FillOfPresentColour(colored, grid, y, x);
    var fill := FillColour(colored, grid, y, x);
    assert fill == if colored then CellColour(pixels, width, height, y, x) else Accent;
    assert rows[y][x] == CellGlyph(pixels, width, height, cs, inverted, y, x);
    assert draws[y * width + x] == FillText(rows[y][x], fill, x * CharWidth, y * CharHeight);
  }

  /** Where the grid has a non-empty colour, the PNG fill is that colour in
      colour mode and the accent colour otherwise. */
  lemma FillOfPresentColour(colored: bool, grid: seq<seq<string>>, y: nat, x: nat)
    requires y < |grid| && x < |grid[y]| && grid[y][x] != ""
    ensures FillColour(colored, grid, y, x) == if colored then grid[y][x] else Accent
  {
  }

  /** `renderColoredAscii`: every line of the text split on newlines, each
      character paired with its on-screen colour. */
  function ScreenCells(ascii: string, colorData: seq<seq<string>>): (cells: seq<seq<(char, string)>>)
    ensures var lines := Split(ascii, '\n');
            && |cells| == |lines|
            && forall y | 0 <= y < |cells| ::
                 && |cells[y]| == |lines[y]|
                 && forall x | 0 <= x < |cells[y]| ::
                      && cells[y][x].0 == lines[y][x] && cells[y][x].0 != '\n'
                      && cells[y][x].1 == ScreenColour(colorData, y, x)
                      && cells[y][x].1 != ""
  {
    var lines := Split(ascii, '\n');
    JoinSplit(ascii, '\n');
    assert forall y, x | 0 <= y < |lines| && 0 <= x < |lines[y]| :: lines[y][x] in lines[y];
    seq(|lines|, y requires 0 <= y < |lines| =>
      seq(|lines[y]|, x requires 0 <= x < |lines[y]| => (lines[y][x], ScreenColour(colorData, y, x))))
  }

  /** On screen, generated text and its colour grid show `height` lines of
      `width` characters, each in its cell's colour, and one last empty line. */
  lemma ScreenOfText(pixels: seq<byte>, width: nat, height: nat, cs: CharSet, inverted: bool)
    requires IsBuffer(pixels, width, height)
    ensures var cells := ScreenCells(Layout(GlyphRows(pixels, width, height, cs, inverted)), ColourGrid(pixels, width, height));
            && |cells| == height + 1
            && cells[height] == []
            && forall y | 0 <= y < height ::
                 && |cells[y]| == width
                 && forall x | 0 <= x < width ::
                      cells[y][x] == (CellGlyph(pixels, width, height, cs, inverted, y, x), CellColour(pixels, width, height, y, x))
  {
    var rows := GlyphRows(pixels, width, height, cs, inverted);
    var grid := ColourGrid(pixels, width, height);
    var cells := ScreenCells(Layout(rows), grid);
    SplitText(pixels, width, height, cs, inverted);
    forall y, x | 0 <= y < height && 0 <= x < width
      ensures cells[y][x] == (CellGlyph(pixels, width, height, cs, inverted, y, x), CellColour(pixels, width, height, y, x))
    {
      var i := PixelOffset(width, height, y, x);
      CssRgbRoundTrip(pixels[i], pixels[i + 1], pixels[i + 2]);
      assert grid[y][x] == CellColour(pixels, width, height, y, x);
      assert rows[y][x] == CellGlyph(pixels, width, height, cs, inverted, y, x);
    }
  }

  /** `fileName.split(".")[0]`: the part of the name before its first dot,
      or the whole name when it has none. */
  function Stem(fileName: string): (stem: string)
    ensures '.' !in stem && stem <= fileName
    ensures |stem| == |fileName| || fileName[|stem|] == '.'
  {
    SplitHead(fileName, '.');
    Split(fileName, '.')[0]
  }

  /** The name a download is offered under: the stem, `-ascii.` and the
      extension (`txt` for the text, `png` for the image). */
  function DownloadName(fileName: string, ext: string): (name: string)
    ensures var k := |name| - |ext| - 7;
            && 0 <= k <= |fileName|
            && name[..k] == fileName[..k] && '.' !in name[..k]
            && (k == |fileName| || fileName[k] == '.')
            && name[k..] == "-ascii." + ext
  {
    Stem(fileName) + "-ascii." + ext
  }

  /** Only the first dot matters: `a.b.png` gives `a-ascii.txt`. */
  lemma DottedNameExample()
    ensures DownloadName("a.b.png", "txt") == "a-ascii.txt"
  {
    var f := "a.b.png";
    assert '.' !in "a" && "a" <= f && f[1] == '.';
    StemUnique(f, "a");
  }

  /** A name starting with a dot has an empty stem. */
  lemma LeadingDotExample()
    ensures DownloadName(".png", "png") == "-ascii.png"
  {
    StemUnique(".png", "");
  }

  /** The stem is the only prefix without a dot that ends at a dot or at
      the end of the name. */
  lemma StemUnique(fileName: string, p: string)
    requires '.' !in p && p <= fileName
    requires |p| == |fileName| || fileName[|p|] == '.'
    ensures Stem(fileName) == p
  {
  }
}
