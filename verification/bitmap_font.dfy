/**
 * Bitmap text layout: glyph lookup, `measureText`, and `textToBitmap`, which copies glyph grids
 * into a zero frame line by line. The font is a parameter; its glyphs are rectangular grids of
 * one to seven rows (the layout's fixed font height).
 */
module BitmapFont {
  import opened Wrappers
  import opened Strings

  type Glyph = seq<seq<int>>
  type Font = map<char, Glyph>
  type Frame = seq<seq<int>>

  const FontHeight: nat := 7

  predicate GlyphOk(g: Glyph) {
    1 <= |g| <= FontHeight && forall r :: 0 <= r < |g| ==> |g[r]| == |g[0]|
  }

  predicate FontOk(font: Font) {
    forall c :: c in font ==> GlyphOk(font[c])
  }

  /** The fallback when the font has no space glyph: seven rows of three blank cells. */
  const BlankGlyph: Glyph := [[0, 0, 0], [0, 0, 0], [0, 0, 0], [0, 0, 0], [0, 0, 0], [0, 0, 0], [0, 0, 0]]

  /** `getGlyph`: the character itself, then its uppercase form, then the space glyph. */
  function GetGlyph(c: char, font: Font): (g: Glyph)
    ensures FontOk(font) ==> GlyphOk(g)
  {
    if c in font then font[c]
    else if ToUpperChar(c) in font then font[ToUpperChar(c)]
    else if ' ' in font then font[' ']
    else BlankGlyph
  }

  /** The glyph drawn for c is one of the font's own glyphs when the font has c, its uppercase
      form or a space; only a font with none of them draws the blank cell. */
  lemma GetGlyphOrder(c: char, font: Font)
    ensures c in font ==> GetGlyph(c, font) == font[c]
    ensures c !in font && ToUpperChar(c) in font ==> GetGlyph(c, font) == font[ToUpperChar(c)]
    ensures c !in font && ToUpperChar(c) !in font && ' ' in font ==> GetGlyph(c, font) == font[' ']
    ensures GetGlyph(c, font) == BlankGlyph || GetGlyph(c, font) in font.Values
  {
  }

  /** A lowercase letter the font lacks is drawn with its uppercase glyph. */
  lemma LowercaseFallsBack(c: char, font: Font)
    requires 'a' <= c <= 'z' && c !in font
    ensures GetGlyph(c, font) == GetGlyph(ToUpperChar(c), font)
  {
    assert ToUpperChar(ToUpperChar(c)) == ToUpperChar(c);
  }

  function Width(g: Glyph): nat {
    if |g| == 0 then 0 else |g[0]|
  }

  // ---------------------------------------------------------------------------
  // configuration

  datatype Padding = Uniform(n: nat) | Sides(top: Option<nat>, right: Option<nat>, bottom: Option<nat>, left: Option<nat>)

  /** `BitmapFontConfig`; None is an undefined property. */
  datatype FontConfig = FontConfig(charSpacing: Option<nat>, lineHeight: Option<nat>, padding: Option<Padding>)

  datatype Layout = Layout(spacing: nat, lineHeight: nat, top: nat, right: nat, bottom: nat, left: nat)

  /** Defaults 1, 1 and 0; a number pads all four sides, an object pads its given sides (a
      missing side, like 0, is 0). */
  function LayoutOf(cfg: FontConfig): (lay: Layout)
    ensures lay.spacing == GetOr(cfg.charSpacing, 1) && lay.lineHeight == GetOr(cfg.lineHeight, 1)
    ensures cfg.padding.None? ==> lay.top == lay.right == lay.bottom == lay.left == 0
    ensures cfg.padding.Some? && cfg.padding.value.Uniform? ==>
      lay.top == lay.right == lay.bottom == lay.left == cfg.padding.value.n
    ensures cfg.padding.Some? && cfg.padding.value.Sides? ==>
      var p := cfg.padding.value;
      lay.top == GetOr(p.top, 0) && lay.right == GetOr(p.right, 0)
      && lay.bottom == GetOr(p.bottom, 0) && lay.left == GetOr(p.left, 0)
  {
    var pad := GetOr(cfg.padding, Uniform(0));
    match pad
    case Uniform(n) => Layout(GetOr(cfg.charSpacing, 1), GetOr(cfg.lineHeight, 1), n, n, n, n)
    case Sides(t, r, b, l) =>
      Layout(GetOr(cfg.charSpacing, 1), GetOr(cfg.lineHeight, 1), GetOr(t, 0), GetOr(r, 0), GetOr(b, 0), GetOr(l, 0))
  }

  // ---------------------------------------------------------------------------
  // measuring

  /** The sum of the glyph widths of a line. */
  function SumWidths(font: Font, line: string): nat {
    if |line| == 0 then 0 else Width(GetGlyph(line[0], font)) + SumWidths(font, line[1..])
  }

  /** Glyph widths plus one spacing between neighbours; 0 for an empty line. */
  function LineWidth(font: Font, spacing: nat, line: string): nat {
    if |line| == 0 then 0 else SumWidths(font, line) + spacing * (|line| - 1)
  }

  /** The widest line, and at least 0. */
  function ContentWidth(font: Font, spacing: nat, lines: seq<string>): (w: nat)
    ensures forall i :: 0 <= i < |lines| ==> LineWidth(font, spacing, lines[i]) <= w
    ensures w == 0 || exists i :: 0 <= i < |lines| && w == LineWidth(font, spacing, lines[i])
  {
    if |lines| == 0 then 0
    else
      var first := LineWidth(font, spacing, lines[0]);
      var rest := ContentWidth(font, spacing, lines[1..]);
      assert forall i :: 1 <= i < |lines| ==> lines[i] == lines[1..][i - 1];
      if rest > first then
        var i :| 0 <= i < |lines[1..]| && rest == LineWidth(font, spacing, lines[1..][i]);
        assert rest == LineWidth(font, spacing, lines[i + 1]);
        rest
      else first
  }

  /** `lines.length * (fontHeight + lineHeight) - lineHeight`. */
  function ContentHeight(count: nat, lineHeight: nat): nat
    requires count >= 1
  {
    MulAtLeast(count, FontHeight + lineHeight);
    count * (FontHeight + lineHeight) - lineHeight
  }

  lemma MulAtLeast(n: nat, m: nat)
    requires n >= 1
    ensures n * m >= m
  {
    assert n * m == (n - 1) * m + m;
  }

  datatype Size = Size(width: nat, height: nat)

  /** `measureText`: content size plus padding. */
  function Measure(text: string, font: Font, cfg: FontConfig): (s: Size)
    ensures var lay := LayoutOf(cfg); var lines := Split(text, '\n');
      && s.width == ContentWidth(font, lay.spacing, lines) + lay.left + lay.right
      && s.height == |lines| * (FontHeight + lay.lineHeight) - lay.lineHeight + lay.top + lay.bottom
      && s.height >= FontHeight + lay.top + lay.bottom
  {
    var lay := LayoutOf(cfg);
    var lines := Split(text, '\n');
    MulAtLeast(|lines|, FontHeight + lay.lineHeight);
    Size(ContentWidth(font, lay.spacing, lines) + lay.left + lay.right,
         ContentHeight(|lines|, lay.lineHeight) + lay.top + lay.bottom)
  }

  /** The loop of `measureText`: each character adds its width and a spacing, and one spacing is
      taken back from a line of positive width. */
  method MeasureText(text: string, font: Font, cfg: FontConfig) returns (width: nat, height: nat)
    ensures Size(width, height) == Measure(text, font, cfg)
  {
    var lay := LayoutOf(cfg);
    var lines := Split(text, '\n');
    var contentWidth := MeasureLines(font, lay.spacing, lines);
    width := contentWidth + lay.left + lay.right;
    height := ContentHeight(|lines|, lay.lineHeight) + lay.top + lay.bottom;
  }

  /** The outer loop of `measureText`: the running maximum of the line widths, from 0. */
  method MeasureLines(font: Font, spacing: nat, lines: seq<string>) returns (contentWidth: nat)
    ensures contentWidth == ContentWidth(font, spacing, lines)
  {
    contentWidth := 0;
    var i := 0;
    while i < |lines|
      invariant 0 <= i <= |lines|
      invariant forall k :: 0 <= k < i ==> LineWidth(font, spacing, lines[k]) <= contentWidth
      invariant contentWidth == 0 || exists k :: 0 <= k < i && contentWidth == LineWidth(font, spacing, lines[k])
    {
      var lineWidth := MeasureLine(font, spacing, lines[i]);
      if lineWidth > contentWidth {
        contentWidth := lineWidth;
      }
      i := i + 1;
    }
    MaxUnique(font, spacing, lines, contentWidth);
  }

  lemma MulStep(a: nat, j: nat)
    ensures a * (j + 1) == a * j + a
  {
  }

  /** Taking one spacing back from the loop's total gives the line width. */
  lemma LoopWidth(font: Font, spacing: nat, line: string)
    ensures var total := SumWidths(font, line) + spacing * |line|;
      (total > 0 ==> total >= spacing && total - spacing == LineWidth(font, spacing, line))
      && (total == 0 ==> LineWidth(font, spacing, line) == 0)
  {
    if |line| > 0 {
      MulStep(spacing, |line| - 1);
    }
  }

  /** The inner loop of `measureText` for one line. */
  method MeasureLine(font: Font, spacing: nat, line: string) returns (lineWidth: nat)
    ensures lineWidth == LineWidth(font, spacing, line)
  {
    lineWidth := 0;
    var j := 0;
    while j < |line|
      invariant 0 <= j <= |line|
      invariant lineWidth == SumWidths(font, line[..j]) + spacing * j
    {
      SumWidthsSnoc(font, line[..j], line[j]);
      MulStep(spacing, j);
      assert line[..j + 1] == line[..j] + [line[j]];
      lineWidth := lineWidth + Width(GetGlyph(line[j], font)) + spacing;
      j := j + 1;
    }
    assert line[..j] == line;
    LoopWidth(font, spacing, line);
    if lineWidth > 0 {
      lineWidth := lineWidth - spacing;
    }
  }

  /** The width sum grows by one glyph at the end. */
  lemma {:induction false} SumWidthsSnoc(font: Font, s: string, c: char)
    ensures SumWidths(font, s + [c]) == SumWidths(font, s) + Width(GetGlyph(c, font))
    decreases |s|
  {
    if |s| == 0 {
      assert s + [c] == [c];
    } else {
      assert (s + [c])[1..] == s[1..] + [c];
      SumWidthsSnoc(font, s[1..], c);
    }
  }

  /** An upper bound that is 0 or attained is the maximum. */
  lemma MaxUnique(font: Font, spacing: nat, lines: seq<string>, w: nat)
    requires forall k :: 0 <= k < |lines| ==> LineWidth(font, spacing, lines[k]) <= w
    requires w == 0 || exists k :: 0 <= k < |lines| && w == LineWidth(font, spacing, lines[k])
    ensures w == ContentWidth(font, spacing, lines)
  {
  }

  // ---------------------------------------------------------------------------
  // rendering

  /** A frame with `height` rows of `width` cells. */
  predicate Shaped(f: Frame, height: nat, width: nat) {
    |f| == height && forall y :: 0 <= y < height ==> |f[y]| == width
  }

  function Blank(height: nat, width: nat): (f: Frame)
    ensures Shaped(f, height, width)
    ensures forall y, x :: 0 <= y < height && 0 <= x < width ==> f[y][x] == 0
  {
    seq(height, _ => seq(width, _ => 0))
  }

  /** The glyph cell covering (y, x) when the glyph's top-left corner is at (y0, x0). */
  function Cover(g: Glyph, x0: int, y0: int, y: int, x: int): (r: Option<int>)
    requires GlyphOk(g)
    ensures r.Some? <==> y0 <= y < y0 + |g| && x0 <= x < x0 + Width(g)
  {
    if y0 <= y < y0 + |g| && x0 <= x < x0 + Width(g) then Some(g[y - y0][x - x0]) else None
  }

  /** Copy a glyph into the frame, clipped to the frame. */
  function Blit(f: Frame, g: Glyph, x0: int, y0: int, height: nat, width: nat): (r: Frame)
    requires GlyphOk(g) && Shaped(f, height, width)
    ensures Shaped(r, height, width)
    ensures forall y, x :: 0 <= y < height && 0 <= x < width ==> r[y][x] == GetOr(Cover(g, x0, y0, y, x), f[y][x])
  {
    seq(height, y requires 0 <= y < height =>
      seq(width, x requires 0 <= x < width => GetOr(Cover(g, x0, y0, y, x), f[y][x])))
  }

  /** The cell the glyphs of one line put at (y, x), if any; the line starts at (y0, x0). */
  function LinePixel(font: Font, spacing: nat, line: string, x0: int, y0: int, y: int, x: int): Option<int>
    requires FontOk(font)
    decreases |line|
  {
    if |line| == 0 then None
    else
      var g := GetGlyph(line[0], font);
      match Cover(g, x0, y0, y, x)
      case Some(v) => Some(v)
      case None => LinePixel(font, spacing, line[1..], x0 + Width(g) + spacing, y0, y, x)
  }

  /** The cell the glyphs of a list of lines put at (y, x), if any; the first line starts at row
      y0 and each next one `FontHeight + lineHeight` rows lower. */
  function TextPixel(font: Font, lay: Layout, lines: seq<string>, y0: int, y: int, x: int): Option<int>
    requires FontOk(font)
    decreases |lines|
  {
    if |lines| == 0 then None
    else
      match LinePixel(font, lay.spacing, lines[0], lay.left, y0, y, x)
      case Some(v) => Some(v)
      case None => TextPixel(font, lay, lines[1..], y0 + FontHeight + lay.lineHeight, y, x)
  }

  /** Nothing of a line lies left of where it starts. */
  lemma {:induction false} LinePixelLeft(font: Font, spacing: nat, line: string, x0: int, y0: int, y: int, x: int)
    requires FontOk(font) && x < x0
    ensures LinePixel(font, spacing, line, x0, y0, y, x) == None
    decreases |line|
  {
    if |line| > 0 {
      var g := GetGlyph(line[0], font);
      LinePixelLeft(font, spacing, line[1..], x0 + Width(g) + spacing, y0, y, x);
    }
  }

  /** Nothing of a line lies outside its `FontHeight` rows. */
  lemma {:induction false} LinePixelRows(font: Font, spacing: nat, line: string, x0: int, y0: int, y: int, x: int)
    requires FontOk(font) && (y < y0 || y >= y0 + FontHeight)
    ensures LinePixel(font, spacing, line, x0, y0, y, x) == None
    decreases |line|
  {
    if |line| > 0 {
      var g := GetGlyph(line[0], font);
      LinePixelRows(font, spacing, line[1..], x0 + Width(g) + spacing, y0, y, x);
    }
  }

  /** Nothing of the text lies above its first line. */
  lemma {:induction false} TextPixelAbove(font: Font, lay: Layout, lines: seq<string>, y0: int, y: int, x: int)
    requires FontOk(font) && y < y0
    ensures TextPixel(font, lay, lines, y0, y, x) == None
    decreases |lines|
  {
    if |lines| > 0 {
      LinePixelRows(font, lay.spacing, lines[0], lay.left, y0, y, x);
      TextPixelAbove(font, lay, lines[1..], y0 + FontHeight + lay.lineHeight, y, x);
    }
  }

  /** The inner loop of `textToBitmap`: each character's glyph is copied and the pen moves right
      by its width and the spacing. */
  function RenderLine(font: Font, spacing: nat, f: Frame, line: string, x0: int, y0: int, height: nat, width: nat): (r: Frame)
    requires FontOk(font) && Shaped(f, height, width)
    ensures Shaped(r, height, width)
    ensures forall y, x :: 0 <= y < height && 0 <= x < width ==>
      r[y][x] == GetOr(LinePixel(font, spacing, line, x0, y0, y, x), f[y][x])
    decreases |line|
  {
    if |line| == 0 then f
    else
      var g := GetGlyph(line[0], font);
      var f1 := Blit(f, g, x0, y0, height, width);
      var x1 := x0 + Width(g) + spacing;
      var r := RenderLine(font, spacing, f1, line[1..], x1, y0, height, width);
      assert forall y, x :: 0 <= y < height && 0 <= x < width ==>
        r[y][x] == GetOr(LinePixel(font, spacing, line, x0, y0, y, x), f[y][x]) by {
        forall y, x | 0 <= y < height && 0 <= x < width
          ensures r[y][x] == GetOr(LinePixel(font, spacing, line, x0, y0, y, x), f[y][x])
        {
          if Cover(g, x0, y0, y, x).Some? {
            LinePixelLeft(font, spacing, line[1..], x1, y0, y, x);
          }
        }
      }
      r
  }

  /** The outer loop of `textToBitmap`: every line starts at the left padding, and each next line
      `FontHeight + lineHeight` rows lower. */
  function RenderLines(font: Font, lay: Layout, f: Frame, lines: seq<string>, y0: int, height: nat, width: nat): (r: Frame)
    requires FontOk(font) && Shaped(f, height, width)
    ensures Shaped(r, height, width)
    ensures forall y, x :: 0 <= y < height && 0 <= x < width ==>
      r[y][x] == GetOr(TextPixel(font, lay, lines, y0, y, x), f[y][x])
    decreases |lines|
  {
    if |lines| == 0 then f
    else
      var f1 := RenderLine(font, lay.spacing, f, lines[0], lay.left, y0, height, width);
      var y1 := y0 + FontHeight + lay.lineHeight;
      var r := RenderLines(font, lay, f1, lines[1..], y1, height, width);
      assert forall y, x :: 0 <= y < height && 0 <= x < width ==>
        r[y][x] == GetOr(TextPixel(font, lay, lines, y0, y, x), f[y][x]) by {
        forall y, x | 0 <= y < height && 0 <= x < width
          ensures r[y][x] == GetOr(TextPixel(font, lay, lines, y0, y, x), f[y][x])
        {
          if LinePixel(font, lay.spacing, lines[0], lay.left, y0, y, x).Some? {
            if y >= y1 {
              LinePixelRows(font, lay.spacing, lines[0], lay.left, y0, y, x);
            }
            TextPixelAbove(font, lay, lines[1..], y1, y, x);
          }
        }
      }
      r
  }

  /** `textToBitmap`: a frame of exactly the measured size, 0 wherever no glyph cell was copied. */
  function TextToBitmap(text: string, font: Font, cfg: FontConfig): (r: Frame)
    requires FontOk(font)
    ensures |r| == Measure(text, font, cfg).height
    ensures forall y :: 0 <= y < |r| ==> |r[y]| == Measure(text, font, cfg).width
    ensures var s := Measure(text, font, cfg); var lay := LayoutOf(cfg);
      forall y, x :: 0 <= y < s.height && 0 <= x < s.width ==>
        r[y][x] == GetOr(TextPixel(font, lay, Split(text, '\n'), lay.top, y, x), 0)
  {
    var s := Measure(text, font, cfg);
    var lay := LayoutOf(cfg);
    RenderLines(font, lay, Blank(s.height, s.width), Split(text, '\n'), lay.top, s.height, s.width)
  }

  // ---------------------------------------------------------------------------
  // glyph placement

  /** The left edge of character j of a line that starts at x0. */
  function CharX(font: Font, spacing: nat, line: string, x0: int, j: nat): int
    requires j <= |line|
    decreases j
  {
    if j == 0 then x0 else CharX(font, spacing, line[1..], x0 + Width(GetGlyph(line[0], font)) + spacing, j - 1)
  }

  /** Character j starts after the widths of the earlier glyphs and j spacings. */
  lemma {:induction false} CharXClosed(font: Font, spacing: nat, line: string, x0: int, j: nat)
    requires j <= |line|
    ensures CharX(font, spacing, line, x0, j) == x0 + SumWidths(font, line[..j]) + j * spacing
    decreases j
  {
    if j > 0 {
      CharXClosed(font, spacing, line[1..], x0 + Width(GetGlyph(line[0], font)) + spacing, j - 1);
      assert line[..j][1..] == line[1..][..j - 1];
    }
  }

  /** Character j's glyph is what the line shows in its rectangle. */
  lemma {:induction false} LineGlyphAt(font: Font, spacing: nat, line: string, x0: int, y0: int, j: nat, gy: nat, gx: nat)
    requires FontOk(font) && j < |line|
    requires gy < |GetGlyph(line[j], font)| && gx < Width(GetGlyph(line[j], font))
    ensures LinePixel(font, spacing, line, x0, y0, y0 + gy, CharX(font, spacing, line, x0, j) + gx)
         == Some(GetGlyph(line[j], font)[gy][gx])
    decreases j
  {
    if j > 0 {
      var g := GetGlyph(line[0], font);
      var x1 := x0 + Width(g) + spacing;
      LineGlyphAt(font, spacing, line[1..], x1, y0, j - 1, gy, gx);
      CharXAfter(font, spacing, line[1..], x1, j - 1);
    }
  }

  lemma {:induction false} CharXAfter(font: Font, spacing: nat, line: string, x0: int, j: nat)
    requires j <= |line|
    ensures CharX(font, spacing, line, x0, j) >= x0
    decreases j
  {
    if j > 0 {
      CharXAfter(font, spacing, line[1..], x0 + Width(GetGlyph(line[0], font)) + spacing, j - 1);
    }
  }

  /** The top row of line k when the first line starts at row y0. */
  function LineY(lay: Layout, y0: int, k: nat): (y: int)
    ensures y >= y0
    decreases k
  {
    if k == 0 then y0 else LineY(lay, y0 + FontHeight + lay.lineHeight, k - 1)
  }

  /** Line k starts `k * (FontHeight + lineHeight)` rows below the first. */
  lemma {:induction false} LineYClosed(lay: Layout, y0: int, k: nat)
    ensures LineY(lay, y0, k) == y0 + k * (FontHeight + lay.lineHeight)
    decreases k
  {
    if k > 0 {
      LineYClosed(lay, y0 + FontHeight + lay.lineHeight, k - 1);
      assert y0 + k * (FontHeight + lay.lineHeight) == (y0 + FontHeight + lay.lineHeight) + (k - 1) * (FontHeight + lay.lineHeight);
    }
  }

  /** The glyph of character j of line k is what the text shows in its rectangle. */
  lemma {:induction false} TextGlyphAt(font: Font, lay: Layout, lines: seq<string>, y0: int, k: nat, j: nat, gy: nat, gx: nat)
    requires FontOk(font) && k < |lines| && j < |lines[k]|
    requires gy < |GetGlyph(lines[k][j], font)| && gx < Width(GetGlyph(lines[k][j], font))
    ensures TextPixel(font, lay, lines, y0, LineY(lay, y0, k) + gy, CharX(font, lay.spacing, lines[k], lay.left, j) + gx)
         == Some(GetGlyph(lines[k][j], font)[gy][gx])
    decreases k
  {
    var x := CharX(font, lay.spacing, lines[k], lay.left, j) + gx;
    if k == 0 {
      LineGlyphAt(font, lay.spacing, lines[0], lay.left, y0, j, gy, gx);
    } else {
      var y1 := y0 + FontHeight + lay.lineHeight;
      var rest := lines[1..];
      assert rest[k - 1] == lines[k];
      TextGlyphAt(font, lay, rest, y1, k - 1, j, gy, gx);
      TextPixelBelow(font, lay, lines, y0, k, LineY(lay, y1, k - 1) + gy, x);
    }
  }

  /** Below the first line, line k's cells are those of line k - 1 of the rest. */
  lemma TextPixelBelow(font: Font, lay: Layout, lines: seq<string>, y0: int, k: nat, y: int, x: int)
    requires FontOk(font) && 0 < k < |lines| && y >= LineY(lay, y0 + FontHeight + lay.lineHeight, k - 1)
    ensures LineY(lay, y0, k) == LineY(lay, y0 + FontHeight + lay.lineHeight, k - 1)
    ensures TextPixel(font, lay, lines, y0, y, x) == TextPixel(font, lay, lines[1..], y0 + FontHeight + lay.lineHeight, y, x)
  {
    TextPixelSkip(font, lay, lines, y0, y, x);
  }

  /** From line k's top down, the picture is that of the lines from k on. */
  lemma {:induction false} TextPixelFrom(font: Font, lay: Layout, lines: seq<string>, y0: int, k: nat, y: int, x: int)
    requires FontOk(font) && k <= |lines| && y >= LineY(lay, y0, k)
    ensures TextPixel(font, lay, lines, y0, y, x) == TextPixel(font, lay, lines[k..], LineY(lay, y0, k), y, x)
    decreases k
  {
    if k == 0 {
      assert lines[0..] == lines;
    } else {
      var y1 := y0 + FontHeight + lay.lineHeight;
      assert LineY(lay, y0, k) == LineY(lay, y1, k - 1);
      TextPixelFrom(font, lay, lines[1..], y1, k - 1, y, x);
      assert lines[1..][k - 1..] == lines[k..];
      TextPixelSkip(font, lay, lines, y0, y, x);
    }
  }

  /** A row below the first line is drawn by the lines after it. */
  lemma TextPixelSkip(font: Font, lay: Layout, lines: seq<string>, y0: int, y: int, x: int)
    requires FontOk(font) && |lines| > 0 && y >= y0 + FontHeight
    ensures TextPixel(font, lay, lines, y0, y, x) == TextPixel(font, lay, lines[1..], y0 + FontHeight + lay.lineHeight, y, x)
  {
    LinePixelRows(font, lay.spacing, lines[0], lay.left, y0, y, x);
  }

  /** In the rendered frame, each glyph cell that falls inside the frame appears at its place:
      line k's row (see `LineYClosed`) and character j's column (see `CharXClosed`). */
  lemma GlyphInFrame(text: string, font: Font, cfg: FontConfig, lines: seq<string>, k: nat, j: nat, gy: nat, gx: nat)
    requires FontOk(font) && lines == Split(text, '\n')
    requires k < |lines| && j < |lines[k]|
    requires gy < |GetGlyph(lines[k][j], font)| && gx < Width(GetGlyph(lines[k][j], font))
    ensures var lay := LayoutOf(cfg); var s := Measure(text, font, cfg);
      var y := LineY(lay, lay.top, k) + gy;
      var x := CharX(font, lay.spacing, lines[k], lay.left, j) + gx;
      y < s.height && x < s.width ==>
        CellAt(TextToBitmap(text, font, cfg), y, x) == Some(GetGlyph(lines[k][j], font)[gy][gx])
  {
    var lay := LayoutOf(cfg);
    var y := LineY(lay, lay.top, k) + gy;
    var x := CharX(font, lay.spacing, lines[k], lay.left, j) + gx;
    TextGlyphAt(font, lay, lines, lay.top, k, j, gy, gx);
    CharXAfter(font, lay.spacing, lines[k], lay.left, j);
    FrameCell(text, font, cfg, y, x);
  }

  lemma FrameCell(text: string, font: Font, cfg: FontConfig, y: int, x: int)
    requires FontOk(font) && 0 <= y && 0 <= x
    ensures var lay := LayoutOf(cfg); var s := Measure(text, font, cfg);
      y < s.height && x < s.width ==>
      CellAt(TextToBitmap(text, font, cfg), y, x) == Some(GetOr(TextPixel(font, lay, Split(text, '\n'), lay.top, y, x), 0))
  {
  }

  /** The cell at (y, x), if the frame has one. */
  function CellAt(f: Frame, y: int, x: int): Option<int> {
    if 0 <= y < |f| && 0 <= x < |f[y]| then Some(f[y][x]) else None
  }
}
