/** Rasterising into the one-page buffer of `DisplayManager`: 128 column
    bytes, each the 8 vertical pixels of one column of the selected page.
    Text is drawn with the 5-column font, 7 columns per character; the
    progress bar is drawn as fixed bracket patterns around 48 bar columns,
    followed by the percentage. */
module Renderer {
  import opened Arduino
  import opened Transport
  import Format

  /** The `font5x7` table as a flat byte array: the five columns of the
      glyph of `c` are at `(c - ' ') * 5 .. (c - ' ') * 5 + 4`. Its contents
      are not part of this model, so drawing takes it as a parameter. */
  type Font = nat -> Byte

  /** Glyph pitch: five glyph columns and two blank ones. */
  const Advance: nat := 7

  /** A drawing pass stops before the glyph whose first column is here. */
  const TextLimit: nat := Width - 8

  /** A run of `n` zero bytes: the buffer `memset` leaves, or any all-dark
      stretch of screen. */
  function Zeros(n: nat): (z: seq<Byte>)
    ensures |z| == n && forall i :: 0 <= i < n ==> z[i] == 0
  {
    seq(n, _ => 0)
  }

  lemma ZerosSlice(n: nat, a: nat, b: nat)
    requires a <= b <= n
    ensures Zeros(n)[a..b] == Zeros(b - a)
  {
    assert forall i :: 0 <= i < b - a ==> Zeros(n)[a..b][i] == Zeros(n)[a + i];
  }

  /** A C string as the model holds it: the characters before the
      terminating NUL, so none of them is NUL. */
  predicate IsCString(s: string)
  {
    forall k :: 0 <= k < |s| ==> s[k] != '\0'
  }

  function GlyphIndex(c: char): nat
    requires ' ' <= c
  {
    c as int - ' ' as int
  }

  /** Column `j` (0..4) of the glyph of `c`. */
  function GlyphColumn(font: Font, c: char, j: nat): Byte
    requires ' ' <= c && j < 5
  {
    font(GlyphIndex(c) * 5 + j)
  }

  /** `writeChar`'s case folding: 'a'..'z' become 'A'..'Z'. */
  function FoldCase(c: char): char
  {
    if 'a' <= c <= 'z' then (c as int - 'a' as int + 'A' as int) as char else c
  }

  /** The characters `writeChar` has a glyph for. */
  predicate HasGlyph(c: char)
  {
    ' ' <= c <= 'Z'
  }

  /** The left margin `writeChar` keeps: glyphs start at column 2 or later. */
  function GlyphStart(x: int): int
  {
    if x < 2 then 2 else x
  }

  /** Writes the five columns of `c` at `x..x+4` and a blank column at `x+5`. */
  function PutGlyph(font: Font, buf: seq<Byte>, c: char, x: nat): (r: seq<Byte>)
    requires ' ' <= c && x + 5 < |buf|
    ensures |r| == |buf|
    ensures forall i :: 0 <= i < |r| ==>
      r[i] == (if x <= i < x + 5 then GlyphColumn(font, c, i - x) else if i == x + 5 then 0 else buf[i])
  {
    buf[..x] + seq(5, j requires 0 <= j < 5 => GlyphColumn(font, c, j)) + [0] + buf[x + 6..]
  }

  /** `writeChar`. Lower-case letters are drawn as capitals; a character
      without a glyph leaves the buffer as it is; otherwise the glyph lands at
      `x`, moved right to column 2 if `x` is smaller, with a blank column
      after it, and no other column changes. The glyph must fit the buffer. */
  function WriteChar(font: Font, buf: seq<Byte>, c: char, x: Byte): (r: seq<Byte>)
    requires |buf| == Width
    requires HasGlyph(FoldCase(c)) ==> x + 5 < Width
    ensures |r| == Width
    ensures !HasGlyph(FoldCase(c)) ==> r == buf
    ensures HasGlyph(FoldCase(c)) ==>
      var lo := GlyphStart(x);
      && (forall j :: 0 <= j < 5 ==> r[lo + j] == GlyphColumn(font, FoldCase(c), j))
      && r[lo + 5] == 0
      && (forall i :: 0 <= i < Width && !(lo <= i <= lo + 5) ==> r[i] == buf[i])
  {
    var d := FoldCase(c);
    if HasGlyph(d) then PutGlyph(font, buf, d, GlyphStart(x)) else buf
  }

  /** A lower-case letter draws exactly what its capital draws. */
  lemma WriteCharFoldsCase(font: Font, buf: seq<Byte>, c: char, x: Byte)
    requires |buf| == Width && 'a' <= c <= 'z' && x + 5 < Width
    ensures var upper := (c as int - 32) as char;
      && 'A' <= upper <= 'Z'
      && WriteChar(font, buf, c, x) == WriteChar(font, buf, upper, x)
  {
  }

  // ---------------------------------------------------------------------
  // Text

  /** The glyph loop of `writeString`: draws `s[0]` at `pos`, moves 7 columns
      right, and stops at the end of the string or once `pos` reaches 120.
      It never touches the two margin columns on either side. */
  function DrawText(font: Font, buf: seq<Byte>, s: string, pos: nat): (r: seq<Byte>)
    requires |buf| == Width && pos < 256 && IsCString(s)
    ensures |r| == Width
    ensures forall i :: 0 <= i < Width && (i < 2 || i >= TextLimit + 5) ==> r[i] == buf[i]
    decreases |s|
  {
    if |s| == 0 || pos >= TextLimit then buf
    else DrawText(font, WriteChar(font, buf, s[0], pos), s[1..], pos + Advance)
  }

  /** The buffer `writeString` builds: cleared, then the text from column
      `x + 2`, kept in `uint8_t` as the source does. */
  function RenderString(font: Font, s: string, x: Byte): (r: seq<Byte>)
    requires IsCString(s)
    ensures |r| == Width
  {
    DrawText(font, Zeros(Width), s, (x + 2) % 256)
  }

  /** Text layout by rule: glyph k of `s` sits at columns p+7k .. p+7k+4 if
      the loop reaches it (k < |s| and p + 7k < 120) and it has a glyph;
      every other column from p on is blank. */
  function TextColumn(font: Font, s: string, p: nat, i: nat): Byte
  {
    if i < p then 0
    else
      var k, j := (i - p) / Advance, (i - p) % Advance;
      if k < |s| && p + Advance * k < TextLimit && j < 5 && HasGlyph(FoldCase(s[k]))
      then GlyphColumn(font, FoldCase(s[k]), j)
      else 0
  }

  /** The columns of the first glyph cell of the layout. */
  lemma TextColumnFirst(font: Font, s: string, p: nat, i: nat)
    requires |s| > 0 && p < TextLimit && p <= i < p + Advance
    ensures TextColumn(font, s, p, i)
      == (if i - p < 5 && HasGlyph(FoldCase(s[0])) then GlyphColumn(font, FoldCase(s[0]), i - p) else 0)
  {
    assert (i - p) / Advance == 0 && (i - p) % Advance == i - p;
  }

  /** Past the first glyph cell, the layout of `s` from `p` is the layout
      of the rest of `s` from `p + 7`. */
  lemma TextColumnShift(font: Font, s: string, p: nat, i: nat)
    requires |s| > 0 && p + Advance <= i
    ensures TextColumn(font, s, p, i) == TextColumn(font, s[1..], p + Advance, i)
  {
    var k, j := (i - p) / Advance, (i - p) % Advance;
    assert i - p == Advance * k + j;
    assert i - (p + Advance) == Advance * (k - 1) + j;
    assert (i - (p + Advance)) / Advance == k - 1 && (i - (p + Advance)) % Advance == j;
    assert k - 1 < |s[1..]| ==> s[1..][k - 1] == s[k];
  }

  /** A layout whose loop stops at once is blank from `p` on. */
  lemma TextColumnStopped(font: Font, s: string, p: nat, i: nat)
    requires |s| == 0 || p >= TextLimit
    requires p <= i
    ensures TextColumn(font, s, p, i) == 0
  {
    var k := (i - p) / Advance;
    assert k >= 0;
  }

  lemma {:induction false} DrawTextLayout(font: Font, buf: seq<Byte>, s: string, p: nat)
    requires |buf| == Width && 2 <= p < 256 && IsCString(s)
    requires forall i :: p <= i < Width ==> buf[i] == 0
    ensures forall i :: 0 <= i < Width ==>
      DrawText(font, buf, s, p)[i] == (if i < p then buf[i] else TextColumn(font, s, p, i))
    decreases |s|
  {
    var r := DrawText(font, buf, s, p);
    if |s| == 0 || p >= TextLimit {
      forall i | p <= i < Width
        ensures TextColumn(font, s, p, i) == 0
      {
        TextColumnStopped(font, s, p, i);
      }
    } else {
      var b1 := WriteChar(font, buf, s[0], p);
      var p' := p + Advance;
      assert GlyphStart(p) == p;
      DrawTextLayout(font, b1, s[1..], p');
      assert r == DrawText(font, b1, s[1..], p');
      forall i | 0 <= i < Width
        ensures r[i] == (if i < p then buf[i] else TextColumn(font, s, p, i))
      {
        if p <= i < p' {
          TextColumnFirst(font, s, p, i);
        } else if i >= p' {
          TextColumnShift(font, s, p, i);
        }
      }
    }
  }

  /** `writeString`'s buffer follows the layout rule for every string, for
      every start column whose `x + 2` does not wrap around in `uint8_t`. */
  lemma RenderStringLayout(font: Font, s: string, x: Byte)
    requires x < 254 && IsCString(s)
    ensures forall i :: 0 <= i < Width ==> RenderString(font, s, x)[i] == TextColumn(font, s, x + 2, i)
  {
    assert (x + 2) % 256 == x + 2;
    assert RenderString(font, s, x) == DrawText(font, Zeros(Width), s, x + 2);
    DrawTextLayout(font, Zeros(Width), s, x + 2);
  }

  /** No string of any length writes at or past column 125, nor into the
      two left margin columns. */
  lemma RenderStringInBounds(font: Font, s: string, x: Byte)
    requires IsCString(s)
    ensures forall i :: 0 <= i < Width && (i < 2 || i >= TextLimit + 5) ==> RenderString(font, s, x)[i] == 0
  {
  }

  /** From column 0, glyphs 0..16 are drawn and later ones are dropped: the
      buffer is that of the first 17 characters. */
  lemma RenderStringKeepsSeventeen(font: Font, s: string)
    requires |s| > 17 && IsCString(s)
    ensures RenderString(font, s, 0) == RenderString(font, s[..17], 0)
  {
    RenderStringLayout(font, s, 0);
    RenderStringLayout(font, s[..17], 0);
    forall i | 0 <= i < Width
      ensures TextColumn(font, s, 2, i) == TextColumn(font, s[..17], 2, i)
    {
    }
  }

  // ---------------------------------------------------------------------
  // Progress bar

  /** Filled columns of the 48-column bar: `map(percentage, 0, 100, 0, 48)`. */
  function BarBlocks(percentage: int): int
  {
    Map(percentage, 0, 100, 0, 48)
  }

  /** The loop over the bar: column `pos + i` becomes 0xFF when `i < blocks`
      and 0x00 otherwise, for i from `i` to 47; nothing else changes. */
  function FillBar(buf: seq<Byte>, pos: nat, blocks: int, i: nat): (r: seq<Byte>)
    requires |buf| == Width && pos + 48 <= Width && i <= 48
    ensures |r| == Width
    ensures forall k :: 0 <= k < Width ==>
      r[k] == (if pos + i <= k < pos + 48 then (if k - pos < blocks then 0xFF else 0x00) else buf[k])
    decreases 48 - i
  {
    if i == 48 then buf
    else FillBar(buf[pos + i := if i < blocks then 0xFF else 0x00], pos, blocks, i + 1)
  }

  /** `sprintf(buffer, " %d%%", percentage)`. The label and its NUL fit
      `char buffer[5]` exactly for the percentages -9..99. */
  function PercentLabel(percentage: int): (s: string)
    ensures |s| == |Format.IntToDecimal(percentage)| + 2
    ensures |s| + 1 <= 5 <==> -9 <= percentage <= 99
    ensures forall k :: 0 <= k < |s| ==> ' ' <= s[k] <= 'Z'
  {
    Format.NatToDecimalLength(Abs(percentage));
    " " + Format.IntToDecimal(percentage) + "%"
  }

  /** The label loop of `drawProgressBar`: glyph k of `s` at `pos + 7k`,
      without case folding or a glyph check. */
  function DrawLabel(font: Font, buf: seq<Byte>, s: string, pos: nat): (r: seq<Byte>)
    requires |buf| == Width
    requires forall k :: 0 <= k < |s| ==> ' ' <= s[k]
    requires |s| == 0 || pos + Advance * |s| - 2 < Width
    ensures |r| == Width
    decreases |s|
  {
    if |s| == 0 then buf
    else DrawLabel(font, PutGlyph(font, buf, s[0], pos), s[1..], pos + Advance)
  }

  /** Label layout by rule: glyph k of `s` at columns p+7k .. p+7k+4, a
      blank column after each glyph, all else as in `buf`. */
  function LabelColumn(font: Font, buf: seq<Byte>, s: string, p: nat, i: nat): Byte
    requires i < |buf|
    requires forall k :: 0 <= k < |s| ==> ' ' <= s[k]
  {
    if i < p then buf[i]
    else
      var k, j := (i - p) / Advance, (i - p) % Advance;
      if k < |s| && j < 5 then GlyphColumn(font, s[k], j)
      else if k < |s| && j == 5 then 0
      else buf[i]
  }

  lemma {:induction false} DrawLabelLayout(font: Font, buf: seq<Byte>, s: string, p: nat)
    requires |buf| == Width
    requires forall k :: 0 <= k < |s| ==> ' ' <= s[k]
    requires |s| == 0 || p + Advance * |s| - 2 < Width
    ensures forall i :: 0 <= i < Width ==> DrawLabel(font, buf, s, p)[i] == LabelColumn(font, buf, s, p, i)
    decreases |s|
  {
    if |s| > 0 {
      var b1 := PutGlyph(font, buf, s[0], p);
      var p' := p + Advance;
      DrawLabelLayout(font, b1, s[1..], p');
      forall i | 0 <= i < Width
        ensures DrawLabel(font, buf, s, p)[i] == LabelColumn(font, buf, s, p, i)
      {
        if p <= i < p' {
          assert (i - p) / Advance == 0 && (i - p) % Advance == i - p;
        } else if i >= p' {
          var k, j := (i - p) / Advance, (i - p) % Advance;
          assert (i - p') / Advance == k - 1 && (i - p') % Advance == j;
          assert k - 1 < |s[1..]| ==> s[1..][k - 1] == s[k];
        }
      }
    } else {
      forall i | p <= i < Width
        ensures LabelColumn(font, buf, s, p, i) == buf[i]
      {
        var k := (i - p) / Advance;
        assert k >= 0;
      }
    }
  }

  /** The label fits: the last column its last glyph writes is inside the
      buffer. */
  predicate LabelFits(x: Byte, percentage: int)
  {
    x + 53 + Advance * |PercentLabel(percentage)| < Width
  }

  /** The brackets and the bar of `drawProgressBar`, before the label: the
      cleared buffer with the open bracket at `x + 2`, the 48 bar columns
      from `x + 4` and the close bracket at `x + 52`. */
  function BarFrame(x: Byte, percentage: int): (r: seq<Byte>)
    requires x + 54 <= Width
    ensures |r| == Width
  {
    var pos := x + 2;
    var open := Zeros(Width)[pos := 0xFF][pos + 1 := 0x80];
    var bar := FillBar(open, pos + 2, BarBlocks(percentage), 0);
    bar[pos + 50 := 0x80][pos + 51 := 0xFF]
  }

  /** The buffer `drawProgressBar` builds. `char buffer[5]` holds " %d%%"
      only for percentages -9..99, and every column written must exist. */
  function ProgressBarBuffer(font: Font, x: Byte, percentage: int): (r: seq<Byte>)
    requires -9 <= percentage <= 99 && LabelFits(x, percentage)
    ensures |r| == Width
  {
    DrawLabel(font, BarFrame(x, percentage), PercentLabel(percentage), x + 55)
  }

  /** The bar fill is `floor(percentage * 48 / 100)` columns for a
      percentage in 0..100: none at 0, all 48 at 100. */
  lemma BarBlocksValue(p: int)
    requires 0 <= p <= 100
    ensures BarBlocks(p) == p * 48 / 100
    ensures 0 <= BarBlocks(p) <= 48
  {
    assert Map(p, 0, 100, 0, 48) == TruncDiv(p * 48, 100);
    DivMonotone(p * 48, 4800, 100);
  }

  /** A larger percentage never fills fewer columns. */
  lemma BarBlocksMonotone(p: int, q: int)
    requires p <= q
    ensures BarBlocks(p) <= BarBlocks(q)
  {
    MapAscendingMonotone(p, q, 0, 100, 0, 48);
  }

  /** A negative percentage fills no column. */
  lemma BarBlocksNegative(p: int)
    requires p < 0
    ensures BarBlocks(p) <= 0
  {
    MapAscendingMonotone(p, 0, 0, 100, 0, 48);
    assert Map(0, 0, 100, 0, 48) == TruncDiv(0, 100);
    assert TruncDiv(0, 100) == 0;
  }

  /** The frame column by column: blank but for the brackets 0xFF, 0x80 at
      `x + 2` and 0x80, 0xFF at `x + 52`, and the bar columns between them,
      filled exactly for the first `BarBlocks(percentage)`. */
  lemma BarFrameLayout(x: Byte, percentage: int)
    requires x + 54 <= Width
    ensures var r := BarFrame(x, percentage);
      forall i :: 0 <= i < Width ==>
        r[i] == (if i == x + 2 || i == x + 53 then 0xFF
                 else if i == x + 3 || i == x + 52 then 0x80
                 else if x + 4 <= i < x + 52 then (if i - (x + 4) < BarBlocks(percentage) then 0xFF else 0x00)
                 else 0)
  {
  }

  /** What `drawProgressBar` draws, column by column: blank up to `x + 1`;
      the open bracket 0xFF, 0x80; the 48 bar columns, filled exactly for
      the first `BarBlocks(percentage)`; the close bracket 0x80, 0xFF; one
      blank column; then the label, glyph k of " %d%%" at `x + 55 + 7k`, and
      blank after it. */
  lemma ProgressBarLayout(font: Font, x: Byte, percentage: int)
    requires -9 <= percentage <= 99 && LabelFits(x, percentage)
    ensures var r := ProgressBarBuffer(font, x, percentage);
      && (forall i :: 0 <= i < x + 2 ==> r[i] == 0)
      && r[x + 2] == 0xFF && r[x + 3] == 0x80
      && (forall i :: x + 4 <= i < x + 52 ==> r[i] == (if i - (x + 4) < BarBlocks(percentage) then 0xFF else 0x00))
      && r[x + 52] == 0x80 && r[x + 53] == 0xFF && r[x + 54] == 0
      && (forall i :: x + 55 <= i < Width ==> r[i] == LabelColumn(font, Zeros(Width), PercentLabel(percentage), x + 55, i))
  {
    var frame := BarFrame(x, percentage);
    BarFrameLayout(x, percentage);
    DrawLabelLayout(font, frame, PercentLabel(percentage), x + 55);
  }
}
