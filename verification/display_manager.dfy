/** The public operations of `DisplayManager`. Each call is a pure function
    of the page buffer `_displayBuffer` as the call finds it and of its
    arguments; it gives back the buffer as the call leaves it and the bus
    transactions it issued, in order. */
module DisplayManager {
  import opened Arduino
  import opened Transport
  import opened Renderer
  import Format
  import AirQuality
  import AirQualityFacts

  /** What one call leaves behind: the page buffer, and the bus traffic. */
  datatype Effect = Effect(buffer: seq<Byte>, bus: seq<Transaction>)

  // ---------------------------------------------------------------------
  // Text and the progress bar

  /** `writeString`: clears the buffer, draws `s` from column `x + 2`, and
      sends the buffer to `page`. What was in the buffer before is lost. */
  function WriteString(font: Font, buf: seq<Byte>, s: string, x: Byte, page: Byte): (e: Effect)
    requires IsCString(s)
    ensures |e.buffer| == Width && |e.bus| == 9
    ensures forall i :: 0 <= i < Width && (i < 2 || i >= TextLimit + 5) ==> e.buffer[i] == 0
  {
    var b := RenderString(font, s, x);
    RenderStringInBounds(font, s, x);
    Effect(b, PageWrite(page, b))
  }

  /** The bus carries exactly the buffer `writeString` drew, to the page it
      was asked for, and the drawing does not depend on the old buffer. */
  lemma WriteStringSends(font: Font, buf: seq<Byte>, buf': seq<Byte>, s: string, x: Byte, page: Byte)
    requires page < Pages && IsCString(s)
    ensures var e := WriteString(font, buf, s, x, page);
      && IsPageWrite(e.bus) && PageOf(e.bus) == page && PageData(e.bus) == e.buffer
      && e == WriteString(font, buf', s, x, page)
  {
    PageWriteRoundTrip(page, RenderString(font, s, x));
  }

  /** `drawProgressBar`: clears the buffer, draws the bar and its label, and
      sends the buffer to `page`. The label buffer `char buffer[5]` holds
      " %d%%" only for percentages -9..99; the label must fit the page. */
  function DrawProgressBar(font: Font, buf: seq<Byte>, x: Byte, page: Byte, percentage: int): (e: Effect)
    requires -9 <= percentage <= 99 && LabelFits(x, percentage)
    ensures |e.buffer| == Width && |e.bus| == 9
    ensures e.buffer[x + 2] == 0xFF && e.buffer[x + 53] == 0xFF
  {
    var b := ProgressBarBuffer(font, x, percentage);
    ProgressBarLayout(font, x, percentage);
    Effect(b, PageWrite(page, b))
  }

  lemma DrawProgressBarSends(font: Font, buf: seq<Byte>, x: Byte, page: Byte, percentage: int)
    requires -9 <= percentage <= 99 && LabelFits(x, percentage)
    requires page < Pages
    ensures var e := DrawProgressBar(font, buf, x, page, percentage);
      && IsPageWrite(e.bus) && PageOf(e.bus) == page && PageData(e.bus) == e.buffer
  {
    PageWriteRoundTrip(page, ProgressBarBuffer(font, x, percentage));
  }

  // ---------------------------------------------------------------------
  // Whole-screen sequences

  /** The data transactions of one all-dark page, from column `i` on: the
      data-mode byte and sixteen literal zeros each. */
  function ZeroFrames(i: nat): (frames: seq<Transaction>)
    requires i <= Width && i % ChunkSize == 0
    ensures |frames| == (Width - i) / ChunkSize
    decreases Width - i
  {
    if i == Width then [] else [[DataMode] + Zeros(ChunkSize)] + ZeroFrames(i + ChunkSize)
  }

  /** One page of `clearDisplay`: the addressing transaction, then eight
      data transactions of literal zeros. It is the page write of an
      all-dark buffer. */
  function ClearPage(page: Byte): (w: seq<Transaction>)
    ensures w == PageWrite(page, Zeros(Width))
  {
    ZeroFramesAreBlank(0);
    [PageCommand(page)] + ZeroFrames(0)
  }

  /** The page loop of `clearDisplay` from `page` on. */
  function ClearWrites(page: nat): (w: seq<Transaction>)
    requires page <= Pages
    ensures |w| == 9 * (Pages - page)
    decreases Pages - page
  {
    if page == Pages then [] else ClearPage(page) + ClearWrites(page + 1)
  }

  /** `clearDisplay`: zeroes the buffer and darkens all eight pages. */
  function ClearDisplay(buf: seq<Byte>): (e: Effect)
    ensures e.buffer == Zeros(Width)
    ensures |e.bus| == 9 * Pages
  {
    Effect(Zeros(Width), ClearWrites(0))
  }

  /** The 128 bytes of a full-screen bitmap that belong to page `p`. */
  function PageSlice(image: seq<Byte>, p: nat): (r: seq<Byte>)
    requires |image| >= Pages * Width && p < Pages
    ensures |r| == Width
  {
    image[p * Width..p * Width + Width]
  }

  /** The page loop of `displayImage` from `page` on: page `p` is sent the
      128 bytes of `image` from `p * 128`. */
  function ImageWrites(image: seq<Byte>, page: nat): (w: seq<Transaction>)
    requires |image| >= Pages * Width && page <= Pages
    ensures |w| == 9 * (Pages - page)
    decreases Pages - page
  {
    if page == Pages then []
    else PageWrite(page, PageSlice(image, page)) + ImageWrites(image, page + 1)
  }

  /** `displayImage`: sends a full-screen bitmap, page by page. The buffer is
      not used. */
  function DisplayImage(buf: seq<Byte>, image: seq<Byte>): (e: Effect)
    requires |image| >= Pages * Width
    ensures e.buffer == buf
    ensures |e.bus| == 9 * Pages
  {
    Effect(buf, ImageWrites(image, 0))
  }

  /** A slice that starts past the first part of a concatenation lies in the
      second part. */
  lemma SliceAfter(a: seq<Transaction>, b: seq<Transaction>, k: nat, n: nat)
    requires |a| <= k && k + n <= |a| + |b|
    ensures (a + b)[k..k + n] == b[k - |a|..k - |a| + n]
  {
  }

  lemma {:induction false} ImageWritesPage(image: seq<Byte>, page: nat, p: nat)
    requires |image| >= Pages * Width && page <= p < Pages
    ensures var k := 9 * (p - page);
      ImageWrites(image, page)[k..k + 9] == PageWrite(p, PageSlice(image, p))
    decreases p - page
  {
    var first := PageWrite(page, PageSlice(image, page));
    var rest := ImageWrites(image, page + 1);
    assert ImageWrites(image, page) == first + rest;
    if p == page {
      assert (first + rest)[..9] == first;
    } else {
      ImageWritesPage(image, page + 1, p);
      SliceAfter(first, rest, 9 * (p - page), 9);
    }
  }

  /** Framing round trip for `displayImage`: transactions 9p .. 9p+8 are a
      page write of page p carrying `image[p*128 .. p*128+127]`. */
  lemma DisplayImageRoundTrip(buf: seq<Byte>, image: seq<Byte>, p: nat)
    requires |image| >= Pages * Width && p < Pages
    ensures var w := DisplayImage(buf, image).bus[9 * p..9 * p + 9];
      && IsPageWrite(w) && PageOf(w) == p && PageData(w) == PageSlice(image, p)
  {
    var slice := PageSlice(image, p);
    ImageWritesPage(image, 0, p);
    assert DisplayImage(buf, image).bus[9 * p..9 * p + 9] == PageWrite(p, slice);
    PageWriteRoundTrip(p, slice);
  }

  lemma {:induction false} ZeroFramesAreBlank(i: nat)
    requires i <= Width && i % ChunkSize == 0
    ensures ZeroFrames(i) == DataFrames(Zeros(Width), i)
    decreases Width - i
  {
    if i < Width {
      ZeroFramesAreBlank(i + ChunkSize);
      ZerosSlice(Width, i, i + ChunkSize);
    }
  }

  lemma {:induction false} ClearWritesAreBlankImage(page: nat)
    requires page <= Pages
    ensures ClearWrites(page) == ImageWrites(Zeros(Pages * Width), page)
    decreases Pages - page
  {
    if page < Pages {
      ClearWritesAreBlankImage(page + 1);
      ZerosSlice(Pages * Width, page * Width, page * Width + Width);
      assert PageSlice(Zeros(Pages * Width), page) == Zeros(Width);
    }
  }

  /** `clearDisplay` sends what `displayImage` sends for an all-dark image. */
  lemma ClearDisplayIsBlankImage(buf: seq<Byte>)
    ensures ClearDisplay(buf).bus == DisplayImage(buf, Zeros(Pages * Width)).bus
  {
    ClearWritesAreBlankImage(0);
  }

  lemma {:induction false} ClearWritesPage(page: nat, p: nat)
    requires page <= p < Pages
    ensures var k := 9 * (p - page);
      ClearWrites(page)[k..k + 9] == PageWrite(p, Zeros(Width))
    decreases p - page
  {
    var first := ClearPage(page);
    var rest := ClearWrites(page + 1);
    assert ClearWrites(page) == first + rest;
    if p == page {
      assert (first + rest)[..9] == first;
    } else {
      ClearWritesPage(page + 1, p);
      SliceAfter(first, rest, 9 * (p - page), 9);
    }
  }

  /** `clearDisplay` darkens pages 0..7 in ascending order, each addressed
      and then given 128 zero bytes. */
  lemma ClearDisplayPages(buf: seq<Byte>, p: nat)
    requires p < Pages
    ensures var w := ClearDisplay(buf).bus[9 * p..9 * p + 9];
      && IsPageWrite(w) && PageOf(w) == p && PageData(w) == Zeros(Width)
  {
    ClearWritesPage(0, p);
    assert ClearDisplay(buf).bus[9 * p..9 * p + 9] == PageWrite(p, Zeros(Width));
    PageWriteRoundTrip(p, Zeros(Width));
  }

  // ---------------------------------------------------------------------
  // Fixed sequences

  /** The heating indicator's addressing transaction, byte for byte. */
  const DotCommand: Transaction := [0x00, 0xB0, 0x7C, 0x17]

  /** The five columns of the filled 5x5 disc. */
  const DotBitmap: seq<Byte> := [0x38, 0x7C, 0x7C, 0x7C, 0x38]

  /** `displayDot`: the addressing transaction, then the disc when `state`
      holds and five dark columns otherwise. The buffer is not touched. */
  function DisplayDot(buf: seq<Byte>, state: bool): (e: Effect)
    ensures e.buffer == buf
    ensures |e.bus| == 2 && |e.bus[1]| == 6 && e.bus[1][0] == DataMode
    ensures Payload(e.bus[1..]) == (if state then DotBitmap else Zeros(5))
  {
    Effect(buf, [DotCommand, [DataMode] + (if state then DotBitmap else Zeros(5))])
  }

  /** Both states address the same place; only the data differs, and the
      disc is symmetric left to right and lights the middle row of every
      column. */
  lemma DisplayDotStates(buf: seq<Byte>)
    ensures DisplayDot(buf, true).bus[0] == DisplayDot(buf, false).bus[0] == DotCommand
    ensures DisplayDot(buf, true).bus[1] != DisplayDot(buf, false).bus[1]
    ensures forall j :: 0 <= j < 5 ==> DotBitmap[j] == DotBitmap[4 - j]
    ensures forall j :: 0 <= j < 5 ==> BitOr(DotBitmap[j], 0x10) == DotBitmap[j]
  {
    assert DisplayDot(buf, true).bus[1][1] != DisplayDot(buf, false).bus[1][1];
    assert BitOr(0x38, 0x10) == 0x38 && BitOr(0x7C, 0x10) == 0x7C;
  }

  /** The initialisation command sequence of `initOLED`, command-mode byte
      first, display-on command last. */
  const InitSequence: Transaction := [
    0x00,
    0xAE, 0xD5, 0x80, 0xA8, 0x3F, 0xD3, 0x00, 0x40, 0x8D, 0x14, 0x20, 0x00, 0xA1,
    0xC8, 0xDA, 0x12, 0x81, 0xCF, 0xD9, 0xF1, 0xDB, 0x20, 0xA4, 0xA6, 0x2E, 0xAF]

  /** `initOLED`: one 27-byte command transaction that starts in command mode
      and ends by switching the display on. The buffer is not touched. */
  function InitOLED(buf: seq<Byte>): (e: Effect)
    ensures e.buffer == buf && |e.bus| == 1
    ensures |e.bus[0]| == 27 && e.bus[0][0] == CommandMode && e.bus[0][26] == 0xAF
  {
    Effect(buf, [InitSequence])
  }

  /** `begin`: initialisation followed by `clearDisplay`. */
  function Begin(buf: seq<Byte>): (e: Effect)
    ensures e.buffer == Zeros(Width)
    ensures |e.bus| == 1 + 9 * Pages && e.bus[0] == InitSequence
  {
    var init := InitOLED(buf);
    var clear := ClearDisplay(init.buffer);
    Effect(clear.buffer, init.bus + clear.bus)
  }

  /** After `begin`, transaction 1 + 9p .. 9 + 9p darkens page p. */
  lemma BeginClearsEveryPage(buf: seq<Byte>, p: nat)
    requires p < Pages
    ensures var w := Begin(buf).bus[1 + 9 * p..10 + 9 * p];
      && IsPageWrite(w) && PageOf(w) == p && PageData(w) == Zeros(Width)
  {
    var clear := ClearDisplay(buf).bus;
    assert Begin(buf).bus == [InitSequence] + clear;
    SliceAfter([InitSequence], clear, 1 + 9 * p, 9);
    ClearDisplayPages(buf, p);
  }

  // ---------------------------------------------------------------------
  // The measurement screen

  /** The CO2 text of page 0: the reading printed with `%d`, framed by
      fixed text. */
  function CO2Line(co2: int): (s: string)
    ensures IsCString(s)
    ensures -32768 <= co2 <= 32767 ==> |s| <= 15
  {
    Format.NatToDecimalLength(Abs(co2));
    "CO2: " + Format.IntToDecimal(co2) + " PPM"
  }

  /** Reading page 0's text back: between the fixed frame stands the
      printed reading, and it decodes to the reading. */
  lemma CO2LineReadsBack(co2: int)
    ensures var s := CO2Line(co2);
      && |s| >= 10 && s[..5] == "CO2: " && s[|s| - 4..] == " PPM"
      && Format.DecimalValue(s[5..|s| - 4]) == co2
  {
    var s := CO2Line(co2);
    var d := Format.IntToDecimal(co2);
    assert s[5..|s| - 4] == d;
    Format.IntToDecimalRoundTrip(co2);
  }

  /** The climate text of page 2: both readings truncated to `int`. */
  function ClimateLine(temp: real, hum: real): (s: string)
    ensures IsCString(s)
  {
    "T:" + Format.IntToDecimal(TruncReal(temp)) + "C  H:" + Format.IntToDecimal(TruncReal(hum)) + "%"
  }

  /** The particulate line is fixed text, not a reading. */
  function PMLine(): (s: string)
    ensures IsCString(s)
  {
    "PM2.5: 10 ug/m3"
  }

  /** The PM2.5 value the composite is computed with on this screen. */
  const ScreenPM25 := 10.0

  /** The percentage the bar shows. */
  function ScreenScore(co2: int, hum: real): int
  {
    AirQuality.QualityScore(co2, ScreenPM25, hum)
  }

  /** `displayData`: CO2 on page 0, temperature and humidity on page 2, the
      fixed PM2.5 line on page 4, the composite score as a bar on page 6,
      then the heating dot. The bar's percentage must fit `drawProgressBar`'s
      label buffer. */
  function DisplayData(font: Font, buf: seq<Byte>, co2: int, temp: real, hum: real, heating: bool): (e: Effect)
    requires -9 <= ScreenScore(co2, hum) <= 99
    ensures |e.bus| == 4 * 9 + 2
    ensures |e.buffer| == Width && e.buffer[2] == 0xFF && e.buffer[53] == 0xFF
  {
    var score := ScreenScore(co2, hum);
    assert |PercentLabel(score)| <= 4;
    var l1 := WriteString(font, buf, CO2Line(co2), 0, 0);
    var l2 := WriteString(font, l1.buffer, ClimateLine(temp, hum), 0, 2);
    var l3 := WriteString(font, l2.buffer, PMLine(), 0, 4);
    var l4 := DrawProgressBar(font, l3.buffer, 0, 6, score);
    var l5 := DisplayDot(l4.buffer, heating);
    Effect(l5.buffer, l1.bus + l2.bus + l3.bus + l4.bus + l5.bus)
  }

  /** `displayData` issues, in order, exactly what the four drawing calls
      and the dot would issue on their own; none of them depends on the
      buffer the previous one left, and the bar stays in the buffer. */
  lemma DisplayDataSequence(font: Font, buf: seq<Byte>, co2: int, temp: real, hum: real, heating: bool)
    requires -9 <= ScreenScore(co2, hum) <= 99
    ensures var e := DisplayData(font, buf, co2, temp, hum, heating);
      && e.bus == WriteString(font, buf, CO2Line(co2), 0, 0).bus
                + WriteString(font, buf, ClimateLine(temp, hum), 0, 2).bus
                + WriteString(font, buf, PMLine(), 0, 4).bus
                + DrawProgressBar(font, buf, 0, 6, ScreenScore(co2, hum)).bus
                + DisplayDot(buf, heating).bus
      && e.buffer == ProgressBarBuffer(font, 0, ScreenScore(co2, hum))
  {
    var l1 := WriteString(font, buf, CO2Line(co2), 0, 0);
    var l2 := WriteString(font, l1.buffer, ClimateLine(temp, hum), 0, 2);
    var l3 := WriteString(font, l2.buffer, PMLine(), 0, 4);
    WriteStringSends(font, l1.buffer, buf, ClimateLine(temp, hum), 0, 2);
    WriteStringSends(font, l2.buffer, buf, PMLine(), 0, 4);
  }

  /** Five runs of transactions laid end to end, the first four nine long. */
  lemma ScreenBusSlices(a: seq<Transaction>, b: seq<Transaction>, c: seq<Transaction>, d: seq<Transaction>, dot: seq<Transaction>)
    requires |a| == 9 && |b| == 9 && |c| == 9 && |d| == 9
    ensures var bus := a + b + c + d + dot;
      && bus[0..9] == a && bus[9..18] == b && bus[18..27] == c && bus[27..36] == d && bus[36..] == dot
  {
    var bus := a + b + c + d + dot;
    assert bus == a + (b + (c + (d + dot)));
  }

  /** The screen page by page: pages 0, 2, 4 and 6 are written in that order
      with the CO2 text, the climate text, the fixed PM2.5 text and the bar,
      and the last two transactions are the heating dot. */
  lemma DisplayDataPages(font: Font, buf: seq<Byte>, co2: int, temp: real, hum: real, heating: bool)
    requires -9 <= ScreenScore(co2, hum) <= 99
    ensures var bus := DisplayData(font, buf, co2, temp, hum, heating).bus;
      && IsPageWrite(bus[0..9]) && PageOf(bus[0..9]) == 0
      && PageData(bus[0..9]) == RenderString(font, CO2Line(co2), 0)
      && IsPageWrite(bus[9..18]) && PageOf(bus[9..18]) == 2
      && PageData(bus[9..18]) == RenderString(font, ClimateLine(temp, hum), 0)
      && IsPageWrite(bus[18..27]) && PageOf(bus[18..27]) == 4
      && PageData(bus[18..27]) == RenderString(font, PMLine(), 0)
      && IsPageWrite(bus[27..36]) && PageOf(bus[27..36]) == 6
      && PageData(bus[27..36]) == ProgressBarBuffer(font, 0, ScreenScore(co2, hum))
      && bus[36..] == DisplayDot(buf, heating).bus
  {
    var score := ScreenScore(co2, hum);
    var a := WriteString(font, buf, CO2Line(co2), 0, 0).bus;
    var b := WriteString(font, buf, ClimateLine(temp, hum), 0, 2).bus;
    var c := WriteString(font, buf, PMLine(), 0, 4).bus;
    var d := DrawProgressBar(font, buf, 0, 6, score).bus;
    DisplayDataSequence(font, buf, co2, temp, hum, heating);
    ScreenBusSlices(a, b, c, d, DisplayDot(buf, heating).bus);
    WriteStringSends(font, buf, buf, CO2Line(co2), 0, 0);
    WriteStringSends(font, buf, buf, ClimateLine(temp, hum), 0, 2);
    WriteStringSends(font, buf, buf, PMLine(), 0, 4);
    DrawProgressBarSends(font, buf, 0, 6, score);
  }

  /** The bar never reflects a PM2.5 reading: it is computed with 10.0, whose
      score is 84, so for any non-negative CO2 reading it lies in 43..93 and
      the label always fits. */
  lemma ScreenScoreRange(co2: int, hum: real)
    requires co2 >= 0
    ensures AirQuality.PM25Score(ScreenPM25) == 84
    ensures 43 <= ScreenScore(co2, hum) <= 93
  {
    assert AirQuality.PM25Tenths(10.0) == 100;
    assert Map(100, 0, 120, 100, 80) == TruncDiv(-2000, 120) + 100;
    AirQualityFacts.CO2QualityMatchesScore(co2);
    var sum := AirQuality.CO2Score(co2) * 40 + 84 * 40 + AirQuality.HumidityScore(hum) * 20;
    assert 4360 <= sum <= 9360;
    TruncDivMonotone(4360, sum, 100);
    TruncDivMonotone(sum, 9360, 100);
  }
}
