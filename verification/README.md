# Air-quality monitor: scoring engine and OLED page renderer

A Dafny model of the two components of the Arduino air-quality monitor that
hold its logic:

- **`AirQuality`** turns a CO2 reading (ppm), a PM2.5 reading (µg/m³) and a
  relative humidity (%) into per-metric scores, a weighted composite score,
  five-level categories, French labels and a 10-cell text progress bar.
- **`DisplayManager`** drives a 128x64 monochrome OLED over I2C. It keeps a
  128-byte buffer for one 8-row page and draws text and a progress bar into
  it. It then frames the buffer into the controller's bus transactions: one
  4-byte page/column command, then eight 16-byte data chunks, each behind
  a `0x40` data-mode byte.

Every operation is a pure function. A `DisplayManager` call takes the page
buffer it finds and its arguments, and returns an `Effect`: the buffer it
leaves and the list of transactions it issued. Each transaction is one
`Wire.beginTransmission … endTransmission` group, as a `seq<Byte>`.

Modules:

| file | module | contents |
|---|---|---|
| `arduino.dfy` | `Arduino` | `uint8_t` as `Byte`, C++ truncating division, `(int)` of a float, `min`, `|` on bytes, the Arduino core's `map` and its properties |
| `format.dfy` | `Format` | `sprintf("%d")` and its decoding |
| `air_quality.dfy` | `AirQuality`, `AirQualityFacts` | the scoring and classification functions, then the properties proved about them |
| `transport.dfy` | `Transport` | display geometry, the page-write framing and its decoding |
| `renderer.dfy` | `Renderer` | `writeChar`, the glyph loop of `writeString`, the bar and label of `drawProgressBar`, with layout-by-rule reference definitions |
| `display_manager.dfy` | `DisplayManager` | the public calls as `Effect`s: `writeString`, `drawProgressBar`, `clearDisplay`, `displayImage`, `displayDot`, `initOLED`, `begin`, `displayData` |

How C++ is modelled:

- Integer division truncates toward zero (`TruncDiv`), as in C++. Dafny's
  own `/` is Euclidean.
- `map(x, inMin, inMax, outMin, outMax)` is the Arduino core definition
  `(x - inMin) * (outMax - outMin) / (inMax - inMin) + outMin`, with the
  truncating division.
- Floating-point readings are exact `real`s. `(int)f` truncates toward zero
  (`TruncReal`).
- `0xB0 | page` is computed on `bv8`.
- `writeString` keeps its column in a `uint8_t`: `(x + 2) % 256`.
- The font table `font5x7` is a parameter of type `nat -> Byte`, indexed
  like the flat array, `(c - ' ') * 5 + column`.
- A C string is modelled by its characters before the terminating NUL.
  Text arguments are therefore required to hold no NUL (`IsCString`).

Points where the code behaves differently from what one might expect; the
model follows the code:

- The composite score is computed in `int` division
  (src/AirQuality.cpp:53), so it truncates instead of rounding.
- The humidity score is 100 on [40,60], 75 on [30,40) ∪ (60,70] and 50
  elsewhere.
- `drawProgressBar` does not clamp the percentage. Its `char buffer[5]`
  holds " %d%%" and the NUL only for percentages -9..99, so that range is
  the precondition.
- A negative CO2 reading is not clamped: `map` extrapolates above 100. So
  the score ranges are proved for non-negative readings.

## Model

| member | source | states |
|---|---|---|
| Arduino.Min | src/AirQuality.cpp:30 | `min` gives one of its arguments and is at most both |
| Arduino.TruncDiv | src/AirQuality.cpp:53 | C++ `int` division, truncating toward zero; definition, no contract; properties in Arduino.TruncDivMagnitude and Arduino.TruncDivRemainder |
| Arduino.BitOr | src/DisplayManager.cpp:37 | C++ `\|` on two bytes; definition, no contract; property in Transport.PageCommandSelectsPage |
| Arduino.Map | src/AirQuality.cpp:26-30 | the Arduino core's `map` with truncating division; definition, no contract; properties in Arduino.MapEndpoints, Arduino.MapDescendingMonotone and Arduino.MapAscendingMonotone |
| Arduino.TruncDivMagnitude | src/AirQuality.cpp:53 | the C++ quotient has magnitude floor(\|a\|/\|d\|); when it is not zero, it is negative exactly when the operands' signs differ |
| Arduino.TruncDivRemainder | src/AirQuality.cpp:53 | the C++ remainder is smaller than the divisor in magnitude and has the sign of the dividend |
| Arduino.TruncDivMonotone | src/AirQuality.cpp:53 | C++ division by a positive divisor is monotone, also across zero |
| Arduino.TruncDivExact | src/AirQuality.cpp:26-30 | a multiple of the divisor divides exactly, whatever the signs |
| Arduino.TruncReal | src/AirQuality.cpp:34-38 | `(int)` of a float is the integer next to it toward zero |
| Arduino.TruncRealMonotone | src/AirQuality.cpp:34-38 | `(int)` of a float is monotone |
| Arduino.MapEndpoints | src/AirQuality.cpp:26-30 | `map` sends the input range's ends to the output range's ends |
| Arduino.MapDescendingMonotone | src/AirQuality.cpp:26-38 | `map` onto a decreasing range is non-increasing for every input |
| Arduino.MapAscendingMonotone | src/DisplayManager.cpp:196 | `map` onto an increasing range is non-decreasing |
| Arduino.MapJustBelow | src/AirQuality.cpp:35-38 | one step below its input range, a descending `map` narrower than its input still gives the top of its output |
| Arduino.MapDescendingBounds | src/AirQuality.cpp:26-38 | inside the input range, a descending `map` stays inside the output range |
| Format.NatToDecimal | src/DisplayManager.cpp:107 | `%d` of a natural number is a non-empty run of digits without a leading zero |
| Format.IntToDecimal | src/DisplayManager.cpp:107 | `%d` is digits, with a leading '-' exactly for negative numbers |
| Format.NatToDecimalRoundTrip | src/DisplayManager.cpp:107 | reading back the digits of `%d` gives the number |
| Format.IntToDecimalRoundTrip | src/DisplayManager.cpp:209 | reading back `%d` output, sign included, gives the number |
| Format.NatToDecimalLength | src/DisplayManager.cpp:208-209 | numbers below 10, 100 and 1000 print in 1, 2 and 3 digits, larger ones in at least 4, and numbers below 10000 and 100000 in at most 4 and 5 |
| AirQuality.CO2Quality | src/AirQuality.cpp:3-9 | `getCO2Quality`; definition, no contract; properties in AirQualityFacts.CO2QualityMatchesScore |
| AirQuality.PM25Quality | src/AirQuality.cpp:11-17 | `getPM25Quality`; definition, no contract; properties in AirQualityFacts.PM25QualityMatchesScore |
| AirQuality.HumidityQuality | src/AirQuality.cpp:19-23 | `getHumidityQuality`; definition, no contract; properties in AirQualityFacts.HumidityQualityMatchesScore |
| AirQuality.CO2Score | src/AirQuality.cpp:25-31 | `mapCO2ToScore`; definition, no contract; properties in AirQualityFacts.CO2QualityMatchesScore, AirQualityFacts.CO2ScoreSegmentEnds and AirQualityFacts.CO2ScoreMonotone |
| AirQuality.PM25Tenths | src/AirQuality.cpp:34-38 | `(int)(pm25 * 10)`; definition, no contract; bounds from Arduino.TruncReal and AirQualityFacts.QualityScoreFitsInt |
| AirQuality.PM25Score | src/AirQuality.cpp:33-39 | `mapPM25ToScore`; definition, no contract; properties in AirQualityFacts.PM25QualityMatchesScore, AirQualityFacts.PM25ScoreSegmentEnds and AirQualityFacts.PM25ScoreMonotone |
| AirQuality.HumidityScore | src/AirQuality.cpp:41-45 | `mapHumidityToScore`; definition, no contract; properties in AirQualityFacts.HumidityQualityMatchesScore |
| AirQuality.QualityScore | src/AirQuality.cpp:47-54 | `getQualityScore`; definition, no contract; properties in AirQualityFacts.QualityScoreBounds and AirQualityFacts.QualityScoreMonotone |
| AirQuality.QualityText | src/AirQuality.cpp:56-65 | `getQualityText` for the five enumerators; definition, no contract; properties in AirQualityFacts.QualityTextDistinct |
| AirQuality.ProgressBarText | src/AirQuality.cpp:67-83 | `generateProgressBar`, for the scores -99..999 that `scoreStr[5]` holds; definition, no ensures; properties in AirQualityFacts.ProgressBarTextShape |
| AirQuality.Ordinal | src/AirQuality.h:8-14 | every category's enum value lies in 0..4 |
| AirQuality.QualityTextOfValue | src/AirQuality.cpp:56-65 | each enum value 0..4 gets its category's label |
| AirQuality.BarCells | src/AirQuality.cpp:71-77 | the cell loop adds one character per remaining cell |
| AirQualityFacts.CO2ScoreInBand | src/AirQuality.cpp:25-31 | for ppm ≥ 0 the CO2 score lies in the band of the category `getCO2Quality` (lines 3-9) gives |
| AirQualityFacts.BandsDisjoint | src/AirQuality.cpp:25-31 | the five score bands do not overlap |
| AirQualityFacts.CO2QualityMatchesScore | src/AirQuality.cpp:25-31 | for ppm ≥ 0 the score is in [0,100], and the category is the given one exactly when the score is in its band (both directions) |
| AirQualityFacts.CO2ScoreSegmentEnds | src/AirQuality.cpp:25-31 | 0→100, 800→80, 801→79, 1000→60, 1001→59, 1500→40, 1501→39, 2000→20, 2001→19, 3000→0 |
| AirQualityFacts.CO2ScoreSaturates | src/AirQuality.cpp:30 | every reading from 3000 ppm on scores 0 |
| AirQualityFacts.CO2ScoreMonotone | src/AirQuality.cpp:25-31 | the CO2 score is non-increasing for ppm ≥ 0, across segment boundaries too |
| AirQualityFacts.PM25ScoreInBand | src/AirQuality.cpp:33-39 | for pm25 ≥ 0 the PM2.5 score lies in the band of the category `getPM25Quality` (lines 11-17) gives |
| AirQualityFacts.PM25SegmentBand | src/AirQuality.cpp:35-38 | a PM2.5 segment stays in its band even when truncation to tenths leaves the reading one tenth below the segment's first input |
| AirQualityFacts.PM25QualityMatchesScore | src/AirQuality.cpp:33-39 | for pm25 ≥ 0 the score is in [0,100], and the category is the given one exactly when the score is in its band |
| AirQualityFacts.PM25ScoreSegmentEnds | src/AirQuality.cpp:33-39 | 0.0→100, 12.0→80, 12.1→79, 35.4→60, 35.5→59, 55.4→40, 55.5→39, 150.4→20, 150.5→19, 200.0→0 |
| AirQualityFacts.PM25BinaryCutPoints | src/AirQuality.cpp:13-14 | the exact binary values of the floats nearest 35.4 and 55.4 lie above the cut points, so the model makes them MODERATE/59 and POOR/39 |
| AirQualityFacts.PM25TenthsIntEdges | src/AirQuality.cpp:34-38 | the truncated tenths are 32767 at 3276.79 and 32768 at 3276.8, and -32768 at -3276.85 and -32769 at -3276.9 |
| AirQualityFacts.PM25ScoreSaturates | src/AirQuality.cpp:38 | every reading from 200.0 on scores 0 |
| AirQualityFacts.PM25ScoreMonotone | src/AirQuality.cpp:33-39 | the PM2.5 score is non-increasing for pm25 ≥ 0 |
| AirQualityFacts.HumidityQualityMatchesScore | src/AirQuality.cpp:41-45 | the score is 100 exactly on [40,60], 75 exactly on [30,40) ∪ (60,70], and 50 elsewhere; the category of `getHumidityQuality` (lines 19-23) follows the score; MODERATE and VERY_POOR never occur |
| AirQualityFacts.QualityScoreBounds | src/AirQuality.cpp:47-54 | the composite is the truncated weighted sum (within one unit below the exact mean), and lies in [10,100] for non-negative readings |
| AirQualityFacts.QualityScoreFitsInt | src/AirQuality.cpp:47-54 | for CO2 ≥ 0 and PM2.5 in [0, 3276.8), the tenths cast lies in 0..32767 and the weighted sum in 1000..10000, so nothing leaves a 16-bit `int` |
| AirQualityFacts.QualityScoreExample | src/AirQuality.cpp:47-54 | (800 ppm, 12.0, 50 %) gives 84 |
| AirQualityFacts.QualityScoreMonotone | src/AirQuality.cpp:47-54 | a higher CO2 or PM2.5 reading never raises the composite |
| AirQualityFacts.QualityTextDistinct | src/AirQuality.cpp:56-65 | the five labels are pairwise distinct and none is "Inconnu"; "Inconnu" answers exactly the values outside 0..4 |
| AirQualityFacts.BarCellsShape | src/AirQuality.cpp:69-77 | the cells are full blocks up to the clamped block count, then spaces |
| AirQualityFacts.ProgressBarTextShape | src/AirQuality.cpp:67-83 | for scores 0..100 the text bar is "[", k = score*10/100 full blocks (0..10), 10-k spaces, "] ", the score and "%" |
| Transport.PageCommand | src/DisplayManager.cpp:35-40 | the page/column command; definition, no contract; properties in Transport.PageCommandSelectsPage and Transport.PageWriteRoundTrip |
| Transport.PageCommandSelectsPage | src/DisplayManager.cpp:35-40 | for pages 0..7, `0xB0 \| page` is `0xB0 + page` |
| Transport.DataFrames | src/DisplayManager.cpp:42-49 | the chunk loop sends (128-i)/16 transactions of 17 bytes, each starting with 0x40 |
| Transport.PageWrite | src/DisplayManager.cpp:35-49 | a page write is 9 transactions |
| Transport.DataFramesRoundTrip | src/DisplayManager.cpp:42-49 | removing the marker bytes and concatenating the chunks gives back the buffer |
| Transport.PageWriteRoundTrip | src/DisplayManager.cpp:35-49 | a page write is well formed, and decoding it gives back the page and the whole 128-byte buffer |
| Renderer.Zeros | src/DisplayManager.cpp:27 | `memset` leaves n bytes, every one of them zero |
| Renderer.FoldCase | src/DisplayManager.cpp:13-15 | the case folding of `writeChar`; definition, no contract; property in Renderer.WriteCharFoldsCase |
| Renderer.PutGlyph | src/DisplayManager.cpp:20-23 | columns x..x+4 get the glyph's columns, x+5 gets 0, and nothing else changes |
| Renderer.WriteChar | src/DisplayManager.cpp:12-24 | characters outside ' '..'Z' after case folding leave the buffer as it is; otherwise the glyph lands at max(x,2), a blank column follows it, and nothing else changes |
| Renderer.WriteCharFoldsCase | src/DisplayManager.cpp:13-15 | a lower-case letter draws exactly what its capital draws |
| Renderer.DrawText | src/DisplayManager.cpp:29-33 | for a string without NUL, the glyph loop never touches columns 0, 1 or 125..127 |
| Renderer.RenderString | src/DisplayManager.cpp:26-33 | `writeString`'s buffer is 128 bytes |
| Renderer.TextColumnFirst | src/DisplayManager.cpp:29-33 | the layout's first glyph cell holds glyph 0 when it has one |
| Renderer.TextColumnShift | src/DisplayManager.cpp:29-33 | past the first cell, the layout is that of the rest of the string 7 columns on |
| Renderer.TextColumnStopped | src/DisplayManager.cpp:30 | a loop that stops at once draws nothing |
| Renderer.DrawTextLayout | src/DisplayManager.cpp:29-33 | the glyph loop produces the layout rule: glyph k at p+7k while p+7k < 120, blank elsewhere |
| Renderer.RenderStringLayout | src/DisplayManager.cpp:26-33 | `writeString`'s buffer is the layout rule from x+2, for every x < 254 |
| Renderer.RenderStringInBounds | src/DisplayManager.cpp:26-33 | for any string length and any x, nothing is written at or past column 125 or into columns 0..1 |
| Renderer.RenderStringKeepsSeventeen | src/DisplayManager.cpp:29-33 | from x = 0 only the first 17 characters are drawn |
| Renderer.FillBar | src/DisplayManager.cpp:197-199 | of the 48 bar columns, those before `blocks` become 0xFF and the rest 0x00; nothing else changes |
| Renderer.PercentLabel | src/DisplayManager.cpp:208-209 | " %d%%" is two characters longer than the number; the label and its NUL fit `char buffer[5]` exactly when the percentage is in -9..99; every character has a glyph |
| Renderer.DrawLabel | src/DisplayManager.cpp:211-218 | the label loop keeps the buffer at 128 bytes |
| Renderer.DrawLabelLayout | src/DisplayManager.cpp:211-218 | the label loop writes glyph k at p+7k with a blank column after it, and leaves the rest as it was |
| Renderer.BarFrame | src/DisplayManager.cpp:185-205 | the bracket-and-bar buffer is 128 bytes |
| Renderer.ProgressBarBuffer | src/DisplayManager.cpp:184-218 | `drawProgressBar`'s buffer is 128 bytes |
| Renderer.BarBlocks | src/DisplayManager.cpp:196 | `map(percentage, 0, 100, 0, 48)`; definition, no contract; properties in Renderer.BarBlocksValue, Renderer.BarBlocksMonotone and Renderer.BarBlocksNegative |
| Renderer.BarBlocksValue | src/DisplayManager.cpp:196 | for 0..100 the bar fills percentage*48/100 columns, between 0 and 48 |
| Renderer.BarBlocksMonotone | src/DisplayManager.cpp:196 | a larger percentage never fills fewer columns |
| Renderer.BarBlocksNegative | src/DisplayManager.cpp:196-199 | a negative percentage fills no column |
| Renderer.BarFrameLayout | src/DisplayManager.cpp:185-205 | the frame is 0xFF, 0x80 at x+2; the filled-then-empty bar from x+4; 0x80, 0xFF at x+52; zero elsewhere |
| Renderer.ProgressBarLayout | src/DisplayManager.cpp:184-218 | the whole bar column by column: blank, brackets, exactly BarBlocks filled columns, one blank column, then glyph k of " %d%%" at x+55+7k |
| DisplayManager.WriteString | src/DisplayManager.cpp:26-50 | `writeString` leaves a 128-byte buffer with the margins blank and sends 9 transactions |
| DisplayManager.WriteStringSends | src/DisplayManager.cpp:26-50 | the transactions are a page write of the requested page carrying exactly the drawn buffer, whatever the buffer held before |
| DisplayManager.DrawProgressBar | src/DisplayManager.cpp:184-236 | `drawProgressBar` sends 9 transactions and leaves both bracket bars in the buffer |
| DisplayManager.DrawProgressBarSends | src/DisplayManager.cpp:220-235 | the transactions are a page write of the requested page carrying exactly the drawn buffer |
| DisplayManager.ZeroFrames | src/DisplayManager.cpp:63-70 | the zero-chunk loop sends (128-i)/16 transactions |
| DisplayManager.ZeroFramesAreBlank | src/DisplayManager.cpp:63-70 | the literal zero chunks are the chunks of an all-zero buffer |
| DisplayManager.ClearPage | src/DisplayManager.cpp:56-70 | one page of `clearDisplay` is the page write of an all-zero buffer |
| DisplayManager.ClearWrites | src/DisplayManager.cpp:55-71 | the page loop sends 9 transactions per remaining page |
| DisplayManager.ClearDisplay | src/DisplayManager.cpp:52-72 | `clearDisplay` leaves the buffer all zero and sends 72 transactions |
| DisplayManager.ClearWritesAreBlankImage | src/DisplayManager.cpp:52-72 | the clear loop sends what the image loop sends for an all-zero image |
| DisplayManager.ClearDisplayIsBlankImage | src/DisplayManager.cpp:52-72 | `clearDisplay` sends what `displayImage` sends for a 1024-byte zero image |
| DisplayManager.ClearWritesPage | src/DisplayManager.cpp:55-71 | transactions 9k..9k+8 of the clear loop are page k's blank page write |
| DisplayManager.ClearDisplayPages | src/DisplayManager.cpp:52-72 | transactions 9p..9p+8 decode to page p with 128 zero bytes, so pages go in ascending order |
| DisplayManager.PageSlice | src/DisplayManager.cpp:177 | the bitmap bytes of one page are 128 long |
| DisplayManager.ImageWrites | src/DisplayManager.cpp:165-181 | the page loop sends 9 transactions per remaining page |
| DisplayManager.DisplayImage | src/DisplayManager.cpp:164-182 | `displayImage` sends 72 transactions and leaves the buffer as it was |
| DisplayManager.ImageWritesPage | src/DisplayManager.cpp:165-181 | transactions 9k..9k+8 of the image loop are the page write of page k's slice |
| DisplayManager.DisplayImageRoundTrip | src/DisplayManager.cpp:164-182 | transactions 9p..9p+8 decode to page p carrying image[128p .. 128p+127] |
| DisplayManager.DisplayDot | src/DisplayManager.cpp:74-101 | `displayDot` sends two transactions, the second carrying the disc or five zeros, and leaves the buffer as it was |
| DisplayManager.DisplayDotStates | src/DisplayManager.cpp:74-101 | both states send the same addressing bytes 0x00 0xB0 0x7C 0x17 and differ in the data; the disc is left-right symmetric |
| DisplayManager.InitOLED | src/DisplayManager.cpp:131-159 | `initOLED` sends one 27-byte transaction that starts with 0x00 and ends with 0xAF, and leaves the buffer as it was |
| DisplayManager.Begin | src/DisplayManager.cpp:7-10 | `begin` sends the init sequence and then 72 clear transactions, and leaves the buffer all zero |
| DisplayManager.BeginClearsEveryPage | src/DisplayManager.cpp:7-10 | after `begin`'s init transaction, each page p is darkened in ascending order |
| DisplayManager.CO2Line | src/DisplayManager.cpp:107 | the CO2 text holds no NUL, so `writeString` does not stop early at a NUL; for a 16-bit `int` reading it is at most 15 characters, within the 17 the glyph loop draws from x = 0 |
| DisplayManager.CO2LineReadsBack | src/DisplayManager.cpp:107 | the CO2 text is "CO2: ", the printed reading and " PPM", and decoding the middle gives back the reading |
| DisplayManager.ClimateLine | src/DisplayManager.cpp:111 | the climate text holds no NUL |
| DisplayManager.PMLine | src/DisplayManager.cpp:115 | the fixed PM2.5 text holds no NUL |
| DisplayManager.ScreenScore | src/DisplayManager.cpp:119 | the bar's percentage is `getQualityScore(co2, 10.0, hum)`; definition, no contract; properties in DisplayManager.ScreenScoreRange |
| DisplayManager.DisplayData | src/DisplayManager.cpp:103-124 | `displayData` sends 38 transactions and leaves the bar in the buffer |
| DisplayManager.DisplayDataSequence | src/DisplayManager.cpp:103-124 | `displayData` sends exactly what its four drawing calls and the dot send alone, in that order; the buffer ends as the bar's |
| DisplayManager.DisplayDataPages | src/DisplayManager.cpp:103-124 | pages 0, 2, 4, 6 get the CO2 text, the climate text, the fixed "PM2.5: 10 ug/m3" text and the bar; the dot comes last |
| DisplayManager.ScreenScoreRange | src/DisplayManager.cpp:119-120 | the bar uses PM2.5 = 10.0, which scores 84, so for CO2 ≥ 0 the percentage is 43..93 and fits the label |

## Left out

- The I2C address. It is the same for every transaction of a display, so
  transactions are modelled without it.
- `Wire.begin`, `Wire.setClock` and `delay` in `initOLED`. These are bus
  set-up and timing, not traffic.
- `pgm_read_byte`. Reading the font or the image from flash is modelled as
  plain indexing.
- The contents of `font5x7` and `flameChar` (src/Font.h). Only the
  declaration exists, so the font is a parameter.
- `SensorManager`. It wraps serial and DHT libraries that are not part of
  this model.
- How the controller interprets the opcodes of `initOLED`, `displayDot` and
  the page command. Only the bytes are modelled.
- Floating-point rounding. A reading is the exact decimal value it
  denotes, so `pm25 * 10` is computed without rounding before it is
  truncated, and the cut-point comparisons (`pm25 <= 35.4` and the like)
  are exact. On AVR, `double` is 32 bits like `float`, so a reading of 35.4
  and the constant 35.4 are the same float and the board agrees with
  AirQualityFacts.PM25ScoreSegmentEnds. Fed instead the exact binary value
  of the float nearest 35.4 (35.400001525878906250) or 55.4, the model
  gives MODERATE/59 and POOR/39 where the board gives GOOD/60 and
  MODERATE/40 (AirQualityFacts.PM25BinaryCutPoints).
- AirQuality.ProgressBarText: requires the score in -99..999, the range for
  which `char scoreStr[5]` holds "%d%%" and its NUL. For other scores the
  source overflows `scoreStr`.
- AVR 16-bit `int` overflow. Scores, products and printed numbers are
  unbounded integers. AirQualityFacts.QualityScoreFitsInt shows nothing
  overflows for CO2 ≥ 0 and PM2.5 in [0, 3276.8). Outside that range the
  board differs from the model: `(int)(pm25 * 10)` leaves `int` for
  PM2.5 ≥ 3276.8 or ≤ -3276.9 (C++ truncates first, so -3276.85 still
  gives -32768; AirQualityFacts.PM25TenthsIntEdges); `pm25Score * 40` overflows for PM2.5 at or
  below about -432; `co2Score * 40` overflows for CO2 at or below -28 800 ppm;
  and the sum overflows sooner when both readings are negative. There,
  AirQuality.PM25Score, AirQuality.QualityScore and the lemmas about them
  (AirQualityFacts.PM25ScoreSaturates, AirQualityFacts.PM25ScoreMonotone,
  AirQualityFacts.QualityScoreMonotone) describe unbounded arithmetic.
- Renderer.RenderStringLayout: stated for x < 254 only. For x = 254 or 255,
  `pos = x + 2` wraps in `uint8_t`. `RenderString` models the wrap, and
  Renderer.RenderStringInBounds covers every x.
- DisplayManager.DisplayData: requires the bar percentage to be in -9..99,
  the range `drawProgressBar`'s `char buffer[5]` can hold. For other
  values the source overflows that buffer. DisplayManager.ScreenScoreRange
  shows every CO2 reading ≥ 0 meets the requirement.
- DisplayManager.DrawProgressBar: requires the percentage in -9..99 and the
  last label column inside the page (`LabelFits`). For a percentage outside
  -9..99 the source overflows `char buffer[5]`. For x = 254 or 255,
  `uint8_t pos = x + 2` wraps to 0 or 1 and the source draws the whole bar
  in bounds from column 0 or 1; the model leaves those two start columns
  out. For every other x that fails `LabelFits`, the source writes past the
  128-byte buffer.
