/** `AirQuality`: per-metric scores (0..100) for CO2, PM2.5 and relative
    humidity, their weighted composite, five-level categories built on the
    same cut points, the category labels, and the textual progress bar.
    Sensor values that are `float` in the sketch are exact reals here. */
module AirQuality {
  import opened Arduino
  import Format

  /** `AirQuality::Quality`, best first; the enum values are 0..4 in this order. */
  datatype Quality = Excellent | Good | Moderate | Poor | VeryPoor

  /** The integer value C++ gives each enumerator. */
  function Ordinal(q: Quality): (n: nat)
    ensures n < 5
  {
    match q
    case Excellent => 0
    case Good => 1
    case Moderate => 2
    case Poor => 3
    case VeryPoor => 4
  }

  /** The best score of the band a category stands for. */
  function BandTop(q: Quality): int
  {
    match q
    case Excellent => 100
    case Good => 79
    case Moderate => 59
    case Poor => 39
    case VeryPoor => 19
  }

  /** The worst score of the band a category stands for. */
  function BandBottom(q: Quality): int
  {
    match q
    case Excellent => 80
    case Good => 60
    case Moderate => 40
    case Poor => 20
    case VeryPoor => 0
  }

  /** The five bands split [0, 100], best category highest. */
  predicate InBand(q: Quality, score: int)
  {
    BandBottom(q) <= score <= BandTop(q)
  }

  /** The CO2 `map` segment of each category: first and last ppm. */
  function CO2SegmentStart(q: Quality): int
  {
    match q
    case Excellent => 0
    case Good => 801
    case Moderate => 1001
    case Poor => 1501
    case VeryPoor => 2001
  }

  function CO2SegmentEnd(q: Quality): int
  {
    match q
    case Excellent => 800
    case Good => 1000
    case Moderate => 1500
    case Poor => 2000
    case VeryPoor => 3000
  }

  /** The PM2.5 cut points of each category, in µg/m³: the tenth the
      segment's `map` starts from, and the highest reading in the segment
      (the clamp point for the worst). Readings between the previous end
      and the start, such as 12.05, already belong to the segment; they
      truncate to the previous end's tenth. */
  function PM25SegmentStart(q: Quality): real
  {
    match q
    case Excellent => 0.0
    case Good => 12.1
    case Moderate => 35.5
    case Poor => 55.5
    case VeryPoor => 150.5
  }

  function PM25SegmentEnd(q: Quality): real
  {
    match q
    case Excellent => 12.0
    case Good => 35.4
    case Moderate => 55.4
    case Poor => 150.4
    case VeryPoor => 200.0
  }

  // ---------------------------------------------------------------------
  // Categories

  function CO2Quality(ppm: int): Quality
  {
    if ppm <= 800 then Excellent
    else if ppm <= 1000 then Good
    else if ppm <= 1500 then Moderate
    else if ppm <= 2000 then Poor
    else VeryPoor
  }

  function PM25Quality(pm25: real): Quality
  {
    if pm25 <= 12.0 then Excellent
    else if pm25 <= 35.4 then Good
    else if pm25 <= 55.4 then Moderate
    else if pm25 <= 150.4 then Poor
    else VeryPoor
  }

  function HumidityQuality(humidity: real): Quality
  {
    if 40.0 <= humidity <= 60.0 then Excellent
    else if 30.0 <= humidity <= 70.0 then Good
    else Poor
  }

  // ---------------------------------------------------------------------
  // Scores

  /** Five descending `map` segments with breakpoints 800/1000/1500/2000 ppm;
      readings above 3000 ppm are treated as 3000. */
  function CO2Score(ppm: int): int
  {
    if ppm <= 800 then Map(ppm, 0, 800, 100, 80)
    else if ppm <= 1000 then Map(ppm, 801, 1000, 79, 60)
    else if ppm <= 1500 then Map(ppm, 1001, 1500, 59, 40)
    else if ppm <= 2000 then Map(ppm, 1501, 2000, 39, 20)
    else Map(Min(ppm, 3000), 2001, 3000, 19, 0)
  }

  /** `(int)(pm25 * 10)`: the reading in tenths of a microgram, truncated. */
  function PM25Tenths(pm25: real): int
  {
    TruncReal(pm25 * 10.0)
  }

  /** The same shape as the CO2 score on tenths of a microgram, with
      breakpoints 12.0/35.4/55.4/150.4; readings above 200.0 count as 200.0. */
  function PM25Score(pm25: real): int
  {
    var t := PM25Tenths(pm25);
    if pm25 <= 12.0 then Map(t, 0, 120, 100, 80)
    else if pm25 <= 35.4 then Map(t, 121, 354, 79, 60)
    else if pm25 <= 55.4 then Map(t, 355, 554, 59, 40)
    else if pm25 <= 150.4 then Map(t, 555, 1504, 39, 20)
    else Map(Min(t, 2000), 1505, 2000, 19, 0)
  }

  function HumidityScore(humidity: real): int
  {
    if 40.0 <= humidity <= 60.0 then 100
    else if 30.0 <= humidity <= 70.0 then 75
    else 50
  }

  /** Weighted mean, CO2 40%, PM2.5 40%, humidity 20%, in C++ `int` division. */
  function QualityScore(co2: int, pm25: real, humidity: real): int
  {
    TruncDiv(CO2Score(co2) * 40 + PM25Score(pm25) * 40 + HumidityScore(humidity) * 20, 100)
  }

  // ---------------------------------------------------------------------
  // Labels and the text bar

  /** `getQualityText` on a value of the enum. */
  function QualityText(q: Quality): string
  {
    match q
    case Excellent => "Excellent"
    case Good => "Bon"
    case Moderate => "Modere"
    case Poor => "Mauvais"
    case VeryPoor => "Tres mauvais"
  }

  const Unknown := "Inconnu"

  /** `getQualityText` on any integer stored in a `Quality` variable: the
      `default` branch answers for values that name no enumerator. */
  function QualityTextOfValue(v: int): (s: string)
    ensures 0 <= v < 5 ==> exists q :: Ordinal(q) == v && s == QualityText(q)
  {
    if v == 0 then QualityText(Excellent)
    else if v == 1 then QualityText(Good)
    else if v == 2 then QualityText(Moderate)
    else if v == 3 then QualityText(Poor)
    else if v == 4 then QualityText(VeryPoor)
    else Unknown
  }

  /** The "full block" character `'\xFF'` of the OLED font. */
  const FullBlock: char := 255 as char

  /** Cells `i..9` of the bar: a full block where `i < blocks`, else a space. */
  function BarCells(blocks: int, i: nat): (s: string)
    requires i <= 10
    ensures |s| == 10 - i
    decreases 10 - i
  {
    if i == 10 then ""
    else [if i < blocks then FullBlock else ' '] + BarCells(blocks, i + 1)
  }

  /** `generateProgressBar`: "[", ten cells, "] ", the score and "%". The score
      must print in at most three characters, as `scoreStr[5]` holds "%d%%". */
  function ProgressBarText(score: int): string
    requires -99 <= score <= 999
  {
    "[" + BarCells(Map(score, 0, 100, 0, 10), 0) + "] " + Format.IntToDecimal(score) + "%"
  }
}

/** What the scoring and classification functions promise: ranges,
    monotonicity, agreement of scores and categories, exact breakpoint
    values, and the shape of the labels and the text bar. */
module AirQualityFacts {
  import opened Arduino
  import Format
  import opened AirQuality

  // ---------------------------------------------------------------------
  // Properties of the CO2 score

  /** Each CO2 segment lands in the score band of the category with the
      same cut points. */
  lemma CO2ScoreInBand(ppm: int)
    requires ppm >= 0
    ensures InBand(CO2Quality(ppm), CO2Score(ppm))
  {
    if ppm <= 800 {
      MapDescendingBounds(ppm, 0, 800, 100, 80);
    } else if ppm <= 1000 {
      MapDescendingBounds(ppm, 801, 1000, 79, 60);
    } else if ppm <= 1500 {
      MapDescendingBounds(ppm, 1001, 1500, 59, 40);
    } else if ppm <= 2000 {
      MapDescendingBounds(ppm, 1501, 2000, 39, 20);
    } else {
      MapDescendingBounds(Min(ppm, 3000), 2001, 3000, 19, 0);
    }
  }

  /** The bands are disjoint, so a score lies in exactly one of them. */
  lemma BandsDisjoint(q: Quality, r: Quality, score: int)
    requires InBand(q, score) && InBand(r, score)
    ensures q == r
  {
  }

  /** For every non-negative reading the CO2 score is in [0, 100], and the
      category is exactly the band the score falls in. */
  lemma CO2QualityMatchesScore(ppm: int)
    requires ppm >= 0
    ensures 0 <= CO2Score(ppm) <= 100
    ensures forall q :: CO2Quality(ppm) == q <==> InBand(q, CO2Score(ppm))
  {
    CO2ScoreInBand(ppm);
    forall q | InBand(q, CO2Score(ppm))
      ensures CO2Quality(ppm) == q
    {
      BandsDisjoint(q, CO2Quality(ppm), CO2Score(ppm));
    }
  }

  /** Each CO2 segment starts at the top of its band and ends at the bottom:
      0 -> 100, 800 -> 80, 801 -> 79, 1000 -> 60, 1001 -> 59, 1500 -> 40,
      1501 -> 39, 2000 -> 20, 2001 -> 19, 3000 -> 0. */
  lemma CO2ScoreSegmentEnds(q: Quality)
    ensures CO2Score(CO2SegmentStart(q)) == BandTop(q)
    ensures CO2Score(CO2SegmentEnd(q)) == BandBottom(q)
  {
  }

  /** Every reading from 3000 ppm on scores 0. */
  lemma CO2ScoreSaturates(ppm: int)
    requires ppm >= 3000
    ensures CO2Score(ppm) == 0
  {
  }

  /** The CO2 score never rises as the concentration rises, also across
      segment boundaries. */
  lemma CO2ScoreMonotone(a: int, b: int)
    requires 0 <= a <= b
    ensures CO2Score(a) >= CO2Score(b)
  {
    if CO2Quality(a) == CO2Quality(b) {
      if a <= 800 {
        MapDescendingMonotone(a, b, 0, 800, 100, 80);
      } else if a <= 1000 {
        MapDescendingMonotone(a, b, 801, 1000, 79, 60);
      } else if a <= 1500 {
        MapDescendingMonotone(a, b, 1001, 1500, 59, 40);
      } else if a <= 2000 {
        MapDescendingMonotone(a, b, 1501, 2000, 39, 20);
      } else {
        MapDescendingMonotone(Min(a, 3000), Min(b, 3000), 2001, 3000, 19, 0);
      }
    } else {
      CO2ScoreInBand(a);
      CO2ScoreInBand(b);
    }
  }

  // ---------------------------------------------------------------------
  // Properties of the PM2.5 score

  lemma PM25ScoreInBand(pm25: real)
    requires pm25 >= 0.0
    ensures InBand(PM25Quality(pm25), PM25Score(pm25))
  {
    var t := PM25Tenths(pm25);
    if pm25 <= 12.0 {
      MapDescendingBounds(t, 0, 120, 100, 80);
    } else if pm25 <= 35.4 {
      PM25SegmentBand(t, 121, 354, 79, 60);
    } else if pm25 <= 55.4 {
      PM25SegmentBand(t, 355, 554, 59, 40);
    } else if pm25 <= 150.4 {
      PM25SegmentBand(t, 555, 1504, 39, 20);
    } else {
      PM25SegmentBand(Min(t, 2000), 1505, 2000, 19, 0);
    }
  }

  /** Truncating to tenths can leave a reading just above a cut point one
      tenth below its segment's first input; `map` still gives the top of
      the band there. */
  lemma PM25SegmentBand(t: int, inMin: int, inMax: int, outMin: int, outMax: int)
    requires inMin < inMax && 0 <= outMin - outMax < inMax - inMin
    requires inMin - 1 <= t <= inMax
    ensures outMax <= Map(t, inMin, inMax, outMin, outMax) <= outMin
  {
    MapJustBelow(inMin, inMax, outMin, outMax);
    MapEndpoints(inMin, inMax, outMin, outMax);
    MapDescendingMonotone(inMin - 1, t, inMin, inMax, outMin, outMax);
    MapDescendingMonotone(t, inMax, inMin, inMax, outMin, outMax);
  }

  /** For every non-negative reading the PM2.5 score is in [0, 100], and the
      category is exactly the band the score falls in. */
  lemma PM25QualityMatchesScore(pm25: real)
    requires pm25 >= 0.0
    ensures 0 <= PM25Score(pm25) <= 100
    ensures forall q :: PM25Quality(pm25) == q <==> InBand(q, PM25Score(pm25))
  {
    PM25ScoreInBand(pm25);
    forall q | InBand(q, PM25Score(pm25))
      ensures PM25Quality(pm25) == q
    {
      BandsDisjoint(q, PM25Quality(pm25), PM25Score(pm25));
    }
  }

  /** Each PM2.5 segment's last reading scores the bottom of its band:
      12.0 -> 80, 35.4 -> 60, 55.4 -> 40, 150.4 -> 20, 200.0 -> 0; the first
      reading of each (0.0, 12.1, 35.5, 55.5, 150.5) scores its top. */
  lemma PM25ScoreSegmentEnds(q: Quality)
    ensures PM25Score(PM25SegmentStart(q)) == BandTop(q)
    ensures PM25Score(PM25SegmentEnd(q)) == BandBottom(q)
  {
    match q
    case Excellent =>
      assert PM25Tenths(0.0) == 0 && PM25Tenths(12.0) == 120;
    case Good =>
      assert PM25Tenths(12.1) == 121 && PM25Tenths(35.4) == 354;
    case Moderate =>
      assert PM25Tenths(35.5) == 355 && PM25Tenths(55.4) == 554;
    case Poor =>
      assert PM25Tenths(55.5) == 555 && PM25Tenths(150.4) == 1504;
    case VeryPoor =>
      assert PM25Tenths(150.5) == 1505 && PM25Tenths(200.0) == 2000;
  }

  /** Readings are decimal values. Given instead the exact binary value of
      the `float` nearest 35.4 or 55.4, which lies just above the cut point,
      the model moves that reading to the next category and one point down. */
  lemma PM25BinaryCutPoints()
    ensures PM25Quality(35.400001525878906250) == Moderate
    ensures PM25Score(35.400001525878906250) == 59
    ensures PM25Quality(55.400001525878906250) == Poor
    ensures PM25Score(55.400001525878906250) == 39
  {
    assert PM25Tenths(35.400001525878906250) == 354;
    assert PM25Tenths(55.400001525878906250) == 554;
  }

  /** Where the tenths leave a 16-bit `int`: the truncated value first
      exceeds 32767 at 3276.8 and first falls below -32768 at -3276.9. */
  lemma PM25TenthsIntEdges()
    ensures PM25Tenths(3276.79) == 32767 && PM25Tenths(3276.8) == 32768
    ensures PM25Tenths(-3276.85) == -32768 && PM25Tenths(-3276.9) == -32769
  {
  }

  /** Every reading from 200.0 on scores 0. */
  lemma PM25ScoreSaturates(pm25: real)
    requires pm25 >= 200.0
    ensures PM25Score(pm25) == 0
  {
  }

  lemma PM25ScoreMonotone(a: real, b: real)
    requires 0.0 <= a <= b
    ensures PM25Score(a) >= PM25Score(b)
  {
    var ta, tb := PM25Tenths(a), PM25Tenths(b);
    TruncRealMonotone(a * 10.0, b * 10.0);
    if PM25Quality(a) == PM25Quality(b) {
      if a <= 12.0 {
        MapDescendingMonotone(ta, tb, 0, 120, 100, 80);
      } else if a <= 35.4 {
        MapDescendingMonotone(ta, tb, 121, 354, 79, 60);
      } else if a <= 55.4 {
        MapDescendingMonotone(ta, tb, 355, 554, 59, 40);
      } else if a <= 150.4 {
        MapDescendingMonotone(ta, tb, 555, 1504, 39, 20);
      } else {
        MapDescendingMonotone(Min(ta, 2000), Min(tb, 2000), 1505, 2000, 19, 0);
      }
    } else {
      PM25ScoreInBand(a);
      PM25ScoreInBand(b);
    }
  }

  // ---------------------------------------------------------------------
  // Properties of the humidity score

  /** The humidity score is a step function whose steps are exactly the
      categories; the moderate and very-poor categories never occur. */
  lemma HumidityQualityMatchesScore(humidity: real)
    ensures HumidityScore(humidity) == 100 <==> 40.0 <= humidity <= 60.0
    ensures HumidityScore(humidity) == 75
        <==> (30.0 <= humidity < 40.0 || 60.0 < humidity <= 70.0)
    ensures HumidityScore(humidity) == 50 <==> (humidity < 30.0 || humidity > 70.0)
    ensures HumidityQuality(humidity) == Excellent <==> HumidityScore(humidity) == 100
    ensures HumidityQuality(humidity) == Good <==> HumidityScore(humidity) == 75
    ensures HumidityQuality(humidity) == Poor <==> HumidityScore(humidity) == 50
    ensures HumidityQuality(humidity) != Moderate && HumidityQuality(humidity) != VeryPoor
  {
  }

  // ---------------------------------------------------------------------
  // Properties of the composite score

  /** The composite is the truncated weighted sum: within one unit below
      the exact weighted mean. For non-negative readings it lies in
      [10, 100]: the humidity score is never below 50. */
  lemma QualityScoreBounds(co2: int, pm25: real, humidity: real)
    requires co2 >= 0 && pm25 >= 0.0
    ensures var sum := CO2Score(co2) * 40 + PM25Score(pm25) * 40 + HumidityScore(humidity) * 20;
      QualityScore(co2, pm25, humidity) * 100 <= sum < QualityScore(co2, pm25, humidity) * 100 + 100
    ensures 10 <= QualityScore(co2, pm25, humidity) <= 100
  {
    CO2QualityMatchesScore(co2);
    PM25QualityMatchesScore(pm25);
  }

  /** On AVR `int` has 16 bits. For a CO2 reading >= 0 and a PM2.5 reading
      in [0, 3276.8) the cast to tenths and every term of the weighted sum
      stay in 0..32767, so unbounded arithmetic computes what the board does. */
  lemma QualityScoreFitsInt(co2: int, pm25: real, humidity: real)
    requires co2 >= 0 && 0.0 <= pm25 < 3276.8
    ensures 0 <= PM25Tenths(pm25) <= 32767
    ensures var sum := CO2Score(co2) * 40 + PM25Score(pm25) * 40 + HumidityScore(humidity) * 20;
      1000 <= sum <= 10000
  {
    CO2QualityMatchesScore(co2);
    PM25QualityMatchesScore(pm25);
  }

  lemma QualityScoreExample()
    ensures QualityScore(800, 12.0, 50.0) == 84
  {
  }

  /** A worse reading of any one metric never raises the composite. */
  lemma QualityScoreMonotone(co2: int, co2': int, pm25: real, pm25': real, humidity: real)
    requires 0 <= co2 <= co2' && 0.0 <= pm25 <= pm25'
    ensures QualityScore(co2, pm25, humidity) >= QualityScore(co2', pm25', humidity)
  {
    CO2ScoreMonotone(co2, co2');
    PM25ScoreMonotone(pm25, pm25');
    TruncDivMonotone(
      CO2Score(co2') * 40 + PM25Score(pm25') * 40 + HumidityScore(humidity) * 20,
      CO2Score(co2) * 40 + PM25Score(pm25) * 40 + HumidityScore(humidity) * 20, 100);
  }

  // ---------------------------------------------------------------------
  // Properties of the labels and the text bar

  /** The five labels are distinct, none of them is the fallback, and the
      fallback answers exactly the integers outside 0..4. */
  lemma QualityTextDistinct(q: Quality, r: Quality, v: int)
    ensures QualityText(q) == QualityText(r) <==> q == r
    ensures QualityText(q) != Unknown
    ensures QualityTextOfValue(v) == Unknown <==> !(0 <= v < 5)
    ensures QualityTextOfValue(Ordinal(q)) == QualityText(q)
  {
  }

  function Repeat(c: char, n: nat): (s: string)
    ensures |s| == n && forall i :: 0 <= i < n ==> s[i] == c
  {
    seq(n, _ => c)
  }

  /** From cell `i` on, the bar is full blocks up to `blocks` (clamped to the
      ten cells) and spaces after. */
  lemma {:induction false} BarCellsShape(blocks: int, i: nat)
    requires i <= 10
    ensures var k := if blocks < i then i else if blocks > 10 then 10 else blocks;
      BarCells(blocks, i) == Repeat(FullBlock, k - i) + Repeat(' ', 10 - k)
    decreases 10 - i
  {
    if i < 10 {
      BarCellsShape(blocks, i + 1);
    }
  }

  /** For scores 0..100 the text bar holds `score * 10 / 100` full blocks,
      then spaces up to ten cells, then "] ", the score and "%". */
  lemma ProgressBarTextShape(score: int)
    requires 0 <= score <= 100
    ensures var k := score * 10 / 100;
      && 0 <= k <= 10
      && ProgressBarText(score)
         == "[" + Repeat(FullBlock, k) + Repeat(' ', 10 - k) + "] " + Format.IntToDecimal(score) + "%"
  {
    var m := Map(score, 0, 100, 0, 10);
    assert m == TruncDiv(score * 10, 100) == score * 10 / 100;
    BarCellsShape(m, 0);
  }
}
