/** The pieces of the Arduino/AVR C++ toolchain the sketch relies on, written
    out over Dafny's unbounded integers and exact reals: `uint8_t` values,
    truncating integer division, float-to-int conversion, the `min` macro,
    bitwise OR on bytes, and the Arduino core's `map`. */
module Arduino {

  /** A C++ `uint8_t`: one byte of the display buffer or of a bus transaction. */
  type Byte = b: int | 0 <= b < 256

  function Abs(n: int): nat
  {
    if n < 0 then -n else n
  }

  /** The Arduino `min` macro. */
  function Min(a: int, b: int): (m: int)
    ensures m <= a && m <= b
    ensures m == a || m == b
  {
    if a < b then a else b
  }

  /** C++ integer division: the quotient is truncated toward zero. (Dafny's
      own `/` is Euclidean and rounds negative quotients down instead.) */
  function TruncDiv(a: int, d: int): int
    requires d != 0
  {
    if a >= 0 && d > 0 then a / d
    else if a >= 0 then -(a / -d)
    else if d > 0 then -((-a) / d)
    else (-a) / (-d)
  }

  /** The truncated quotient has magnitude floor(|a| / |d|) and, when it is
      not zero, is negative exactly when the operands have opposite signs. */
  lemma TruncDivMagnitude(a: int, d: int)
    requires d != 0
    ensures Abs(TruncDiv(a, d)) == Abs(a) / Abs(d)
    ensures TruncDiv(a, d) < 0 ==> (a < 0) != (d < 0)
    ensures TruncDiv(a, d) > 0 ==> (a < 0) == (d < 0)
  {
    var m, e := Abs(a), Abs(d);
    DivMonotone(0, m, e);
    assert 0 / e == 0;
    if a >= 0 && d > 0 {
      assert TruncDiv(a, d) == m / e;
    } else if a >= 0 {
      assert TruncDiv(a, d) == -((m / e) as int);
    } else if d > 0 {
      assert TruncDiv(a, d) == -((m / e) as int);
    } else {
      assert TruncDiv(a, d) == m / e;
    }
  }

  /** The remainder left by truncating division is smaller than the divisor
      in magnitude and, when it is not zero, has the sign of the dividend. */
  lemma TruncDivRemainder(a: int, d: int)
    requires d != 0
    ensures var r := a - TruncDiv(a, d) * d;
      && (if a < 0 then -(Abs(d) as int) < r <= 0 else 0 <= r < Abs(d))
  {
    var q := TruncDiv(a, d);
    TruncDivMagnitude(a, d);
    var m: int, e: int := Abs(a), Abs(d);
    assert e > 0 && m >= 0;
    assert m == (m / e) * e + m % e;
    assert Abs(q) == m / e;
    if (a < 0) == (d < 0) {
      assert q == m / e;
      assert q * d == (if a < 0 then -((m / e) * e) else (m / e) * e);
    } else {
      assert q == -(m / e);
      assert q * d == (if a < 0 then -((m / e) * e) else (m / e) * e);
    }
  }

  /** A product with a positive factor has the sign of the other factor. */
  lemma MulSign(p: int, d: int)
    requires d > 0
    ensures p >= 1 ==> p * d >= d
    ensures p <= -1 ==> p * d <= -d
  {
  }

  /** Euclidean division by a positive divisor is monotone. */
  lemma DivMonotone(a: nat, b: nat, d: int)
    requires d > 0 && a <= b
    ensures a / d <= b / d
  {
    var qa, qb := a / d, b / d;
    assert qa * d <= a;
    assert b < qb * d + d;
    assert (qa - qb) * d < d;
    MulSign(qa - qb, d);
  }

  /** Euclidean division of a multiple of a positive divisor is exact. */
  lemma DivExact(k: int, d: int)
    requires d > 0
    ensures (k * d) / d == k
  {
    var q, r := (k * d) / d, (k * d) % d;
    assert (k - q) * d == r;
    MulSign(k - q, d);
  }

  /** Truncating division by a positive divisor is monotone in the dividend,
      also across zero. */
  lemma TruncDivMonotone(a: int, b: int, d: int)
    requires d > 0 && a <= b
    ensures TruncDiv(a, d) <= TruncDiv(b, d)
  {
    if a >= 0 {
      DivMonotone(a, b, d);
      assert TruncDiv(a, d) == a / d && TruncDiv(b, d) == b / d;
    } else if b < 0 {
      DivMonotone(-b, -a, d);
      assert TruncDiv(a, d) == -((-a) / d) && TruncDiv(b, d) == -((-b) / d);
    } else {
      DivMonotone(0, -a, d);
      DivMonotone(0, b, d);
      assert 0 / d == 0;
      assert TruncDiv(a, d) == -((-a) / d);
      assert TruncDiv(b, d) == b / d;
    }
  }

  /** A multiple of the divisor divides exactly. */
  lemma TruncDivExact(k: int, d: int)
    requires d != 0
    ensures TruncDiv(k * d, d) == k
  {
    if d > 0 {
      if k >= 0 {
        DivExact(k, d);
      } else {
        assert -(k * d) == (-k) * d;
        DivExact(-k, d);
      }
    } else {
      if k <= 0 {
        assert k * d == (-k) * (-d);
        DivExact(-k, -d);
      } else {
        assert -(k * d) == k * (-d);
        DivExact(k, -d);
      }
    }
  }

  /** C++ conversion of a floating-point value to `int`: truncation toward zero. */
  function TruncReal(r: real): (n: int)
    ensures r >= 0.0 ==> 0 <= n && n as real <= r < n as real + 1.0
    ensures r < 0.0 ==> n <= 0 && n as real - 1.0 < r <= n as real
  {
    if r >= 0.0 then r.Floor else -((-r).Floor)
  }

  lemma TruncRealMonotone(r: real, s: real)
    requires r <= s
    ensures TruncReal(r) <= TruncReal(s)
  {
  }

  /** Bitwise OR of two bytes, as C++ `|` computes it. */
  function BitOr(a: Byte, b: Byte): Byte
  {
    ((a as bv8) | (b as bv8)) as int
  }

  /** Arduino core `map`: re-scales `x` linearly from [inMin, inMax] onto
      [outMin, outMax], computing in `long` with truncating division. */
  function Map(x: int, inMin: int, inMax: int, outMin: int, outMax: int): int
    requires inMax != inMin
  {
    TruncDiv((x - inMin) * (outMax - outMin), inMax - inMin) + outMin
  }

  /** `map` sends the ends of the input range to the ends of the output range. */
  lemma MapEndpoints(inMin: int, inMax: int, outMin: int, outMax: int)
    requires inMax != inMin
    ensures Map(inMin, inMin, inMax, outMin, outMax) == outMin
    ensures Map(inMax, inMin, inMax, outMin, outMax) == outMax
  {
    TruncDivExact(0, inMax - inMin);
    assert (inMax - inMin) * (outMax - outMin) == (outMax - outMin) * (inMax - inMin);
    TruncDivExact(outMax - outMin, inMax - inMin);
  }

  /** With an increasing input range, `map` onto a decreasing output range
      is non-increasing everywhere (not only inside the input range). */
  lemma MapDescendingMonotone(x: int, y: int, inMin: int, inMax: int, outMin: int, outMax: int)
    requires inMin < inMax && outMax <= outMin && x <= y
    ensures Map(x, inMin, inMax, outMin, outMax) >= Map(y, inMin, inMax, outMin, outMax)
  {
    var k := outMin - outMax;
    assert (x - inMin) * (outMax - outMin) == -((x - inMin) * k);
    assert (y - inMin) * (outMax - outMin) == -((y - inMin) * k);
    assert (x - inMin) * k <= (y - inMin) * k;
    TruncDivMonotone((y - inMin) * (outMax - outMin), (x - inMin) * (outMax - outMin), inMax - inMin);
  }

  /** With increasing input and output ranges, `map` is non-decreasing. */
  lemma MapAscendingMonotone(x: int, y: int, inMin: int, inMax: int, outMin: int, outMax: int)
    requires inMin < inMax && outMin <= outMax && x <= y
    ensures Map(x, inMin, inMax, outMin, outMax) <= Map(y, inMin, inMax, outMin, outMax)
  {
    var k := outMax - outMin;
    assert (y - inMin) * k - (x - inMin) * k == (y - x) * k;
    TruncDivMonotone((x - inMin) * (outMax - outMin), (y - inMin) * (outMax - outMin), inMax - inMin);
  }

  /** One step below the input range, a descending `map` whose output range
      is narrower than its input range still gives `outMin`. */
  lemma MapJustBelow(inMin: int, inMax: int, outMin: int, outMax: int)
    requires inMin < inMax && 0 <= outMin - outMax < inMax - inMin
    ensures Map(inMin - 1, inMin, inMax, outMin, outMax) == outMin
  {
    assert (inMin - 1 - inMin) * (outMax - outMin) == outMin - outMax;
  }

  /** Inside the input range a descending `map` stays inside the output range. */
  lemma MapDescendingBounds(x: int, inMin: int, inMax: int, outMin: int, outMax: int)
    requires inMin < inMax && outMax <= outMin && inMin <= x <= inMax
    ensures outMax <= Map(x, inMin, inMax, outMin, outMax) <= outMin
  {
    MapEndpoints(inMin, inMax, outMin, outMax);
    MapDescendingMonotone(inMin, x, inMin, inMax, outMin, outMax);
    MapDescendingMonotone(x, inMax, inMin, inMax, outMin, outMax);
  }
}
