/** Small shared vocabulary: optional values, results with an error
    value, and the 16-bit and 8-bit integer conversions the Java and C++
    code performs implicitly. */
module Common {

  /** The Java `null` / present value of the source. */
  datatype Option<+T> = None | Some(value: T)

  /** A value or the exception the source would throw instead. */
  datatype Result<+T, +E> = Ok(value: T) | Err(error: E)

  const INT_MAX: int := 0x7FFF_FFFF
  const UINT16_MAX: int := 0xFFFF

  /** Math.PI, the double nearest to pi. */
  const PI: real := 3.141592653589793

  /** The low eight bits of `v`, as an unsigned byte (Java `(byte)` cast,
      read back without sign extension). */
  function Low8(v: int): (b: int)
    ensures 0 <= b < 256
    ensures (v - b) % 256 == 0
  {
    v % 256
  }

  /** The low sixteen bits of `v`, as an unsigned word (Java `(short)` cast). */
  function Low16(v: int): (w: int)
    ensures 0 <= w < 0x1_0000
    ensures (v - w) % 0x1_0000 == 0
  {
    v % 0x1_0000
  }

  const INT_MIN: int := -0x8000_0000

  /** Truncation toward zero. */
  function TruncToInt(r: real): (n: int)
    ensures r >= 0.0 ==> n as real <= r < n as real + 1.0
    ensures r < 0.0 ==> n as real - 1.0 < r <= n as real
  {
    if r >= 0.0 then r.Floor else -((-r).Floor)
  }

  /** Java `(int)` cast of a double: truncation toward zero, saturating at
      the bounds of int. */
  function JavaIntCast(r: real): (n: int)
    ensures INT_MIN <= n <= INT_MAX
    ensures INT_MIN <= TruncToInt(r) <= INT_MAX ==> n == TruncToInt(r)
  {
    var t := TruncToInt(r);
    if t > INT_MAX then INT_MAX else if t < INT_MIN then INT_MIN else t
  }

  /** A Java int result: the value reduced into [-2^31, 2^31) modulo 2^32. */
  function Int32(v: int): (w: int)
    ensures INT_MIN <= w <= INT_MAX
    ensures (v - w) % 0x1_0000_0000 == 0
    ensures INT_MIN <= v <= INT_MAX ==> w == v
  {
    (v - INT_MIN) % 0x1_0000_0000 + INT_MIN
  }

  /** Java `%` on doubles: the remainder keeps the sign of the dividend. */
  function RealRem(a: real, m: real): (r: real)
    requires m > 0.0
    ensures a >= 0.0 ==> 0.0 <= r < m
    ensures a < 0.0 ==> -m < r <= 0.0
  {
    var q := TruncToInt(a / m);
    RemBounds(a, m, q);
    a - (q as real) * m
  }

  /** The truncated quotient leaves a remainder smaller than the divisor. */
  lemma RemBounds(a: real, m: real, q: int)
    requires m > 0.0
    requires q == TruncToInt(a / m)
    ensures a >= 0.0 ==> 0.0 <= a - (q as real) * m < m
    ensures a < 0.0 ==> -m < a - (q as real) * m <= 0.0
  {
    var t := a / m;
    assert t * m == a;
    if a >= 0.0 {
      if t < 0.0 {
        BelowScaled(a, m, t, 0.0);
      }
      AboveScaled(a, m, t, q as real);
      BelowScaled(a, m, t, q as real + 1.0);
    } else {
      if t >= 0.0 {
        AboveScaled(a, m, t, 0.0);
      }
      AboveScaled(a, m, t, q as real - 1.0);
      BelowScaled(a, m, t, q as real);
    }
  }

  /** `b <= t` scales to `b * m <= a` when `a == t * m` and `m > 0`. */
  lemma AboveScaled(a: real, m: real, t: real, b: real)
    requires m > 0.0 && t * m == a
    ensures b <= t ==> b * m <= a
    ensures b < t ==> b * m < a
  {
    var x := t - b;
    calc {
      x * m;
      (t - b) * m;
      t * m - b * m;
      a - b * m;
    }
    if b < t {
      assert x * m > 0.0;
    } else if b == t {
      assert x * m == 0.0;
    }
  }

  /** `t < b` scales to `a < b * m` when `a == t * m` and `m > 0`. */
  lemma BelowScaled(a: real, m: real, t: real, b: real)
    requires m > 0.0 && t * m == a
    ensures t < b ==> a < b * m
    ensures t <= b ==> a <= b * m
  {
    var x := b - t;
    calc {
      x * m;
      (b - t) * m;
      b * m - t * m;
      b * m - a;
    }
    if t < b {
      assert x * m > 0.0;
    } else if t == b {
      assert x * m == 0.0;
    }
  }

  /** Java and C `/` on ints: the quotient is truncated toward zero. */
  function JavaDiv(a: int, b: int): (q: int)
    requires b > 0
    ensures a >= 0 ==> q == a / b
    ensures a < 0 ==> q == -((-a) / b)
  {
    if a >= 0 then a / b else -((-a) / b)
  }

  /** Java `Math.round` on a double: the nearest integer, halves upward. */
  function Round(r: real): (n: int)
    ensures n as real - 0.5 <= r < n as real + 0.5
  {
    (r + 0.5).Floor
  }
}
