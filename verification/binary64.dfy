/** Python numbers and their conversion by `float`: binary64 of IEEE 754, rounding to nearest with
  ties to even. */
module Binary64 {
  function Pow2(k: nat): (p: nat)
    ensures p >= 1
  {
    if k == 0 then 1 else 2 * Pow2(k - 1)
  }

  /** a / b rounded to the nearest integer, ties to even. */
  function Nearest(a: nat, b: nat): nat
    requires b > 0
  {
    var q, r := a / b, a % b;
    if 2 * r > b || (2 * r == b && q % 2 == 1) then q + 1 else q
  }

  /** 2^53: the integers below it have exact doubles. */
  const PRECISION := 0x20_0000_0000_0000

  /** How many binary places of n do not fit. */
  function Shift(n: nat): nat {
    if n < PRECISION then 0 else 1 + Shift(n / 2)
  }

  /** The double nearest to n, as an integer; the range of doubles is not yet regarded. */
  function Rounded(n: nat): nat {
    Nearest(n, Pow2(Shift(n))) * Pow2(Shift(n))
  }

  const MIN_EXPONENT := -1074
  const MAX_EXPONENT := 971

  datatype Double = Finite(negative: bool, mantissa: nat, exponent: int) | Infinity(negative: bool) | NaN {
    predicate Valid() {
      Finite? ==> mantissa < PRECISION && MIN_EXPONENT <= exponent <= MAX_EXPONENT
    }
  }

  type Float = d: Double | d.Valid() witness NaN

  datatype Number = Int(n: int) | Float(d: Float)

  function Magnitude(n: int): nat {
    if n < 0 then -n else n
  }

  /** `float(n)` raises for integers beyond the largest double. */
  predicate Overflows(v: Number) {
    v.Int? && Rounded(Magnitude(v.n)) >= Pow2(1024)
  }

  predicate IsFinite(v: Number) {
    v.Int? || v.d.Finite?
  }

  /** One, in units of the smallest positive double. */
  function Unity(): nat {
    Pow2(1074)
  }

  function Scaled(d: Float): nat
    requires d.Finite?
  {
    d.mantissa * Pow2(d.exponent + 1074)
  }

  predicate Negative(v: Number)
    requires IsFinite(v)
  {
    match v
    case Int(n) => n < 0
    case Float(d) => d.negative
  }

  /** The size of the number itself, in those units. */
  function Size(v: Number): nat
    requires IsFinite(v)
  {
    match v
    case Int(n) => Magnitude(n) * Unity()
    case Float(d) => Scaled(d)
  }

  /** The size of `float(v)`. */
  function Converted(v: Number): nat
    requires IsFinite(v)
  {
    match v
    case Int(n) => Rounded(Magnitude(n)) * Unity()
    case Float(d) => Scaled(d)
  }

  /** The number itself, in those units. */
  function Exact(v: Number): int
    requires IsFinite(v)
  {
    if Negative(v) then 0 - Size(v) else Size(v)
  }

  // ----- the range of doubles

  /** The largest finite double is (2^53 - 1) * 2^971, and the smallest positive one is one unit. */
  lemma Extremes(d: Double)
    ensures Finite(false, PRECISION - 1, 971).Valid() && Finite(false, 1, -1074).Valid()
    ensures d.Valid() && d.Finite? ==> d.mantissa <= PRECISION - 1 && -1074 <= d.exponent <= 971
    ensures PRECISION == 9_007_199_254_740_992
  {
  }

  // ----- rounding to nearest

  lemma DivOrder(a: nat, c: nat, b: nat)
    requires a <= c && b > 0
    ensures a / b <= c / b
    ensures a / b == c / b ==> a % b <= c % b
  {
    var q, r, s, t := a / b, a % b, c / b, c % b;
    assert a == q * b + r && c == s * b + t;
    MulStep(s, q, b);
  }

  lemma MulOrder(a: nat, c: nat, b: nat)
    requires a <= c
    ensures a * b <= c * b
  {
  }

  lemma MulStep(a: nat, c: nat, b: nat)
    ensures a < c ==> a * b + b <= c * b
  {
    if a < c {
      MulOrder(a + 1, c, b);
      assert (a + 1) * b == a * b + b;
    }
  }

  /** Multiplication by a positive number can be undone in comparisons. */
  lemma MulCancel(a: nat, c: nat, b: nat)
    requires b > 0
    ensures a * b <= c * b <==> a <= c
    ensures a * b < c * b <==> a < c
  {
    if a <= c {
      MulOrder(a, c, b);
    } else {
      MulOrder(c + 1, a, b);
      assert (c + 1) * b == c * b + b;
    }
    if a < c {
      MulOrder(a + 1, c, b);
      assert (a + 1) * b == a * b + b;
    }
  }

  lemma NearestMonotone(a: nat, c: nat, b: nat)
    requires a <= c && b > 0
    ensures Nearest(a, b) <= Nearest(c, b)
  {
    DivOrder(a, c, b);
  }

  lemma NearestExact(q: nat, b: nat)
    requires b > 0
    ensures Nearest(q * b, b) == q
  {
    var d, r := q * b / b, q * b % b;
    assert q * b == d * b + r;
    MulCancel(q, d, b);
    MulCancel(d, q, b);
    MulStep(d, q, b);
  }

  // ----- rounding to 53 binary places

  lemma {:induction false} ShiftBounds(n: nat)
    ensures n < PRECISION * Pow2(Shift(n))
    ensures Shift(n) > 0 ==> PRECISION / 2 * Pow2(Shift(n)) <= n
  {
    if n >= PRECISION {
      ShiftBounds(n / 2);
      assert Pow2(Shift(n)) == 2 * Pow2(Shift(n / 2));
    }
  }

  lemma {:induction false} ShiftMonotone(a: nat, b: nat)
    requires a <= b
    ensures Shift(a) <= Shift(b)
  {
    if a >= PRECISION {
      ShiftMonotone(a / 2, b / 2);
    }
  }

  lemma {:induction false} Pow2Monotone(j: nat, k: nat)
    requires j <= k
    ensures Pow2(j) <= Pow2(k)
  {
    if j < k {
      Pow2Monotone(j, k - 1);
    }
  }

  lemma {:induction false} Pow2Sum(j: nat, k: nat)
    ensures Pow2(j + k) == Pow2(j) * Pow2(k)
  {
    if j > 0 {
      Pow2Sum(j - 1, k);
      assert j - 1 + k == j + k - 1;
      assert 2 * (Pow2(j - 1) * Pow2(k)) == 2 * Pow2(j - 1) * Pow2(k);
    }
  }

  /** A rounded number stays within its power of two. */
  lemma RoundedBounds(n: nat)
    ensures Rounded(n) <= PRECISION * Pow2(Shift(n))
    ensures Shift(n) > 0 ==> PRECISION / 2 * Pow2(Shift(n)) <= Rounded(n)
  {
    var p := Pow2(Shift(n));
    ShiftBounds(n);
    NearestMonotone(n, PRECISION * p, p);
    NearestExact(PRECISION, p);
    MulOrder(Nearest(n, p), PRECISION, p);
    if Shift(n) > 0 {
      NearestMonotone(PRECISION / 2 * p, n, p);
      NearestExact(PRECISION / 2, p);
      MulOrder(PRECISION / 2, Nearest(n, p), p);
    }
  }

  /** Rounding keeps the order. */
  lemma RoundedMonotone(a: nat, b: nat)
    requires a <= b
    ensures Rounded(a) <= Rounded(b)
  {
    ShiftMonotone(a, b);
    if Shift(a) == Shift(b) {
      NearestMonotone(a, b, Pow2(Shift(a)));
      MulOrder(Nearest(a, Pow2(Shift(a))), Nearest(b, Pow2(Shift(a))), Pow2(Shift(a)));
    } else {
      RoundedBounds(a);
      RoundedBounds(b);
      Pow2Monotone(Shift(a) + 1, Shift(b));
      HalfStep(Pow2(Shift(a)), Pow2(Shift(b)));
    }
  }

  lemma HalfStep(p: nat, q: nat)
    requires 2 * p <= q
    ensures PRECISION * p <= PRECISION / 2 * q
  {
  }

  lemma RoundedMultiple(n: nat, q: nat)
    requires n == q * Pow2(Shift(n))
    ensures Rounded(n) == n
  {
    NearestExact(q, Pow2(Shift(n)));
  }

  lemma Pow2Split(m: nat, e: nat, s: nat)
    requires s <= e
    ensures m * Pow2(e) == m * Pow2(e - s) * Pow2(s)
  {
    Pow2Sum(e - s, s);
    MulAssociative(m, Pow2(e - s), Pow2(s));
  }

  /** Numbers of at most 53 significant binary places are kept. */
  lemma RoundedFixed(m: nat, e: nat)
    requires m < PRECISION
    ensures Rounded(m * Pow2(e)) == m * Pow2(e)
  {
    var s := Shift(m * Pow2(e));
    ShiftAtMost(m, e);
    Pow2Split(m, e, s);
    RoundedMultiple(m * Pow2(e), m * Pow2(e - s));
  }

  lemma MulAssociative(a: nat, b: nat, c: nat)
    ensures a * (b * c) == a * b * c
  {
  }

  lemma {:induction false} ShiftAtMost(m: nat, e: nat)
    requires m < PRECISION
    ensures Shift(m * Pow2(e)) <= e
    decreases e
  {
    if e == 0 {
      assert m * Pow2(0) == m;
    } else {
      var n := m * Pow2(e);
      assert n == 2 * (m * Pow2(e - 1));
      assert n / 2 == m * Pow2(e - 1);
      ShiftAtMost(m, e - 1);
    }
  }

  lemma RoundedSmall(n: nat)
    requires n <= PRECISION
    ensures Rounded(n) == n
  {
    if n < PRECISION {
      RoundedFixed(n, 0);
      assert n * Pow2(0) == n;
    } else {
      RoundedFixed(1, 53);
      assert Pow2(53) == PRECISION by { Pow2At53(); }
    }
  }

  lemma Pow2At53()
    ensures Pow2(53) == PRECISION
  {
    Pow2At16();
    Pow2Sum(16, 16);
    Pow2Sum(32, 16);
    assert Pow2(48) == 0x1_0000_0000_0000;
    assert Pow2(50) == 4 * Pow2(48);
    assert Pow2(52) == 4 * Pow2(50);
  }

  lemma Pow2At16()
    ensures Pow2(4) == 16 && Pow2(16) == 0x1_0000
  {
    assert Pow2(2) == 4 by { assert Pow2(1) == 2; }
    assert Pow2(4) == 16 by { assert Pow2(3) == 8; }
    Pow2Sum(4, 4);
    Pow2Sum(8, 8);
  }

  // ----- conversion keeps the order

  lemma ScaledWhole(d: Float)
    requires d.Finite? && d.exponent >= 0
    ensures Scaled(d) == d.mantissa * Pow2(d.exponent) * Unity()
  {
    Pow2Sum(d.exponent, 1074);
    MulAssociative(d.mantissa, Pow2(d.exponent), Unity());
  }

  lemma ScaledFraction(d: Float)
    requires d.Finite? && d.exponent < 0
    ensures Scaled(d) < PRECISION * Unity()
  {
    Pow2Monotone(d.exponent + 1074, 1074);
    MulCancel(d.mantissa, PRECISION, Pow2(d.exponent + 1074));
    MulOrder(Pow2(d.exponent + 1074), Unity(), PRECISION);
  }

  /** An integer no larger than a double stays so when it is rounded, and likewise no smaller. */
  lemma IntBesideFloat(n: nat, d: Float)
    requires d.Finite?
    ensures n * Unity() <= Scaled(d) ==> Rounded(n) * Unity() <= Scaled(d)
    ensures n * Unity() >= Scaled(d) ==> Rounded(n) * Unity() >= Scaled(d)
  {
    if d.exponent >= 0 {
      var m := d.mantissa * Pow2(d.exponent);
      ScaledWhole(d);
      MulCancel(n, m, Unity());
      MulCancel(m, n, Unity());
      RoundedFixed(d.mantissa, d.exponent);
      MulCancel(Rounded(n), m, Unity());
      MulCancel(m, Rounded(n), Unity());
      if n <= m {
        RoundedMonotone(n, m);
      }
      if m <= n {
        RoundedMonotone(m, n);
      }
    } else {
      ScaledFraction(d);
      if n <= PRECISION {
        RoundedSmall(n);
      } else {
        RoundedSmall(PRECISION);
        RoundedMonotone(PRECISION, n);
        MulOrder(PRECISION, Rounded(n), Unity());
        MulCancel(n, PRECISION, Unity());
      }
    }
  }

  /** Converting two numbers never reverses their sizes. */
  lemma ConvertedMonotone(v: Number, w: Number)
    requires IsFinite(v) && IsFinite(w) && Size(v) <= Size(w)
    ensures Converted(v) <= Converted(w)
  {
    match (v, w)
    case (Int(m), Int(n)) =>
      MulCancel(Magnitude(m), Magnitude(n), Unity());
      RoundedMonotone(Magnitude(m), Magnitude(n));
      MulOrder(Rounded(Magnitude(m)), Rounded(Magnitude(n)), Unity());
    case (Int(n), Float(d)) => IntBesideFloat(Magnitude(n), d);
    case (Float(d), Int(n)) => IntBesideFloat(Magnitude(n), d);
    case (Float(_), Float(_)) =>
  }

  // ----- the largest double

  /** n has 53 places and k more. */
  lemma {:induction false} ShiftExact(n: nat, k: nat)
    requires PRECISION / 2 * Pow2(k) <= n < PRECISION * Pow2(k)
    ensures Shift(n) == k
  {
    if k > 0 {
      assert Pow2(k) == 2 * Pow2(k - 1);
      ShiftExact(n / 2, k - 1);
    }
  }

  /** Just below 2^1024 the doubles are p apart; from the middle of the last gap on, rounding ends at
    2^1024, which is no double. */
  lemma LastDoubles(h: nat, p: nat)
    requires p == 2 * h && h > 0
    ensures Nearest(PRECISION * p - h, p) == PRECISION
    ensures Nearest(PRECISION * p - h - 1, p) == PRECISION - 1
  {
    var q := PRECISION - 1;
    QuotientOf(q, h, p);
    QuotientOf(q, h - 1, p);
    assert PRECISION * p - h == q * p + h;
    assert PRECISION * p - h - 1 == q * p + (h - 1);
  }

  lemma QuotientOf(q: nat, r: nat, p: nat)
    requires r < p
    ensures (q * p + r) / p == q && (q * p + r) % p == r
  {
    var d, e := (q * p + r) / p, (q * p + r) % p;
    assert q * p + r == d * p + e;
    MulStep(q, d, p);
    MulStep(d, q, p);
  }

  /** With 2^k between the doubles, rounding first reaches 2^53 gaps at the middle of the last one. */
  lemma LastGapRounded(k: nat, t: nat)
    requires k > 0 && t == PRECISION * Pow2(k) - Pow2(k - 1)
    ensures Rounded(t) == PRECISION * Pow2(k)
    ensures Rounded(t - 1) == (PRECISION - 1) * Pow2(k)
  {
    assert Pow2(k) == 2 * Pow2(k - 1);
    ShiftExact(t, k);
    ShiftExact(t - 1, k);
    LastDoubles(Pow2(k - 1), Pow2(k));
  }

  lemma RoundedReaches(n: nat, k: nat, limit: nat)
    requires k > 0 && limit == PRECISION * Pow2(k)
    ensures Rounded(n) >= limit <==> n >= limit - Pow2(k - 1)
  {
    var t: nat := limit - Pow2(k - 1);
    LastGapRounded(k, t);
    MulCancel(PRECISION, PRECISION - 1, Pow2(k));
    if n >= t {
      RoundedMonotone(t, n);
    } else {
      RoundedMonotone(n, t - 1);
    }
  }

  /** `float(n)` overflows exactly from 2^1024 - 2^970 on, half a gap beyond the largest double. */
  lemma OverflowExact(n: int)
    ensures Overflows(Int(n)) <==> Magnitude(n) >= Pow2(1024) - Pow2(970)
  {
    Pow2At53();
    Pow2Sum(53, 971);
    RoundedReaches(Magnitude(n), 971, Pow2(1024));
  }

  // ----- some conversions

  /** 2^53 and 2^53 + 1 become one double. */
  lemma FirstGap()
    ensures Rounded(9_007_199_254_740_992) == 9_007_199_254_740_992
    ensures Rounded(9_007_199_254_740_993) == 9_007_199_254_740_992
  {
    RoundedSmall(9_007_199_254_740_992);
    var n := 9_007_199_254_740_993;
    assert Shift(n) == 1 + Shift(n / 2) && Shift(n / 2) == 0;
    assert Pow2(1) == 2 by { assert Pow2(0) == 1; }
    assert n / 2 == 4_503_599_627_370_496;
  }

  lemma ShiftBelow17(n: nat)
    requires 99_999_999_999_999_984 <= n < 100_000_000_000_000_016
    ensures Shift(n) == 4 && Pow2(4) == 16
  {
    assert Shift(n) == 1 + Shift(n / 2);
    assert Shift(n / 2) == 1 + Shift(n / 2 / 2);
    assert Shift(n / 2 / 2) == 1 + Shift(n / 2 / 2 / 2);
    assert Shift(n / 2 / 2 / 2) == 1 + Shift(n / 2 / 2 / 2 / 2);
    assert Shift(n / 2 / 2 / 2 / 2) == 0;
    assert Pow2(2) == 4 by { assert Pow2(1) == 2; }
    assert Pow2(4) == 16 by { assert Pow2(3) == 8; }
  }

  /** Around 10^17 the doubles are 16 apart. */
  lemma LastGap()
    ensures Rounded(99_999_999_999_999_984) == 99_999_999_999_999_984
    ensures Rounded(99_999_999_999_999_991) == 99_999_999_999_999_984
    ensures Rounded(99_999_999_999_999_992) == 100_000_000_000_000_000
    ensures Rounded(99_999_999_999_999_999) == 100_000_000_000_000_000
    ensures Rounded(100_000_000_000_000_000) == 100_000_000_000_000_000
  {
    ShiftBelow17(99_999_999_999_999_984);
    ShiftBelow17(99_999_999_999_999_991);
    ShiftBelow17(99_999_999_999_999_992);
    ShiftBelow17(99_999_999_999_999_999);
    ShiftBelow17(100_000_000_000_000_000);
  }
}
