/** Bounded projections of a result (src/m365_mcp/result_projection.py). */
module Projection {
  import opened Binary64
  import opened FixedWidth
  import opened Ordering
  import opened Results

  datatype Scalar = Null | Bool(value: bool) | Numeric(number: Number) | Text(text: string)

  type Row = map<string, Scalar>

  // ----- the number that is printed

  const E12 := 1_000_000_000_000
  const E29 := 100_000_000_000_000_000_000_000_000_000

  /** What is printed of a finite number: a sign, and how many times 10^-12. */
  datatype Printed = Printed(negative: bool, units: nat)

  /** The number that `f"{float(value):030.12f}"` shows: the double nearest to the value, rounded
    to twelve decimals, both times with ties to even. The sign stays when the rest is zero. */
  function PrintedOf(v: Number): Printed
    requires IsFinite(v)
  {
    Printed(Negative(v), Nearest(Converted(v) * E12, Unity()))
  }

  /** p is shown as the smaller number; minus zero is below zero. */
  predicate Before(p: Printed, q: Printed) {
    || (p.negative && !q.negative)
    || (!p.negative && !q.negative && p.units < q.units)
    || (p.negative && q.negative && p.units > q.units)
  }

  // ----- its text

  const FRACTION_WIDTH: nat := 12
  const WIDTH: nat := 17

  /** The decimal digits of n, as many as it takes but at least `least`. */
  function Digits(n: nat, least: nat): (d: nat)
    ensures d >= least && n < Pow10(d)
    ensures n < Pow10(least) ==> d == least
    ensures d > least ==> n >= Pow10(d - 1)
    decreases n - Pow10(least)
  {
    if n < Pow10(least) then least else Digits(n, least + 1)
  }

  function WholePart(units: nat): nat {
    units / Pow10(FRACTION_WIDTH)
  }

  function FractionPart(units: nat): nat {
    units % Pow10(FRACTION_WIDTH)
  }

  function UnsignedText(units: nat, least: nat): string {
    Padded(WholePart(units), Digits(WholePart(units), least)) + ("." + Padded(FractionPart(units), FRACTION_WIDTH))
  }

  /** A minus sign takes one of the seventeen places before the point. */
  function PrintedText(p: Printed): string {
    if p.negative then "-" + UnsignedText(p.units, WIDTH - 1) else UnsignedText(p.units, WIDTH)
  }

  function Zeros(n: nat): string {
    if n == 0 then "" else "0" + Zeros(n - 1)
  }

  /** The whole format, the special doubles included. */
  function NumberText(v: Number): string {
    match v
    case Float(Infinity(negative)) => if negative then "-" + (Zeros(26) + "inf") else Zeros(27) + "inf"
    case Float(NaN) => Zeros(27) + "nan"
    case _ => PrintedText(PrintedOf(v))
  }

  lemma Pow10Sum(a: nat, b: nat)
    ensures Pow10(a + b) == Pow10(a) * Pow10(b)
  {
    if a > 0 {
      Pow10Sum(a - 1, b);
      assert a - 1 + b == a + b - 1;
    }
  }

  lemma Pow10Values()
    ensures Pow10(12) == E12 && Pow10(17) == 100_000_000_000_000_000
  {
  }

  lemma DivisionOrder(a: nat, b: nat)
    ensures a < b <==> a / E12 < b / E12 || (a / E12 == b / E12 && a % E12 < b % E12)
  {
  }

  lemma SmallWhole(units: nat)
    requires units < E29
    ensures WholePart(units) == units / E12 && FractionPart(units) == units % E12
    ensures WholePart(units) < Pow10(WIDTH)
  {
    Pow10Values();
  }

  lemma UnsignedOrder(a: nat, b: nat)
    requires a < E29 && b < E29
    ensures Less(UnsignedText(a, WIDTH), UnsignedText(b, WIDTH)) <==> a < b
  {
    SmallWhole(a);
    SmallWhole(b);
    Pow10Values();
    var x, y := Padded(FractionPart(a), FRACTION_WIDTH), Padded(FractionPart(b), FRACTION_WIDTH);
    FieldOrder(WholePart(a), WholePart(b), WIDTH, "." + x, "." + y);
    LessPrefixed(".", x, y);
    PaddedOrder(FractionPart(a), FractionPart(b), FRACTION_WIDTH);
    DivisionOrder(a, b);
  }

  lemma {:induction false} FirstDigit(n: nat, width: nat)
    requires 0 < width && n < Pow10(width)
    ensures '0' <= Padded(n, width)[0] <= '9'
    ensures Padded(n, width)[0] == '0' <==> n < Pow10(width - 1)
  {
    if width > 1 {
      FirstDigit(n / 10, width - 1);
      assert Padded(n, width)[0] == Padded(n / 10, width - 1)[0];
    } else {
      assert Pow10(0) == 1 && Pow10(1) == 10;
      assert Padded(n, 1) == Padded(n / 10, 0) + [Digit(n % 10)];
    }
  }

  lemma StartsWithDigit(units: nat)
    ensures '0' <= UnsignedText(units, WIDTH)[0] <= '9'
  {
    FirstDigit(WholePart(units), Digits(WholePart(units), WIDTH));
  }

  lemma NegativeFirst(p: Printed, q: Printed)
    requires p.negative && !q.negative
    ensures Less(PrintedText(p), PrintedText(q)) && !Less(PrintedText(q), PrintedText(p))
  {
    StartsWithDigit(q.units);
    assert PrintedText(p)[0] == '-';
  }

  /** Below seventeen places, and not below minus zero. */
  predicate InRange(p: Printed) {
    p.units < E29 && (p.negative ==> p.units == 0)
  }

  /** In range the texts order like the numbers they show. */
  lemma PrintedOrder(p: Printed, q: Printed)
    requires InRange(p) && InRange(q)
    ensures Less(PrintedText(p), PrintedText(q)) <==> Before(p, q)
  {
    if p.negative && !q.negative {
      NegativeFirst(p, q);
    } else if q.negative && !p.negative {
      NegativeFirst(q, p);
    } else if p.negative {
      LessAsymmetric(PrintedText(p), PrintedText(p));
    } else {
      UnsignedOrder(p.units, q.units);
    }
  }

  // ----- outside the range

  /** Two shown numbers below minus zero come out the wrong way round. */
  lemma NegativePair()
    ensures Less(PrintedText(Printed(true, 0)), PrintedText(Printed(true, 1)))
  {
    Pow10Values();
    assert WholePart(0) == 0 && WholePart(1) == 0 && FractionPart(0) == 0 && FractionPart(1) == 1;
    var w := Padded(0, Digits(0, WIDTH - 1));
    var x, y := Padded(0, FRACTION_WIDTH), Padded(1, FRACTION_WIDTH);
    PaddedOrder(0, 1, FRACTION_WIDTH);
    LessPrefixed(".", x, y);
    LessPrefixed(w, "." + x, "." + y);
    LessPrefixed("-", w + ("." + x), w + ("." + y));
  }

  lemma {:induction false} LeadingOne(w: nat)
    ensures Padded(Pow10(w), w + 1)[0] == '1'
  {
    if w == 0 {
      assert Padded(1, 1) == Padded(0, 0) + [Digit(1)];
    } else {
      LeadingOne(w - 1);
      assert Pow10(w) / 10 == Pow10(w - 1);
      assert Padded(Pow10(w), w + 1)[0] == Padded(Pow10(w - 1), w)[0];
    }
  }

  lemma {:induction false} LeadingNine(n: nat, w: nat)
    requires w > 0 && 9 * Pow10(w - 1) <= n < Pow10(w)
    ensures Padded(n, w)[0] == '9'
  {
    if w == 1 {
      assert Pow10(0) == 1 && Pow10(1) == 10;
      assert Padded(9, 1) == Padded(0, 0) + [Digit(9)];
    } else {
      LeadingNine(n / 10, w - 1);
      assert Padded(n, w)[0] == Padded(n / 10, w - 1)[0];
    }
  }

  /** 10^17 comes before the double below it, which has a place less. */
  lemma WidePair()
    ensures Less(PrintedText(Printed(false, E29)), PrintedText(Printed(false, E29 - 16 * E12)))
  {
    Pow10Values();
    assert Pow10(18) == 10 * Pow10(17) && Pow10(16) * 10 == Pow10(17);
    var n := E29 - 16 * E12;
    assert WholePart(E29) == Pow10(17) && WholePart(n) == Pow10(17) - 16;
    assert Digits(WholePart(E29), WIDTH) == 18;
    LeadingOne(17);
    SmallWhole(n);
    LeadingNine(WholePart(n), 17);
    assert PrintedText(Printed(false, E29))[0] == '1';
    assert PrintedText(Printed(false, n))[0] == '9';
  }

  // ----- numbers

  lemma PrintedMonotone(v: Number, w: Number)
    requires IsFinite(v) && IsFinite(w) && Size(v) <= Size(w)
    ensures PrintedOf(v).units <= PrintedOf(w).units
  {
    ConvertedMonotone(v, w);
    MulOrder(Converted(v), Converted(w), E12);
    NearestMonotone(Converted(v) * E12, Converted(w) * E12, Unity());
  }

  /** What is shown never reverses the order of the numbers themselves. */
  lemma NeverReversed(v: Number, w: Number)
    requires IsFinite(v) && IsFinite(w) && Exact(v) < Exact(w)
    ensures !Before(PrintedOf(w), PrintedOf(v))
  {
    if Negative(v) == Negative(w) {
      if Negative(v) {
        PrintedMonotone(w, v);
      } else {
        PrintedMonotone(v, w);
      }
    }
  }

  /** The conversion and the twelve decimals lose nothing, and the number is not minus zero. */
  predicate Survives(v: Number)
    requires IsFinite(v)
  {
    PrintedOf(v).units * Unity() == Size(v) * E12 && (Size(v) == 0 ==> !Negative(v))
  }

  lemma SurvivorsOrder(v: Number, w: Number)
    requires IsFinite(v) && IsFinite(w) && Survives(v) && Survives(w)
    ensures Before(PrintedOf(v), PrintedOf(w)) <==> Exact(v) < Exact(w)
  {
    MulCancel(PrintedOf(v).units, PrintedOf(w).units, Unity());
    MulCancel(PrintedOf(w).units, PrintedOf(v).units, Unity());
    MulCancel(Size(v), Size(w), E12);
    MulCancel(Size(w), Size(v), E12);
    ZeroUnits(v);
    ZeroUnits(w);
  }

  lemma ZeroUnits(v: Number)
    requires IsFinite(v) && Survives(v)
    ensures PrintedOf(v).units == 0 <==> Size(v) == 0
  {
    MulCancel(0, PrintedOf(v).units, Unity());
    MulCancel(0, Size(v), E12);
  }

  /** An integer survives exactly when it is a double itself. */
  lemma IntSurvives(n: int)
    ensures Survives(Int(n)) <==> Rounded(Magnitude(n)) == Magnitude(n)
    ensures PrintedOf(Int(n)) == Printed(n < 0, Rounded(Magnitude(n)) * E12)
  {
    var r := Rounded(Magnitude(n));
    MulSwap(r, Unity(), E12);
    NearestExact(r * E12, Unity());
    MulSwap(Magnitude(n), Unity(), E12);
    MulCancel(r * E12, Magnitude(n) * E12, Unity());
    MulCancel(Magnitude(n) * E12, r * E12, Unity());
    MulCancel(r, Magnitude(n), E12);
    MulCancel(Magnitude(n), r, E12);
  }

  lemma MulSwap(a: nat, b: nat, c: nat)
    ensures a * b * c == a * c * b
  {
  }

  // ----- the sort key

  /** A rank for the type, then a text. */
  datatype Key = Key(rank: nat, text: string)

  /** `_sortable`, for values whose conversion does not overflow. */
  function Sortable(v: Scalar): Key {
    match v
    case Null => Key(0, "")
    case Bool(b) => Key(1, if b then "1" else "0")
    case Numeric(v) => Key(2, NumberText(v))
    case Text(t) => Key(3, t)
  }

  predicate KeyLess(a: Key, b: Key) {
    a.rank < b.rank || (a.rank == b.rank && Less(a.text, b.text))
  }

  /** Keys of different kinds: null, then booleans, numbers and texts. False comes before true, and
    texts in their order. */
  lemma KindsOrder(a: Scalar, b: Scalar)
    requires !(a.Numeric? && b.Numeric?)
    ensures KeyLess(Sortable(a), Sortable(b)) <==>
      match a
      case Null => !b.Null?
      case Bool(v) => b.Numeric? || b.Text? || (b.Bool? && !v && b.value)
      case Numeric(_) => b.Text?
      case Text(t) => b.Text? && Less(t, b.text)
  {
    LessAsymmetric("", "");
    if a.Bool? && b.Bool? {
      assert Less("0", "1") && !Less("1", "0");
      LessAsymmetric(Sortable(a).text, Sortable(a).text);
    }
  }

  /** The text is a sign for a negative number, the digits of its whole part, a point and twelve more
    digits: at least thirty characters, filled up with zeros. */
  ghost predicate Shows(text: string, p: Printed) {
    exists whole, fraction :: ShowsParts(text, p, whole, fraction)
  }

  ghost predicate ShowsParts(text: string, p: Printed, whole: string, fraction: string) {
    && text == (if p.negative then "-" else "") + (whole + ("." + fraction))
    && AllDigits(whole) && AllDigits(fraction) && |fraction| == 12
    && DecimalValue(whole) * E12 + DecimalValue(fraction) == p.units
    && |text| >= 30 && (|text| > 30 ==> |whole| > 0 && whole[0] != '0')
  }

  lemma {:induction false} NoLeadingZero(n: nat, width: nat)
    requires width > 0 && Pow10(width - 1) <= n < Pow10(width)
    ensures Padded(n, width)[0] != '0'
  {
    if width == 1 {
      assert Padded(n, 1) == Padded(n / 10, 0) + [Digit(n % 10)];
      assert Pow10(0) == 1 && Pow10(1) == 10;
    } else {
      NoLeadingZero(n / 10, width - 1);
      assert Padded(n, width)[0] == Padded(n / 10, width - 1)[0];
    }
  }

  lemma UnsignedShows(units: nat, least: nat)
    requires least > 0
    ensures var w := Padded(WholePart(units), Digits(WholePart(units), least));
      var f := Padded(FractionPart(units), FRACTION_WIDTH);
      && UnsignedText(units, least) == w + ("." + f) && AllDigits(w) && AllDigits(f) && |f| == 12
      && DecimalValue(w) * E12 + DecimalValue(f) == units
      && |w| >= least && (|w| > least ==> w[0] != '0')
  {
    Pow10Values();
    PaddedDenotes(WholePart(units), Digits(WholePart(units), least));
    PaddedDenotes(FractionPart(units), FRACTION_WIDTH);
    if Digits(WholePart(units), least) > least {
      NoLeadingZero(WholePart(units), Digits(WholePart(units), least));
    }
  }

  lemma PrintedShows(p: Printed)
    ensures Shows(PrintedText(p), p)
  {
    var least := if p.negative then WIDTH - 1 else WIDTH;
    UnsignedShows(p.units, least);
    var w, f := Padded(WholePart(p.units), Digits(WholePart(p.units), least)),
      Padded(FractionPart(p.units), FRACTION_WIDTH);
    assert PrintedText(p) == (if p.negative then "-" else "") + (w + ("." + f));
    assert ShowsParts(PrintedText(p), p, w, f);
  }

  lemma {:induction false} ZerosExact(n: nat)
    ensures |Zeros(n)| == n && forall i | 0 <= i < n :: Zeros(n)[i] == '0'
  {
    if n > 0 {
      ZerosExact(n - 1);
    }
  }

  /** An infinity and NaN are filled up with zeros to thirty characters as well, after the sign. */
  lemma SpecialTexts(v: Number)
    requires !IsFinite(v)
    ensures var t := NumberText(v);
      && |t| == 30 && t[27..] == (if v.d.NaN? then "nan" else "inf")
      && (forall i | 1 <= i < 27 :: t[i] == '0')
      && t[0] == (if v.d.Infinity? && v.d.negative then '-' else '0')
  {
    ZerosExact(26);
    ZerosExact(27);
  }

  /** The text of every finite number shows it. */
  lemma TextShowsNumber(v: Number)
    requires IsFinite(v)
    ensures Shows(NumberText(v), PrintedOf(v))
  {
    PrintedShows(PrintedOf(v));
  }

  /** The numbers whose keys order like what is shown. */
  predicate Orderly(v: Number) {
    IsFinite(v) && InRange(PrintedOf(v))
  }

  lemma KeyOrdersPrinted(v: Number, w: Number)
    requires Orderly(v) && Orderly(w)
    ensures KeyLess(Sortable(Numeric(v)), Sortable(Numeric(w))) <==> Before(PrintedOf(v), PrintedOf(w))
  {
    PrintedOrder(PrintedOf(v), PrintedOf(w));
  }

  /** The keys order two numbers as they are ordered. */
  predicate KeysAgree(v: Number, w: Number)
    requires IsFinite(v) && IsFinite(w)
  {
    && (KeyLess(Sortable(Numeric(v)), Sortable(Numeric(w))) <==> Exact(v) < Exact(w))
    && (KeyLess(Sortable(Numeric(w)), Sortable(Numeric(v))) <==> Exact(w) < Exact(v))
  }

  /** In range the keys order two numbers as they are ordered exactly when the two show alike
    only if they are equal; so whenever both survive the conversion. */
  lemma KeysAgreeExactly(v: Number, w: Number)
    requires Orderly(v) && Orderly(w)
    ensures KeysAgree(v, w) <==> (PrintedOf(v) == PrintedOf(w) <==> Exact(v) == Exact(w))
    ensures Survives(v) && Survives(w) ==> KeysAgree(v, w)
  {
    KeyOrdersPrinted(v, w);
    KeyOrdersPrinted(w, v);
    if Exact(v) < Exact(w) {
      NeverReversed(v, w);
    } else if Exact(w) < Exact(v) {
      NeverReversed(w, v);
    }
    if Survives(v) && Survives(w) {
      SurvivorsOrder(v, w);
      SurvivorsOrder(w, v);
    }
  }

  function Shown(v: Number): int
    requires IsFinite(v)
  {
    if PrintedOf(v).negative then 0 - PrintedOf(v).units else PrintedOf(v).units
  }

  predicate ShownWithin(v: Number, lo: int, hi: int) {
    IsFinite(v) && lo <= Shown(v) <= hi
  }

  predicate KeyOrderKept(v: Number, w: Number)
    requires IsFinite(v) && IsFinite(w)
  {
    KeyLess(Sortable(Numeric(v)), Sortable(Numeric(w))) <==> Before(PrintedOf(v), PrintedOf(w))
  }

  /** The keys of all numbers shown between these bounds order like what is shown. */
  ghost predicate OrderKeptOn(lo: int, hi: int) {
    forall v, w | ShownWithin(v, lo, hi) && ShownWithin(w, lo, hi) :: KeyOrderKept(v, w)
  }

  lemma KeptInRange(hi: int)
    requires hi < E29
    ensures OrderKeptOn(0, hi)
  {
    forall v, w | ShownWithin(v, 0, hi) && ShownWithin(w, 0, hi) ensures KeyOrderKept(v, w) {
      KeyOrdersPrinted(v, w);
    }
  }

  lemma BrokenBelow(lo: int, hi: int)
    requires lo < 0 <= hi
    ensures !OrderKeptOn(lo, hi)
  {
    var v, w := TinyNegatives();
    NegativePair();
    assert ShownWithin(v, lo, hi) && ShownWithin(w, lo, hi) && !KeyOrderKept(v, w);
  }

  lemma BrokenAbove(lo: int, hi: int)
    requires lo <= 0 && E29 <= hi
    ensures !OrderKeptOn(lo, hi)
  {
    var v, w := WideNumbers();
    WidePair();
    assert ShownWithin(v, lo, hi) && ShownWithin(w, lo, hi) && !KeyOrderKept(v, w);
  }

  /** That holds exactly when nothing below minus zero and nothing from 10^17 on is shown. */
  lemma OrderKeptExactly(lo: int, hi: int)
    requires lo <= 0 <= hi
    ensures OrderKeptOn(lo, hi) <==> lo == 0 && hi < E29
  {
    if lo < 0 {
      BrokenBelow(lo, hi);
    } else if E29 <= hi {
      BrokenAbove(lo, hi);
    } else {
      KeptInRange(hi);
    }
  }

  /** 10^17 and the double below it. */
  lemma WideNumbers() returns (v: Number, w: Number)
    ensures IsFinite(v) && IsFinite(w)
    ensures PrintedOf(v) == Printed(false, E29) && PrintedOf(w) == Printed(false, E29 - 16 * E12)
  {
    v, w := Int(100_000_000_000_000_000), Int(99_999_999_999_999_984);
    LastGap();
    IntSurvives(v.n);
    IntSurvives(w.n);
  }

  /** Minus zero, and -2^-40, which is shown as -10^-12. */
  lemma TinyNegatives() returns (v: Number, w: Number)
    ensures IsFinite(v) && IsFinite(w)
    ensures PrintedOf(v) == Printed(true, 0) && PrintedOf(w) == Printed(true, 1)
  {
    v, w := Float(Finite(true, 0, 0)), Float(Finite(true, 1, -40));
    assert Converted(v) * E12 == 0 * Unity();
    NearestExact(0, Unity());
    TinyShown(Pow2(1034));
    Pow2Sum(1034, 40);
    assert Converted(w) == Pow2(1034);
  }

  lemma TinyShown(p: nat)
    requires p > 0
    ensures Nearest(p * E12, p * Pow2(40)) == 1
  {
    Pow2At40();
    NearestIsOne(p * E12, p * Pow2(40));
  }

  lemma NearestIsOne(a: nat, b: nat)
    requires a < b < 2 * a
    ensures Nearest(a, b) == 1
  {
    assert a / b == 0 && a % b == a;
  }

  lemma Pow2At40()
    ensures Pow2(40) == 0x100_0000_0000
  {
    Pow2At16();
    Pow2Sum(16, 16);
    Pow2Sum(32, 4);
    Pow2Sum(36, 4);
  }

  // ----- two failures inside the range that the width suggests

  /** 2^53 and 2^53 + 1 have one key, so LATEST returns whichever comes first. */
  lemma EqualKeys()
    ensures Sortable(Numeric(Int(9_007_199_254_740_993))) == Sortable(Numeric(Int(9_007_199_254_740_992)))
  {
    FirstGap();
    IntSurvives(9_007_199_254_740_992);
    IntSurvives(9_007_199_254_740_993);
  }

  /** The integers whose conversion stays below 10^17 are those below 10^17 - 8. */
  lemma IntegersInRange(n: nat)
    ensures Orderly(Int(n)) <==> n < 99_999_999_999_999_992
  {
    LastGap();
    IntSurvives(n);
    if n < 99_999_999_999_999_992 {
      RoundedMonotone(n, 99_999_999_999_999_991);
    } else {
      RoundedMonotone(99_999_999_999_999_992, n);
    }
  }

  /** The last integer below 10^17 sorts before a smaller one. */
  lemma ReversedKeys()
    ensures KeyLess(Sortable(Numeric(Int(99_999_999_999_999_999))), Sortable(Numeric(Int(99_999_999_999_999_984))))
  {
    LastGap();
    IntSurvives(99_999_999_999_999_999);
    IntSurvives(99_999_999_999_999_984);
    WidePair();
  }

  lemma OneShown()
    ensures PrintedOf(Int(1)) == Printed(false, E12)
  {
    RoundedSmall(1);
    IntSurvives(1);
  }

  lemma OneText()
    ensures NumberText(Int(1)) == PrintedText(Printed(false, E12))
  {
    OneShown();
  }

  lemma TextsOrderKeys(v: Number, w: Number, s: string, t: string)
    requires NumberText(v) == s && NumberText(w) == t && Less(s, t)
    ensures KeyLess(Sortable(Numeric(v)), Sortable(Numeric(w)))
  {
  }

  /** Infinity sorts before one. */
  lemma InfinityBelowOne()
    ensures KeyLess(Sortable(Numeric(Float(Infinity(false)))), Sortable(Numeric(Int(1))))
  {
    OneText();
    UnitsOfOne();
    TextsOrderKeys(Float(Infinity(false)), Int(1), Zeros(27) + "inf", PrintedText(Printed(false, E12)));
  }

  lemma UnitsOfOne()
    ensures Less(Zeros(27) + "inf", PrintedText(Printed(false, E12)))
  {
    Pow10Values();
    SmallWhole(E12);
    assert WholePart(E12) == 1;
    var x := "." + Padded(FractionPart(E12), FRACTION_WIDTH);
    ZerosPadded(17);
    ZerosSum(17, 10);
    assert Zeros(27) + "inf" == Padded(0, 17) + (Zeros(10) + "inf");
    FieldOrder(0, 1, 17, Zeros(10) + "inf", x);
  }

  lemma {:induction false} ZerosPadded(n: nat)
    ensures Padded(0, n) == Zeros(n)
  {
    if n > 0 {
      ZerosPadded(n - 1);
      ZerosSum(n - 1, 1);
      assert Zeros(1) == "0" + Zeros(0);
    }
  }

  lemma {:induction false} ZerosSum(m: nat, n: nat)
    ensures Zeros(m + n) == Zeros(m) + Zeros(n)
  {
    if m > 0 {
      ZerosSum(m - 1, n);
      assert m - 1 + n == m + n - 1;
    } else {
      assert Zeros(0) + Zeros(n) == Zeros(n);
    }
  }

  // ----- latest

  /** `max` over the rows that have the field: the first one that no later one exceeds. */
  function LatestIndex(rows: seq<Row>, field: string): (best: Option<nat>)
    ensures best.Some? ==> best.value < |rows| && field in rows[best.value]
  {
    if rows == [] then None
    else
      var last := |rows| - 1;
      match LatestIndex(rows[..last], field)
      case None => if field in rows[last] then Some(last) else None
      case Some(i) =>
        if field in rows[last] && KeyLess(Sortable(rows[i][field]), Sortable(rows[last][field])) then Some(last)
        else Some(i)
  }

  /** Row i is no less than any row that has the field, and exceeds all before it. */
  ghost predicate FirstGreatest(rows: seq<Row>, field: string, i: nat) {
    && i < |rows| && field in rows[i]
    && (forall j | 0 <= j < |rows| && field in rows[j] :: !KeyLess(Sortable(rows[i][field]), Sortable(rows[j][field])))
    && (forall j | 0 <= j < i && field in rows[j] :: KeyLess(Sortable(rows[j][field]), Sortable(rows[i][field])))
  }

  lemma KeyOrder(a: Key, b: Key, c: Key)
    ensures !KeyLess(a, a)
    ensures KeyLess(a, b) && KeyLess(b, c) ==> KeyLess(a, c)
    ensures !KeyLess(b, a) && KeyLess(b, c) ==> KeyLess(a, c) || a == b
    ensures !KeyLess(a, b) && !KeyLess(b, a) ==> a == b
  {
    LessAsymmetric(a.text, a.text);
    LessAsymmetric(a.text, b.text);
    LessTotal(a.text, b.text);
    if Less(a.text, b.text) && Less(b.text, c.text) {
      LessTransitive(a.text, b.text, c.text);
    }
  }

  lemma {:induction false} LatestExact(rows: seq<Row>, field: string)
    ensures match LatestIndex(rows, field)
      case None => forall j | 0 <= j < |rows| :: field !in rows[j]
      case Some(i) => FirstGreatest(rows, field, i)
  {
    if rows != [] {
      var last := |rows| - 1;
      var front := rows[..last];
      LatestExact(front, field);
      match LatestIndex(front, field)
      case None =>
        forall j | 0 <= j < last ensures field !in rows[j] {
          assert front[j] == rows[j];
        }
        if field in rows[last] {
          KeyOrder(Sortable(rows[last][field]), Sortable(rows[last][field]), Sortable(rows[last][field]));
        }
      case Some(i) => LatestStep(rows, field, i);
    }
  }

  lemma LatestStep(rows: seq<Row>, field: string, i: nat)
    requires rows != [] && FirstGreatest(rows[..|rows| - 1], field, i)
    ensures var last := |rows| - 1;
      if field in rows[last] && KeyLess(Sortable(rows[i][field]), Sortable(rows[last][field]))
      then FirstGreatest(rows, field, last) else FirstGreatest(rows, field, i)
  {
    var last := |rows| - 1;
    var front := rows[..last];
    assert front[i] == rows[i];
    forall j | 0 <= j < last && field in rows[j]
      ensures !KeyLess(Sortable(rows[i][field]), Sortable(rows[j][field]))
      ensures j < i ==> KeyLess(Sortable(rows[j][field]), Sortable(rows[i][field]))
    {
      assert front[j] == rows[j];
    }
    if field in rows[last] && KeyLess(Sortable(rows[i][field]), Sortable(rows[last][field])) {
      GreaterTaken(rows, field, i);
    }
  }

  lemma GreaterTaken(rows: seq<Row>, field: string, i: nat)
    requires i < |rows| - 1 && field in rows[i] && field in rows[|rows| - 1]
    requires KeyLess(Sortable(rows[i][field]), Sortable(rows[|rows| - 1][field]))
    requires forall j | 0 <= j < |rows| - 1 && field in rows[j] ::
      !KeyLess(Sortable(rows[i][field]), Sortable(rows[j][field]))
    ensures FirstGreatest(rows, field, |rows| - 1)
  {
    var newest := Sortable(rows[|rows| - 1][field]);
    forall j | 0 <= j < |rows| - 1 && field in rows[j]
      ensures KeyLess(Sortable(rows[j][field]), newest) && !KeyLess(newest, Sortable(rows[j][field]))
    {
      KeyOrder(Sortable(rows[j][field]), Sortable(rows[i][field]), newest);
      KeyOrder(newest, Sortable(rows[j][field]), newest);
    }
    KeyOrder(newest, newest, newest);
  }

  lemma LatestOfTwo(a: Scalar, b: Scalar, field: string)
    ensures LatestIndex([map[field := a], map[field := b]], field) ==
      if KeyLess(Sortable(a), Sortable(b)) then Some(1) else Some(0)
  {
    var rows: seq<Row> := [map[field := a], map[field := b]];
    assert rows[..1] == [map[field := a]];
    assert rows[..1][..0] == [];
  }

  /** So LATEST can miss the greatest number: it takes the first of two that have one key, and
    the smaller of two whose keys are reversed. */
  lemma GreatestMissed(field: string)
    ensures LatestIndex([map[field := Numeric(Int(9_007_199_254_740_992))],
                         map[field := Numeric(Int(9_007_199_254_740_993))]], field) == Some(0)
    ensures LatestIndex([map[field := Numeric(Int(99_999_999_999_999_999))],
                         map[field := Numeric(Int(99_999_999_999_999_984))]], field) == Some(1)
  {
    EqualKeys();
    ReversedKeys();
    LatestOfTwo(Numeric(Int(9_007_199_254_740_992)), Numeric(Int(9_007_199_254_740_993)), field);
    LatestOfTwo(Numeric(Int(99_999_999_999_999_999)), Numeric(Int(99_999_999_999_999_984)), field);
    var key := Sortable(Numeric(Int(9_007_199_254_740_992)));
    LessAsymmetric(key.text, key.text);
  }

  /** a is shown as the smaller number. */
  predicate ShownBefore(a: Scalar, b: Scalar) {
    && a.Numeric? && b.Numeric? && IsFinite(a.number) && IsFinite(b.number)
    && Before(PrintedOf(a.number), PrintedOf(b.number))
  }

  predicate Smaller(a: Scalar, b: Scalar) {
    && a.Numeric? && b.Numeric? && IsFinite(a.number) && IsFinite(b.number)
    && Exact(a.number) < Exact(b.number)
  }

  predicate OrderlyScalar(a: Scalar) {
    a.Numeric? && Orderly(a.number)
  }

  predicate SurvivingScalar(a: Scalar) {
    OrderlyScalar(a) && Survives(a.number)
  }

  lemma KeysOrderShown(a: Scalar, b: Scalar)
    requires OrderlyScalar(a) && OrderlyScalar(b)
    ensures KeyLess(Sortable(a), Sortable(b)) <==> ShownBefore(a, b)
  {
    KeyOrdersPrinted(a.number, b.number);
  }

  lemma ShownOrdersSurvivors(a: Scalar, b: Scalar)
    requires SurvivingScalar(a) && SurvivingScalar(b)
    ensures ShownBefore(a, b) <==> Smaller(a, b)
  {
    SurvivorsOrder(a.number, b.number);
  }

  /** When the field holds orderly numbers in every row that has it, LATEST is the first row whose
    number is shown greatest. */
  lemma LatestIsGreatest(rows: seq<Row>, field: string)
    requires forall j | 0 <= j < |rows| && field in rows[j] :: OrderlyScalar(rows[j][field])
    ensures match LatestIndex(rows, field)
      case None => forall j | 0 <= j < |rows| :: field !in rows[j]
      case Some(i) =>
        && (forall j | 0 <= j < |rows| && field in rows[j] :: !ShownBefore(rows[i][field], rows[j][field]))
        && (forall j | 0 <= j < i && field in rows[j] :: ShownBefore(rows[j][field], rows[i][field]))
  {
    LatestExact(rows, field);
    match LatestIndex(rows, field)
    case None =>
    case Some(i) =>
      forall j | 0 <= j < |rows| && field in rows[j]
        ensures !ShownBefore(rows[i][field], rows[j][field])
        ensures j < i ==> ShownBefore(rows[j][field], rows[i][field])
      {
        KeysOrderShown(rows[i][field], rows[j][field]);
        KeysOrderShown(rows[j][field], rows[i][field]);
      }
  }

  /** When they all survive the conversion as well, it is the first row of greatest number. */
  lemma LatestOfSurvivors(rows: seq<Row>, field: string)
    requires forall j | 0 <= j < |rows| && field in rows[j] :: SurvivingScalar(rows[j][field])
    ensures match LatestIndex(rows, field)
      case None => forall j | 0 <= j < |rows| :: field !in rows[j]
      case Some(i) =>
        && (forall j | 0 <= j < |rows| && field in rows[j] :: !Smaller(rows[i][field], rows[j][field]))
        && (forall j | 0 <= j < i && field in rows[j] :: Smaller(rows[j][field], rows[i][field]))
  {
    LatestIsGreatest(rows, field);
    match LatestIndex(rows, field)
    case None =>
    case Some(i) =>
      forall j | 0 <= j < |rows| && field in rows[j]
        ensures !Smaller(rows[i][field], rows[j][field])
        ensures j < i ==> Smaller(rows[j][field], rows[i][field])
      {
        ShownOrdersSurvivors(rows[i][field], rows[j][field]);
        ShownOrdersSurvivors(rows[j][field], rows[i][field]);
      }
  }

  // ----- project_rows

  function Min(a: nat, b: nat): nat {
    if a < b then a else b
  }

  /** `rows[offset : offset + limit]` */
  function Page(rows: seq<Row>, offset: nat, limit: nat): seq<Row> {
    rows[Min(offset, |rows|)..Min(offset + limit, |rows|)]
  }

  datatype Request =
    | Select(fields: seq<string>) | Count | Exists | First | Latest(sortField: string)
    | TopN(n: nat) | Pagination(offset: nat, limit: nat) | MetadataOnly

  datatype Data = Rows(rows: seq<Row>) | One(row: Option<Row>) | Total(count: nat) | Any(exists_: bool)

  function Selected(row: Row, fields: seq<string>): Row {
    map field | field in fields && field in row :: row[field]
  }

  function SelectAll(rows: seq<Row>, fields: seq<string>): seq<Row> {
    if rows == [] then [] else [Selected(rows[0], fields)] + SelectAll(rows[1..], fields)
  }

  /** Building the key of this row raises. */
  predicate KeyRaises(row: Row, field: string) {
    field in row && row[field].Numeric? && Overflows(row[field].number)
  }

  /** None when an integer is too large for `float`. */
  function ProjectRows(rows: seq<Row>, q: Request): Option<Data> {
    if q.Latest? && exists i :: 0 <= i < |rows| && KeyRaises(rows[i], q.sortField) then None
    else Some(Projected(rows, q))
  }

  function Projected(rows: seq<Row>, q: Request): Data {
    match q
    case Count => Total(|rows|)
    case Exists => Any(rows != [])
    case MetadataOnly => Total(|rows|)
    case Select(fields) => Rows(SelectAll(rows, fields))
    case First => One(if rows == [] then None else Some(rows[0]))
    case Latest(field) =>
      One(match LatestIndex(rows, field) case None => None case Some(i) => Some(rows[i]))
    case TopN(n) => Rows(rows[..Min(n, |rows|)])
    case Pagination(offset, limit) => Rows(Page(rows, offset, limit))
  }

  // ----- what an answer says

  /** Row r has exactly those requested fields that the input row has, with its values. */
  ghost predicate SelectedFrom(row: Row, fields: seq<string>, r: Row) {
    forall k :: (k in r <==> k in fields && k in row) && (k in r ==> r[k] == row[k])
  }

  lemma {:induction false} SelectAllExact(rows: seq<Row>, fields: seq<string>)
    ensures |SelectAll(rows, fields)| == |rows|
    ensures forall i | 0 <= i < |rows| :: SelectedFrom(rows[i], fields, SelectAll(rows, fields)[i])
  {
    if rows != [] {
      SelectAllExact(rows[1..], fields);
      assert SelectedFrom(rows[0], fields, Selected(rows[0], fields));
      forall i | 0 < i < |rows| ensures SelectedFrom(rows[i], fields, SelectAll(rows, fields)[i]) {
        assert SelectAll(rows, fields)[i] == SelectAll(rows[1..], fields)[i - 1];
        assert rows[i] == rows[1..][i - 1];
      }
    }
  }

  /** The answers to all requests but LATEST, which are never refused. */
  lemma AnswersExact(rows: seq<Row>, q: Request)
    requires !q.Latest?
    ensures ProjectRows(rows, q).Some?
    ensures var data := ProjectRows(rows, q).value;
      match q
      case Count => data == Total(|rows|)
      case MetadataOnly => data == Total(|rows|)
      case Exists => data == Any(|rows| > 0)
      case First => data == One(if |rows| == 0 then None else Some(rows[0]))
      case TopN(n) =>
        data.Rows? && data.rows <= rows && |data.rows| <= n && (|data.rows| == n || data.rows == rows)
      case Select(fields) =>
        data.Rows? && |data.rows| == |rows|
          && forall i | 0 <= i < |rows| :: SelectedFrom(rows[i], fields, data.rows[i])
      case Pagination(offset, limit) =>
        data.Rows? && |data.rows| <= limit
          && (forall i | 0 <= i < |data.rows| :: offset + i < |rows| && data.rows[i] == rows[offset + i])
          && (|data.rows| == limit || |rows| <= offset + |data.rows|)
      case Latest(_) => true
  {
    if q.Select? {
      SelectAllExact(rows, q.fields);
    }
  }

  /** The key of some row cannot be built: its number is an integer that no double comes near. */
  ghost predicate SomeKeyRaises(rows: seq<Row>, field: string) {
    exists i, n :: 0 <= i < |rows| && field in rows[i] && rows[i][field] == Numeric(Int(n))
      && Magnitude(n) >= Pow2(1024) - Pow2(970)
  }

  lemma RaisesExactly(rows: seq<Row>, field: string)
    ensures SomeKeyRaises(rows, field) <==> exists i :: 0 <= i < |rows| && KeyRaises(rows[i], field)
  {
    forall n: int ensures Overflows(Int(n)) <==> Magnitude(n) >= Pow2(1024) - Pow2(970) {
      OverflowExact(n);
    }
    if i :| 0 <= i < |rows| && KeyRaises(rows[i], field) {
      var n := rows[i][field].number.n;
      assert rows[i][field] == Numeric(Int(n));
    }
  }

  /** LATEST fails exactly when a key raises. Otherwise it answers nothing exactly when no row has the
    field, and else the first row of greatest key. */
  lemma LatestAnswer(rows: seq<Row>, field: string)
    ensures match ProjectRows(rows, Latest(field))
      case None => SomeKeyRaises(rows, field)
      case Some(One(None)) => !SomeKeyRaises(rows, field) && forall j | 0 <= j < |rows| :: field !in rows[j]
      case Some(One(Some(row))) =>
        !SomeKeyRaises(rows, field) && exists i: nat :: FirstGreatest(rows, field, i) && row == rows[i]
      case _ => false
  {
    RaisesExactly(rows, field);
    LatestExact(rows, field);
  }

  /** When every number that the field holds survives the conversion in range, LATEST answers the first
    row of greatest number. */
  lemma LatestAnswersGreatest(rows: seq<Row>, field: string)
    requires forall j | 0 <= j < |rows| && field in rows[j] :: SurvivingScalar(rows[j][field])
    ensures match ProjectRows(rows, Latest(field))
      case Some(One(None)) => forall j | 0 <= j < |rows| :: field !in rows[j]
      case Some(One(Some(row))) =>
        exists i: nat :: i < |rows| && field in rows[i] && row == rows[i]
          && (forall j | 0 <= j < |rows| && field in rows[j] :: !Smaller(rows[i][field], rows[j][field]))
          && (forall j | 0 <= j < i && field in rows[j] :: Smaller(rows[j][field], rows[i][field]))
      case _ => false
  {
    LatestOfSurvivors(rows, field);
    forall i | 0 <= i < |rows| ensures !KeyRaises(rows[i], field) {
      if field in rows[i] {
        OrderlyFits(rows[i][field].number);
      }
    }
  }

  lemma OrderlyFits(v: Number)
    requires Orderly(v)
    ensures !Overflows(v)
  {
    if v.Int? {
      IntSurvives(v.n);
      Pow2At16();
      Pow2Sum(16, 16);
      Pow2Sum(32, 16);
      Pow2Sum(48, 16);
      Pow2Monotone(64, 1024);
    }
  }

  // ----- pages

  /** The answers to consecutive PAGINATION requests from an offset on, until one starts beyond the
    rows. */
  ghost function Pages(rows: seq<Row>, offset: nat, limit: nat): seq<Data>
    requires limit > 0
    decreases if offset < |rows| then |rows| - offset else 0
  {
    if offset >= |rows| then []
    else [ProjectRows(rows, Pagination(offset, limit)).value] + Pages(rows, offset + limit, limit)
  }

  ghost function Joined(pages: seq<Data>): seq<Row> {
    if pages == [] then []
    else (if pages[0].Rows? then pages[0].rows else []) + Joined(pages[1..])
  }

  lemma JoinedFirst(page: seq<Row>, rest: seq<Data>)
    ensures Joined([Rows(page)] + rest) == page + Joined(rest)
  {
    assert ([Rows(page)] + rest)[1..] == rest;
  }

  /** Consecutive pages of equal limit join to the whole input. */
  lemma {:induction false} PagesJoin(rows: seq<Row>, offset: nat, limit: nat)
    requires limit > 0 && offset <= |rows|
    ensures Joined(Pages(rows, offset, limit)) == rows[offset..]
    decreases |rows| - offset
  {
    if offset < |rows| {
      var next := Min(offset + limit, |rows|);
      assert ProjectRows(rows, Pagination(offset, limit)) == Some(Rows(rows[offset..next]));
      JoinedFirst(rows[offset..next], Pages(rows, offset + limit, limit));
      if offset + limit < |rows| {
        PagesJoin(rows, next, limit);
      }
      assert rows[offset..] == rows[offset..next] + rows[next..];
    }
  }

  /** The row says nothing that some input row does not say. */
  ghost predicate Reduces(rows: seq<Row>, r: Row) {
    exists i :: 0 <= i < |rows| && r.Keys <= rows[i].Keys && forall field | field in r :: r[field] == rows[i][field]
  }

  lemma {:induction false} SelectReduces(rows: seq<Row>, fields: seq<string>, r: Row)
    requires r in SelectAll(rows, fields)
    ensures Reduces(rows, r)
  {
    if r == Selected(rows[0], fields) {
      assert r.Keys <= rows[0].Keys;
    } else {
      SelectReduces(rows[1..], fields, r);
      var i :| 0 <= i < |rows| - 1 && r.Keys <= rows[1..][i].Keys
        && forall field | field in r :: r[field] == rows[1..][i][field];
      assert rows[i + 1] == rows[1..][i];
    }
  }

  lemma RowReduces(rows: seq<Row>, r: Row)
    requires r in rows
    ensures Reduces(rows, r)
  {
  }

  /** A projection only reduces: every row in the answer is part of an input row. */
  lemma ProjectionReduces(rows: seq<Row>, q: Request, r: Row)
    requires match ProjectRows(rows, q)
      case Some(Rows(out)) => r in out
      case Some(One(row)) => row == Some(r)
      case _ => false
    ensures Reduces(rows, r)
  {
    match q
    case Select(fields) => SelectReduces(rows, fields, r);
    case _ => RowReduces(rows, r);
  }
}
