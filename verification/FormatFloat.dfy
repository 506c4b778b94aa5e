/** Printing a floating-point number to a given precision: the fast digits, or the exact ones where these give up. */
module FormatFloat {
  import opened Arith
  import opened Decimal
  import opened DigitCount
  import opened FloatText
  import Grisu
  import Dragon4
  import WideMul

  /** The most significant digits that a double can have. */
  const MAX_DOUBLE_DIGITS: nat := 767

  function Cut(precision: nat): nat {
    Min(precision, MAX_DOUBLE_DIGITS)
  }

  ghost function Num(m: nat, p: int, place: int): nat {
    Dragon4.Numerator(m, p, place)
  }

  ghost function Den(p: int, place: int): (d: nat)
    ensures d > 0
  {
    Dragon4.Denominator(p, place)
  }

  /** q * 10^place is m * 2^p rounded half to even. */
  ghost predicate RoundedAt(m: nat, p: int, q: int, place: int) {
    IsHalfEven(q, Num(m, p, place), Den(p, place))
  }

  /** The characters are digits that, times 10^exp, are m * 2^p rounded half to even at a decimal place. */
  ghost predicate Correct(digits: string, exp: int, m: nat, p: int, place: int) {
    AllDigits(digits) && exists q: int :: SameDecimal(DecimalValue(digits), exp, q, place) && RoundedAt(m, p, q, place)
  }

  /** f / one is less than one unit of f away from m * 2^p * 10^k. */
  ghost predicate WithinOne(f: nat, one: nat, m: nat, p: int, k: int) {
    (f - 1) * Den(p, -k) < Num(m, p, -k) * one < (f + 1) * Den(p, -k)
  }

  /** The place of the first digit of a number that is f / one when scaled by 10^k. */
  function FirstPlace(f: nat, one: nat, k: int): int
    requires one > 0
  {
    NumDigits(f / one) - k - 1
  }

  /** The place of the last digit: so many behind the point, or so many from the first, but at least one. */
  function LastPlace(first: int, precision: int, fixed: bool): int {
    if fixed then -precision else first + 1 - Max(precision, 1)
  }

  /** How many digits are asked for of the exact form. */
  function DigitsAsked(first: int, precision: nat, fixed: bool): int {
    if fixed then precision + first + 1 else precision
  }

  function Excess(p: int, closer: bool): nat {
    Dragon4.Excess(p, if closer then 2 else 1)
  }

  /** Whether the fast form finishes for the scaled number f / one. */
  ghost predicate FastDecides(f: nat, one: nat, k: int, precision: nat, fixed: bool)
    requires one > 0
  {
    Grisu.Decides(f, one, NumDigits(f / one), DigitsAsked(FirstPlace(f, one, k), precision, fixed), fixed)
  }

  /**
   * When the exact form is correctly rounded: if no digits were asked for
   * where one is due, for a number that rounds to ten; otherwise if its setup
   * does not double the number, or if doubling does not show in a single
   * character.
   */
  ghost predicate ExactIsRounded(m: nat, p: int, closer: bool, first: int, precision: nat, fixed: bool) {
    var num, den := Num(m, p, first), Den(p, first);
    if !fixed && precision == 0 then 19 * den <= 2 * num
    else p < 0 || !closer || (DigitsAsked(first, precision, fixed) == 0 && num > 5 * den)
  }

  /** When m * 2^p, scaled by 10^k as f / one, is printed correctly rounded. */
  ghost predicate PrintsRounded(m: nat, p: int, closer: bool, f: nat, one: nat, k: int, precision: nat, fixed: bool)
    requires one > 0
  {
    || FastDecides(f, one, k, Cut(precision), fixed)
    || ExactIsRounded(m, p, closer, FirstPlace(f, one, k), Cut(precision), fixed)
  }

  /** When no digit is left of the number: in general notation, where none is asked for of the exact form. */
  ghost predicate NothingLeft(m: nat, p: int, closer: bool, f: nat, one: nat, k: int, precision: nat)
    requires one > 0
  {
    var first := FirstPlace(f, one, k);
    && precision == 0 && !FastDecides(f, one, k, 0, false)
    && Excess(p, closer) * Num(m, p, first) <= 5 * Den(p, first)
  }

  // Places.

  lemma TenSum(a: nat, b: nat, c: nat)
    ensures Pow(10, a) * Pow(10, b) * Pow(10, c) == Pow(10, a + b + c)
  {
    hide Pow;
    PowAdd(10, a, b);
    PowAdd(10, a + b, c);
  }

  lemma FactorsOut(v: nat, w: nat, x: nat, y: nat, z: nat)
    ensures (v * x) * y * (w * z) == (v * w) * (x * y * z)
    ensures (v * x) * (w * y) * z == (v * w) * (x * y * z)
  {
    MulAssoc(v, x, y);
    MulSwap(v, x * y, w, z);
    MulSwap(v, x, w, y);
    MulAssoc(v * w, x * y, z);
  }

  /** The fractions of a number at two places differ by the power of ten between them. */
  lemma PlaceShift(m: nat, p: int, a: int, b: int)
    ensures Num(m, p, a) * Pow(10, Max(a - b, 0)) * Den(p, b) == Num(m, p, b) * Den(p, a) * Pow(10, Max(b - a, 0))
  {
    hide Pow;
    var v, w := m * Pow(2, Max(p, 0)), Pow(2, Max(-p, 0));
    FactorsOut(v, w, Pow(10, Max(-a, 0)), Pow(10, Max(a - b, 0)), Pow(10, Max(b, 0)));
    FactorsOut(v, w, Pow(10, Max(-b, 0)), Pow(10, Max(a, 0)), Pow(10, Max(b - a, 0)));
    TenSum(Max(-a, 0), Max(a - b, 0), Max(b, 0));
    TenSum(Max(-b, 0), Max(a, 0), Max(b - a, 0));
  }

  /** The scaled number at a place of the fast form, as a fraction at the place of the number itself. */
  lemma ScaledFraction(m: nat, p: int, k: int, one: nat, e: int)
    requires one > 0
    ensures Grisu.Unit(one, e) * Den(p, -k) > 0
    ensures (Num(m, p, -k) * one * Grisu.Scale(e)) * Den(p, e - k)
            == Num(m, p, e - k) * (Grisu.Unit(one, e) * Den(p, -k))
  {
    hide Pow, Num, Den;
    var s, t := Pow(10, Max(-e, 0)), Pow(10, Max(e, 0));
    var n, d, n', d' := Num(m, p, -k), Den(p, -k), Num(m, p, e - k), Den(p, e - k);
    PlaceShift(m, p, -k, e - k);
    assert n * s * d' == n' * d * t;
    ScaleBoth(n, s, d', n', d, t, one);
    MulStrict(one, 0, t);
    MulStrict(d, 0, one * t);
  }

  lemma ScaleBoth(n: nat, s: nat, d': nat, n': nat, d: nat, t: nat, one: nat)
    requires n * s * d' == n' * d * t
    ensures (n * one * s) * d' == n' * ((one * t) * d)
  {
    calc {
      (n * one * s) * d';
      { MulRotate(n, one, s); }
      (one * (n * s)) * d';
      { MulAssoc(one, n * s, d'); }
      one * (n * s * d');
      one * (n' * d * t);
      { MulRotate(n' * d, t, one); MulRotate(n', d, one * t); MulRotate(one, n' * d, t); }
      n' * ((one * t) * d);
    }
  }

  // The fast form.

  /** Digits that are nearest to every real within the error are the number correctly rounded. */
  lemma FinishedIsRounded(f: nat, one: nat, m: nat, p: int, k: int, q: int, e: int)
    requires one > 0 && WithinOne(f, one, m, p, k) && Grisu.IsFinished(f, one, q, e)
    ensures RoundedAt(m, p, q, e - k)
  {
    hide Num, Den, IsHalfEven, Grisu.Unit, Grisu.Scale;
    var unit, scale := Grisu.Unit(one, e), Grisu.Scale(e);
    NearestEnds(f, q, unit, scale);
    var n, d := Num(m, p, -k) * one, Den(p, -k);
    StrictlyNearest(f, n, d, q, unit, scale);
    ScaledFraction(m, p, k, one, e);
    HalfEvenScale(q, n * scale, unit * d, Num(m, p, e - k), Den(p, e - k));
  }

  lemma NearestEnds(f: nat, q: int, unit: nat, scale: nat)
    requires Grisu.IsNearest(f, q, unit, scale)
    ensures 2 * (q * unit - (f - 1) * scale) <= unit && 2 * ((f + 1) * scale - q * unit) <= unit
  {
    hide Grisu.Times;
    Grisu.TimesInteger(f, scale);
    Grisu.TimesShift(f as real, scale);
    MulDist(scale, f, 1);
    var low, high := Grisu.Times(f as real - 1.0, scale), Grisu.Times(f as real + 1.0, scale);
    assert -(unit as real) <= 2.0 * (low - (q * unit) as real);
    assert 2.0 * (high - (q * unit) as real) <= unit as real;
    IntegerBounds(f * scale - scale, f * scale + scale, q * unit, unit);
  }

  lemma IntegerBounds(low: int, high: int, x: int, unit: nat)
    requires -(unit as real) <= 2.0 * (low as real - x as real) && 2.0 * (high as real - x as real) <= unit as real
    ensures 2 * (x - low) <= unit && 2 * (high - x) <= unit
  {
  }

  lemma StrictlyNearest(f: nat, n: nat, d: nat, q: int, unit: nat, scale: nat)
    requires d > 0 && scale > 0 && (f - 1) * d < n < (f + 1) * d
    requires 2 * (q * unit - (f - 1) * scale) <= unit && 2 * ((f + 1) * scale - q * unit) <= unit
    ensures IsHalfEven(q, n * scale, unit * d)
  {
    hide IsHalfEven;
    ScaledBound(f - 1, d, n, scale);
    ScaledBound(0 - (f + 1), d, 0 - n, scale);
    ScaledGap(q * unit, (f - 1) * scale, unit, d);
    ScaledGap((f + 1) * scale, q * unit, unit, d);
    MulAssoc(q, unit, d);
    InsideIsHalfEven(q, n * scale, unit * d, (f - 1) * scale * d, (f + 1) * scale * d);
  }

  lemma InsideIsHalfEven(q: int, num: int, den: int, low: int, high: int)
    requires low < num < high && 2 * (q * den - low) <= den && 2 * (high - q * den) <= den
    ensures IsHalfEven(q, num, den)
  {
  }

  lemma ScaledBound(g: int, d: nat, n: int, scale: nat)
    requires scale > 0 && g * d < n
    ensures (g * scale) * d < n * scale
  {
    MulStrict(scale, g * d, n);
    MulRotate(g, d, scale);
    MulRotate(g, scale, d);
  }

  lemma ScaledGap(x: int, y: int, unit: nat, d: nat)
    requires 2 * (x - y) <= unit
    ensures 2 * (x * d - y * d) <= unit * d
  {
    MulMono(d, 2 * (x - y), unit);
    MulAssoc(2, x - y, d);
    MulDist(d, x, y);
  }

  /** The first digit of the fast form has the place of the first digit of the number. */
  lemma FirstDigit(f: U64, one: nat, m: nat, p: int, k: int)
    requires one >= 0x1_0000_0000 && f / one > 0 && WithinOne(f, one, m, p, k)
    ensures var first := FirstPlace(f, one, k);
            3 * Den(p, first) <= 4 * Num(m, p, first) && Num(m, p, first) < 10 * Den(p, first)
    ensures f / one < 0x1_0000_0000 && 1 <= NumDigits(f / one) <= 10
  {
    hide Num, Den, NumDigits, Pow;
    var kappa: nat := NumDigits(f / one);
    Grisu.StartBounds(f, one, kappa);
    NumDigitsBounds(f / one);
    var e := kappa - 1;
    UnitAndScale(one, e);
    var unit := Pow(10, e) * one;
    var n, d := Num(m, p, -k) * one, Den(p, -k);
    ScaledFraction(m, p, k, one, e);
    OneToTen(f, n, d, unit);
    assert n * 1 == n;
    Dragon4.SameFraction(n, unit * d, Num(m, p, e - k), Den(p, e - k), 1, 10);
    Dragon4.SameFraction(n, unit * d, Num(m, p, e - k), Den(p, e - k), 4, 3);
    FlippedOrder(n, unit * d, Num(m, p, e - k), Den(p, e - k));
  }

  lemma UnitAndScale(one: nat, e: nat)
    ensures Grisu.Unit(one, e) == Pow(10, e) * one && Grisu.Scale(e) == 1
  {
    hide Pow;
    PowZero(10);
  }

  lemma OneToTen(f: nat, n: nat, d: nat, unit: nat)
    requires d > 0 && unit >= 0x1_0000_0000 && unit <= f < 10 * unit && (f - 1) * d < n < (f + 1) * d
    ensures n < 10 * (unit * d) && 3 * (unit * d) <= 4 * n
  {
    MulMono(d, f + 1, 10 * unit);
    MulAssoc(10, unit, d);
    MulMono(d, 3 * unit, 4 * (f - 1));
    MulAssoc(3, unit, d);
    MulAssoc(4, f - 1, d);
  }

  lemma FlippedOrder(n': nat, d': nat, n: nat, d: nat)
    requires d > 0 && d' > 0 && n' * d == n * d'
    ensures 3 * d <= 4 * n <==> 3 * d' <= 4 * n'
  {
    Dragon4.SameFraction(n', d', n, d, 4, 3);
  }

  // The exact form.

  /** The exact form rounds at the place of its last digit. */
  lemma ExactRounds(m: nat, p: int, q: int, first: int, numDigits: nat)
    ensures Dragon4.Rounds(q, Num(m, p, first), Den(p, first), numDigits)
            <==> RoundedAt(m, p, q, first - numDigits + 1)
  {
    hide Num, Den, IsHalfEven, Pow;
    var place := first - numDigits + 1;
    PlaceShift(m, p, first, place);
    PowZero(10);
    PowNext(10, 0);
    var n, d := Num(m, p, place), Den(p, place);
    var n', d' := Num(m, p, first), Den(p, first);
    if numDigits == 0 {
      MulRotate(n, d', 10);
      assert n' * d == n * (10 * d');
      if IsHalfEven(q, n', 10 * d') { HalfEvenScale(q, n', 10 * d', n, d); }
      if IsHalfEven(q, n, d) { HalfEvenScale(q, n, d, n', 10 * d'); }
    } else {
      var t := n' * Pow(10, numDigits - 1);
      assert t * d == n * d';
      if IsHalfEven(q, t, d') { HalfEvenScale(q, t, d', n, d); }
      if IsHalfEven(q, n, d) { HalfEvenScale(q, n, d, t, d'); }
    }
  }

  /** Of numbers of about one and more, doubling shows in every digit, and in a single character up to five. */
  lemma DoublingShows(num: nat, den: nat, numDigits: nat)
    requires den > 0 && 3 * den <= 4 * num
    requires numDigits == 0 ==> 4 * num > 10 * den
    ensures Dragon4.HarmlessDoubling(num, den, numDigits) <==> numDigits == 0 && num > 5 * den
  {
    if numDigits > 0 {
      MulMono(num, 1, Pow(10, numDigits - 1));
    }
  }

  /** Where the fast form cannot decide on a single character the number is about five. */
  lemma AboutFive(f: U64, one: nat, m: nat, p: int, k: int)
    requires one >= 0x1_0000_0000 && f / one > 0 && WithinOne(f, one, m, p, k)
    requires Grisu.Undecided(Pow(10, NumDigits(f / one) - 1) * one, f / 10, 10, false, true)
    ensures var first := FirstPlace(f, one, k); 4 * Num(m, p, first) > 10 * Den(p, first)
  {
    hide Num, Den, NumDigits, Pow;
    var kappa: nat := NumDigits(f / one);
    Grisu.StartBounds(f, one, kappa);
    NumDigitsBounds(f / one);
    var e := kappa - 1;
    UnitAndScale(one, e);
    var unit := Pow(10, e) * one;
    var n, d := Num(m, p, -k) * one, Den(p, -k);
    ScaledFraction(m, p, k, one, e);
    HalfBound(f, n, d, unit);
    assert n * 1 == n;
    Dragon4.SameFraction(n, unit * d, Num(m, p, e - k), Den(p, e - k), 4, 10);
  }

  lemma HalfBound(f: nat, n: nat, d: nat, unit: nat)
    requires d > 0 && unit >= 0x1_0000_0000 && (f - 1) * d < n && 2 * (f / 10 + 10) > unit
    ensures 4 * n > 10 * (unit * d)
  {
    MulMono(d, 10 * unit, 4 * (f - 1));
    MulAssoc(10, unit, d);
    MulAssoc(4, f - 1, d);
  }

  /** One character for a number below ten where one digit is due: it stands for nothing or for ten. */
  lemma NothingOrTen(q: int, num: nat, den: nat, excess: nat)
    requires den > 0 && 3 * den <= 4 * num && num < 10 * den && 1 <= excess
    requires q == if 2 * (excess * num) > 10 * den then 1 else 0
    ensures IsHalfEven(10 * q, num, den) <==> 19 * den <= 2 * num
  {
    MulMono(num, 1, excess);
    assert 2 * (excess * num) >= 2 * num;
  }

  /** How many units of a place digits denote that end there or above it, or are none at all. */
  ghost function Units(digits: string, exp: int, place: int): int {
    if digits == "" then 0 else DecimalValue(digits) * Pow(10, Max(exp - place, 0))
  }

  lemma CorrectAt(digits: string, exp: int, m: nat, p: int, place: int)
    requires exp >= place || digits == ""
    ensures Correct(digits, exp, m, p, place)
            <==> AllDigits(digits) && RoundedAt(m, p, Units(digits, exp, place), place)
  {
    hide RoundedAt, DecimalValue, Pow;
    PowZero(10);
    if digits == "" {
      EmptyValue();
      assert SameDecimal(0, exp, 0, place);
      forall q: int | SameDecimal(0, exp, q, place) ensures q == 0 {
        if q != 0 { NotZeroTimes(q, Pow(10, Max(place - exp, 0))); }
      }
    } else {
      assert SameDecimal(DecimalValue(digits), exp, Units(digits, exp, place), place);
    }
  }

  lemma NotZeroTimes(q: int, t: nat)
    requires q != 0 && t > 0
    ensures q * t != 0
  {
  }

  /** Removing trailing zeros scales the exponent up. */
  method RemoveTrailingZeros(s: string, e: int) returns (digits: string, exp: int)
    ensures exp >= e && DecimalValue(s) == DecimalValue(digits) * Pow(10, exp - e)
    ensures |digits| <= |s| && digits == s[..|digits|] && exp + |digits| == e + |s|
    ensures AllDigits(digits) <==> AllDigits(s)
    ensures AllDigits(digits) && DecimalValue(digits) == 0 ==> digits == ""
    ensures digits != "" ==> digits[|digits| - 1] != '0'
  {
    hide DecimalValue;
    var numDigits: nat := |s|;
    exp := e;
    assert s[..|s|] == s;
    while numDigits > 0 && s[numDigits - 1] == '0'
      invariant numDigits <= |s| && exp + numDigits == e + |s|
      invariant DecimalValue(s) == DecimalValue(s[..numDigits]) * Pow(10, exp - e)
      invariant AllDigits(s[..numDigits]) <==> AllDigits(s)
    {
      assert s[..numDigits] == s[..numDigits - 1] + ['0'];
      DecimalSnoc(s[..numDigits - 1], '0');
      PowNext(10, exp - e);
      MulRotate(10, DecimalValue(s[..numDigits - 1]), Pow(10, exp - e));
      MulAssoc(DecimalValue(s[..numDigits - 1]), 10, Pow(10, exp - e));
      AllDigitsZero(s[..numDigits - 1]);
      numDigits := numDigits - 1;
      exp := exp + 1;
    }
    digits := s[..numDigits];
    if numDigits > 0 && AllDigits(digits) {
      assert digits == digits[..numDigits - 1] + [digits[numDigits - 1]];
      DecimalBound(digits[..numDigits - 1]);
      DecimalSnoc(digits[..numDigits - 1], digits[numDigits - 1]);
    }
  }

  lemma AllDigitsZero(s: string)
    ensures AllDigits(s + ['0']) <==> AllDigits(s)
  {
    forall i | 0 <= i < |s| && AllDigits(s + ['0']) ensures IsDigit(s[i]) {
      assert (s + ['0'])[i] == s[i];
    }
  }

  lemma StrippedIsCorrect(s: string, e: int, digits: string, exp: int, m: nat, p: int, place: int)
    requires s != "" && e >= place && exp >= e && DecimalValue(s) == DecimalValue(digits) * Pow(10, exp - e)
    requires AllDigits(digits) <==> AllDigits(s)
    ensures Correct(digits, exp, m, p, place) <==> Correct(s, e, m, p, place)
  {
    hide RoundedAt, DecimalValue, Pow, Correct;
    CorrectAt(digits, exp, m, p, place);
    CorrectAt(s, e, m, p, place);
    PowAdd(10, exp - e, e - place);
    MulAssoc(DecimalValue(digits), Pow(10, exp - e), Pow(10, e - place));
    if digits == "" { EmptyValue(); }
  }

  /**
   * The digits reach from the first place to the last, or are a carried one
   * with zeros: with one digit more, or ending one place higher.
   */
  predicate Spans(digits: string, exp: int, first: int, last: int, longer: bool) {
    || (exp == last && |digits| == first - last + 1)
    || (Carried(digits) && if longer then exp == last && |digits| == first - last + 2
                           else exp == last + 1 && |digits| == first - last + 1)
  }

  /** The number rounds to ten units of its first place. */
  ghost predicate RoundsToTen(m: nat, p: int, first: int, last: int)
    requires last <= first + 1
  {
    RoundedAt(m, p, Pow(10, first + 1 - last), last)
  }

  /** The decimal exponent of the rounded number. */
  ghost function RoundedExponent(m: nat, p: int, first: int, last: int): int
    requires last <= first + 1
  {
    first + if RoundsToTen(m, p, first, last) then 1 else 0
  }

  /** Correct digits are carried exactly when the number rounds to ten. */
  lemma SpanCarries(digits: string, exp: int, m: nat, p: int, first: int, last: int, longer: bool)
    requires last <= first && Spans(digits, exp, first, last, longer) && Correct(digits, exp, m, p, last)
    ensures exp + |digits| - 1 == RoundedExponent(m, p, first, last)
    ensures exp == last + if !longer && RoundsToTen(m, p, first, last) then 1 else 0
  {
    hide Pow, RoundedAt, Correct, DecimalValue;
    CorrectAt(digits, exp, m, p, last);
    PowZero(10);
    PowNext(10, 0);
    if exp == last && |digits| == first - last + 1 {
      DecimalBound(digits);
      if RoundsToTen(m, p, first, last) {
        RoundedOnce(m, p, Units(digits, exp, last), Pow(10, first + 1 - last), last);
      }
    } else {
      CarriedValue(digits);
      PowAdd(10, first - last, 1);
    }
  }

  lemma RoundedOnce(m: nat, p: int, q: int, q': int, place: int)
    requires RoundedAt(m, p, q, place) && RoundedAt(m, p, q', place)
    ensures q == q'
  {
    hide Num, Den, IsHalfEven;
    HalfEvenUnique(q, q', Num(m, p, place), Den(p, place));
  }

  /** The number can be taken apart and scaled as the digit generators demand. */
  ghost predicate IsScaled(m: nat, p: int, f: U64, e: int, k: int) {
    && 0 < m < 0x20_0000_0000_0000 && -1074 <= p && -60 <= e <= -32 && -348 <= k <= 340
    && f / Pow(2, -e) > 0 && WithinOne(f, Pow(2, -e), m, p, k)
  }

  /** Digits that the fast form finished, and the exponent of the last, are the number correctly rounded. */
  lemma FastIsCorrect(f: nat, one: nat, m: nat, p: int, k: int, digits: string, exp10: int, place: int, exp: int)
    requires one > 0 && WithinOne(f, one, m, p, k) && exp10 >= -k && AllDigits(digits)
    requires Grisu.IsFinished(f, one, DecimalValue(digits) * Pow(10, exp10 + k), place + k)
    requires digits != "" ==> exp == place + k + exp10
    ensures Correct(digits, exp, m, p, place)
  {
    hide RoundedAt, DecimalValue, Pow, Grisu.IsFinished, Correct, WithinOne;
    FinishedIsRounded(f, one, m, p, k, DecimalValue(digits) * Pow(10, exp10 + k), place + k);
    if digits == "" { EmptyValue(); }
    CorrectAt(digits, exp, m, p, place);
  }

  /** The fast form: where it finishes its digits are correctly rounded. */
  method FastDigits(f: U64, e: int, k: int, precision: nat, fixed: bool, ghost m: nat, ghost p: int)
    returns (finished: bool, digits: string, exp: int, numDigits: int)
    requires IsScaled(m, p, f, e, k)
    ensures var first := FirstPlace(f, Pow(2, -e), k);
            var num, den, place := Num(m, p, first), Den(p, first), LastPlace(first, precision, fixed);
            && numDigits == DigitsAsked(first, precision, fixed)
            && (finished <==> FastDecides(f, Pow(2, -e), k, precision, fixed))
            && (finished ==>
                  && Correct(digits, exp, m, p, place) && AllDigits(digits) && |digits| <= 31
                  && if fixed && numDigits <= 0 then exp == first + 1 && |digits| == (if numDigits == 0 then 1 else 0)
                     else
                       && Spans(digits, exp, first, place, fixed) && digits != "" && place <= exp <= place + 1
                       && (!fixed ==> |digits| == Max(precision, 1)))
            && (!finished ==>
                  numDigits >= 0 && exp == first && (fixed && numDigits == 0 ==> 4 * num > 10 * den))
  {
    hide Num, Den, RoundedAt, IsHalfEven, NumDigits, Pow, DecimalValue, Grisu.Undecided, Grisu.DecidesDigits;
    hide Grisu.IsFinished, Correct, AllDigits, WithinOne;
    ghost var one := Pow(2, -e);
    Grisu.OneBounds(e);
    ghost var first := FirstPlace(f, one, k);
    var buf := new char[32];
    var handler := new Grisu.FixedHandler(buf, precision, -k, fixed);
    var result;
    exp, result := Grisu.GenerateDigits(f, e, handler);
    numDigits := handler.precision;
    if result == Grisu.Error {
      exp := exp + handler.size - k - 1;
      if fixed && numDigits == 0 { AboutFive(f, one, m, p, k); }
      return false, "", exp, numDigits;
    }
    digits := handler.buf[..handler.size];
    assert digits == handler.Digits() && |digits| == handler.size;
    ghost var place := LastPlace(first, precision, fixed);
    FastIsCorrect(f, one, m, p, k, digits, handler.exp10, place, exp + handler.exp10);
    exp := exp + handler.exp10;
    return true, digits, exp, numDigits;
  }

  lemma NonnegativePlace(m: nat, p: int, first: int)
    requires m > 0 && p >= 0 && Num(m, p, first) < 10 * Den(p, first)
    ensures first >= 0
  {
    hide Pow;
    PowZero(2);
    PowZero(10);
    if first < 0 {
      PowMono(10, 1, -first);
      PowNext(10, 0);
      ProductBound(1, 10, m * Pow(2, p), Pow(10, -first));
    }
  }

  /** Digits of a number of about one and more, or of its double, are not all zero. */
  lemma NotZero(num: nat, den: nat, numDigits: nat, excess: nat)
    requires den > 0 && numDigits > 0 && 3 * den <= 4 * num && 1 <= excess
    ensures !Dragon4.Rounds(0, excess * num, den, numDigits)
    ensures !Dragon4.NotBelow(0, excess * num * Pow(10, numDigits - 1), den)
  {
    MulMono(num, 1, excess);
    MulMono(excess * num, 1, Pow(10, numDigits - 1));
  }

  lemma OneCharacter(digits: string, q: int)
    requires |digits| == 1 && q == DecimalValue(digits) * Pow(10, 0)
    ensures (q == 0 ==> digits == "0") && (q == 1 ==> digits == "1")
  {
    DecimalSnoc([], digits[0]);
    assert [] + [digits[0]] == digits;
  }

  /** The exact form, from the place of the first digit on. */
  method ExactDigits(m: nat, p: int, closer: bool, numDigits: nat, first: int, precision: nat, fixed: bool)
    returns (digits: string, exp: int)
    requires 0 < m < 0x20_0000_0000_0000 && -10000 < first < 10000
    requires numDigits == DigitsAsked(first, precision, fixed)
    requires 3 * Den(p, first) <= 4 * Num(m, p, first) && Num(m, p, first) < 10 * Den(p, first)
    requires fixed && numDigits == 0 ==> 4 * Num(m, p, first) > 10 * Den(p, first)
    ensures var place := LastPlace(first, precision, fixed);
            && exp >= place
            && (Correct(digits, exp, m, p, place) <==> ExactIsRounded(m, p, closer, first, precision, fixed))
    ensures |digits| == Max(numDigits, 1) && LooseDigits(digits)
    ensures first - numDigits + 1 <= exp <= first - numDigits + 2 && (numDigits == 0 ==> exp == first + 1)
    ensures numDigits == 0 ==> digits == if Excess(p, closer) * Num(m, p, first) > 5 * Den(p, first) then "1" else "0"
    ensures numDigits > 0 && Excess(p, closer) * Num(m, p, first) < 10 * Den(p, first) ==>
              Spans(digits, exp, first, first - numDigits + 1, false)
    ensures AllDigits(digits) && DecimalValue(digits) == 0
            <==> numDigits == 0 && Excess(p, closer) * Num(m, p, first) <= 5 * Den(p, first)
  {
    hide IsHalfEven, Pow, DecimalValue, Correct, AllDigits, Dragon4.HarmlessDoubling;
    hide Dragon4.Rounds, Dragon4.NotBelow, Dragon4.Numerator, Dragon4.Denominator;
    ghost var num, den := Num(m, p, first), Den(p, first);
    if p >= 0 { NonnegativePlace(m, p, first); }
    var buf;
    buf, exp := Dragon4.FallbackFormat(m, p, if closer then 2 else 1, numDigits, first);
    digits := buf[..];
    ghost var place, excess := LastPlace(first, precision, fixed), Excess(p, closer);
    ghost var q := DecimalValue(digits) * Pow(10, exp - (first - numDigits + 1));
    if numDigits > 0 { NotZero(num, den, numDigits, excess); } else { OneCharacter(digits, q); }
    CorrectAt(digits, exp, m, p, place);
    if !fixed && precision == 0 {
      PowNext(10, exp - first - 1);
      NothingOrTen(q, num, den, excess);
      MulRotate(10, DecimalValue(digits), Pow(10, exp - first - 1));
      MulAssoc(10, DecimalValue(digits), Pow(10, exp - first - 1));
    } else {
      ExactRounds(m, p, q, first, numDigits);
      DoublingShows(num, den, numDigits);
    }
  }

  /** A number of about one and more does not round to nothing at the place of its first digit, or below. */
  lemma NotNothing(exp: int, m: nat, p: int, first: int, place: int)
    requires place <= first && 3 * Den(p, first) <= 4 * Num(m, p, first)
    ensures !Correct("", exp, m, p, place)
  {
    hide Num, Den, RoundedAt, Pow, Dragon4.Rounds, Dragon4.NotBelow, Correct;
    CorrectAt("", exp, m, p, place);
    ExactRounds(m, p, 0, first, first - place + 1);
    NotZero(Num(m, p, first), Den(p, first), first - place + 1, 1);
  }

  // The cut of the precision.

  /** Rounding at a place is rounding at one further down when little enough lies between them. */
  ghost predicate CutHarmless(m: nat, p: int, place: int, more: nat) {
    var r, d := Num(m, p, place) % Den(p, place), Den(p, place);
    2 * r * Pow(10, more) <= d || 2 * (d - r) * Pow(10, more) <= d
  }

  /** Rounding further down to a multiple of a unit is rounding to it, when the cut is harmless. */
  lemma RoundedFurtherDown(m: nat, p: int, q: int, place: int, more: nat)
    requires more > 0
    ensures RoundedAt(m, p, q * Pow(10, more), place - more)
            <==> RoundedAt(m, p, q, place) && CutHarmless(m, p, place, more)
  {
    hide Num, Den, Pow, IsHalfEven;
    var n, d, t := Num(m, p, place), Den(p, place), Pow(10, more);
    var n', d' := Num(m, p, place - more), Den(p, place - more);
    PlaceShift(m, p, place, place - more);
    PowZero(10);
    assert n * t * d' == n' * d;
    if IsHalfEven(q * t, n * t, d) { HalfEvenScale(q * t, n * t, d, n', d'); }
    if IsHalfEven(q * t, n', d') { HalfEvenScale(q * t, n', d', n * t, d); }
    PowNext(10, more - 1);
    FinerRounding(q, n, d, t, Pow(10, more - 1));
  }

  lemma FinerRounding(q: int, n: nat, d: nat, t: nat, h: nat)
    requires d > 0 && h > 0 && t == 10 * h
    ensures IsHalfEven(q * t, n * t, d)
            <==> IsHalfEven(q, n, d) && (2 * (n % d) * t <= d || 2 * (d - n % d) * t <= d)
  {
    hide IsHalfEven;
    Arith.DivMod(n, d);
    var g := n - q * d;
    MulRotate(q, t, d);
    MulRotate(q, d, t);
    MulDist(t, n, q * d);
    MulAssoc(2, g, t);
    MulAssoc(q, 10, h);
    GapIsHalfEven(q * t, n * t, d, g * t, 5 * (q * h));
    GapInside(n, d, q, g, t);
  }

  lemma GapIsHalfEven(q: int, num: int, den: int, gap: int, half: int)
    requires num - q * den == gap && q == 2 * half
    ensures IsHalfEven(q, num, den) <==> 0 - den <= 2 * gap <= den
  {
  }

  /** What ten times and more is within a half of a number lies next to it. */
  lemma GapInside(n: nat, d: nat, q: int, g: int, t: nat)
    requires d > 0 && t >= 10 && g == n - q * d && n == d * (n / d) + n % d && n % d < d
    ensures 0 - d <= 2 * (g * t) <= d
            <==> IsHalfEven(q, n, d) && (2 * (n % d) * t <= d || 2 * (d - n % d) * t <= d)
  {
    var r: nat, u := n % d, n / d - q;
    MulDist(d, n / d, q);
    assert g == d * u + r;
    if u >= 1 { MulMono(d, 1, u); }
    if u <= -2 { MulMono(d, u, -2); }
    TenTimes(g, t);
    TenTimes(r, t);
    TenTimes(d - r, t);
    MulAssoc(2, r, t);
    MulAssoc(2, d - r, t);
    if u == -1 {
      MulRotate(-1, d - r, t);
      MulAssoc(-1, d - r, t);
    }
    GapCases(n, d, q, r, u, g, g * t, r * t, (d - r) * t);
  }

  lemma GapCases(n: nat, d: nat, q: int, r: nat, u: int, g: int, gt: int, rt: int, st: int)
    requires r < d && g == n - q * d && (u >= 1 ==> g >= d) && (u <= -2 ==> g < 0 - d)
    requires (u == 0 ==> g == r && gt == rt) && (u == -1 ==> g == r - d && gt == -st)
    requires (g >= 0 ==> gt >= 10 * g) && (g <= 0 ==> gt <= 10 * g) && rt >= 10 * r && st >= 10 * (d - r)
    ensures 0 - d <= 2 * gt <= d <==> IsHalfEven(q, n, d) && (2 * rt <= d || 2 * st <= d)
  {
  }

  lemma TenTimes(x: int, t: nat)
    requires t >= 10
    ensures x >= 0 ==> x * t >= 10 * x
    ensures x <= 0 ==> x * t <= 10 * x
  {
  }

  lemma FivesBelowTwos()
    ensures Pow(5, 307) < Pow(2, 713)
  {
    hide Pow;
    FiveToThe59();
    PowersBelow(5, 59, 2, 137, 5);
    FiveToThe12();
    PowAdd(5, 295, 12);
    PowAdd(2, 685, 28);
    ProductBound(Pow(5, 295), Pow(5, 12), Pow(2, 685), Pow(2, 28) - 1);
    MulDist(Pow(2, 685), Pow(2, 28), 1);
  }

  lemma SmallPowers()
    ensures Pow(5, 3) == 125 && Pow(5, 6) == 15625 && Pow(5, 7) == 78125
    ensures Pow(2, 1) == 2 && Pow(2, 7) == 128 && Pow(2, 8) == 256 && Pow(2, 11) == 2048
  {
  }

  lemma FiveToThe12()
    ensures Pow(5, 12) < Pow(2, 28)
  {
    hide Pow;
    SmallPowers();
    PowAdd(5, 6, 6);
    PowAdd(2, 7, 7);
    PowAdd(2, 14, 14);
  }

  lemma FiveToThe59()
    ensures Pow(5, 59) <= Pow(2, 137)
  {
    hide Pow;
    SmallPowers();
    PowAdd(5, 7, 7);
    PowAdd(5, 14, 14);
    PowAdd(5, 28, 28);
    PowAdd(5, 56, 3);
    PowAdd(2, 8, 8);
    PowAdd(2, 16, 16);
    PowAdd(2, 32, 32);
    PowAdd(2, 64, 64);
    PowAdd(2, 128, 8);
    PowAdd(2, 136, 1);
  }

  lemma {:induction false} PowersBelow(a: nat, i: nat, b: nat, j: nat, n: nat)
    requires a > 0 && Pow(a, i) <= Pow(b, j)
    ensures Pow(a, i * n) <= Pow(b, j * n)
    decreases n
  {
    hide Pow;
    if n == 0 {
      PowZero(a);
      PowZero(b);
    } else {
      PowersBelow(a, i, b, j, n - 1);
      PowAdd(a, i * (n - 1), i);
      PowAdd(b, j * (n - 1), j);
      ProductBound(Pow(a, i * (n - 1)), Pow(a, i), Pow(b, j * (n - 1)), Pow(b, j));
      MulDist(i, n, 1);
      MulDist(j, n, 1);
    }
  }

  /** A double has no digits behind the 767th of its significant ones. */
  lemma EnoughDigits(m: nat, p: int, first: int)
    requires 0 < m < 0x20_0000_0000_0000 && -1074 <= p && first < 700
    requires 3 * Den(p, first) <= 4 * Num(m, p, first)
    ensures Num(m, p, first - 766) % Den(p, first - 766) == 0
  {
    hide Pow;
    PowZero(2);
    PowZero(10);
    if p < 0 {
      LastDigitPlace(m, -p, first);
      TwosInTens(m, 766 - first, -p);
    }
  }

  lemma TwosInTens(m: nat, a: nat, k: nat)
    requires k <= a
    ensures m * Pow(2, 0) * Pow(10, a) % (Pow(2, k) * Pow(10, 0)) == 0
  {
    hide Pow;
    PowZero(2);
    PowZero(10);
    PowMul(5, 2, a);
    MulAssoc(m, Pow(5, a), Pow(2, a));
    Dragon4.TwosDivide(m * Pow(5, a), a, k);
  }

  lemma LastDigitPlace(m: nat, k: nat, first: int)
    requires 0 < m < 0x20_0000_0000_0000 && 0 < k <= 1074
    requires 3 * Den(0 - k, first) <= 4 * Num(m, 0 - k, first)
    ensures first <= 766 - k
  {
    hide Pow;
    PowZero(2);
    PowZero(10);
    if first > 766 - k {
      if first >= 0 {
        ManyTwosAndTens(k, first);
        TwoToThe55();
        PowMono(2, 55, 767);
      } else {
        ManyTwos(m, k, -first);
      }
    }
  }

  lemma ManyTwosAndTens(k: nat, first: nat)
    requires k + first >= 767
    ensures Pow(2, k) * Pow(10, first) >= Pow(2, 767)
  {
    hide Pow;
    PowMul(5, 2, first);
    PowAdd(2, k, first);
    PowMono(2, 767, k + first);
    MulMono(Pow(2, first), 1, Pow(5, first));
    MulMono(Pow(2, k), Pow(2, first), Pow(10, first));
  }

  lemma ManyTwos(m: nat, k: nat, j: nat)
    requires 0 < m < 0x20_0000_0000_0000 && k <= 1074 && j + 767 <= k
    ensures 3 * Pow(2, k) > 4 * (m * Pow(10, j))
  {
    hide Pow;
    TwoToThe55();
    PowMul(5, 2, j);
    PowAdd(2, k - j, j);
    FivesBelowTwos();
    PowMono(5, j, 307);
    PowMono(2, 767, k - j);
    PowAdd(2, 55, 713);
    PowNext(2, 767);
    TooManyTwos(m, Pow(5, j), Pow(2, j), Pow(2, k - j), Pow(2, 713), Pow(2, 55), Pow(2, 767));
  }

  lemma TwoToThe55()
    ensures Pow(2, 55) == 4 * 0x20_0000_0000_0000
  {
    hide Pow;
    SmallPowers();
    PowAdd(2, 11, 11);
    PowAdd(2, 22, 22);
    PowAdd(2, 44, 11);
  }

  lemma TooManyTwos(m: nat, fives: nat, t: nat, u: nat, v: nat, w: nat, x: nat)
    requires 4 * m < w && fives < v && t > 0 && u >= x > 0 && w * v == 2 * x
    ensures 3 * (u * t) > 4 * (m * (fives * t))
  {
    ProductBound(4 * m, fives, w, v);
    MulAssoc(4, m, fives);
    MulAssoc(m, fives, t);
    MulAssoc(4, m * fives, t);
    MulAssoc(3, u, t);
    MulStrict(t, 4 * (m * fives), 3 * u);
  }

  /**
   * Rounding to the cut precision is rounding to the one asked for, save for
   * a fixed number of places when what is cut off matters.
   */
  lemma CutPrecision(digits: string, exp: int, m: nat, p: int, first: int, precision: nat, fixed: bool)
    requires 0 < m < 0x20_0000_0000_0000 && -1074 <= p && first < 700
    requires 3 * Den(p, first) <= 4 * Num(m, p, first)
    requires exp >= LastPlace(first, Cut(precision), fixed) || digits == ""
    ensures Correct(digits, exp, m, p, LastPlace(first, precision, fixed))
            <==> Correct(digits, exp, m, p, LastPlace(first, Cut(precision), fixed))
                 && (fixed && precision > Cut(precision) ==> CutHarmless(m, p, -767, precision - 767))
  {
    hide Num, Den, RoundedAt, Pow, DecimalValue, Correct;
    if precision > MAX_DOUBLE_DIGITS {
      var place, more: nat := LastPlace(first, MAX_DOUBLE_DIGITS, fixed), precision - MAX_DOUBLE_DIGITS;
      CorrectAt(digits, exp, m, p, place);
      CorrectAt(digits, exp, m, p, place - more);
      if digits != "" {
        PowAdd(10, exp - place, more);
        MulAssoc(DecimalValue(digits), Pow(10, exp - place), Pow(10, more));
      }
      RoundedFurtherDown(m, p, Units(digits, exp, place), place, more);
      if !fixed { EnoughDigits(m, p, first); }
    }
  }

  /**
   * Where the first and the last digit stand. Of correctly rounded digits the
   * first has the place of the rounded number's, and, if no zeros are removed,
   * the last the place asked for, at most 767 of them; but the exact form in
   * fixed mode stops one place higher when the number rounds to ten.
   */
  ghost predicate DigitsSpan(digits: string, exp: int, m: nat, p: int, closer: bool, f: nat, one: nat, k: int,
                             precision: nat, fixed: bool, showpoint: bool)
    requires one > 0
  {
    var first, cut, fast := FirstPlace(f, one, k), Cut(precision), FastDecides(f, one, k, Cut(precision), fixed);
    var asked, last := DigitsAsked(first, cut, fixed), LastPlace(first, cut, fixed);
    && (fixed && asked < 0 ==> digits == "" && exp == first + 1)
    && (asked == 0 && (fixed || (showpoint && !fast)) ==> |digits| == 1 && exp == first + 1)
    && (asked > 0 && (fixed || showpoint) && !fast ==> |digits| == asked && last <= exp <= last + 1)
    && (PrintsRounded(m, p, closer, f, one, k, precision, fixed) && (fixed ==> asked > 0) ==>
          exp + |digits| - 1 == RoundedExponent(m, p, first, last))
    && (PrintsRounded(m, p, closer, f, one, k, precision, fixed) && fixed && asked > 0 ==>
          exp == last + if !fast && RoundsToTen(m, p, first, last) then 1 else 0)
    && (showpoint && !fixed && (fast || asked > 0) ==> |digits| == Max(cut, 1))
  }

  /** The fast digits where they can be decided, and the exact ones otherwise. */
  method PrintDigits(m: nat, p: int, closer: bool, f: U64, e: int, k: int, cut: nat, fixed: bool)
    returns (digits: string, exp: int)
    requires IsScaled(m, p, f, e, k) && cut <= MAX_DOUBLE_DIGITS
    ensures LooseDigits(digits) && -10000 < exp + |digits| - 1 < 10000
    ensures var first, one := FirstPlace(f, Pow(2, -e), k), Pow(2, -e);
            && (Correct(digits, exp, m, p, LastPlace(first, cut, fixed))
                <==> PrintsRounded(m, p, closer, f, one, k, cut, fixed))
            && (if digits == "" then fixed && exp < 0 else exp >= LastPlace(first, cut, fixed))
            && (!fixed ==>
                  (AllDigits(digits) && DecimalValue(digits) == 0 <==> NothingLeft(m, p, closer, f, one, k, cut)))
            && (NothingLeft(m, p, closer, f, one, k, cut) && !fixed ==> |digits| == 1 && exp == first + 1)
            && DigitsSpan(digits, exp, m, p, closer, f, one, k, cut, fixed, true)
  {
    hide Num, Den, NumDigits, Pow, DecimalValue, Correct, AllDigits, LooseDigits, WithinOne;
    hide FastDecides, RoundedAt, Spans, RoundsToTen, RoundedExponent;
    ghost var one := Pow(2, -e);
    Grisu.OneBounds(e);
    FirstDigit(f, one, m, p, k);
    ghost var first := FirstPlace(f, one, k);
    var finished, numDigits;
    finished, digits, exp, numDigits := FastDigits(f, e, k, cut, fixed, m, p);
    if finished {
      if !fixed { NotAllZero(digits, exp, m, p, first, LastPlace(first, cut, fixed)); }
    } else {
      digits, exp := ExactDigits(m, p, closer, numDigits, exp, cut, fixed);
    }
    LooseParts(digits);
    if finished || ExactIsRounded(m, p, closer, first, cut, fixed) {
      Reaches(digits, exp, m, p, closer, first, cut, fixed, finished);
    }
  }

  /** Correct digits of a number of about one and more are not all zero. */
  lemma NotAllZero(digits: string, exp: int, m: nat, p: int, first: int, place: int)
    requires digits != "" && place <= first && exp >= place && 3 * Den(p, first) <= 4 * Num(m, p, first)
    requires Correct(digits, exp, m, p, place)
    ensures DecimalValue(digits) != 0
  {
    hide Num, Den, RoundedAt, Pow, Correct, DecimalValue;
    CorrectAt(digits, exp, m, p, place);
    if DecimalValue(digits) == 0 {
      CorrectAt("", exp, m, p, place);
      NotNothing(exp, m, p, first, place);
    }
  }

  /**
   * Prints m * 2^p, scaled by 10^k as f * 2^e with an error below one unit of
   * f, to at most 767 digits, and removes trailing zeros unless they are asked
   * for.
   */
  method FormatFloat(m: nat, p: int, closer: bool, f: U64, e: int, k: int, precision: nat, fixed: bool, showpoint: bool)
    returns (digits: string, exp: int)
    requires m > 0 ==> IsScaled(m, p, f, e, k)
    ensures LooseDigits(digits) && -10000 < exp + |digits| - 1 < 10000
    ensures m == 0 ==>
              if fixed && precision > 0 then digits == ZeroDigits(precision) && exp == 0 - precision
              else digits == "0" && exp == 0
    ensures m > 0 ==>
              var first, one := FirstPlace(f, Pow(2, -e), k), Pow(2, -e);
              && (Correct(digits, exp, m, p, LastPlace(first, precision, fixed))
                  <==> PrintsRounded(m, p, closer, f, one, k, precision, fixed)
                       && (fixed && precision > 767 ==> CutHarmless(m, p, -767, precision - 767)))
              && (digits == "" && fixed ==> exp < 0)
              && (!fixed ==>
                    (digits == "" <==> NothingLeft(m, p, closer, f, one, k, precision) && !showpoint)
                    && (digits == "" ==> exp == first + 2))
              && (!fixed && !showpoint && digits != "" ==> digits[|digits| - 1] != '0')
              && DigitsSpan(digits, exp, m, p, closer, f, one, k, precision, fixed, showpoint)
  {
    hide Num, Den, NumDigits, Pow, DecimalValue, Correct, AllDigits, LooseDigits, WithinOne, CutHarmless;
    hide FastDecides, RoundsToTen, RoundedExponent, ExactIsRounded, FirstPlace;
    if m == 0 {
      if precision == 0 || !fixed {
        ZerosAreLoose(1);
        assert ZeroDigits(1) == "0";
        return "0", 0;
      }
      ZerosAreLoose(precision);
      return ZeroDigits(precision), 0 - precision;
    }
    ghost var one := Pow(2, -e);
    Grisu.OneBounds(e);
    FirstDigit(f, one, m, p, k);
    ghost var first := FirstPlace(f, one, k);
    FirstRange(f, one, k);
    var cut: nat := Cut(precision);
    ghost var place := LastPlace(first, cut, fixed);
    digits, exp := PrintDigits(m, p, closer, f, e, k, cut, fixed);
    LooseParts(digits);
    if !fixed && !showpoint {
      ghost var s, last := digits, exp;
      digits, exp := RemoveTrailingZeros(digits, exp);
      StrippedIsCorrect(s, last, digits, exp, m, p, place);
      Grisu.EmptyDigits("");
    }
    CutPrecision(digits, exp, m, p, first, precision, fixed);
  }

  lemma FirstRange(f: nat, one: nat, k: int)
    requires one > 0 && NumDigits(f / one) <= 10 && -348 <= k
    ensures FirstPlace(f, one, k) < 700
  {
  }

  /** Correct digits of either form reach where they should. */
  lemma Reaches(digits: string, exp: int, m: nat, p: int, closer: bool, first: int, cut: nat, fixed: bool, fast: bool)
    requires Correct(digits, exp, m, p, LastPlace(first, cut, fixed))
    requires fast || (ExactIsRounded(m, p, closer, first, cut, fixed) && LooseDigits(digits))
    requires Num(m, p, first) < 10 * Den(p, first)
    requires var asked := DigitsAsked(first, cut, fixed);
             if fixed && asked <= 0 then true
             else if fast then Spans(digits, exp, first, LastPlace(first, cut, fixed), fixed)
             else
               && |digits| == Max(asked, 1) && (asked == 0 ==> exp == first + 1)
               && (asked > 0 && Excess(p, closer) * Num(m, p, first) < 10 * Den(p, first) ==>
                     Spans(digits, exp, first, first - asked + 1, false))
               && (asked == 0 ==> digits == "1")
    ensures var asked, last := DigitsAsked(first, cut, fixed), LastPlace(first, cut, fixed);
            !fixed || asked > 0 ==>
              && exp + |digits| - 1 == RoundedExponent(m, p, first, last)
              && (fixed ==> exp == last + if !fast && RoundsToTen(m, p, first, last) then 1 else 0)
  {
    hide Num, Den, RoundedAt, Correct, LooseDigits;
    var asked, last := DigitsAsked(first, cut, fixed), LastPlace(first, cut, fixed);
    if !fixed || asked > 0 { SpanCarries(digits, exp, m, p, first, last, fast && fixed); }
  }

  lemma ZerosAreLoose(n: nat)
    ensures LooseDigits(ZeroDigits(n))
  {
  }

  lemma LooseParts(s: string)
    requires AllDigits(s) || LooseDigits(s)
    ensures LooseDigits(s) && forall n :: 0 <= n <= |s| ==> LooseDigits(s[..n])
  {
    forall n | 0 < n <= |s| ensures LooseDigits(s[..n]) {
      assert s[..n][1..] == s[1..][..n - 1];
    }
  }

  /** A text that denotes the digits with their exponent is the number correctly rounded exactly when these are. */
  lemma PrintedIsRounded(out: string, point: char, digits: string, exp: int, m: nat, p: int, place: int)
    requires AllDigits(digits) && Denotes(out, point, DecimalValue(digits), exp)
    ensures (exists q: int :: Denotes(out, point, q, place) && RoundedAt(m, p, q, place))
            <==> Correct(digits, exp, m, p, place)
  {
    hide Denotes, SameDecimal, RoundedAt, DecimalValue;
    forall q: int
      ensures Denotes(out, point, q, place) <==> SameDecimal(DecimalValue(digits), exp, q, place)
    {
      DenotesOneNumber(out, point, DecimalValue(digits), exp, q, place);
    }
  }

  /** The text is m * 2^p correctly rounded at a place. */
  ghost predicate IsRoundedText(out: string, point: char, m: nat, p: int, place: int) {
    exists q: int :: Denotes(out, point, q, place) && RoundedAt(m, p, q, place)
  }

  /** Whether a number with this decimal exponent is written with one. */
  predicate UsesExponent(specs: FloatSpecs, x: int) {
    specs.format == Exp
    || (specs.format == General && (x < -4 || x >= if specs.precision > 0 then specs.precision else 16))
  }

  /**
   * How a number with the decimal exponent x is laid out: as many digits in
   * front of the point as it has, or one; in fixed notation the places asked
   * for, less those lost; with showpoint as many digits in all as asked for,
   * but one place at least without an exponent; and otherwise no zeros at the
   * end.
   */
  ghost predicate Layout(out: string, point: char, specs: FloatSpecs, x: int, lost: nat) {
    var mark, exponent := ExponentMark(out), specs.format != Fixed && UsesExponent(specs, x);
    && (NoMark(out) <==> !exponent)
    && (exponent ==>
          mark < |out| && out[mark] == (if specs.upper then 'E' else 'e') && IsExponentOf(out[mark + 1..], x))
    && Front(out, point) == (if exponent then 1 else Max(x + 1, 1))
    && (HasPoint(out, point) <==> Behind(out, point) > 0 || specs.showpoint)
    && (specs.format == Fixed ==> Behind(out, point) == specs.precision - lost)
    && (specs.format != Fixed && specs.showpoint && specs.precision >= 1 ==>
          Behind(out, point) == if exponent then specs.precision - 1 else Max(specs.precision - 1 - x, 1))
    && (specs.format != Fixed && !specs.showpoint && Behind(out, point) > 0 ==> mark > 0 && out[mark - 1] != '0')
  }

  /** What the writer of digits needs to lay them out so in fixed notation. */
  predicate FitsFixed(fp: DecimalFp, precision: nat, x: int, lost: nat) {
    || (fp.significand != "" && OutputExp(fp) == x && lost <= Min(precision, 1)
        && (fp.exp == lost - precision || (precision == 0 && fp.exp == 1)))
    || (|fp.significand| == 1 && fp.exp == -(precision as int) && x < 0 && lost == 0)
    || (fp.significand == "" && fp.exp < 0 && precision < -fp.exp && x < 0 && lost == 0)
  }

  /** The same in the other notations. */
  predicate FitsGeneral(fp: DecimalFp, specs: FloatSpecs, x: int) {
    && fp.significand != "" && OutputExp(fp) == x
    && (specs.showpoint && specs.precision >= 1 ==>
          |fp.significand| == specs.precision || (|fp.significand| == 1 && fp.exp == 0))
    && (!specs.showpoint ==>
          fp.significand[|fp.significand| - 1] != '0' || (|fp.significand| == 1 && fp.exp == 0))
  }

  lemma LayoutOf(out: string, point: char, fp: DecimalFp, specs: FloatSpecs, x: int, lost: nat)
    requires specs.precision >= 0 && specs.format != Hex && LaidOut(out, point, fp, specs)
    requires NoMark(out) <==> !UseExpFormat(fp, specs)
    requires UseExpFormat(fp, specs) ==> EndsInExponent(out, fp, specs)
    requires fp.significand != "" && !specs.showpoint && PlacesShown(fp, specs) > 0 ==>
               EndsInDigit(out, fp.significand)
    requires if specs.format == Fixed then FitsFixed(fp, specs.precision, x, lost) else FitsGeneral(fp, specs, x)
    ensures Layout(out, point, specs, x, lost)
  {
    hide NoMark, Front, Behind, HasPoint, IsExponentOf;
  }

  /** The decimal exponent that the layout of a rounded number follows; below one, any negative one will do. */
  ghost function LayoutExponent(m: nat, p: int, first: int, precision: nat, fixed: bool): int {
    var last := LastPlace(first, precision, fixed);
    if last > first then -1 else RoundedExponent(m, p, first, last)
  }

  /** The exact form loses a place in fixed notation when the number rounds to ten. */
  ghost predicate LosesPlace(m: nat, p: int, f: nat, one: nat, k: int, precision: nat, fixed: bool)
    requires one > 0
  {
    var first := FirstPlace(f, one, k);
    && fixed && precision > 0 && -(precision as int) <= first && !FastDecides(f, one, k, precision, fixed)
    && RoundsToTen(m, p, first, -(precision as int))
  }

  /** Correctly rounded digits fit. */
  lemma DigitsFit(digits: string, exp: int, m: nat, p: int, closer: bool, f: nat, one: nat, k: int, specs: FloatSpecs)
    requires one > 0 && 0 <= specs.precision <= 767 && specs.format != Hex
    requires var fixed := specs.format == Fixed;
             && DigitsSpan(digits, exp, m, p, closer, f, one, k, specs.precision, fixed, specs.showpoint)
             && PrintsRounded(m, p, closer, f, one, k, specs.precision, fixed)
             && (digits == "" && fixed ==> exp < 0) && (!fixed ==> digits != "")
             && (!fixed && !specs.showpoint && digits != "" ==> digits[|digits| - 1] != '0')
    ensures var fixed := specs.format == Fixed;
            var first := FirstPlace(f, one, k);
            var x := LayoutExponent(m, p, first, specs.precision, fixed);
            var lost := if LosesPlace(m, p, f, one, k, specs.precision, fixed) then 1 else 0;
            if fixed then FitsFixed(DecimalFp(digits, exp), specs.precision, x, lost)
            else FitsGeneral(DecimalFp(digits, exp), specs, x)
  {
    hide PrintsRounded, FastDecides, RoundsToTen, FirstPlace;
  }

  /**
   * Digits and layout together: the text is the number correctly rounded at
   * the place asked for exactly when the digits are. Where nothing is left of
   * them it is zeros, or there is no text.
   */
  method Write(m: nat, p: int, closer: bool, f: U64, e: int, k: int, specs: FloatSpecs, point: char)
    returns (ok: bool, out: string)
    requires specs.precision >= 0 && specs.format != Hex && IsPoint(point) && !IsQuotient(point)
    requires m > 0 ==> IsScaled(m, p, f, e, k)
    ensures m == 0 ==>
              && ok && Denotes(out, point, 0, 0)
              && Layout(out, point, specs, if specs.format == Fixed && specs.precision > 0 then -1 else 0, 0)
    ensures m > 0 ==>
              var first, one, fixed := FirstPlace(f, Pow(2, -e), k), Pow(2, -e), specs.format == Fixed;
              && (ok && IsRoundedText(out, point, m, p, LastPlace(first, specs.precision, fixed))
                  <==> PrintsRounded(m, p, closer, f, one, k, specs.precision, fixed)
                       && (fixed && specs.precision > 767 ==> CutHarmless(m, p, -767, specs.precision - 767)))
              && (PrintsRounded(m, p, closer, f, one, k, specs.precision, fixed) && specs.precision <= 767 ==>
                    Layout(out, point, specs, LayoutExponent(m, p, first, specs.precision, fixed),
                           if LosesPlace(m, p, f, one, k, specs.precision, fixed) then 1 else 0))
              && (specs.format == General && !specs.showpoint
                  && NothingLeft(m, p, closer, f, one, k, specs.precision) ==>
                    && (ok <==> -5 <= first < 15)
                    && (ok ==> out == if first >= -2 then ZeroDigits(first + 2) else "0"))
  {
    hide Num, Den, Pow, NumDigits, Correct, LooseDigits, AllDigits, DecimalValue, WithinOne, CutHarmless, Denotes;
    hide PrintsRounded, IsNumber, FirstPlace, IsRoundedText, FastDecides, DigitsSpan, Layout, LaidOut, EndsInExponent;
    hide LayoutExponent, LosesPlace, EndsInDigit, PlacesShown, FitsFixed, FitsGeneral, NoMark;
    var digits, exp := FormatFloat(m, p, closer, f, e, k, specs.precision, specs.format == Fixed, specs.showpoint);
    ok, out := WriteFloat(DecimalFp(digits, exp), specs, point);
    if m == 0 {
      assert ZeroDigits(1) == "0";
      ZeroText(out, point, digits, exp);
      ZeroFits(digits, exp, specs);
      LayoutOf(out, point, DecimalFp(digits, exp), specs,
               if specs.format == Fixed && specs.precision > 0 then -1 else 0, 0);
    } else {
      ghost var place := LastPlace(FirstPlace(f, Pow(2, -e), k), specs.precision, specs.format == Fixed);
      if digits == "" && specs.format != Fixed {
        NothingIsNotRounded(m, p, closer, f, Pow(2, -e), k, specs.precision);
      }
      ghost var first, one, fixed := FirstPlace(f, Pow(2, -e), k), Pow(2, -e), specs.format == Fixed;
      if PrintsRounded(m, p, closer, f, one, k, specs.precision, fixed) && specs.precision <= 767 {
        DigitsFit(digits, exp, m, p, closer, f, one, k, specs);
        LayoutOf(out, point, DecimalFp(digits, exp), specs, LayoutExponent(m, p, first, specs.precision, fixed),
                 if LosesPlace(m, p, f, one, k, specs.precision, fixed) then 1 else 0);
      }
      if ok { ShownIsRounded(out, point, digits, exp, ShowsDigits(DecimalFp(digits, exp), specs), m, p, place); }
    }
  }

  lemma ZeroFits(digits: string, exp: int, specs: FloatSpecs)
    requires specs.precision >= 0
    requires if specs.format == Fixed && specs.precision > 0
             then digits == ZeroDigits(specs.precision) && exp == 0 - specs.precision
             else digits == "0" && exp == 0
    ensures if specs.format == Fixed then
              FitsFixed(DecimalFp(digits, exp), specs.precision, if specs.precision > 0 then -1 else 0, 0)
            else FitsGeneral(DecimalFp(digits, exp), specs, 0)
  {
  }

  lemma NothingIsNotRounded(m: nat, p: int, closer: bool, f: nat, one: nat, k: int, precision: nat)
    requires one > 0 && NothingLeft(m, p, closer, f, one, k, precision)
    ensures !PrintsRounded(m, p, closer, f, one, k, precision, false)
  {
    hide Num, Den, FastDecides, FirstPlace;
    MulMono(Num(m, p, FirstPlace(f, one, k)), 1, Excess(p, closer));
  }

  lemma ZeroText(out: string, point: char, digits: string, exp: int)
    requires Shown(out, point, digits, exp, true) && exists n: nat :: digits == ZeroDigits(n)
    ensures Denotes(out, point, 0, 0)
  {
    hide Denotes;
    var n: nat :| digits == ZeroDigits(n);
    DecimalZeros(n);
    DenotesOneNumber(out, point, 0, exp, 0, 0);
  }

  /** What a text shows of digits is correctly rounded exactly when they are and something is shown. */
  lemma ShownIsRounded(out: string, point: char, digits: string, exp: int, shows: bool, m: nat, p: int, place: int)
    requires Shown(out, point, digits, exp, shows) && !IsQuotient(point)
    ensures IsRoundedText(out, point, m, p, place) <==> shows && Correct(digits, exp, m, p, place)
  {
    hide RoundedAt, SameDecimal, DecimalValue, IsNumber;
    if AllDigits(digits) && shows { PrintedIsRounded(out, point, digits, exp, m, p, place); }
  }

  // Scaling by a cached power of ten.

  /** c * 2^ce is within half a unit of c of 10^k. */
  ghost predicate WithinHalf(c: nat, ce: int, k: int) {
    var t, u := Pow(10, Max(k, 0)) * Pow(2, Max(-ce, 0)), Pow(2, Max(ce, 0)) * Pow(10, Max(-k, 0));
    2 * (c * u - t) <= u && 2 * (t - c * u) <= u
  }

  /**
   * A significand that was normalised by s bits, multiplied by a cached power
   * of ten that is within half a unit, and rounded to 64 bits, is less than one
   * unit away from the scaled number.
   */
  lemma ScaledByPower(m: nat, p: int, s: nat, c: U64, ce: int, k: int, e: int)
    requires 0 < m < 0x20_0000_0000_0000 && -1074 <= p && -348 <= k <= 340
    requires WideMul.Q / 2 <= m * Pow(2, s) < WideMul.Q && WideMul.Q / 2 <= c
    requires WithinHalf(c, ce, k) && e == p - s + ce + 64 && -60 <= e <= -32
    ensures IsScaled(m, p, WideMul.Multiply(m * Pow(2, s), c), e, k)
  {
    hide Pow, WideMul.Multiply;
    var x: U64 := m * Pow(2, s);
    var f := WideMul.Multiply(x, c);
    Grisu.OneBounds(e);
    LargeProduct(x, c, f, Pow(2, -e));
    var a, b, t, u := Pow(2, Max(ce, 0)), Pow(2, Max(-ce, 0)), Pow(10, Max(k, 0)), Pow(10, Max(-k, 0));
    ErrorBound(x, c, f, t * b, a * u);
    TwoBalance(p, s, ce, e);
    Unscale(m, Pow(2, s), t, b, a, u, Pow(2, Max(p, 0)), Pow(2, Max(-p, 0)), Pow(2, -e), f);
  }

  lemma LargeProduct(x: U64, c: U64, f: nat, one: nat)
    requires x >= WideMul.Q / 2 && c >= WideMul.Q / 2 && f == (x * c + WideMul.Q / 2) / WideMul.Q
    requires 0 < one <= 0x1000_0000_0000_0000
    ensures f / one > 0
  {
    MulMono(x, WideMul.Q / 2, c);
    Arith.DivMod(f, one);
    if f / one <= 0 { MulMono(one, f / one, 0); }
  }

  lemma ErrorBound(x: U64, c: U64, f: nat, t: nat, u: nat)
    requires f == (x * c + WideMul.Q / 2) / WideMul.Q && u > 0
    requires 2 * (c * u - t) <= u && 2 * (t - c * u) <= u
    ensures (f - 1) * (WideMul.Q * u) < x * t < (f + 1) * (WideMul.Q * u)
  {
    var y := x * c;
    RoundedError(y, f);
    ScaledGap(c * u, t, u, x);
    ScaledGap(t, c * u, u, x);
    MulAssoc(x, c, u);
    ScaledGap(WideMul.Q * f, y, WideMul.Q, u);
    ScaledGap(y, WideMul.Q * f, WideMul.Q, u);
    MulRotate(WideMul.Q, f, u);
    MulStrict(u, x, WideMul.Q);
    MulDist(WideMul.Q * u, f, 1);
    TwoErrors(x * t, y * u, f * (WideMul.Q * u), WideMul.Q * u, x * u);
  }

  lemma RoundedError(y: nat, f: nat)
    requires f == (y + WideMul.Q / 2) / WideMul.Q
    ensures 2 * (WideMul.Q * f - y) <= WideMul.Q && 2 * (y - WideMul.Q * f) <= WideMul.Q
  {
  }

  lemma TwoErrors(a: int, b: int, c: int, unit: int, less: int)
    requires less < unit && 2 * (b - a) <= less && 2 * (a - b) <= less
    requires 2 * (c - b) <= unit && 2 * (b - c) <= unit
    ensures c - unit < a < c + unit
  {
  }

  /** The powers of two of both sides balance. */
  lemma TwoBalance(p: int, s: nat, ce: int, e: int)
    requires e == p - s + ce + 64 && e <= 0
    ensures Pow(2, Max(p, 0)) * Pow(2, -e) * (WideMul.Q * Pow(2, Max(ce, 0)))
            == Pow(2, Max(-p, 0)) * (Pow(2, s) * Pow(2, Max(-ce, 0)))
  {
    hide Pow;
    TwoToThe32();
    PowAdd(2, 32, 32);
    PowAdd(2, Max(p, 0), -e);
    PowAdd(2, 64, Max(ce, 0));
    PowAdd(2, Max(p, 0) - e, 64 + Max(ce, 0));
    PowAdd(2, s, Max(-ce, 0));
    PowAdd(2, Max(-p, 0), s + Max(-ce, 0));
  }

  lemma Unscale(m: nat, s: nat, t: nat, b: nat, a: nat, u: nat, v: nat, w: nat, one: nat, f: int)
    requires a > 0 && w > 0 && v * one * (WideMul.Q * a) == w * (s * b)
    requires (f - 1) * (WideMul.Q * (a * u)) < (m * s) * (t * b) < (f + 1) * (WideMul.Q * (a * u))
    ensures (f - 1) * (w * u) < (m * v * t) * one < (f + 1) * (w * u)
  {
    var z := WideMul.Q * a;
    MiddleScaled(m, s, t, b, v, w, one, z);
    OuterScaled(f - 1, w, u, a);
    OuterScaled(f + 1, w, u, a);
    MulStrict(w, (f - 1) * (WideMul.Q * (a * u)), (m * s) * (t * b));
    MulStrict(w, (m * s) * (t * b), (f + 1) * (WideMul.Q * (a * u)));
    MulCancel(z, (f - 1) * (w * u), (m * v * t) * one);
    MulCancel(z, (m * v * t) * one, (f + 1) * (w * u));
  }

  lemma MiddleScaled(m: nat, s: nat, t: nat, b: nat, v: nat, w: nat, one: nat, z: nat)
    requires v * one * z == w * (s * b)
    ensures z * ((m * v * t) * one) == w * ((m * s) * (t * b))
  {
    calc {
      z * ((m * v * t) * one);
      { MulRotate(m, v, t); MulRotate(v, m * t, one); }
      z * ((m * t) * (v * one));
      { MulRotate(m * t, v * one, z); MulRotate(v * one, m * t, z); MulAssoc(m * t, v * one, z); }
      (m * t) * (v * one * z);
      (m * t) * (w * (s * b));
      { MulRotate(m * t, w, s * b); MulAssoc(m * t, w, s * b); }
      w * ((m * t) * (s * b));
      { MulSwap(m, t, s, b); }
      w * ((m * s) * (t * b));
    }
  }

  lemma OuterScaled(g: int, w: nat, u: nat, a: nat)
    ensures (WideMul.Q * a) * (g * (w * u)) == w * (g * (WideMul.Q * (a * u)))
  {
    var q := WideMul.Q;
    calc {
      (q * a) * (g * (w * u));
      { MulRotate(g, w, u); MulAssoc(g, w, u); }
      (q * a) * (w * (g * u));
      { MulAssoc(q * a, w, g * u); MulRotate(q * a, w, g * u); }
      w * ((q * a) * (g * u));
      { MulSwap(q, a, g, u); MulRotate(q, g, a * u); MulAssoc(q, g, a * u); MulAssoc(g, q, a * u); }
      w * (g * (q * (a * u)));
    }
  }

  // Inputs that are not printed correctly rounded.

  /** A number halfway between two multiples of a place is never decided by the fast form. */
  lemma HalfwayIsUndecided(f: nat, one: nat, h: nat, kappa: nat, e: nat)
    requires one > 0 && 2 * f == (2 * h + 1) * Grisu.Unit(one, e)
    ensures !Grisu.DecidesDigits(f, one, kappa, e)
  {
    hide Pow;
    PowZero(10);
    var unit := Grisu.Unit(one, e);
    MulStrict(one, 0, Pow(10, e));
    MulDist(unit, 2 * h, 1);
    MulAssoc(2, h, unit);
    DivUnique(f, unit, h, f - h * unit);
    assert Grisu.StuckAt(f, one, e, true);
  }

  /** 2.5 in general notation without digits: the fast form cannot decide, and of the exact digits nothing is left. */
  lemma TwoAndAHalf()
    ensures var m, f, one := 0x14_0000_0000_0000, 0x61A8_0000_0000_0000, 0x1_0000_0000_0000;
            && Pow(2, 48) == one && IsScaled(m, -51, f, -48, 4) && FirstPlace(f, one, 4) == 0
            && !PrintsRounded(m, -51, false, f, one, 4, 0, false)
            && NothingLeft(m, -51, false, f, one, 4, 0)
  {
    hide Pow, Grisu.DecidesDigits;
    TwoAndAHalfPowers();
    assert NumDigits(25000) == 5;
    HalfwayIsUndecided(0x61A8_0000_0000_0000, 0x1_0000_0000_0000, 2, 5, 4);
  }

  /** 9.5 in the same notation: undecided too, but the one character stands for ten. */
  lemma NineAndAHalf()
    ensures var m, f, one := 0x13_0000_0000_0000, 0x5CC6_0000_0000_0000, 0x4000_0000_0000;
            && Pow(2, 46) == one && IsScaled(m, -49, f, -46, 4) && FirstPlace(f, one, 4) == 0
            && !FastDecides(f, one, 4, 0, false)
            && PrintsRounded(m, -49, false, f, one, 4, 0, false)
  {
    hide Pow, Grisu.DecidesDigits;
    TwoAndAHalfPowers();
    assert NumDigits(95000) == 5;
    HalfwayIsUndecided(0x5CC6_0000_0000_0000, 0x4000_0000_0000, 9, 5, 4);
  }

  lemma TwoAndAHalfPowers()
    ensures Pow(2, 0) == 1 && Pow(2, 48) == 0x1_0000_0000_0000 && Pow(2, 51) == 0x8_0000_0000_0000
    ensures Pow(2, 49) == 0x2_0000_0000_0000 && Pow(2, 46) == 0x4000_0000_0000
    ensures Pow(10, 0) == 1 && Pow(10, 4) == 10000
  {
    TwoToThe52();
    PowNext(2, 51);
    PowNext(2, 50);
    PowNext(2, 49);
    PowNext(2, 48);
    PowNext(2, 47);
    PowNext(2, 46);
  }

  /** 2^-768 with 768 places: the last of its digits is cut off. */
  lemma LastDigitIsCut()
    ensures !CutHarmless(0x10_0000_0000_0000, -820, -767, 1)
  {
    hide Pow;
    SmallPowers();
    PowZero(2);
    PowZero(10);
    PowNext(10, 0);
    TwoToThe52();
    PowMul(5, 2, 767);
    PowAdd(2, 52, 767);
    PowNext(2, 819);
    Pow5Odd(767);
    OddHalf(Pow(2, 52), Pow(5, 767), Pow(2, 767), Pow(2, 819));
  }

  lemma TwoToThe52()
    ensures Pow(2, 52) == 0x10_0000_0000_0000
  {
    TwoToThe55();
    PowNext(2, 54);
    PowNext(2, 53);
    PowNext(2, 52);
  }

  lemma OddHalf(a: nat, fives: nat, t: nat, u: nat)
    requires fives % 2 == 1 && a * t == u > 0
    ensures a * (fives * t) % (2 * u) == u
  {
    var h := fives / 2;
    MulRotate(a, fives, t);
    MulAssoc(a, fives, t);
    MulDist(u, 2 * h, 1);
    MulRotate(2, h, u);
    MulAssoc(h, 2, u);
    OddRemainder(u, h, a * (fives * t));
  }

  lemma OddRemainder(u: nat, h: nat, x: nat)
    requires u > 0 && x == h * (2 * u) + u
    ensures x % (2 * u) == u
  {
    DivUnique(x, 2 * u, h, u);
  }

  /** So 2.5 is printed as two zeros. */
  method PrintTwoAndAHalf() returns (out: string)
    ensures out == "00"
  {
    hide Pow, IsScaled, PrintsRounded, LosesPlace, FirstPlace, LayoutExponent, IsRoundedText, NothingLeft, Layout;
    hide CutHarmless, Denotes;
    TwoAndAHalf();
    var ok;
    ok, out := Write(0x14_0000_0000_0000, -51, false, 0x61A8_0000_0000_0000, -48, 4,
                     FloatSpecs(0, General, false, false), '.');
    assert ZeroDigits(2) == "00";
  }

  lemma PlaceLostPowers()
    ensures Pow(2, 36) == 0x10_0000_0000
    ensures Pow(2, 172) == 0x1000_0000_0000 * 0x1_0000_0000_0000_0000_0000_0000_0000_0000
    ensures Pow(10, 9) == 1_000_000_000 && Pow(10, 1) == 10
    ensures Pow(10, 44) == 100_000_000_000_000_000_000_000_000_000_000_000_000_000_000
    ensures Pow(10, 45) == 10 * Pow(10, 44)
  {
    hide Pow;
    TwoAndAHalfPowers();
    SmallPowers();
    PowAdd(2, 11, 11);
    PowAdd(2, 11, 22);
    PowAdd(2, 33, 1);
    PowAdd(2, 34, 1);
    PowAdd(2, 35, 1);
    PowAdd(2, 36, 8);
    PowAdd(2, 8, 8);
    PowAdd(2, 16, 16);
    PowAdd(2, 32, 32);
    PowAdd(2, 64, 64);
    PowAdd(2, 44, 128);
    PowZero(10);
    PowNext(10, 0);
    PowAdd(10, 4, 4);
    PowAdd(10, 8, 1);
    PowAdd(10, 8, 8);
    PowAdd(10, 16, 16);
    PowAdd(10, 32, 8);
    PowAdd(10, 40, 4);
    PowNext(10, 44);
  }

  /**
   * 9.999999995 * 10^-37 is a little above that decimal, which lies halfway
   * between two numbers of 45 places. The fast form cannot decide, and the
   * number rounds to ten units of its first place.
   */
  lemma PlaceLost()
    ensures var m, f, one := 5986310703514223, 6871947670164026164, 0x10_0000_0000;
            && Pow(2, 36) == one && IsScaled(m, -172, f, -36, 44) && FirstPlace(f, one, 44) == -37
            && PrintsRounded(m, -172, false, f, one, 44, 45, true)
            && LosesPlace(m, -172, f, one, 44, 45, true)
  {
    hide Pow, NumDigits;
    PlaceLostPowers();
    PlaceLostDigits();
    PowZero(2);
    PowZero(10);
    var f, one := 6871947670164026164, 0x10_0000_0000;
    assert Grisu.StuckAt(f, one, -1, true);
    assert Pow(10, -37 + 1 - -45) == 1_000_000_000;
  }

  lemma PlaceLostDigits()
    ensures NumDigits(6871947670164026164 / 0x10_0000_0000) == 8
  {
    assert NumDigits(99999999) == 8;
  }

  /** So with 45 places only 44 are printed. */
  method PrintLostPlace() returns (out: string)
    ensures Behind(out, '.') == 44
  {
    hide Pow, IsScaled, PrintsRounded, LosesPlace, FirstPlace, LayoutExponent, IsRoundedText, NothingLeft, NoMark;
    hide IsExponentOf, Behind, Front, HasPoint, CutHarmless, Denotes;
    PlaceLost();
    var ok;
    ok, out := Write(5986310703514223, -172, false, 6871947670164026164, -36, 44,
                     FloatSpecs(45, Fixed, false, true), '.');
  }
}
