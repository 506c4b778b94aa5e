/** Fast digit generation in 64-bit arithmetic: right, or it reports an error. */
module Grisu {
  import opened Arith
  import opened Decimal
  import opened DigitCount

  datatype RoundDirection = Unknown | Up | Down

  datatype Result = More | Done | Error

  /**
   * Whether v, known only to be within error of a multiple of divisor plus
   * remainder, is to be rounded up or down. No operation overflows 64 bits.
   */
  function GetRoundDirection(divisor: U64, remainder: U64, error: U64): (r: RoundDirection)
    requires remainder < divisor && error < divisor && error < divisor - error
    ensures r == Down <==> 2 * (remainder + error) <= divisor
    ensures r == Up <==> 2 * (remainder + error) > divisor && 2 * (remainder - error) >= divisor
  {
    if remainder <= divisor - remainder &&
       (var twiceError: U64, twiceRemainder: U64 := error * 2, remainder * 2; twiceError <= divisor - twiceRemainder)
    then Down
    else if remainder >= error && remainder - error >= divisor - (remainder - error)
    then Up
    else Unknown
  }

  /**
   * The digits at a place with this unit cannot be rounded: in the fraction
   * the error has reached what is left, or, when enough digits have come,
   * values within the error round either way.
   */
  predicate Undecided(unit: nat, remainder: nat, error: nat, fraction: bool, enough: bool) {
    || (fraction && error >= remainder)
    || (enough && (2 * error >= unit || (2 * (remainder + error) > unit && 2 * (remainder - error) < unit)))
  }

  /** x in units of the last place when the place is below the decimal point. */
  ghost function Times(x: real, scale: nat): real {
    x * scale as real
  }

  /** q * unit is a nearest multiple of unit to x * scale, for every real x within one of f. */
  ghost predicate IsNearest(f: nat, q: int, unit: nat, scale: nat) {
    forall x: real :: f as real - 1.0 <= x <= f as real + 1.0 ==>
      -(unit as real) <= 2.0 * (Times(x, scale) - (q * unit) as real) <= unit as real
  }

  /** The weight of decimal place e in a number whose integer unit is one. */
  ghost function Unit(one: nat, e: int): nat {
    one * Pow(10, Max(e, 0))
  }

  ghost function Scale(e: int): (s: nat)
    ensures s > 0
  {
    Pow(10, Max(-e, 0))
  }

  /** Rounding the exact digits by the direction rounds every real within the error. */
  lemma RoundedDigits(f: nat, q: int, unit: nat, scale: nat, remainder: nat, error: nat)
    requires f * scale == q * unit + remainder && remainder < unit && scale <= error && 2 * error < unit
    ensures 2 * (remainder + error) <= unit ==> IsNearest(f, q, unit, scale)
    ensures 2 * (remainder - error) >= unit ==> IsNearest(f, q + 1, unit, scale)
  {
    hide Times;
    MulDist(unit, q, 1);
    forall x: real | f as real - 1.0 <= x <= f as real + 1.0
      ensures 2 * (remainder + error) <= unit ==>
                -(unit as real) <= 2.0 * (Times(x, scale) - (q * unit) as real) <= unit as real
      ensures 2 * (remainder - error) >= unit ==>
                -(unit as real) <= 2.0 * (Times(x, scale) - ((q + 1) * unit) as real) <= unit as real
    {
      ScaleWithin(f, x, scale);
      NearestBound(Times(x, scale), q * unit, (q + 1) * unit, unit, remainder, error);
    }
  }

  lemma NearestBound(t: real, low: int, high: int, unit: nat, remainder: nat, error: nat)
    requires high == low + unit && remainder < unit && 2 * error < unit
    requires (low + remainder - error) as real <= t <= (low + remainder + error) as real
    ensures 2 * (remainder + error) <= unit ==> -(unit as real) <= 2.0 * (t - low as real) <= unit as real
    ensures 2 * (remainder - error) >= unit ==> -(unit as real) <= 2.0 * (t - high as real) <= unit as real
  {}

  lemma {:induction false} RealProduct(a: nat, b: nat)
    ensures (a * b) as real == a as real * b as real
  {
    if b > 0 {
      RealProduct(a, b - 1);
      assert a * b == a * (b - 1) + a;
      assert b as real == (b - 1) as real + 1.0;
    }
  }

  lemma ScaleWithin(f: nat, x: real, scale: nat)
    requires f as real - 1.0 <= x <= f as real + 1.0
    ensures (f * scale - scale) as real <= Times(x, scale) <= (f * scale + scale) as real
  {
    hide Times;
    TimesInteger(f, scale);
    TimesShift(f as real, scale);
    TimesMono(f as real - 1.0, x, scale);
    TimesMono(x, f as real + 1.0, scale);
  }

  lemma TimesInteger(f: nat, scale: nat)
    ensures Times(f as real, scale) == (f * scale) as real
  {
    RealProduct(f, scale);
  }

  lemma TimesShift(x: real, scale: nat)
    ensures Times(x - 1.0, scale) == Times(x, scale) - scale as real
    ensures Times(x + 1.0, scale) == Times(x, scale) + scale as real
  {}

  lemma TimesMono(x: real, y: real, scale: nat)
    requires x <= y
    ensures Times(x, scale) <= Times(y, scale)
  {}

  /** Collects a fixed number of digits and rounds the last. */
  class FixedHandler {
    const buf: array<char>
    var size: nat
    var precision: int
    var exp10: int
    const fixed: bool

    constructor (buf: array<char>, precision: int, exp10: int, fixed: bool)
      ensures this.buf == buf && size == 0 && this.precision == precision && this.exp10 == exp10 && this.fixed == fixed
    {
      this.buf, this.precision, this.exp10, this.fixed := buf, precision, exp10, fixed;
      size := 0;
    }

    /** The digits collected so far. */
    ghost function Digits(): string
      requires size <= buf.Length
      reads this, buf
    {
      buf[..size]
    }

    /** A carry adds a digit in fixed mode and otherwise moves the exponent, and leaves a one with zeros. */
    ghost predicate Grows(size': int, exp10': int)
      requires size <= buf.Length
      reads this, buf
    {
      || (size == size' && exp10 == exp10')
      || (Carried(Digits()) && if fixed then size == size' + 1 && exp10 == exp10'
                               else size == size' && exp10 == exp10' + 1)
    }

    /**
     * Decides whether digits are needed at all. Exactly none leaves one
     * rounded digit, fewer than none an empty buffer.
     */
    method OnStart(divisor: U64, remainder: U64, error: U64, exp: int) returns (result: Result)
      requires remainder < divisor && error < divisor && error < divisor - error
      requires size == 0 < buf.Length
      modifies this, buf
      ensures exp10 == old(exp10)
      ensures precision == if fixed then old(precision) + exp + exp10 else old(precision)
      ensures result == More <==> !fixed || precision > 0
      ensures result == Error <==> fixed && precision == 0 && GetRoundDirection(divisor, remainder, error) == Unknown
      ensures size == if result == Done && precision == 0 then 1 else 0
      ensures size == 1 ==> buf[0] == if GetRoundDirection(divisor, remainder, error) == Up then '1' else '0'
    {
      if !fixed {
        return More;
      }
      precision := precision + (exp + exp10);
      if precision > 0 {
        return More;
      }
      if precision < 0 {
        return Done;
      }
      var dir := GetRoundDirection(divisor, remainder, error);
      if dir == Unknown {
        return Error;
      }
      buf[size] := if dir == Up then '1' else '0';
      size := size + 1;
      return Done;
    }

    /** Takes the next digit, and rounds once enough have come. */
    method OnDigit(digit: char, divisor: U64, remainder: U64, error: U64, integral: bool) returns (result: Result)
      requires IsDigit(digit) && remainder < divisor
      requires integral ==> error == 1 && divisor > 2
      requires size + 2 <= buf.Length && AllDigits(Digits())
      modifies this, buf
      ensures precision == old(precision) && size <= old(size) + 2
      ensures AllDigits(Digits())
      ensures result != Done ==> exp10 == old(exp10) && Digits() == old(Digits()) + [digit]
      ensures result == Error <==> Undecided(divisor, remainder, error, !integral, old(size) + 1 >= precision)
      ensures result == More ==> size < precision && (!integral ==> error < remainder)
      ensures result == Done ==>
                && old(size) + 1 >= precision && 2 * error < divisor && size > 0
                && Grows(old(size) + 1, old(exp10))
                && var q := DecimalValue(Digits()) * Pow(10, exp10 - old(exp10));
                   var dir := GetRoundDirection(divisor, remainder, error);
                   && dir != Unknown
                   && q == DecimalValue(old(Digits()) + [digit]) + if dir == Up then 1 else 0
    {
      ghost var was := Digits() + [digit];
      buf[size] := digit;
      size := size + 1;
      assert Digits() == was;
      if !integral && error >= remainder {
        return Error;
      }
      if size < precision {
        return More;
      }
      if !integral {
        if error >= divisor || error >= divisor - error {
          return Error;
        }
      }
      var dir := GetRoundDirection(divisor, remainder, error);
      assert Pow(10, 0) == 1;
      if dir != Up {
        return if dir == Down then Done else Error;
      }
      RoundUp(was);
      return Done;
    }

    /** Adds one to the last digit and carries. */
    method RoundUp(ghost was: string)
      requires 0 < size < buf.Length && Digits() == was && AllDigits(was)
      modifies this, buf
      ensures precision == old(precision) && 0 < size <= old(size) + 1
      ensures AllDigits(Digits()) && Grows(old(size), old(exp10))
      ensures DecimalValue(Digits()) * Pow(10, exp10 - old(exp10)) == DecimalValue(was) + 1
    {
      hide DecimalValue, Pow;
      ghost var n := size;
      PowersOfTen();
      BumpLast(was);
      buf[size - 1] := (buf[size - 1] as int + 1) as char;
      assert buf[..n] == was[n - 1 := (was[n - 1] as int + 1) as char];
      ghost var first := buf[0];
      assert first == if n == 1 then (was[0] as int + 1) as char else was[0];
      assert buf[..n - 1] == was[..n - 1];
      assert AllDigits(was[..n - 1]);
      DigitsAreWide(was[..n - 1]);
      CarryNines(buf, size);
      assert IsDigit(was[0]) && buf[0] <= ':';
      if buf[0] > '9' {
        ghost var s := buf[..n];
        TenIsOneUp(s);
        buf[0] := '1';
        assert buf[..n] == s[0 := '1'];
        if fixed {
          buf[size] := '0';
          size := size + 1;
          assert Digits() == s[0 := '1'] + ['0'];
          DecimalSnoc(s[0 := '1'], '0');
        } else {
          exp10 := exp10 + 1;
        }
      }
    }
  }

  lemma PowersOfTen()
    ensures Pow(10, 0) == 1 && Pow(10, 1) == 10
  {
    assert Pow(10, 1) == 10 * Pow(10, 0);
  }

  lemma BumpLast(s: string)
    requires s != [] && AllDigits(s)
    ensures var c := (s[|s| - 1] as int + 1) as char;
            DecimalValue(s[|s| - 1 := c]) == DecimalValue(s) + 1
  {
    var c := (s[|s| - 1] as int + 1) as char;
    DecimalUpdate(s, |s| - 1, c);
  }

  /** The digits so far are exact down to place e, with remainder still to be generated. */
  ghost predicate ExactSoFar(f: nat, one: nat, e: int, q: int, remainder: int) {
    && f * Scale(e) == q * Unit(one, e) + remainder
    && 0 <= remainder < Unit(one, e)
  }

  /** The exact digits of f / one down to place e cannot be rounded there. */
  ghost predicate StuckAt(f: nat, one: nat, e: int, enough: bool) {
    && Unit(one, e) > 0
    && Undecided(Unit(one, e), f * Scale(e) % Unit(one, e), Scale(e), e < 0, enough)
  }

  /** Digit generation is not stuck at a place above the last, nor undecided at the last. */
  ghost predicate DecidesDigits(f: nat, one: nat, kappa: nat, last: int) {
    (forall i :: last < i < kappa ==> !StuckAt(f, one, i, false)) && !StuckAt(f, one, last, true)
  }

  /**
   * Whether the number f / one with kappa integer digits can be rounded within
   * the error: to a fixed place in front of its digits, right in front of
   * them, or to so many digits, but at least one.
   */
  ghost predicate Decides(f: nat, one: nat, kappa: nat, precision: int, fixed: bool)
    requires kappa > 0
  {
    if fixed && precision < 0 then true
    else if fixed && precision == 0 then !Undecided(Pow(10, kappa - 1) * one, f / 10, 10, false, true)
    else DecidesDigits(f, one, kappa, kappa - Max(precision, 1))
  }

  /** The decimal place at which a handler rounds a number with kappa integer digits. */
  function LastPlace(kappa: nat, precision: int, fixed: bool): int {
    kappa - if fixed then precision else Max(precision, 1)
  }

  /** What a finished run leaves: digits that are nearest, at the requested place, to every real within the error. */
  ghost predicate IsFinished(f: nat, one: nat, q: int, place: int) {
    IsNearest(f, q, Unit(one, place), Scale(place))
  }

  lemma OneBounds(e: int)
    requires -60 <= e <= -32
    ensures 0x1_0000_0000 <= Pow(2, -e) <= 0x1000_0000_0000_0000
  {
    BytePowers();
    PowMono(2, 32, -e);
    PowMono(2, -e, 60);
    PowAdd(2, 4, 56);
    assert Pow(2, 4) == 16;
  }

  /** The start: kappa integer digits, and a divisor that fits 64 bits. */
  lemma StartBounds(f: U64, one: nat, kappa: nat)
    requires one >= 0x1_0000_0000 && f / one > 0 && kappa == NumDigits(f / one)
    ensures f / one < 0x1_0000_0000 && kappa <= 10
    ensures one <= Pow(10, kappa - 1) * one <= f < 10 * (Pow(10, kappa - 1) * one)
    ensures ExactSoFar(f, one, kappa, 0, f)
  {
    var n := f / one;
    hide NumDigits;
    NumDigitsBounds(n);
    var p := Pow(10, kappa - 1);
    TenTimes(kappa - 1);
    QuotientBounds(f, one, p, n);
    if kappa > 10 {
      PowersOf10(10);
      PowMono(10, 10, kappa - 1);
    }
    StartExact(f, one, kappa);
  }

  lemma TenTimes(n: nat)
    ensures Pow(10, n + 1) == 10 * Pow(10, n)
  {}

  lemma QuotientBounds(f: U64, one: nat, p: nat, n: nat)
    requires one >= 0x1_0000_0000 && n == f / one && 1 <= p <= n < 10 * p
    ensures n < 0x1_0000_0000
    ensures one <= p * one <= f < 10 * (p * one)
  {
    Arith.DivMod(f, one);
    if n >= 0x1_0000_0000 { MulMono(one, 0x1_0000_0000, n); }
    MulMono(one, 1, p);
    MulMono(one, p, n);
    MulStrict(one, n, 10 * p);
    MulAssoc(10, p, one);
  }

  lemma StartExact(f: nat, one: nat, kappa: nat)
    requires kappa > 0 && f < 10 * (Pow(10, kappa - 1) * one)
    ensures ExactSoFar(f, one, kappa, 0, f)
  {
    TenTimes(kappa - 1);
    MulAssoc(one, 10, Pow(10, kappa - 1));
    MulRotate(10, Pow(10, kappa - 1), one);
    assert Scale(kappa) == 1;
  }

  /** Zero or one digit decided at the start is the nearest. */
  lemma NoDigitsNeeded(f: U64, one: nat, kappa: nat, divisor: U64, place: int)
    requires kappa >= 1 && divisor == Pow(10, kappa - 1) * one && place >= kappa
    requires 40 < divisor <= f < 10 * divisor
    ensures f / 10 < divisor
    ensures place == kappa ==>
              && (GetRoundDirection(divisor, f / 10, 10) == Down ==> IsFinished(f, one, 0, place))
              && (GetRoundDirection(divisor, f / 10, 10) == Up ==> IsFinished(f, one, 1, place))
    ensures place > kappa ==> IsFinished(f, one, 0, place)
  {
    hide GetRoundDirection;
    assert Scale(place) == 1;
    var unit := Unit(one, place);
    UnitTimes(one, place, kappa, divisor);
    DirectionMeans(divisor, f / 10, 10);
    hide Unit, Scale, IsNearest;
    RoundedDigits(f, 0, unit, 1, f, 1);
  }

  lemma DirectionMeans(divisor: U64, remainder: U64, error: U64)
    requires remainder < divisor && error < divisor && error < divisor - error
    ensures GetRoundDirection(divisor, remainder, error) == Down ==> 2 * (remainder + error) <= divisor
    ensures GetRoundDirection(divisor, remainder, error) == Up ==> 2 * (remainder - error) >= divisor
  {}

  lemma UnknownIsUndecided(divisor: U64, remainder: U64, error: U64)
    requires remainder < divisor && error < divisor && error < divisor - error
    ensures GetRoundDirection(divisor, remainder, error) == Unknown
            <==> Undecided(divisor, remainder, error, false, true)
  {}

  lemma UnitTimes(one: nat, place: int, kappa: nat, divisor: nat)
    requires 1 <= kappa <= place && divisor == Pow(10, kappa - 1) * one
    ensures Unit(one, place) >= 10 * divisor
    ensures place == kappa ==> Unit(one, place) == 10 * divisor
    ensures place > kappa ==> Unit(one, place) >= 100 * divisor
  {
    var k := place - (kappa - 1);
    PowAdd(10, kappa - 1, k);
    var p := Pow(10, kappa - 1);
    MulRotate(one, p, Pow(10, k));
    MulRotate(p, one, Pow(10, k));
    assert Pow(10, 1) == 10 && Pow(10, 2) == 100;
    PowMono(10, 1, k);
    MulMono(divisor, 10, Pow(10, k));
    if k >= 2 {
      PowMono(10, 2, k);
      MulMono(divisor, 100, Pow(10, k));
    }
  }

  /** Dividing off an integer digit keeps the digits exact one place further down. */
  lemma IntegerDigit(f: nat, one: nat, exp: nat, q: int, integral: nat, fractional: nat, p: nat)
    requires exp >= 1 && one > 0 && p == Pow(10, exp - 1) && fractional < one
    requires ExactSoFar(f, one, exp, q, Rest(integral, one, fractional))
    ensures 0 <= integral / p <= 9
    ensures p * one == Unit(one, exp - 1) && Scale(exp - 1) == 1
    ensures Rest(integral % p, one, fractional) < p * one
    ensures ExactSoFar(f, one, exp - 1, 10 * q + integral / p, Rest(integral % p, one, fractional))
  {
    TenTimes(exp - 1);
    assert Unit(one, exp) == one * (10 * p) && Unit(one, exp - 1) == one * p;
    assert Scale(exp) == 1 && Scale(exp - 1) == 1;
    hide Unit, Scale, Pow;
    assert Rest(integral, one, fractional) == integral * one + fractional;
    DividedDigit(one, integral, fractional, p);
    IntegerDigitAlgebra(one, p, q, integral / p, integral % p, integral, fractional);
  }

  lemma DividedDigit(one: nat, integral: nat, fractional: nat, p: nat)
    requires p > 0 && one > 0 && fractional < one && integral * one + fractional < one * (10 * p)
    ensures integral == p * (integral / p) + integral % p
    ensures 0 <= integral / p <= 9
    ensures integral % p * one + fractional < one * p
  {
    Arith.DivMod(integral, p);
    var d, m := integral / p, integral % p;
    if d >= 10 {
      MulMono(p, 10, d);
      MulMono(one, 10 * p, integral);
    }
    MulStrict(one, m, p);
  }

  lemma IntegerDigitAlgebra(one: nat, p: nat, q: int, d: int, m: int, integral: int, fractional: int)
    requires integral == p * d + m
    ensures q * (one * (10 * p)) + (integral * one + fractional) == (10 * q + d) * (one * p) + (m * one + fractional)
  {
    MulDist(one, p * d, m);
    MulDist(one * p, 10 * q, d);
    MulRotate(p, d, one);
    MulRotate(d, one, p);
    MulRotate(one, 10, p);
    MulRotate(10, q, one * p);
  }

  /** Ten times the fraction keeps the digits exact one place further down. */
  lemma FractionDigit(f: nat, one: nat, exp: int, q: int, fractional: nat)
    requires exp <= 0 && one > 0 && ExactSoFar(f, one, exp, q, fractional)
    ensures fractional < one
    ensures 0 <= 10 * fractional / one <= 9
    ensures ExactSoFar(f, one, exp - 1, 10 * q + 10 * fractional / one, 10 * fractional % one)
    ensures Unit(one, exp - 1) == one && Scale(exp - 1) == 10 * Scale(exp)
  {
    var s := Scale(exp);
    assert Scale(exp - 1) == 10 * s;
    assert Unit(one, exp) == one && Unit(one, exp - 1) == one;
    var d, m := 10 * fractional / one, 10 * fractional % one;
    Arith.DivMod(10 * fractional, one);
    if d >= 10 { MulMono(one, 10, d); }
    MulRotate(f, 10, s);
    MulRotate(10, f, s);
    MulDist(one, 10 * q, d);
    MulAssoc(10, q, one);
  }

  /** Fewer than nineteen fraction digits can be generated before the error overtakes the remainder. */
  lemma FewFractionDigits(exp: int, error: nat, one: nat)
    requires exp <= 0 && error == Scale(exp) && error < one <= 0x1000_0000_0000_0000
    ensures -exp < 19
  {
    if -exp >= 19 {
      PowersOf10(19);
      PowMono(10, 19, -exp);
    }
  }

  /** A rounded digit ends the run. */
  lemma FinishedDigits(f: nat, one: nat, e: int, q: int, remainder: U64, error: U64, unit: U64, q': int)
    requires ExactSoFar(f, one, e, q, remainder) && unit == Unit(one, e)
    requires Scale(e) <= error && 2 * error < unit
    requires var dir := GetRoundDirection(unit, remainder, error);
             dir != Unknown && q' == q + if dir == Up then 1 else 0
    ensures IsFinished(f, one, q', e)
  {
    RoundedDigits(f, q, unit, Scale(e), remainder, error);
  }

  /** The exact digits have one remainder. */
  lemma StuckByRemainder(f: nat, one: nat, e: int, q: int, remainder: int, enough: bool)
    requires ExactSoFar(f, one, e, q, remainder)
    ensures StuckAt(f, one, e, enough) <==> Undecided(Unit(one, e), remainder, Scale(e), e < 0, enough)
  {
    hide Unit, Scale;
    DivUnique(f * Scale(e), Unit(one, e), q, remainder);
  }

  // Giving up is justified, and nothing else is given up.

  /** All reals within the error lie above q units, so q are their digits so far. */
  ghost predicate DigitsAreSure(f: nat, q: int, unit: nat, scale: nat) {
    forall x: real :: f as real - 1.0 <= x <= f as real + 1.0 ==> Times(x, scale) > (q * unit) as real
  }

  lemma SureByRemainder(f: nat, q: int, unit: nat, scale: nat, remainder: int)
    requires f * scale == q * unit + remainder
    ensures DigitsAreSure(f, q, unit, scale) <==> remainder > scale
  {
    hide Times;
    TimesInteger(f, scale);
    TimesShift(f as real, scale);
    var low := f as real - 1.0;
    assert Times(low, scale) == (q * unit) as real + remainder as real - scale as real;
    if remainder > scale {
      forall x: real | f as real - 1.0 <= x <= f as real + 1.0 ensures Times(x, scale) > (q * unit) as real {
        TimesMono(low, x, scale);
      }
    }
  }

  lemma NearestByRemainder(f: nat, q: int, unit: nat, scale: nat, remainder: int, q': int)
    requires f * scale == q * unit + remainder && 0 <= remainder < unit && 0 < 2 * scale < unit
    ensures 2 * (remainder + scale) > unit && 2 * (remainder - scale) < unit ==> !IsNearest(f, q', unit, scale)
  {
    hide Times;
    if IsNearest(f, q', unit, scale) {
      TimesInteger(f, scale);
      TimesShift(f as real, scale);
      var low, high := f as real - 1.0, f as real + 1.0;
      assert -(unit as real) <= 2.0 * (Times(low, scale) - (q' * unit) as real);
      assert 2.0 * (Times(high, scale) - (q' * unit) as real) <= unit as real;
      EndsApart(f * scale, q * unit, q' * unit, unit, remainder, scale);
      if q' <= q { MulMono(unit, q', q); } else { MulMono(unit, q + 1, q'); MulDist(unit, q, 1); }
    }
  }

  lemma EndsApart(x: int, low: int, at: int, unit: nat, remainder: int, scale: nat)
    requires x == low + remainder
    requires -(unit as real) <= 2.0 * (x as real - scale as real - at as real)
    requires 2.0 * (x as real + scale as real - at as real) <= unit as real
    ensures 2 * (at - low) <= 2 * (remainder - scale) + unit && 2 * (remainder + scale) <= 2 * (at - low) + unit
  {
  }

  /**
   * Digit generation is stuck above the last place exactly where the digits so
   * far are not sure, and at the last exactly where, moreover, the error
   * reaches half a unit or no multiple is nearest for all reals within it; in
   * the integral part the digits are always taken for sure.
   */
  lemma StuckExactly(f: nat, one: nat, e: int)
    requires one > 0
    ensures var unit, scale := Unit(one, e), Scale(e);
            var sure := e >= 0 || DigitsAreSure(f, f * scale / unit, unit, scale);
            && unit > 0 && (StuckAt(f, one, e, false) <==> !sure)
            && (StuckAt(f, one, e, true) <==>
                  !sure || 2 * scale >= unit || !exists q: int :: IsNearest(f, q, unit, scale))
  {
    hide Pow, IsNearest, DigitsAreSure;
    var unit, scale := Unit(one, e), Scale(e);
    MulStrict(one, 0, Pow(10, Max(e, 0)));
    Arith.DivMod(f * scale, unit);
    var q, r := f * scale / unit, f * scale % unit;
    SureByRemainder(f, q, unit, scale, r);
    if 2 * scale < unit {
      RoundedDigits(f, q, unit, scale, r, scale);
      if 2 * (r + scale) > unit && 2 * (r - scale) < unit {
        forall q': int ensures !IsNearest(f, q', unit, scale) { NearestByRemainder(f, q, unit, scale, r, q'); }
      }
    }
  }

  /** In front of the digits it is undecided only, and always, near a half. */
  lemma UndecidedNearHalf(f: nat, divisor: nat)
    requires divisor > 20
    ensures Undecided(divisor, f / 10, 10, false, true) ==> 10 * divisor - 200 < 2 * f < 10 * divisor + 220
    ensures 10 * divisor - 180 <= 2 * f < 10 * divisor + 200 ==> Undecided(divisor, f / 10, 10, false, true)
  {
  }

  /** No place from e on is stuck. */
  ghost predicate FreeTo(f: nat, one: nat, kappa: nat, e: int) {
    forall i :: e <= i < kappa ==> !StuckAt(f, one, i, false)
  }

  /** What the verdict on the digit at place e says about the number. */
  lemma Verdict(f: nat, one: nat, kappa: nat, e: int, q: int, remainder: int, precision: int, result: Result)
    requires e < kappa && FreeTo(f, one, kappa, e + 1) && ExactSoFar(f, one, e, q, remainder)
    requires e + 1 == kappa || kappa - e - 1 < precision
    requires result == Error <==> Undecided(Unit(one, e), remainder, Scale(e), e < 0, kappa - e >= precision)
    requires result == Done ==> kappa - e >= precision
    requires result == More ==> kappa - e < precision
    ensures result == Error ==> StuckAt(f, one, e, kappa - e >= precision)
    ensures result == More ==> FreeTo(f, one, kappa, e)
    ensures result != More ==> (result == Done <==> DecidesDigits(f, one, kappa, kappa - Max(precision, 1)))
  {
    hide Unit, Scale, ExactSoFar, Undecided, StuckAt;
    StuckByRemainder(f, one, e, q, remainder, kappa - e >= precision);
  }

  /** What digit generation has achieved when it stops with a result at place exp. */
  ghost predicate StoppedAt(result: Result, exp: int, handler: FixedHandler, f: nat, one: nat, kappa: nat, exp10: int)
    requires handler.size <= handler.buf.Length
    reads handler, handler.buf
  {
    && AllDigits(handler.Digits()) && handler.size <= 31
    && (result == Done <==> DecidesDigits(f, one, kappa, kappa - Max(handler.precision, 1)))
    && (result == Error ==>
          && exp + handler.size == kappa && handler.size > 0 && handler.exp10 == exp10
          && StuckAt(f, one, exp, handler.size >= handler.precision))
    && (result == Done ==>
          && exp == kappa - Max(handler.precision, 1) && handler.size > 0
          && handler.Grows(kappa - exp, exp10)
          && IsFinished(f, one, DecimalValue(handler.Digits()) * Pow(10, handler.exp10 - exp10), exp))
  }

  /** What the integral part has left, in front of the fraction. */
  ghost function Rest(integral: nat, one: nat, fractional: nat): nat {
    integral * one + fractional
  }

  /** The digits of the integral part, at most ten of them. */
  method IntegralDigits(handler: FixedHandler, ghost f: nat, one: U64, kappa: nat, start: U32, fractional: U64)
    returns (exp: int, result: Result)
    requires 0x1_0000_0000 <= one && 1 <= kappa <= 10 && fractional < one
    requires f < 0x1_0000_0000_0000_0000 && Pow(10, kappa - 1) * one <= f
    requires handler.size == 0 && handler.buf.Length >= 32
    requires ExactSoFar(f, one, kappa, 0, Rest(start, one, fractional))
    modifies handler, handler.buf
    ensures handler.precision == old(handler.precision) && handler.size <= 31
    ensures result != More ==> StoppedAt(result, exp, handler, f, one, kappa, old(handler.exp10))
    ensures result == More ==>
              && handler.size == kappa && handler.exp10 == old(handler.exp10) && handler.size < handler.precision
              && AllDigits(handler.Digits()) && exp == 0 && FreeTo(f, one, kappa, 0)
              && ExactSoFar(f, one, 0, DecimalValue(handler.Digits()), fractional)
  {
    hide Pow, ExactSoFar, IsFinished, StuckAt, FreeTo, DecidesDigits, Undecided, Unit, Scale, Rest;
    hide DecimalValue, AllDigits, GetRoundDirection, DigitChar;
    var integral: U32 := start;
    result := More;
    exp := kappa;
    EmptyDigits(handler.Digits());
    NothingStuck(f, one, kappa);
    while exp > 0
      invariant result == More && 0 <= exp <= kappa && handler.size == kappa - exp
      invariant handler.precision == old(handler.precision) && handler.exp10 == old(handler.exp10)
      invariant AllDigits(handler.Digits()) && (handler.size == 0 || handler.size < handler.precision)
      invariant FreeTo(f, one, kappa, exp)
      invariant ExactSoFar(f, one, exp, DecimalValue(handler.Digits()), Rest(integral, one, fractional))
      decreases exp
    {
      ghost var q, digits := DecimalValue(handler.Digits()), handler.Digits();
      var digit, divisor, remainder;
      digit, integral, divisor, remainder := DivmodIntegral(f, one, kappa, exp, q, integral, fractional);
      exp := exp - 1;
      OneMoreDigit(digits, digit);
      result := handler.OnDigit(DigitChar(digit), divisor, remainder, 1, true);
      Verdict(f, one, kappa, exp, 10 * q + digit, remainder, handler.precision, result);
      if result == Done {
        FinishedDigits(f, one, exp, 10 * q + digit, remainder, 1, divisor,
                       DecimalValue(handler.Digits()) * Pow(10, handler.exp10 - old(handler.exp10)));
      }
      if result != More {
        return;
      }
    }
    NothingIntegralLeft(f, one, DecimalValue(handler.Digits()), integral, fractional);
  }

  lemma NothingStuck(f: nat, one: nat, kappa: nat)
    ensures FreeTo(f, one, kappa, kappa)
  {}

  lemma NothingIntegralLeft(f: nat, one: nat, q: int, integral: nat, fractional: nat)
    requires ExactSoFar(f, one, 0, q, Rest(integral, one, fractional))
    ensures ExactSoFar(f, one, 0, q, fractional)
  {
    assert Unit(one, 0) == one;
    if integral > 0 { MulMono(one, 1, integral); }
  }

  /** Divides off the digit at place exp - 1; nothing overflows. */
  method DivmodIntegral(ghost f: nat, one: U64, ghost kappa: nat, exp: int, ghost q: int, start: U32, fractional: U64)
    returns (digit: U32, integral: U32, divisor: U64, remainder: U64)
    requires 1 <= exp <= kappa <= 10 && fractional < one
    requires one >= 0x1_0000_0000 && Pow(10, kappa - 1) * one <= f < 0x1_0000_0000_0000_0000
    requires ExactSoFar(f, one, exp, q, Rest(start, one, fractional))
    ensures digit <= 9 && Scale(exp - 1) == 1
    ensures 2 < divisor == Unit(one, exp - 1) && remainder == Rest(integral, one, fractional) < divisor
    ensures ExactSoFar(f, one, exp - 1, 10 * q + digit, remainder)
  {
    hide ExactSoFar, Unit, Scale, Pow;
    var p: U64 := POWERS_OF_10[exp - 1];
    PowersOf10(exp - 1);
    DivisorFits(f, one, kappa, exp - 1);
    IntegerDigit(f, one, exp, q, start, fractional, p);
    if exp == 1 {
      digit, integral := start, 0;
      PowZero(10);
    } else {
      digit, integral := start / p, start % p;
    }
    divisor := p * one;
    remainder := integral * one + fractional;
  }

  lemma EmptyDigits(s: string)
    requires s == ""
    ensures DecimalValue(s) == 0 && AllDigits(s)
  {}

  lemma OneMoreDigit(s: string, d: nat)
    requires d <= 9
    ensures IsDigit(DigitChar(d))
    ensures DecimalValue(s + [DigitChar(d)]) == 10 * DecimalValue(s) + d
  {
    DecimalSnoc(s, DigitChar(d));
  }

  /** Every divisor of the integral phase fits 64 bits and exceeds two. */
  lemma DivisorFits(f: nat, one: nat, kappa: nat, exp: nat)
    requires exp < kappa && one >= 0x1_0000_0000 && Pow(10, kappa - 1) * one <= f
    ensures 2 < Pow(10, exp) * one <= f
  {
    PowMono(10, exp, kappa - 1);
    MulMono(one, Pow(10, exp), Pow(10, kappa - 1));
    MulMono(one, 1, Pow(10, exp));
  }

  /** The digits of the fraction, until enough have come or the error overtakes what is left. */
  method FractionalDigits(handler: FixedHandler, ghost f: nat, one: U64, ghost kappa: nat, start: U64)
    returns (exp: int, result: Result)
    requires 0x1_0000_0000 <= one <= 0x1000_0000_0000_0000 && 1 <= kappa <= 10
    requires handler.size == kappa && handler.buf.Length >= 32 && handler.size < handler.precision
    requires AllDigits(handler.Digits()) && ExactSoFar(f, one, 0, DecimalValue(handler.Digits()), start)
    requires FreeTo(f, one, kappa, 0)
    modifies handler, handler.buf
    ensures handler.precision == old(handler.precision) && result != More && handler.size <= 31
    ensures StoppedAt(result, exp, handler, f, one, kappa, old(handler.exp10))
  {
    hide Pow, ExactSoFar, IsFinished, StuckAt, FreeTo, DecidesDigits, Undecided, Unit, Scale;
    hide DecimalValue, AllDigits, GetRoundDirection, DigitChar;
    var fractional: U64 := start;
    var error: U64 := 1;
    exp := 0;
    UnitScale();
    while true
      invariant exp <= 0 && handler.size == kappa - exp <= 29 && handler.size < handler.precision
      invariant handler.precision == old(handler.precision) && handler.exp10 == old(handler.exp10)
      invariant AllDigits(handler.Digits()) && FreeTo(f, one, kappa, exp)
      invariant 1 <= error == Scale(exp) && error < one
      invariant ExactSoFar(f, one, exp, DecimalValue(handler.Digits()), fractional)
      decreases one - error
    {
      ghost var q, digits := DecimalValue(handler.Digits()), handler.Digits();
      FractionDigit(f, one, exp, q, fractional);
      FewFractionDigits(exp, error, one);
      fractional := fractional * 10;
      error := error * 10;
      var digit := fractional / one;
      fractional := fractional % one;
      exp := exp - 1;
      OneMoreDigit(digits, digit);
      result := handler.OnDigit(DigitChar(digit), one, fractional, error, false);
      Verdict(f, one, kappa, exp, 10 * q + digit, fractional, handler.precision, result);
      if result == Done {
        FinishedDigits(f, one, exp, 10 * q + digit, fractional, error, one,
                       DecimalValue(handler.Digits()) * Pow(10, handler.exp10 - old(handler.exp10)));
      }
      if result != More {
        return;
      }
    }
  }

  lemma UnitScale()
    ensures Scale(0) == 1
  {}

  /** Asks the handler whether it needs digits; if it does not it holds one rounded digit, or none. */
  method BeginDigits(handler: FixedHandler, f: U64, ghost one: nat, kappa: nat, divisor: U64) returns (result: Result)
    requires 1 <= kappa && divisor == Pow(10, kappa - 1) * one && 40 < divisor <= f < 10 * divisor
    requires handler.size == 0 < handler.buf.Length
    modifies handler, handler.buf
    ensures handler.precision == old(handler.precision) + (if handler.fixed then kappa + old(handler.exp10) else 0)
    ensures handler.exp10 == old(handler.exp10) && handler.size <= 1 && AllDigits(handler.Digits())
    ensures result == More ==> handler.size == 0 && (handler.fixed ==> handler.precision > 0)
    ensures result == Error ==> handler.size == 0
    ensures result != More ==>
              && handler.fixed && handler.precision <= 0
              && (result == Done <==> Decides(f, one, kappa, handler.precision, true))
    ensures result == Done ==>
              var place := LastPlace(kappa, handler.precision, handler.fixed);
              && handler.size == (if handler.precision == 0 then 1 else 0)
              && (if handler.size > 0 then kappa == place else kappa < place)
              && IsFinished(f, one, DecimalValue(handler.Digits()) * Pow(10, 0), place)
  {
    hide Pow, IsFinished, DecimalValue, AllDigits, GetRoundDirection, Undecided, DecidesDigits;
    NoDigitsNeeded(f, one, kappa, divisor,
                   if handler.fixed then kappa - Min(0, handler.precision + kappa + handler.exp10) else kappa);
    result := handler.OnStart(divisor, f / 10, 10, kappa);
    if result == More {
      EmptyDigits(handler.Digits());
    } else {
      UnknownIsUndecided(divisor, f / 10, 10);
      StartDigits(handler.Digits());
    }
  }

  /**
   * Generates the digits of f * 2^e, known to within one unit of f. A run
   * leaves digits that are nearest to every real within the error, or
   * reports an error where they cannot be rounded, after at most 31 characters.
   */
  method GenerateDigits(f: U64, e: int, handler: FixedHandler) returns (exp: int, result: Result)
    requires -60 <= e <= -32 && f / Pow(2, -e) > 0
    requires handler.size == 0 && handler.buf.Length >= 32
    modifies handler, handler.buf
    ensures result != More && handler.size <= 31 && AllDigits(handler.Digits())
    ensures var kappa := NumDigits(f / Pow(2, -e));
            && handler.precision == old(handler.precision) + (if handler.fixed then kappa + old(handler.exp10) else 0)
            && (result == Done <==> Decides(f, Pow(2, -e), kappa, handler.precision, handler.fixed))
            && (result == Error ==>
                  && exp + handler.size == kappa && handler.exp10 == old(handler.exp10)
                  && (handler.size > 0 ==> StuckAt(f, Pow(2, -e), exp, handler.size >= handler.precision)))
            && (result == Done ==>
                  var place := LastPlace(kappa, handler.precision, handler.fixed);
                  && (handler.size > 0 && (handler.fixed ==> handler.precision > 0) ==>
                        handler.Grows(kappa - exp, old(handler.exp10)))
                  && (handler.fixed && handler.precision <= 0 ==>
                        handler.size == (if handler.precision == 0 then 1 else 0)
                        && handler.exp10 == old(handler.exp10))
                  && (if handler.size > 0 then exp == place
                      else handler.fixed && exp == kappa < place && handler.exp10 == old(handler.exp10))
                  && IsFinished(f, Pow(2, -e),
                                DecimalValue(handler.Digits()) * Pow(10, handler.exp10 - old(handler.exp10)), place))
  {
    hide Pow, NumDigits, ExactSoFar, IsFinished, Unit, Scale, DecimalValue, AllDigits, GetRoundDirection;
    hide StuckAt, FreeTo, DecidesDigits, Undecided, Decides, LastPlace;
    var one: U64 := Pow(2, -e);
    OneBounds(e);
    ghost var kappa: nat := NumDigits(f / one);
    StartBounds(f, one, kappa);
    Arith.DivMod(f, one);
    var integral: U32 := f / one;
    var fractional: U64 := f % one;
    var count := CountDigits(integral);
    exp := count;
    PowersOf10(count - 1);
    var divisor: U64 := POWERS_OF_10[count - 1] * one;
    result := BeginDigits(handler, f, one, count, divisor);
    if result != More {
      return;
    }
    DecidesByDigits(f, one, kappa, handler.precision, handler.fixed);
    exp, result := IntegralDigits(handler, f, one, count, integral, fractional);
    if result == More {
      exp, result := FractionalDigits(handler, f, one, kappa, fractional);
    }
  }

  lemma DecidesByDigits(f: nat, one: nat, kappa: nat, precision: int, fixed: bool)
    requires kappa > 0 && (fixed ==> precision > 0)
    ensures Decides(f, one, kappa, precision, fixed) <==> DecidesDigits(f, one, kappa, kappa - Max(precision, 1))
    ensures LastPlace(kappa, precision, fixed) == kappa - Max(precision, 1)
  {}

  lemma StartDigits(s: string)
    requires s == "" || s == "0" || s == "1"
    ensures AllDigits(s) && DecimalValue(s) * Pow(10, 0) == if s == "1" then 1 else 0
  {
    assert "0" == [] + ['0'] && "1" == [] + ['1'];
    DecimalSnoc([], '0');
    DecimalSnoc([], '1');
  }
}
