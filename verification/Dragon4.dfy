/** Exact digit generation in multi-precision arithmetic (Steele and White's FPP^2). */
module Dragon4 {
  import opened Arith
  import opened Bigits
  import opened BigitOrder
  import opened BigitProducts
  import opened BigintModel
  import opened Decimal

  predicate DividedBy(n: nat, k: nat) {
    n % Pow(2, k) == 0
  }

  /** A power of two divides n but not d. */
  ghost predicate MoreTwos(n: nat, d: nat) {
    exists k: nat :: DividedBy(n, k) && !DividedBy(d, k)
  }

  /** Enough to make every division step of digit generation exact. */
  ghost predicate Separable(num: Bigint, den: Bigint)
    reads num, den
  {
    num.exp <= den.exp || (den.bigits != [] && den.bigits[0] != 0) || MoreTwos(num.Value(), den.Value())
  }

  /** The fraction num / den can be divided digit by digit. */
  ghost predicate Ready(num: Bigint, den: Bigint)
    reads num, den
  {
    && num != den && Trimmed(num.bigits) && Normal(den.bigits)
    && (IsZero(num.bigits) ==> num.exp < den.NumBigits())
    && Separable(num, den)
  }

  lemma SeparableIsNotPadded(num: Bigint, den: Bigint)
    requires Ready(num, den)
    ensures !PaddedCopy(den.bigits, den.exp, num.bigits, num.exp)
  {
    if PaddedCopy(den.bigits, den.exp, num.bigits, num.exp) {
      PaddedProperties(den.bigits, den.exp, num.bigits, num.exp);
    }
  }

  /**
   * Divides off one digit, leaving a remainder below the denominator. The
   * first quotient can reach nineteen when the fraction was set up twice too
   * large; all others are digits.
   */
  method NextDigit(num: Bigint, den: Bigint) returns (digit: nat)
    requires Ready(num, den) && num.Value() < 20 * den.Value()
    modifies num
    ensures digit <= 19 && (old(num.Value()) < 10 * den.Value() <==> digit <= 9)
    ensures old(num.Value()) == digit * den.Value() + num.Value()
    ensures num.Value() < den.Value()
    ensures Ready(num, den)
  {
    hide Scaled, PaddedCopy, MoreTwos;
    SeparableIsNotPadded(num, den);
    ghost var n, d := num.Value(), den.Value();
    ScaledTop(den.bigits, den.exp);
    digit := num.DivModAssign(den);
    Arith.DivMod(n, d);
    QuotientRange(n, d, digit);
  }

  lemma QuotientRange(n: nat, d: nat, q: nat)
    requires d * q <= n < d * q + d && n < 20 * d
    ensures q <= 19 && (n < 10 * d <==> q <= 9)
  {
    if q >= 20 { MulMono(d, 20, q); }
    if q >= 10 { MulMono(d, 10, q); } else { MulMono(d, q, 9); }
  }

  /** Compares twice the numerator with the denominator. */
  method CompareTwice(num: Bigint, den: Bigint) returns (r: int)
    requires Trimmed(num.bigits) && Normal(den.bigits)
    requires IsZero(num.bigits) ==> num.exp < den.NumBigits()
    ensures r == Sign(2 * num.Value() - den.Value())
  {
    ZeroOrNormal(num.bigits);
    r := Bigint.AddCompare(num, num, den);
  }

  /**
   * Propagates a carry from the last digit, which has just become a ten,
   * through a run of nines. A ten found in front becomes a one and moves the
   * exponent: right when the carry made it, wrong when it was the first
   * quotient of a fraction that was too large.
   */
  method PropagateCarry(buf: array<char>, exp10: int) returns (e: int)
    requires buf.Length > 0 && WideDigits(buf[..buf.Length - 1]) && buf[buf.Length - 1] == ':'
    modifies buf
    ensures e == exp10 || (e == exp10 + 1 && buf[0] == '1')
    ensures LooseDigits(buf[..])
    ensures buf.Length == 1 || old(buf[0]) <= '9' ==>
              && AllDigits(buf[..]) && DecimalValue(buf[..]) * Pow(10, e - exp10) == old(DecimalValue(buf[..]))
              && (e == exp10 || Carried(buf[..]))
    ensures buf.Length > 1 && old(buf[0]) > '9' && AllDigits(buf[..]) ==>
              e == exp10 + 1 && DecimalValue(buf[..]) * 10 >= old(DecimalValue(buf[..]))
  {
    assert buf[..buf.Length] == buf[..];
    CarryNines(buf, buf.Length);
    assert buf[..buf.Length] == buf[..];
    assert Pow(10, 1) == 10;
    if buf[0] == ':' {
      ghost var s := buf[..];
      FrontTen(s);
      buf[0] := '1';
      assert buf[..] == s[0 := '1'];
      return exp10 + 1;
    }
    return exp10;
  }

  /** Putting a one for a ten in front and moving the exponent is right for zeros behind, and too much for others. */
  lemma FrontTen(s: string)
    requires s != [] && s[0] == ':' && forall k :: 0 < k < |s| ==> IsDigit(s[k])
    ensures DecimalValue(s) <= 10 * DecimalValue(s[0 := '1'])
    ensures (forall k :: 0 < k < |s| ==> s[k] == '0') ==> DecimalValue(s) == 10 * DecimalValue(s[0 := '1'])
  {
    var t := s[1..];
    assert AllDigits(t);
    assert s == ":" + t && s[0 := '1'] == "1" + t;
    DecimalConcat(":", t);
    DecimalConcat("1", t);
    DecimalBound(t);
    assert DecimalValue(":") == 10 && DecimalValue("1") == 1 by {
      DecimalSnoc([], ':');
      DecimalSnoc([], '1');
      assert [] + [':'] == ":" && [] + ['1'] == "1";
    }
    if forall k :: 0 < k < |s| ==> s[k] == '0' { TenIsOneUp(s); }
  }

  /** Scales the remainder up for the next digit. */
  method TimesTen(num: Bigint, den: Bigint)
    requires Ready(num, den)
    modifies num
    ensures num.Value() == 10 * old(num.Value())
    ensures Ready(num, den)
  {
    hide MoreTwos;
    ZeroOrNormal(num.bigits);
    ghost var n := num.Value();
    num.Multiply32(10);
    if MoreTwos(n, den.Value()) { TenTimesTwos(n, den.Value()); }
  }

  lemma TenTimesTwos(n: nat, d: nat)
    requires MoreTwos(n, d)
    ensures MoreTwos(10 * n, d)
  {
    hide Pow;
    var k: nat :| DividedBy(n, k) && !DividedBy(d, k);
    MultipleStays(n, 10, Pow(2, k));
    assert DividedBy(10 * n, k);
  }

  lemma MultipleStays(n: nat, c: nat, p: nat)
    requires p > 0 && n % p == 0
    ensures c * n % p == 0
  {
    Arith.DivMod(n, p);
    var m := n / p;
    assert n == m * p;
    MulAssoc(c, m, p);
    ModMultiple(0, c * m, p);
  }

  /** After i digits: what is written, and the part still to come, make up n / d * 10^i. */
  ghost predicate DigitsSoFar(n: nat, d: nat, written: int, i: nat, rest: nat) {
    n * Pow(10, i) == written * (10 * d) + rest
  }

  lemma DigitStep(n: nat, d: nat, written: int, i: nat, rest: nat, digit: nat, r: nat)
    requires DigitsSoFar(n, d, written, i, rest) && rest == digit * d + r
    ensures DigitsSoFar(n, d, 10 * written + digit, i + 1, 10 * r)
  {
    MulRotate(10, Pow(10, i), n);
    MulRotate(n, 10, Pow(10, i));
    MulDist(10 * d, 10 * written, digit);
    MulRotate(10, written, 10 * d);
    MulRotate(digit, 10, d);
  }

  /** Rounding the last digit by its remainder rounds the whole number to the nearest, half to even. */
  lemma LastDigit(n: nat, d: nat, written: int, i: nat, rest: nat, digit: nat, r: nat, q: int)
    requires DigitsSoFar(n, d, written, i, rest) && rest == digit * d + r && r < d
    requires q == 10 * written + digit + if 2 * r > d || (2 * r == d && digit % 2 != 0) then 1 else 0
    ensures IsHalfEven(q, n * Pow(10, i), d)
  {
    hide Pow, IsHalfEven;
    MulDist(d, 10 * written, digit);
    MulRotate(written, 10, d);
    RoundQuotient(n * Pow(10, i), d, 10 * written + digit, r, q);
  }

  /** q units of 10^(exp10 - numDigits + 1) are num / den * 10^exp10, rounded half to even. */
  ghost predicate Rounds(q: int, num: nat, den: nat, numDigits: nat) {
    if numDigits == 0 then IsHalfEven(q, num, 10 * den) else IsHalfEven(q, num * Pow(10, numDigits - 1), den)
  }

  /** The digits written of n / d: behind the first quotient, which need not be a digit, all are digits. */
  predicate Begun(s: string, n: nat, d: nat) {
    WideDigits(s) && (s != [] ==> (s[0] <= '9' <==> n < 10 * d))
  }

  /** What is left to be divided is below ten denominators, save for the first quotient. */
  predicate Left(i: nat, rest: nat, n: nat, d: nat) {
    if i == 0 then rest == n else rest < 10 * d
  }

  lemma BegunNext(s: string, n: nat, d: nat, rest: nat, digit: nat)
    requires Begun(s, n, d) && Left(|s|, rest, n, d) && digit <= 19 && (rest < 10 * d <==> digit <= 9)
    ensures Begun(s + [DigitChar(digit)], n, d)
    ensures DecimalValue(s + [DigitChar(digit)]) == 10 * DecimalValue(s) + digit
  {
    hide DecimalValue;
    DecimalSnoc(s, DigitChar(digit));
    var t := s + [DigitChar(digit)];
    if s == [] {
      assert t[1..] == [];
    } else {
      assert t[0] == s[0] && t[1..] == s[1..] + [DigitChar(digit)];
      AllDigitsSnoc(s[1..], DigitChar(digit));
    }
  }

  lemma AllDigitsSnoc(s: string, c: char)
    requires AllDigits(s) && IsDigit(c)
    ensures AllDigits(s + [c])
  {}

  /** Writes the digit at position i and scales the remainder up for the next one. */
  method WriteDigit(num: Bigint, den: Bigint, buf: array<char>, i: nat, ghost n: nat, ghost d: nat)
    requires i < buf.Length && Ready(num, den) && den.Value() == d && n < 20 * d
    requires Begun(buf[..i], n, d) && Left(i, num.Value(), n, d)
    requires DigitsSoFar(n, d, DecimalValue(buf[..i]), i, num.Value())
    modifies num, buf
    ensures Ready(num, den) && den.Value() == d && Begun(buf[..i + 1], n, d) && Left(i + 1, num.Value(), n, d)
    ensures DigitsSoFar(n, d, DecimalValue(buf[..i + 1]), i + 1, num.Value())
  {
    hide DigitsSoFar, IsHalfEven, Scaled, Ready, Begun, DecimalValue, DigitChar;
    ReadyOperands(num, den);
    ghost var rest, before := num.Value(), buf[..i];
    var digit := NextDigit(num, den);
    DigitStep(n, d, DecimalValue(before), i, rest, digit, num.Value());
    BegunNext(before, n, d, rest, digit);
    buf[i] := DigitChar(digit);
    assert buf[..i + 1] == before + [buf[i]];
    TimesTen(num, den);
  }

  /** q is not below num / den rounded. */
  ghost predicate NotBelow(q: int, num: int, den: int) {
    2 * (num - q * den) <= den
  }

  /**
   * Writes numDigits digits of num / den * 10^exp10, correctly rounded, and
   * returns the exponent of the last one. For a fraction of ten or more the
   * first character is no digit, unless it is taken for a carry; then the
   * number that is denoted is too large.
   */
  method GenerateDigits(num: Bigint, den: Bigint, numDigits: nat, exp10: int)
    returns (buf: array<char>, e: int)
    requires Ready(num, den) && num.Value() < 20 * den.Value()
    modifies num, den
    ensures fresh(buf) && buf.Length == Max(numDigits, 1)
    ensures exp10 - numDigits + 1 <= e <= exp10 - numDigits + 2 && (numDigits == 0 ==> e == exp10 + 1)
    ensures LooseDigits(buf[..])
    ensures var n, d := old(num.Value()), old(den.Value());
            var q := DecimalValue(buf[..]) * Pow(10, e - (exp10 - numDigits + 1));
            && (n < 10 * d ==>
                  && AllDigits(buf[..]) && Rounds(q, n, d, numDigits)
                  && (numDigits == 0 || e == exp10 - numDigits + 1 || Carried(buf[..])))
            && (numDigits == 0 ==> AllDigits(buf[..]) && q == if 2 * n > 10 * d then 1 else 0)
            && (n >= 10 * d && numDigits > 0 && AllDigits(buf[..]) ==> NotBelow(q, n * Pow(10, numDigits - 1), d))
  {
    hide DigitsSoFar, IsHalfEven, Ready, DecimalValue, Scaled, Begun, NotBelow;
    ReadyOperands(num, den);
    ghost var n, d := num.Value(), den.Value();
    e := exp10 - (numDigits - 1);
    if numDigits == 0 {
      buf := new char[1];
      var digit := NoDigits(num, den);
      buf[0] := digit;
      assert buf[..] == [digit];
      PowZero(10);
      return;
    }
    buf := new char[numDigits];
    DigitsStart(n, d);
    assert buf[..0] == [];
    for i := 0 to numDigits - 1
      invariant fresh(buf) && Ready(num, den) && den.Value() == d
      invariant Begun(buf[..i], n, d) && Left(i, num.Value(), n, d)
      invariant DigitsSoFar(n, d, DecimalValue(buf[..i]), i, num.Value())
    {
      WriteDigit(num, den, buf, i, n, d);
    }
    e := LastDigits(num, den, buf, e, n, d);
  }

  lemma DigitsStart(n: nat, d: nat)
    ensures DigitsSoFar(n, d, DecimalValue([]), 0, n) && Begun([], n, d)
  {}

  /** No digits requested: one digit says whether the number is above a half in the place before. */
  method NoDigits(num: Bigint, den: Bigint) returns (digit: char)
    requires Ready(num, den)
    modifies den
    ensures AllDigits([digit])
    ensures DecimalValue([digit]) == if 2 * num.Value() > 10 * old(den.Value()) then 1 else 0
    ensures num.Value() < 10 * old(den.Value()) ==>
              IsHalfEven(DecimalValue([digit]), num.Value(), 10 * old(den.Value()))
  {
    hide Scaled, MoreTwos;
    den.Multiply32(10);
    var r := CompareTwice(num, den);
    digit := if r > 0 then '1' else '0';
    DecimalSnoc([], digit);
    assert [] + [digit] == [digit];
  }

  /** Writes the last digit, rounded by what remains, and carries if it becomes a ten. */
  method LastDigits(num: Bigint, den: Bigint, buf: array<char>, exp10: int, ghost n: nat, ghost d: nat)
    returns (e: int)
    requires buf.Length > 0 && Ready(num, den) && den.Value() == d && n < 20 * d
    requires Begun(buf[..buf.Length - 1], n, d) && Left(buf.Length - 1, num.Value(), n, d)
    requires DigitsSoFar(n, d, DecimalValue(buf[..buf.Length - 1]), buf.Length - 1, num.Value())
    modifies num, buf
    ensures exp10 <= e <= exp10 + 1 && LooseDigits(buf[..])
    ensures var q := DecimalValue(buf[..]) * Pow(10, e - exp10);
            && (n < 10 * d ==>
                  && AllDigits(buf[..]) && IsHalfEven(q, n * Pow(10, buf.Length - 1), d)
                  && (e == exp10 || Carried(buf[..])))
            && (n >= 10 * d && AllDigits(buf[..]) ==> NotBelow(q, n * Pow(10, buf.Length - 1), d))
  {
    hide DigitsSoFar, IsHalfEven, DecimalValue, AllDigits, WideDigits, LooseDigits, Carried, Begun, Pow, Scaled, Ready;
    hide DigitChar, NotBelow;
    ReadyOperands(num, den);
    ghost var last := buf.Length - 1;
    ghost var written, rest := buf[..last], num.Value();
    var digit := NextDigit(num, den);
    ReadyOperands(num, den);
    var result := CompareTwice(num, den);
    ghost var up := if result > 0 || (result == 0 && digit % 2 != 0) then 1 else 0;
    ghost var s := written + [DigitChar(digit + up)];
    LastDigit(n, d, DecimalValue(written), last, rest, digit, num.Value(), 10 * DecimalValue(written) + digit + up);
    LastCharacter(written, n, d, rest, digit, up);
    PowZero(10);
    e := exp10;
    if result > 0 || (result == 0 && digit % 2 != 0) {
      if digit == 9 {
        buf[buf.Length - 1] := ':';
        assert buf[..last] == written && buf[..] == s;
        e := PropagateCarry(buf, e);
        if n >= 10 * d && AllDigits(buf[..]) {
          PowNext(10, 0);
          HalfEvenIsNotBelow(DecimalValue(s), DecimalValue(buf[..]) * Pow(10, 1), n * Pow(10, last), d);
        }
        return;
      }
      digit := digit + 1;
    }
    buf[buf.Length - 1] := DigitChar(digit);
    assert buf[..] == s;
  }

  lemma ReadyOperands(num: Bigint, den: Bigint)
    requires Ready(num, den)
    ensures num != den && Trimmed(num.bigits) && Normal(den.bigits)
    ensures IsZero(num.bigits) ==> num.exp < den.NumBigits()
  {}

  /** What the last character makes of what is written: digits, or no digits, or a carry to be propagated. */
  lemma LastCharacter(written: string, n: nat, d: nat, rest: nat, digit: nat, up: nat)
    requires Begun(written, n, d) && Left(|written|, rest, n, d) && up <= 1
    requires digit <= 19 && (rest < 10 * d <==> digit <= 9)
    ensures var s := written + [DigitChar(digit + up)];
            && DecimalValue(s) == 10 * DecimalValue(written) + digit + up
            && (digit != 9 || up == 0 ==> (AllDigits(s) <==> n < 10 * d) && LooseDigits(s))
            && (digit == 9 && up == 1 ==>
                  && DigitChar(digit + up) == ':' && WideDigits(written)
                  && (|s| == 1 ==> n < 10 * d) && (|s| > 1 ==> (s[0] <= '9' <==> n < 10 * d)))
  {
    hide DecimalValue;
    var s := written + [DigitChar(digit + up)];
    DecimalSnoc(written, DigitChar(digit + up));
    WideOrDigits(written);
    assert s[|written|] == DigitChar(digit + up);
    if written != [] { assert s[0] == written[0]; }
  }

  lemma HalfEvenIsNotBelow(w: int, q: int, num: int, den: int)
    requires den >= 0 && IsHalfEven(w, num, den) && q >= w
    ensures NotBelow(q, num, den)
  {
    MulMono(den, w, q);
  }

  /** f * 2^e / 10^exp10 as a fraction of naturals. */
  ghost function Numerator(f: nat, e: int, exp10: int): nat {
    f * Pow(2, Max(e, 0)) * Pow(10, Max(-exp10, 0))
  }

  ghost function Denominator(e: int, exp10: int): (d: nat)
    ensures d > 0
  {
    Pow(2, Max(-e, 0)) * Pow(10, Max(exp10, 0))
  }

  /** How far the fraction that is set up exceeds the value to be printed. */
  function Excess(e: int, shift: nat): nat
    requires shift == 1 || shift == 2
  {
    if e >= 0 && shift == 2 then 2 else 1
  }

  lemma SetUpProduct(f: nat, s: nat, p: nat, t: nat)
    requires s == 2 || s == 4
    ensures (f * s) * p * (1 * t) == (s / 2) * (f * p * 1) * (t * 2)
  {
    MulRotate(f, s, p);
    MulRotate(s, f * p, t);
    MulRotate(s / 2, f * p, t * 2);
    MulRotate(f * p, t, 2);
  }

  lemma SetUpNegative(f: nat, s: nat, p: nat, t: nat)
    ensures t * (f * s) * (p * 1) == 1 * (f * 1 * t) * (s * p)
  {
    calc {
      t * (f * s) * p;
      { MulAssoc(t, f, s); }
      (t * f) * s * p;
      { MulAssoc(t * f, s, p); }
      (t * f) * (s * p);
    }
  }

  lemma SetUpPositive(f: nat, s: nat, p: nat, t: nat)
    ensures (f * s) * (p * t) == 1 * (f * 1 * 1) * (t * (s * p))
  {
    MulAssoc(f, s, p * t);
    MulRotate(s, p, t);
    MulRotate(t, s, p);
    MulAssoc(s, p, t);
    MulAssoc(t, s, p);
  }

  /** A power of two has a nonzero lowest bigit once its words are in the exponent. */
  lemma PowerOfTwoBigit(s: seq<U32>, exp: nat, n: nat)
    requires s != [] && exp == n / 32 && Scaled(s, exp) == Pow(2, n)
    ensures s[0] != 0
  {
    hide Pow, W, Val, Scaled;
    PowAdd(2, 32 * exp, n % 32);
    PowOfTwoWords(exp);
    ScaledCancel(s, exp, Pow(2, n % 32));
    SmallPowerBigit(s, n % 32);
  }

  lemma SmallPowerBigit(s: seq<U32>, r: nat)
    requires s != [] && r < 32 && Val(s) == Pow(2, r)
    ensures s[0] != 0
  {
    PowMono(2, r, 31);
    TwoToThe32();
    LowBigit(s);
    DivUnique(Val(s), B, 0, Val(s));
  }

  /**
   * Sets up the fraction for f * 2^e. With a nonnegative e the numerator is
   * shifted by `shift` bits but the denominator by one.
   */
  method SetUp(f: nat, e: int, shift: nat, exp10: int) returns (num: Bigint, den: Bigint)
    requires 0 < f < 0x20_0000_0000_0000 && (shift == 1 || shift == 2)
    requires e >= 0 ==> exp10 >= 0
    requires -0x4000_0000 < exp10 < 0x4000_0000
    ensures fresh(num) && fresh(den) && num != den
    ensures Normal(num.bigits) && Normal(den.bigits)
    ensures num.Value() * Denominator(e, exp10) == Excess(e, shift) * Numerator(f, e, exp10) * den.Value()
    ensures e < 0 ==> num.exp <= den.exp || den.bigits[0] != 0
    ensures e >= 0 ==> den.Value() == Pow(10, exp10) * 2 && den.exp == exp10 / 32
    ensures e >= 0 ==> num.Value() == f * Pow(2, shift) * Pow(2, e) && num.exp == e / 32
  {
    ghost var s := Pow(2, shift);
    assert s == if shift == 1 then 2 else 4;
    hide Scaled, Pow;
    PowZero(2);
    PowZero(10);
    PowNext(2, 0);
    den := new Bigint();
    var significand: U64 := f * Pow(2, shift);
    if e >= 0 {
      num := new Bigint.FromWord(significand);
      num.ShiftLeft(e);
      den.AssignPow10(exp10);
      den.ShiftLeft(1);
      SetUpProduct(f, s, Pow(2, e), Pow(10, exp10));
    } else if exp10 < 0 {
      num := new Bigint();
      num.AssignPow10(-exp10);
      num.Multiply64(significand);
      den.AssignWord(1);
      den.ShiftLeft(shift - e);
      PowAdd(2, shift, -e);
      SetUpNegative(f, s, Pow(2, -e), Pow(10, -exp10));
      PowerOfTwoBigit(den.bigits, den.exp, shift - e);
    } else {
      num := new Bigint.FromWord(significand);
      den.AssignPow10(exp10);
      den.ShiftLeft(shift - e);
      PowAdd(2, shift, -e);
      SetUpPositive(f, s, Pow(2, -e), Pow(10, exp10));
    }
  }

  /** A product with a power of two is divided by smaller ones. */
  lemma TwosDivide(f: nat, m: nat, k: nat)
    requires k <= m
    ensures DividedBy(f * Pow(2, m), k)
  {
    PowAdd(2, k, m - k);
    MulRotate(f, Pow(2, k), Pow(2, m - k));
    MulRotate(Pow(2, k), f, Pow(2, m - k));
    ModMultiple(0, f * Pow(2, m - k), Pow(2, k));
  }

  /** An odd number times 2^m is not divided by 2^(m + 1). */
  lemma NoMoreTwos(a: nat, m: nat)
    requires a % 2 == 1
    ensures !DividedBy(a * Pow(2, m), m + 1)
  {
    hide Pow;
    var p := Pow(2, m);
    PowNext(2, m);
    MulDist(p, 2 * (a / 2), 1);
    MulRotate(2, a / 2, p);
    MulRotate(a / 2, 2, p);
    DivUnique(a * p, 2 * p, a / 2, p);
  }

  /** The setup for a nonnegative exponent can be divided digit by digit. */
  lemma SetUpSeparable(num: Bigint, den: Bigint, f: nat, e: nat, shift: nat, exp10: nat)
    requires shift == 1 || shift == 2
    requires den.Value() == Pow(10, exp10) * 2 && den.exp == exp10 / 32
    requires num.Value() == f * Pow(2, shift) * Pow(2, e) && num.exp == e / 32
    ensures Separable(num, den)
  {
    hide Pow, Scaled;
    if e > exp10 {
      var k := exp10 + 2;
      PowAdd(2, shift, e);
      MulAssoc(f, Pow(2, shift), Pow(2, e));
      TwosDivide(f, shift + e, k);
      PowMul(5, 2, exp10);
      PowNext(2, exp10);
      Pow5Odd(exp10);
      MulAssoc(Pow(5, exp10), Pow(2, exp10), 2);
      NoMoreTwos(Pow(5, exp10), exp10 + 1);
      assert DividedBy(num.Value(), k) && !DividedBy(den.Value(), k);
    }
  }

  lemma RoundsScale(q: int, num: nat, den: nat, num': nat, den': nat, numDigits: nat)
    requires den > 0 && den' > 0 && num * den' == num' * den && Rounds(q, num, den, numDigits)
    ensures Rounds(q, num', den', numDigits)
  {
    if numDigits == 0 {
      MulRotate(num, 10, den');
      MulRotate(num', 10, den);
      HalfEvenScale(q, num, 10 * den, num', 10 * den');
    } else {
      var p := Pow(10, numDigits - 1);
      MulRotate(num, p, den');
      MulRotate(num', p, den);
      HalfEvenScale(q, num * p, den, num' * p, den');
    }
  }

  /** When the digits of twice a fraction are all the same those of the fraction: both round to zero, or both to one. */
  predicate HarmlessDoubling(num: nat, den: nat, numDigits: nat) {
    if numDigits == 0 then 4 * num <= 10 * den || 2 * num > 10 * den
    else
      var scaled := num * Pow(10, numDigits - 1);
      4 * scaled <= den || (2 * scaled > den && 4 * scaled < 3 * den)
  }

  /** When rounding hides a doubling. */
  lemma DoubleRounded(q: int, num: nat, den: nat)
    requires den > 0 && IsHalfEven(q, 2 * num, den)
    ensures IsHalfEven(q, num, den) <==> 4 * num <= den || (2 * num > den && 4 * num < 3 * den)
  {
    if q >= 2 {
      MulMono(den, 2, q);
    } else if q < 0 {
      MulMono(den, q, -1);
    }
  }

  /** A fraction of five or more is not rounded by a number that is not below its double. */
  lemma FarTooLarge(q: int, num: nat, den: nat, numDigits: nat)
    requires den > 0 && numDigits > 0 && 2 * num >= 10 * den
    requires NotBelow(q, 2 * num * Pow(10, numDigits - 1), den)
    ensures !Rounds(q, num, den, numDigits) && !HarmlessDoubling(num, den, numDigits)
  {
    hide Pow;
    var p := Pow(10, numDigits - 1);
    MulMono(num, 1, p);
    MulAssoc(2, num, p);
  }

  /** Twice the fraction was rounded. */
  lemma DoubledDigits(q: int, num: nat, den: nat, numDigits: nat)
    requires den > 0 && num < 10 * den
    requires if numDigits == 0 then q == (if 2 * (2 * num) > 10 * den then 1 else 0)
             else Rounds(q, 2 * num, den, numDigits)
    ensures Rounds(q, num, den, numDigits) <==> HarmlessDoubling(num, den, numDigits)
  {
    hide Pow;
    if numDigits > 0 {
      var p := Pow(10, numDigits - 1);
      MulAssoc(2, num, p);
      DoubleRounded(q, num * p, den);
    }
  }

  /** What was printed, from the fraction or from twice it, against the fraction. */
  lemma Judged(q: int, digits: bool, num: nat, den: nat, numDigits: nat, doubled: bool)
    requires den > 0 && num < 10 * den
    requires !doubled ==> digits && Rounds(q, num, den, numDigits)
    requires doubled && 2 * num < 10 * den ==> digits && Rounds(q, 2 * num, den, numDigits)
    requires doubled && numDigits == 0 ==> digits && q == if 2 * (2 * num) > 10 * den then 1 else 0
    requires doubled && numDigits > 0 && 2 * num >= 10 * den && digits ==>
               NotBelow(q, 2 * num * Pow(10, numDigits - 1), den)
    ensures digits && Rounds(q, num, den, numDigits) <==> !doubled || HarmlessDoubling(num, den, numDigits)
  {
    hide Rounds, HarmlessDoubling, Pow, NotBelow;
    if doubled {
      if numDigits == 0 || 2 * num < 10 * den {
        DoubledDigits(q, num, den, numDigits);
      } else if digits {
        FarTooLarge(q, num, den, numDigits);
      } else {
        NotHarmless(num, den, numDigits);
      }
    }
  }

  lemma NotHarmless(num: nat, den: nat, numDigits: nat)
    requires den > 0 && numDigits > 0 && 2 * num >= 10 * den
    ensures !HarmlessDoubling(num, den, numDigits)
  {
    MulMono(num, 1, Pow(10, numDigits - 1));
  }

  /** Equal fractions have the same bounds. */
  lemma SameFraction(n': nat, d': nat, n: nat, d: nat, a: nat, b: nat)
    requires d > 0 && d' > 0 && n' * d == n * d'
    ensures a * n < b * d <==> a * n' < b * d'
    ensures a * n <= b * d <==> a * n' <= b * d'
  {
    MulRotate(a, n, d');
    MulRotate(a, n', d);
    MulAssoc(a, n, d');
    MulAssoc(a, n', d);
    MulAssoc(b, d, d');
    MulAssoc(b, d', d);
    ScaledOrder(a * n, b * d, d', a * n', b * d', d);
  }

  /** Two comparisons of numbers that become the same when scaled. */
  lemma ScaledOrder(x: int, y: int, c: int, x': int, y': int, c': int)
    requires c > 0 && c' > 0 && x * c == x' * c' && y * c == y' * c'
    ensures x < y <==> x' < y'
    ensures x <= y <==> x' <= y'
  {
    if x < y { MulStrict(c, x, y); }
    if y < x { MulStrict(c, y, x); }
    if x' < y' { MulStrict(c', x', y'); }
    if y' < x' { MulStrict(c', y', x'); }
  }

  lemma NotBelowScale(q: int, n': nat, d': nat, n: nat, d: nat, p: nat)
    requires d > 0 && d' > 0 && n' * d == n * d' && NotBelow(q, n' * p, d')
    ensures NotBelow(q, n * p, d)
  {
    MulRotate(n, p, d');
    MulRotate(n', p, d);
    MulRotate(q, d, d');
    MulRotate(q, d', d);
    MulDist(d', n * p, q * d);
    MulDist(d, n' * p, q * d');
    MulAssoc(2, n * p - q * d, d');
    MulAssoc(2, n' * p - q * d', d);
    ScaledOrder(2 * (n * p - q * d), d, d', 2 * (n' * p - q * d'), d', d);
  }

  lemma NormalIsReady(num: Bigint, den: Bigint)
    requires num != den && Normal(num.bigits) && Normal(den.bigits) && Separable(num, den)
    ensures Ready(num, den)
  {}

  /**
   * Prints f * 2^e to numDigits digits, where 10^exp10 is the weight of the
   * first. The characters are the digits of f * 2^e, correctly rounded,
   * exactly when the setup did not double it, or when doubling does not show.
   */
  method FallbackFormat(f: nat, e: int, shift: nat, numDigits: nat, exp10: int)
    returns (buf: array<char>, exp: int)
    requires 0 < f < 0x20_0000_0000_0000 && (shift == 1 || shift == 2)
    requires e >= 0 ==> exp10 >= 0
    requires -0x4000_0000 < exp10 < 0x4000_0000
    requires Numerator(f, e, exp10) < 10 * Denominator(e, exp10)
    ensures fresh(buf) && buf.Length == Max(numDigits, 1)
    ensures exp10 - numDigits + 1 <= exp <= exp10 - numDigits + 2 && (numDigits == 0 ==> exp == exp10 + 1)
    ensures LooseDigits(buf[..])
    ensures var q := DecimalValue(buf[..]) * Pow(10, exp - (exp10 - numDigits + 1));
            var num, den := Numerator(f, e, exp10), Denominator(e, exp10);
            && (AllDigits(buf[..]) && Rounds(q, num, den, numDigits)
                <==> e < 0 || shift == 1 || HarmlessDoubling(num, den, numDigits))
            && (Excess(e, shift) * num < 10 * den ==>
                  && AllDigits(buf[..]) && Rounds(q, Excess(e, shift) * num, den, numDigits)
                  && (numDigits == 0 || exp == exp10 - numDigits + 1 || Carried(buf[..])))
            && (numDigits == 0 ==> AllDigits(buf[..]) && q == if 2 * (Excess(e, shift) * num) > 10 * den then 1 else 0)
            && (Excess(e, shift) * num >= 10 * den && numDigits > 0 && AllDigits(buf[..]) ==>
                  NotBelow(q, Excess(e, shift) * num * Pow(10, numDigits - 1), den))
  {
    hide Numerator, Denominator, IsHalfEven, Scaled, Rounds, MoreTwos, NotBelow, HarmlessDoubling;
    hide DecimalValue, AllDigits;
    ghost var v, n, d := Numerator(f, e, exp10), Excess(e, shift) * Numerator(f, e, exp10), Denominator(e, exp10);
    var num, den := SetUp(f, e, shift, exp10);
    ghost var n', d' := num.Value(), den.Value();
    ScaledTop(den.bigits, den.exp);
    SameFraction(n', d', n, d, 1, 20);
    SameFraction(n', d', n, d, 1, 10);
    SameFraction(n', d', n, d, 2, 10);
    if e >= 0 {
      SetUpSeparable(num, den, f, e, shift, exp10);
    }
    NormalIsReady(num, den);
    buf, exp := GenerateDigits(num, den, numDigits, exp10);
    ghost var q := DecimalValue(buf[..]) * Pow(10, exp - (exp10 - numDigits + 1));
    if n < 10 * d {
      RoundsScale(q, n', d', n, d, numDigits);
    } else if numDigits > 0 && AllDigits(buf[..]) {
      NotBelowScale(q, n', d', n, d, Pow(10, numDigits - 1));
    }
    Judged(q, AllDigits(buf[..]), v, d, numDigits, Excess(e, shift) == 2);
  }

  lemma TenToThe15()
    ensures Pow(10, 15) == 1000000000000000
  {
    assert Pow(10, 5) == 100000;
    PowAdd(10, 5, 5);
    PowAdd(10, 10, 5);
  }

  /** 2^53 with its closer predecessor is divided as 18.01... * 10^15: eighteen is no digit. */
  lemma FirstQuotientEighteen()
    ensures Numerator(0x10_0000_0000_0000, 1, 15) == 0x20_0000_0000_0000
    ensures Excess(1, 2) * Numerator(0x10_0000_0000_0000, 1, 15) / Denominator(1, 15) == 18
    ensures forall n: nat :: n > 0 ==>
              !HarmlessDoubling(Numerator(0x10_0000_0000_0000, 1, 15), Denominator(1, 15), n)
  {
    hide HarmlessDoubling;
    TenToThe15();
    assert Pow(2, 1) == 2 && Pow(10, 0) == 1 && Pow(2, 0) == 1;
    forall n: nat | n > 0
      ensures !HarmlessDoubling(Numerator(0x10_0000_0000_0000, 1, 15), Denominator(1, 15), n)
    {
      NotHarmless(Numerator(0x10_0000_0000_0000, 1, 15), Denominator(1, 15), n);
    }
  }

  /** 2^52 = 4.5... * 10^15 rounds to zero in units of 10^16; doubled it rounds to one. */
  lemma NoDigitsMisrounded()
    ensures !HarmlessDoubling(Numerator(0x10_0000_0000_0000, 0, 15), Denominator(0, 15), 0)
  {
    TenToThe15();
    assert Pow(10, 0) == 1 && Pow(2, 0) == 1;
  }
}
