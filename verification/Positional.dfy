/** Numbers as digit sequences, most significant digit first, in any base. */
module Positional {
  import opened Arith

  /** The number that digits denote in base b. */
  ghost function ValueOf(digits: seq<nat>, b: nat): nat {
    if digits == [] then 0 else ValueOf(digits[..|digits| - 1], b) * b + digits[|digits| - 1]
  }

  /** The digit of weight b^i in v. */
  function DigitAt(v: nat, b: nat, i: nat): (d: nat)
    requires b > 0
    ensures d < b
  {
    Arith.DivMod(v / Pow(b, i), b);
    v / Pow(b, i) % b
  }

  /** The low n digits of v in base b. */
  function DigitsOf(v: nat, b: nat, n: nat): (digits: seq<nat>)
    requires b > 0
    ensures |digits| == n && InBase(digits, b)
  {
    seq(n, k requires 0 <= k < n => DigitAt(v, b, n - 1 - k))
  }

  lemma DigitAtNext(v: nat, b: nat, i: nat)
    requires b > 0
    ensures DigitAt(v, b, i + 1) == DigitAt(v / b, b, i)
  {
    DivDiv(v, b, Pow(b, i));
  }

  lemma LastDigit(v: nat, b: nat)
    requires b > 0
    ensures DigitAt(v, b, 0) == v % b
  {
    assert Pow(b, 0) == 1;
  }

  /** Dropping the last digit of v drops it from its digits. */
  lemma DigitsDropLast(v: nat, b: nat, n: nat)
    requires b > 0 && n > 0
    ensures DigitsOf(v, b, n) == DigitsOf(v / b, b, n - 1) + [v % b]
  {
    hide DigitAt;
    forall k {:trigger DigitsOf(v, b, n)[k]} | 0 <= k < n - 1
      ensures DigitsOf(v, b, n)[k] == DigitsOf(v / b, b, n - 1)[k]
    {
      DigitAtNext(v, b, n - 2 - k);
    }
    LastDigit(v, b);
  }

  lemma QuotientBelow(v: nat, b: nat, p: nat)
    requires b > 0 && v < b * p
    ensures v / b < p && v == v / b * b + v % b
  {
    Arith.DivMod(v, b);
    if v / b >= p { MulMono(b, p, v / b); }
  }

  lemma {:induction false} ValueOfDigits(v: nat, b: nat, n: nat)
    requires b > 0 && v < Pow(b, n)
    ensures ValueOf(DigitsOf(v, b, n), b) == v
    decreases n
  {
    hide Pow;
    PowZero(b);
    if n > 0 {
      hide DigitsOf;
      PowNext(b, n - 1);
      DigitsDropLast(v, b, n);
      QuotientBelow(v, b, Pow(b, n - 1));
      ValueOfDigits(v / b, b, n - 1);
      ValueSnoc(DigitsOf(v / b, b, n - 1), v % b, b);
    } else {
      assert DigitsOf(v, b, 0) == [];
    }
  }

  ghost predicate InBase(digits: seq<nat>, b: nat) {
    forall k :: 0 <= k < |digits| ==> digits[k] < b
  }

  lemma {:induction false} DigitsOfValue(digits: seq<nat>, b: nat)
    requires b > 0 && InBase(digits, b)
    ensures DigitsOf(ValueOf(digits, b), b, |digits|) == digits
    ensures ValueOf(digits, b) < Pow(b, |digits|)
  {
    if digits != [] {
      hide DigitsOf, InBase;
      var n := |digits| - 1;
      InBasePrefix(digits, b);
      DigitsOfValue(digits[..n], b);
      var v, x := ValueOf(digits[..n], b), digits[n];
      ValueSnoc(digits[..n], x, b);
      assert digits == digits[..n] + [x];
      DivUnique(v * b + x, b, v, x);
      DigitsDropLast(v * b + x, b, n + 1);
      NextBelow(v, b, x, Pow(b, n));
    } else {
      assert DigitsOf(ValueOf(digits, b), b, 0) == [];
    }
  }

  lemma InBasePrefix(digits: seq<nat>, b: nat)
    requires digits != [] && InBase(digits, b)
    ensures InBase(digits[..|digits| - 1], b) && digits[|digits| - 1] < b
  {}

  lemma NextBelow(v: nat, b: nat, x: nat, p: nat)
    requires x < b && v < p
    ensures v * b + x < b * p
  {
    MulStrict(b, v, p);
  }

  lemma ValueSnoc(digits: seq<nat>, x: nat, b: nat)
    ensures ValueOf(digits + [x], b) == ValueOf(digits, b) * b + x
  {
    assert (digits + [x])[..|digits|] == digits;
  }

  lemma {:induction false} ValueConcat(s: seq<nat>, t: seq<nat>, b: nat)
    ensures ValueOf(s + t, b) == ValueOf(s, b) * Pow(b, |t|) + ValueOf(t, b)
  {
    if t == [] {
      assert s + t == s;
    } else {
      var n := |t| - 1;
      ValueConcat(s, t[..n], b);
      assert s + t == (s + t[..n]) + [t[n]];
      ValueSnoc(s + t[..n], t[n], b);
      MulDist(b, ValueOf(s, b) * Pow(b, n), ValueOf(t[..n], b));
      MulRotate(ValueOf(s, b), Pow(b, n), b);
      MulRotate(b, ValueOf(s, b), Pow(b, n));
    }
  }
}
