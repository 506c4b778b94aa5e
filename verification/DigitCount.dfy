/** Counting decimal digits: a leading-zero table, and division by ten thousand. */
module DigitCount {
  import opened Arith

  const POWERS_OF_10: seq<U64> := [
    1, 10, 100, 1000, 10000, 100000, 1000000, 10000000, 100000000, 1000000000,
    10000000000, 100000000000, 1000000000000, 10000000000000, 100000000000000,
    1000000000000000, 10000000000000000, 100000000000000000, 1000000000000000000,
    10000000000000000000
  ]

  lemma {:induction false} PowersOf10(k: nat)
    requires k < 20
    ensures POWERS_OF_10[k] == Pow(10, k)
  {
    if k > 0 {
      PowersOf10(k - 1);
      assert POWERS_OF_10[k] == 10 * POWERS_OF_10[k - 1];
    }
  }

  /** The number of decimal digits of n, one for zero. */
  function NumDigits(n: nat): (d: nat)
    ensures d >= 1
  {
    if n < 10 then 1 else 1 + NumDigits(n / 10)
  }

  lemma {:induction false} NumDigitsBounds(n: nat)
    ensures n < Pow(10, NumDigits(n))
    ensures n > 0 ==> Pow(10, NumDigits(n) - 1) <= n
  {
    if n >= 10 {
      NumDigitsBounds(n / 10);
      assert Pow(10, NumDigits(n)) == 10 * Pow(10, NumDigits(n) - 1);
    } else {
      assert Pow(10, 1) == 10;
    }
  }

  /** The digit count is the only d with 10^(d - 1) <= n < 10^d. */
  lemma NumDigitsUnique(n: nat, d: nat)
    requires d >= 1 && n < Pow(10, d) && (d == 1 || Pow(10, d - 1) <= n)
    ensures d == NumDigits(n)
  {
    NumDigitsBounds(n);
    var c := NumDigits(n);
    if c < d { PowMono(10, c, d - 1); }
    if d < c { PowMono(10, d, c - 1); }
  }

  /** The index of the highest set bit. */
  function TopBitIndex(n: nat): nat
    requires n > 0
  {
    if n == 1 then 0 else 1 + TopBitIndex(n / 2)
  }

  lemma {:induction false} TopBitBounds(n: nat)
    requires n > 0
    ensures Pow(2, TopBitIndex(n)) <= n < 2 * Pow(2, TopBitIndex(n))
  {
    if n > 1 { TopBitBounds(n / 2); }
  }

  /** The digit count of the largest number with top bit b, as the library's table lists it. */
  function Bsr2Log10(b: nat): nat {
    if b <= 2 then 1 else if b <= 5 then 2 else if b <= 8 then 3 else if b <= 12 then 4
    else if b <= 15 then 5 else if b <= 18 then 6 else if b <= 22 then 7 else if b <= 25 then 8
    else if b <= 28 then 9 else if b <= 32 then 10 else if b <= 35 then 11 else if b <= 38 then 12
    else if b <= 42 then 13 else if b <= 45 then 14 else if b <= 48 then 15 else if b <= 52 then 16
    else if b <= 55 then 17 else if b <= 58 then 18 else if b <= 62 then 19 else 20
  }

  function ZeroOrPowerOf10(t: nat): U64
    requires t <= 20
  {
    if t <= 1 then 0 else POWERS_OF_10[t - 1]
  }

  /** Numbers p to 2p - 1, with top bit b, have Bsr2Log10(b) digits or one fewer. */
  predicate RowFits(b: nat, p: nat) {
    var t := Bsr2Log10(b);
    && t <= 20 && (t <= 1 || POWERS_OF_10[t - 2] <= p)
    && (if t == 20 then p < 0x1_0000_0000_0000_0000 else 2 * p <= POWERS_OF_10[t])
  }

  predicate RowsFit(b: nat, p: nat, n: nat)
    decreases n
  {
    n == 0 || (RowFits(b, p) && RowsFit(b + 1, 2 * p, n - 1))
  }

  lemma {:induction false} RowInRange(b: nat, p: nat, n: nat, c: nat)
    requires RowsFit(b, p, n) && b <= c < b + n && p == Pow(2, b)
    ensures RowFits(c, Pow(2, c))
    decreases n
  {
    if b < c { RowInRange(b + 1, 2 * p, n - 1, c); }
  }

  lemma {:induction false} BytePower(k: nat)
    ensures Pow(2, 8 * k + 8) == 256 * Pow(2, 8 * k)
  {
    assert Pow(2, 4) == 16;
    PowAdd(2, 4, 4);
    PowAdd(2, 8, 8 * k);
  }

  lemma BytePowers()
    ensures Pow(2, 8) == 0x100 && Pow(2, 16) == 0x1_0000 && Pow(2, 24) == 0x100_0000
    ensures Pow(2, 32) == 0x1_0000_0000 && Pow(2, 40) == 0x100_0000_0000
    ensures Pow(2, 48) == 0x1_0000_0000_0000 && Pow(2, 56) == 0x100_0000_0000_0000
    ensures Pow(2, 64) == 0x1_0000_0000_0000_0000
  {
    hide Pow;
    BytePower(0);
    BytePower(1);
    BytePower(2);
    BytePower(3);
    BytePower(4);
    BytePower(5);
    BytePower(6);
    BytePower(7);
    assert Pow(2, 0) == 1 by { PowZero(2); }
  }

  lemma RowsFit0() ensures RowsFit(0, 1, 8) {}

  lemma RowsFit8() ensures RowsFit(8, 0x100, 8) {}

  lemma RowsFit16() ensures RowsFit(16, 0x1_0000, 8) {}

  lemma RowsFit24() ensures RowsFit(24, 0x100_0000, 8) {}

  lemma RowsFit32() ensures RowsFit(32, 0x1_0000_0000, 8) {}

  lemma RowsFit40() ensures RowsFit(40, 0x100_0000_0000, 8) {}

  lemma RowsFit48() ensures RowsFit(48, 0x1_0000_0000_0000, 8) {}

  lemma RowsFit56() ensures RowsFit(56, 0x100_0000_0000_0000, 8) {}

  lemma TableFits(b: nat)
    requires b < 64
    ensures RowFits(b, Pow(2, b))
  {
    hide Pow, RowsFit, RowFits;
    PowZero(2);
    BytePowers();
    if b < 8 { RowsFit0(); RowInRange(0, 1, 8, b); }
    else if b < 16 { RowsFit8(); RowInRange(8, 0x100, 8, b); }
    else if b < 24 { RowsFit16(); RowInRange(16, 0x1_0000, 8, b); }
    else if b < 32 { RowsFit24(); RowInRange(24, 0x100_0000, 8, b); }
    else if b < 40 { RowsFit32(); RowInRange(32, 0x1_0000_0000, 8, b); }
    else if b < 48 { RowsFit40(); RowInRange(40, 0x100_0000_0000, 8, b); }
    else if b < 56 { RowsFit48(); RowInRange(48, 0x1_0000_0000_0000, 8, b); }
    else { RowsFit56(); RowInRange(56, 0x100_0000_0000_0000, 8, b); }
  }

  /** The table gives the digit count, one too many exactly when n is below the power it names. */
  lemma TableCounts(n: U64)
    ensures var b := TopBitIndex(if n % 2 == 0 then n + 1 else n);
            var t := Bsr2Log10(b);
            && b < 64 && t <= 20
            && NumDigits(n) == t - if n < ZeroOrPowerOf10(t) then 1 else 0
  {
    hide Pow, Bsr2Log10, TopBitIndex, NumDigits;
    var m := if n % 2 == 0 then n + 1 else n;
    var b := TopBitIndex(m);
    TopBitBounds(m);
    assert b < 64 by {
      BytePowers();
      if b >= 64 { PowMono(2, 64, b); }
    }
    TableFits(b);
    var t := Bsr2Log10(b);
    assert t >= 1 by { TableStarts(b); }
    if t >= 2 {
      PowersOf10(t - 2);
      PowersOf10(t - 1);
    }
    assert n < Pow(10, t) by {
      if t < 20 { PowersOf10(t); } else { PowersOf10(19); PowNext(10, 19); }
    }
    EvenPower(b);
    if t >= 2 && n < ZeroOrPowerOf10(t) {
      NumDigitsUnique(n, t - 1);
    } else {
      NumDigitsUnique(n, t);
    }
  }

  lemma TableStarts(b: nat)
    ensures Bsr2Log10(b) >= 1
  {}

  lemma EvenPower(b: nat)
    ensures b > 0 ==> Pow(2, b) % 2 == 0
    ensures Pow(2, 0) == 1
  {}

  /** count_digits for 64-bit words where the hardware counts leading zeros. */
  function CountDigits(n: U64): (d: nat)
    ensures d == NumDigits(n)
  {
    TableCounts(n);
    var t := Bsr2Log10(TopBitIndex(if n % 2 == 0 then n + 1 else n));
    if n < ZeroOrPowerOf10(t) then t - 1 else t
  }

  /** count_digits by groups of four digits, for words of any width. */
  method CountDigitsByGroups(value: nat) returns (count: nat)
    ensures count == NumDigits(value)
  {
    var n := value;
    count := 1;
    while true
      invariant count >= 1 && count - 1 + NumDigits(n) == NumDigits(value)
      decreases n
    {
      SmallCounts(n);
      if n < 10 { return count; }
      if n < 100 { return count + 1; }
      if n < 1000 { return count + 2; }
      if n < 10000 { return count + 3; }
      FourDigitsLess(n);
      n := n / 10000;
      count := count + 4;
    }
  }

  lemma SmallCounts(n: nat)
    ensures n < 10 ==> NumDigits(n) == 1
    ensures 10 <= n < 100 ==> NumDigits(n) == 2
    ensures 100 <= n < 1000 ==> NumDigits(n) == 3
    ensures 1000 <= n < 10000 ==> NumDigits(n) == 4
  {
    if n >= 100 {
      assert NumDigits(n) == 2 + NumDigits(n / 10 / 10);
    }
  }

  lemma FourDigitsLess(n: nat)
    requires n >= 10000
    ensures NumDigits(n) == 4 + NumDigits(n / 10000)
  {
    var m := n / 10;
    assert NumDigits(n) == 2 + NumDigits(m / 10);
    assert NumDigits(m / 10) == 2 + NumDigits(m / 10 / 10 / 10);
    assert m / 10 / 10 / 10 == n / 10000;
  }
}
