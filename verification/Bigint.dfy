/** The multi-precision unsigned integer of the formatting library. */
module BigintModel {
  import opened Arith
  import opened Bigits
  import opened BigitProducts
  import opened BigitOrder
  import opened BigitDivision
  import opened BigitSquare

  class Bigint {
    var bigits: seq<U32>
    var exp: nat

    constructor ()
      ensures bigits == [] && exp == 0
    {
      bigits, exp := [], 0;
    }

    constructor FromWord(n: U64)
      ensures Value() == n && exp == 0 && Trimmed(bigits) && |bigits| <= 2
      ensures n > 0 ==> Normal(bigits)
    {
      bigits, exp := [], 0;
      new;
      AssignWord(n);
    }

    ghost function Value(): nat
      reads this
    {
      Scaled(bigits, exp)
    }

    function NumBigits(): int
      reads this
    {
      |bigits| + exp
    }

    method Assign(other: Bigint)
      modifies this
      ensures bigits == old(other.bigits) && exp == old(other.exp)
    {
      bigits := other.bigits;
      exp := other.exp;
    }

    method AssignWord(n: U64)
      modifies this
      ensures Value() == n && exp == 0 && Trimmed(bigits) && |bigits| <= 2
      ensures n > 0 ==> Normal(bigits)
    {
      var m := n;
      bigits := [m % B];
      m := m / B;
      while m != 0
        invariant 1 <= |bigits| <= 2
        invariant |bigits| == 2 ==> m == 0 && bigits[1] > 0
        invariant |bigits| == 1 ==> 0 <= m < B && (m == 0 ==> bigits[0] == n)
        invariant Val(bigits) + W(|bigits|) * m == n
        decreases m
      {
        ValSnoc(bigits, m % B);
        bigits := bigits + [m % B];
        m := m / B;
      }
      exp := 0;
    }

    /** Multiplication by a 32-bit word. */
    method Multiply32(value: U32)
      modifies `bigits
      ensures Value() == old(Value()) * value
      ensures value > 0 && old(Normal(bigits)) ==> Normal(bigits)
      ensures value > 0 && old(Trimmed(bigits)) ==> Trimmed(bigits)
      ensures |bigits| >= old(|bigits|)
    {
      ghost var s := bigits;
      var carry: U32 := 0;
      var n := |bigits|;
      for i := 0 to n
        invariant PartialProduct(s, bigits, i, value, carry)
      {
        ProductBound(bigits[i], value, B - 1, B - 1);
        var result: U64 := bigits[i] * value + carry;
        ColumnStep(s, bigits, i, value, carry, result);
        bigits := bigits[i := result % B];
        carry := result / B;
      }
      FullProduct(s, bigits, value, carry);
      if carry != 0 {
        bigits := bigits + [carry];
      }
      ScaledProduct(s, bigits, value, exp);
    }

    /** Multiplication by a 64-bit word; the carry never leaves the 64-bit range. */
    method Multiply64(value: U64)
      modifies `bigits
      ensures Value() == old(Value()) * value
      ensures value > 0 && old(Normal(bigits)) ==> Normal(bigits)
    {
      hide PartialProduct, IsProduct, Scaled, Pow;
      ghost var s := bigits;
      var lower: U32 := value % B;
      var upper: U32 := value / B;
      var carry: U64 := 0;
      var n := |bigits|;
      ProductStart(s, value);
      for i := 0 to n
        invariant |bigits| == n && PartialProduct(s, bigits, i, value, carry)
      {
        ProductBigit(s, bigits, i, value, carry);
        WideCarryFits(bigits[i], lower, upper, carry);
        var result: U64 := bigits[i] * lower + carry % B;
        var next: U64 := bigits[i] * upper + result / B + carry / B;
        WideStep(s, bigits, i, lower, upper, carry, result, next);
        bigits := bigits[i := result % B];
        carry := next;
      }
      WideProduct(s, bigits, value, carry);
      while carry != 0
        invariant IsProduct(s, bigits + WordBigits(carry), value)
        decreases carry
      {
        assert bigits + WordBigits(carry) == bigits + [carry % B] + WordBigits(carry / B);
        bigits := bigits + [carry % B];
        carry := carry / B;
      }
      assert bigits + WordBigits(0) == bigits;
      ScaledProduct(s, bigits, value, exp);
      ProductIsNormal(s, bigits, value);
    }

    /** Multiplication by a power of two. */
    method ShiftLeft(shift: nat)
      modifies this
      ensures Value() == old(Value()) * Pow(2, shift)
      ensures old(Normal(bigits)) ==> Normal(bigits)
      ensures exp == old(exp) + shift / 32
    {
      ghost var s := bigits;
      ShiftSplit(s, exp, shift);
      exp := exp + shift / 32;
      var r := shift % 32;
      if r == 0 {
        return;
      }
      var p := Pow(2, r);
      var carry: U32 := 0;
      var n := |bigits|;
      for i := 0 to n
        invariant carry < p && exp == old(exp) + shift / 32
        invariant PartialProduct(s, bigits, i, p, carry)
      {
        ghost var result := ShiftedBigit(bigits[i], r, carry);
        ColumnStep(s, bigits, i, p, carry, result);
        carry, bigits := HighBits(bigits[i], r), bigits[i := LowBits(bigits[i], r) + carry];
      }
      FullProduct(s, bigits, p, carry);
      if carry != 0 {
        bigits := bigits + [carry];
      }
      ScaledProduct(s, bigits, p, exp);
    }

    /**
     * The three-way comparison, from the top bigit down. It reports the true
     * order exactly when neither operand is the other padded with low zeros
     * and a zero operand is not shifted past the other.
     */
    static method Compare(lhs: Bigint, rhs: Bigint) returns (r: int)
      requires Trimmed(lhs.bigits) && Trimmed(rhs.bigits)
      ensures IsComparison(lhs.bigits, lhs.exp, rhs.bigits, rhs.exp, r)
    {
      hide IsComparison, SameAbove;
      ComparisonStart(lhs.bigits, rhs.bigits);
      ghost var s, t := lhs.bigits, rhs.bigits;
      var numLhs, numRhs := lhs.NumBigits(), rhs.NumBigits();
      if numLhs != numRhs {
        DifferentLengths(s, lhs.exp, t, rhs.exp);
        return if numLhs > numRhs then 1 else -1;
      }
      var i := |lhs.bigits| - 1;
      var j := |rhs.bigits| - 1;
      var end := Max(i - j, 0);
      while i >= end
        invariant i - j == |s| - |t| && end - 1 <= i < |s|
        invariant SameAbove(s, i, t, j)
      {
        var x, y := lhs.bigits[i], rhs.bigits[j];
        if x != y {
          DifferentBigits(s, lhs.exp, t, rhs.exp, i, j);
          return if x > y then 1 else -1;
        }
        SameAboveNext(s, i, t, j);
        i, j := i - 1, j - 1;
      }
      CommonPrefix(s, lhs.exp, t, rhs.exp, i, j);
      if i != j {
        return if i > j then 1 else -1;
      }
      return 0;
    }

    /**
     * Compares lhs1 + lhs2 with rhs, stopping as soon as the running borrow
     * exceeds one.
     */
    static method AddCompare(lhs1: Bigint, lhs2: Bigint, rhs: Bigint) returns (r: int)
      requires Trimmed(lhs1.bigits) && Trimmed(lhs2.bigits) && Trimmed(rhs.bigits)
      ensures IsSumComparison(lhs1.bigits, lhs1.exp, lhs2.bigits, lhs2.exp, rhs.bigits, rhs.exp, r)
    {
      hide IsSumComparison;
      ghost var s, t, u := lhs1.bigits, lhs2.bigits, rhs.bigits;
      var maxLhsBigits := Max(lhs1.NumBigits(), lhs2.NumBigits());
      var numRhsBigits := rhs.NumBigits();
      if maxLhsBigits + 1 < numRhsBigits {
        ShortSum(s, lhs1.exp, t, lhs2.exp, u, rhs.exp);
        return -1;
      }
      if maxLhsBigits > numRhsBigits {
        LongSum(s, lhs1.exp, t, lhs2.exp, u, rhs.exp);
        return 1;
      }
      NothingAbove(s, lhs1.exp, numRhsBigits);
      NothingAbove(t, lhs2.exp, numRhsBigits);
      NothingAbove(u, rhs.exp, numRhsBigits);
      var borrow: U64 := 0;
      var minExp := Min(Min(lhs1.exp, lhs2.exp), rhs.exp);
      var i := numRhsBigits - 1;
      while i >= minExp
        invariant minExp - 1 <= i
        invariant borrow <= B
        invariant borrow == B * LeadingGap(s, lhs1.exp, t, lhs2.exp, u, rhs.exp, i + 1)
      {
        var sum: U64 := GetBigit(lhs1.bigits, lhs1.exp, i) + GetBigit(lhs2.bigits, lhs2.exp, i);
        var rhsBigit := GetBigit(rhs.bigits, rhs.exp, i);
        BorrowColumn(s, lhs1.exp, t, lhs2.exp, u, rhs.exp, i);
        if sum > rhsBigit + borrow {
          return 1;
        }
        borrow := rhsBigit + borrow - sum;
        if borrow > 1 {
          return -1;
        }
        borrow := borrow * B;
        i := i - 1;
      }
      FinalGap(s, lhs1.exp, t, lhs2.exp, u, rhs.exp, minExp);
      return if borrow != 0 then -1 else 0;
    }

    method RemoveLeadingZeros()
      requires bigits != []
      modifies `bigits
      ensures Value() == old(Value())
      ensures Trimmed(bigits) && |bigits| <= old(|bigits|)
      ensures Value() > 0 ==> Normal(bigits)
    {
      ghost var s := bigits;
      ZeroValue(exp);
      var n := |bigits| - 1;
      while n > 0 && bigits[n] == 0
        invariant 0 <= n < |s| && bigits == s
        invariant s == s[..n + 1] + Zeros(|s| - n - 1)
      {
        assert s[..n + 1] == s[..n] + [0];
        n := n - 1;
      }
      ValZerosSuffix(s[..n + 1], |s| - n - 1);
      bigits := bigits[..n + 1];
      assert !Normal(bigits) ==> bigits == [0];
    }

    /** One 32-bit subtraction carried out in 64-bit arithmetic that may wrap. */
    method SubtractBigits(index: nat, other: U32, borrow: U32) returns (newBorrow: U32)
      requires index < |bigits| && borrow <= 1
      modifies `bigits
      ensures newBorrow <= 1
      ensures |bigits| == old(|bigits|) && bigits == old(bigits)[index := bigits[index]]
      ensures bigits[index] - B * newBorrow == old(bigits)[index] - other - borrow
    {
      var result: U64 := (bigits[index] - other - borrow) % (B * B);
      newBorrow := result / 0x8000_0000_0000_0000;
      bigits := bigits[index := result % B];
    }

    /**
     * Subtracts a number that does not exceed this one. The final borrow is
     * taken from one fixed bigit, so the difference is exact unless a borrow
     * meets a zero there.
     */
    method SubtractAligned(other: Bigint)
      requires other != this && other.exp >= exp
      requires bigits != [] && Normal(other.bigits)
      requires Value() >= other.Value()
      modifies `bigits
      ensures Trimmed(bigits)
      ensures Value() == old(Value()) - other.Value()
         <==> !BorrowLost(old(bigits), exp, other.bigits, other.exp)
    {
      hide Scaled, BorrowLost, PartialDifference, BorrowStep;
      ghost var s := bigits;
      ghost var t := other.bigits;
      var borrow: U32 := 0;
      var d := other.exp - exp;
      var i := d;
      var n := |other.bigits|;
      EndsWithin(s, exp, t, other.exp);
      DifferenceStart(s, d, t);
      for j := 0 to n
        invariant i == d + j && borrow <= 1 && |bigits| == |s|
        invariant PartialDifference(s, bigits, d, t, j, borrow)
      {
        ghost var u := bigits;
        ghost var b := borrow;
        borrow := SubtractBigits(i, other.bigits[j], borrow);
        DifferenceColumn(s, u, d, t, j, b, bigits[i], borrow);
        i := i + 1;
      }
      ghost var u := bigits;
      ghost var b := borrow;
      LastBorrow(s, exp, u, d, t, b);
      BorrowStart(u, i, b);
      while borrow > 0
        invariant i == d + n && borrow <= 1 && |bigits| == |s|
        invariant borrow == 1 ==> b == 1 && i < |u|
        invariant BorrowStep(u, bigits, i, b, borrow)
        decreases borrow, if i < |bigits| && bigits[i] == 0 then 1 else 0
      {
        ghost var w, c := bigits, borrow;
        borrow := SubtractBigits(i, 0, borrow);
        BorrowNext(u, w, bigits, i, b, c, borrow);
      }
      ghost var extra := RepaidTail(s, u, bigits, d, t, i, b);
      LostExactly(s, exp, d, t, b, extra);
      DifferenceValue(s, exp, u, bigits, d, t, b, extra);
      RemoveLeadingZeros();
    }

    /** Makes the exponent no larger than other's by storing low zeros. */
    method Align(other: Bigint)
      modifies this
      ensures Value() == old(Value())
      ensures exp == Min(old(exp), other.exp)
      ensures old(Normal(bigits)) ==> Normal(bigits)
    {
      hide Scaled;
      var expDifference := exp - other.exp;
      if expDifference <= 0 {
        return;
      }
      ghost var s := bigits;
      var numBigits := |bigits|;
      var data := bigits + Zeros(expDifference);
      var i, j := numBigits - 1, numBigits - 1 + expDifference;
      while i >= 0
        invariant -1 <= i < numBigits && j == i + expDifference
        invariant |data| == numBigits + expDifference
        invariant forall k :: 0 <= k <= i ==> data[k] == s[k]
        invariant forall k :: j < k < |data| ==> data[k] == s[k - expDifference]
      {
        data := data[j := data[i]];
        i, j := i - 1, j - 1;
      }
      bigits := Zeros(expDifference) + data[expDifference..];
      exp := exp - expDifference;
      assert bigits == Zeros(expDifference) + s;
      ScaledShift(s, expDifference, exp);
    }

    /**
     * Divides by repeated subtraction, leaving the remainder in this number.
     * The quotient has to fit an int. It is the true quotient unless the
     * divisor is this number padded with low zeros.
     */
    method DivModAssign(divisor: Bigint) returns (quotient: nat)
      requires divisor != this
      requires Trimmed(bigits) && Normal(divisor.bigits)
      requires IsZero(bigits) ==> exp < divisor.NumBigits()
      requires Value() < 0x8000_0000 * divisor.Value()
      modifies this
      ensures Trimmed(bigits) && exp <= old(exp)
      ensures quotient > 0 ==> exp <= divisor.exp
      ensures IsZero(bigits) ==> exp < divisor.NumBigits()
      ensures if PaddedCopy(divisor.bigits, divisor.exp, old(bigits), old(exp)) then
                quotient == 0 && Value() == old(Value()) == divisor.Value()
              else
                quotient == old(Value()) / divisor.Value() && Value() == old(Value()) % divisor.Value()
    {
      ghost var d := divisor.Value();
      ghost var v := Value();
      var c := Compare(this, divisor);
      QuotientStart(bigits, exp, divisor.bigits, divisor.exp, c);
      if c < 0 {
        return 0;
      }
      Align(divisor);
      quotient := 0;
      while c >= 0
        invariant Trimmed(bigits) && exp <= divisor.exp && exp <= old(exp)
        invariant c >= 0 <==> Value() >= d
        invariant Value() + d * quotient == v
        decreases Value()
      {
        AtLeastOnce(bigits, exp, divisor.bigits, divisor.exp, v, quotient);
        SubtractAligned(divisor);
        quotient := quotient + 1;
        c := Compare(this, divisor);
        ComparisonSplits(bigits, exp, divisor.bigits, divisor.exp, c);
      }
      DivUnique(v, d, quotient, Value());
    }

    /** Squares this number and doubles its exponent; the column sums stay below 2^128. */
    method Square()
      requires 0 < |bigits| < 0x8000_0000
      modifies this
      ensures Value() == old(Value()) * old(Value())
      ensures exp == 2 * old(exp)
      ensures Trimmed(bigits)
      ensures Value() > 0 ==> Normal(bigits)
    {
      hide Column, PartialSquare, Scaled;
      var n := bigits;
      var numBigits := |n|;
      var result: seq<U32> := Zeros(2 * numBigits);
      var sum := new Accumulator();
      SquareStart(n);
      for k := 0 to numBigits
        invariant fresh(sum) && |result| == 2 * numBigits
        invariant bigits == n && exp == old(exp)
        invariant PartialSquare(n, result, k, sum.Value())
      {
        SquareColumn(n, result, k, sum.Value());
        LowColumn(n, k, sum);
        result := result[k := sum.LowWord()];
        sum.ShiftRight32();
      }
      for k := numBigits to 2 * numBigits
        invariant fresh(sum) && |result| == 2 * numBigits
        invariant bigits == n && exp == old(exp)
        invariant PartialSquare(n, result, k, sum.Value())
      {
        SquareColumn(n, result, k, sum.Value());
        HighColumn(n, k, sum);
        result := result[k := sum.LowWord()];
        sum.ShiftRight32();
      }
      WholeSquare(n, result, sum.Value());
      SquareScaled(n, result, exp);
      bigits := result;
      exp := exp * 2;
      RemoveLeadingZeros();
    }

    /**
     * Assigns 10^n: 5^n by repeated squaring over the bits of n from the top,
     * then a shift by n bits.
     */
    method AssignPow10(n: nat)
      requires n < 0x4000_0000
      modifies this
      ensures Value() == Pow(10, n)
      ensures Normal(bigits) && exp == n / 32
    {
      if n == 0 {
        AssignWord(1);
        return;
      }
      hide Scaled, Shr;
      var bitmask := 1;
      ghost var b := 0;
      while n >= bitmask
        invariant bitmask == Pow(2, b) <= 2 * n
        invariant b > 0 ==> Pow(2, b - 1) <= n
        decreases 2 * n - bitmask
      {
        bitmask := bitmask * 2;
        b := b + 1;
      }
      bitmask := bitmask / 2;
      b := b - 1;
      TopBit(n, b);
      AssignWord(5);
      bitmask := bitmask / 2;
      while bitmask != 0
        invariant b >= 0 && bitmask == if b > 0 then Pow(2, b - 1) else 0
        invariant Normal(bigits) && exp == 0 && Value() == Pow(5, Shr(n, b))
        decreases b
      {
        NextBit(n, b);
        Pow5Bigits(bigits, Shr(n, b));
        Square();
        if n / bitmask % 2 != 0 {
          Multiply32(5);
        }
        bitmask := bitmask / 2;
        b := b - 1;
      }
      PowMul(5, 2, n);
      ShiftLeft(n);
    }
  }

  /** n without its b low bits. */
  ghost function Shr(n: nat, b: nat): nat {
    n / Pow(2, b)
  }

  lemma TopBit(n: nat, b: nat)
    requires Pow(2, b) <= n < 2 * Pow(2, b)
    ensures Pow(5, Shr(n, b)) == 5
    ensures Shr(n, 0) == n
  {
    DivUnique(n, Pow(2, b), 1, n - Pow(2, b));
    assert Pow(5, 1) == 5;
  }

  /** The next bit of the exponent turns n / 2^b into twice that plus the bit. */
  lemma NextBit(n: nat, b: nat)
    requires b > 0
    ensures Pow(5, Shr(n, b - 1))
         == if n / Pow(2, b - 1) % 2 != 0 then Pow(5, Shr(n, b)) * Pow(5, Shr(n, b)) * 5
            else Pow(5, Shr(n, b)) * Pow(5, Shr(n, b))
    ensures Shr(n, b) <= n
  {
    DivDiv(n, Pow(2, b - 1), 2);
    DivMod(n, Pow(2, b));
    MulMono(Shr(n, b), 1, Pow(2, b));
    var q := Shr(n, b);
    PowAdd(5, q, q);
  }

  /** A power of five below 5^(2^30) has fewer than 2^31 bigits. */
  lemma Pow5Bigits(s: seq<U32>, m: nat)
    requires Normal(s) && Scaled(s, 0) == Pow(5, m) && m < 0x4000_0000
    ensures |s| < 0x8000_0000
  {
    ScaledTop(s, 0);
    PowOfTwoWords(|s| - 1);
    Pow5Below(m);
    if 32 * (|s| - 1) > 3 * m {
      PowMono(2, 3 * m + 1, 32 * (|s| - 1));
    }
  }

  lemma {:induction false} Pow5Below(m: nat)
    ensures Pow(5, m) <= Pow(2, 3 * m)
  {
    if m > 0 {
      Pow5Below(m - 1);
      assert Pow(2, 3 * m) == 8 * Pow(2, 3 * (m - 1)) by {
        assert Pow(2, 3) == 8;
        PowAdd(2, 3, 3 * (m - 1));
      }
    }
  }
}
