/** Multiplying a bigit sequence in place, column by column. */
module BigitProducts {
  import opened Arith
  import opened Bigits

  /** The first i bigits of s have been multiplied in place into t, leaving a carry. */
  ghost predicate PartialProduct(s: seq<U32>, t: seq<U32>, i: nat, value: nat, carry: nat) {
    && i <= |s| == |t|
    && t[i..] == s[i..]
    && Val(t[..i]) + W(i) * carry == Val(s[..i]) * value
  }

  /** t denotes s times value, and has no leading zero unless s has one. */
  ghost predicate IsProduct(s: seq<U32>, t: seq<U32>, value: nat) {
    && Val(t) == Val(s) * value
    && (Normal(s) && value > 0 ==> Normal(t))
    && (Trimmed(s) && value > 0 ==> Trimmed(t))
  }

  /** The one or two bigits that a final carry is pushed as. */
  function WordBigits(carry: U64): seq<U32> {
    if carry == 0 then [] else [carry % B] + WordBigits(carry / B)
  }

  /** One column of a multiplication: value and carry move up by one weight. */
  lemma StepMultiply(done: nat, src: nat, w: nat, x: nat, value: nat, carry: nat, result: nat)
    requires done + w * carry == src * value
    requires result == x * value + carry
    ensures done + w * (result % B) + (w * B) * (result / B) == (src + w * x) * value
    ensures done + w * (result % B) + (B * w) * (result / B) == (src + w * x) * value
  {
    DivMod(result, B);
    MulDist(w, result % B, B * (result / B));
    MulAssoc(w, B, result / B);
    MulDist(w, x * value, carry);
    MulAssoc(w, x, value);
    MulDist(value, src, w * x);
  }

  lemma ColumnStep(s: seq<U32>, t: seq<U32>, i: nat, value: nat, carry: nat, result: nat)
    requires i < |s| && PartialProduct(s, t, i, value, carry)
    requires result == s[i] * value + carry
    ensures PartialProduct(s, t[i := result % B], i + 1, value, result / B)
  {
    var u := t[i := result % B];
    assert t[i] == t[i..][0] == s[i..][0] == s[i];
    assert u[..i] == t[..i];
    assert u[i + 1..] == t[i..][1..] == s[i + 1..];
    ValNext(u, i);
    ValNext(s, i);
    StepMultiply(Val(t[..i]), Val(s[..i]), W(i), s[i], value, carry, result);
  }

  /** Appending the final carry to a complete pass gives the product. */
  lemma FullProduct(s: seq<U32>, t: seq<U32>, value: nat, carry: U32)
    requires PartialProduct(s, t, |s|, value, carry)
    ensures IsProduct(s, if carry != 0 then t + [carry] else t, value)
  {
    assert t[..|s|] == t && s[..|s|] == s;
    ValSnoc(t, carry);
    if Normal(s) && value > 0 && carry == 0 {
      TopNonzero(s, t, value);
    }
  }

  lemma WideProduct(s: seq<U32>, t: seq<U32>, value: nat, carry: U64)
    requires PartialProduct(s, t, |s|, value, carry)
    ensures IsProduct(s, t + WordBigits(carry), value)
  {
    assert t[..|s|] == t && s[..|s|] == s;
    var c := WordBigits(carry);
    WordBigitsValue(carry);
    ValConcat(t, c);
    if Normal(s) && value > 0 {
      if carry == 0 {
        assert t + c == t;
        TopNonzero(s, t, value);
      }
    }
  }

  lemma {:induction false} WordBigitsValue(carry: U64)
    ensures Val(WordBigits(carry)) == carry
    ensures carry > 0 ==> Normal(WordBigits(carry))
  {
    if carry != 0 {
      WordBigitsValue(carry / B);
      assert WordBigits(carry)[1..] == WordBigits(carry / B);
    }
  }

  lemma ProductIsNormal(s: seq<U32>, t: seq<U32>, value: nat)
    requires IsProduct(s, t, value)
    ensures Normal(s) && value > 0 ==> Normal(t)
  {
  }

  lemma ScaledProduct(s: seq<U32>, t: seq<U32>, value: nat, exp: nat)
    requires IsProduct(s, t, value)
    ensures Scaled(t, exp) == Scaled(s, exp) * value
  {
    MulRotate(Val(s), value, W(exp));
    MulRotate(value, Val(s), W(exp));
  }

  /** A 64-bit column in two 32-bit halves loses nothing. */
  lemma WideColumn(x: U32, lower: U32, upper: U32, carry: U64)
    ensures (x * lower + carry % B) % B + B * (x * upper + (x * lower + carry % B) / B + carry / B)
         == x * (lower + B * upper) + carry
    ensures 0 <= (x * lower + carry % B) / B <= B - 1
  {
    ProductBound(x, lower, B - 1, B - 1);
    MulDist(x, lower, B * upper);
    MulRotate(x, B, upper);
  }

  lemma ProductStart(s: seq<U32>, value: nat)
    ensures PartialProduct(s, s, 0, value, 0)
  {
    assert s[..0] == [];
  }

  lemma ProductBigit(s: seq<U32>, t: seq<U32>, i: nat, value: nat, carry: nat)
    requires PartialProduct(s, t, i, value, carry)
    ensures |t| == |s| && (i < |s| ==> t[i] == s[i])
  {
    if i < |s| { assert t[i..][0] == s[i..][0]; }
  }

  /** One column of the 64-bit form, computed in two halves. */
  lemma WideStep(s: seq<U32>, t: seq<U32>, i: nat, lower: U32, upper: U32, carry: U64, result: U64, next: U64)
    requires i < |s| && PartialProduct(s, t, i, lower + B * upper, carry)
    requires result == s[i] * lower + carry % B && next == s[i] * upper + result / B + carry / B
    ensures i < |t| && PartialProduct(s, t[i := result % B], i + 1, lower + B * upper, next)
  {
    hide PartialProduct;
    ProductBigit(s, t, i, lower + B * upper, carry);
    WideColumn(s[i], lower, upper, carry);
    var column := result % B + B * next;
    DivUnique(column, B, next, result % B);
    ColumnStep(s, t, i, lower + B * upper, carry, column);
  }

  /** Result and carry of a 64-bit column fit 64 bits. */
  lemma WideCarryFits(x: U32, lower: U32, upper: U32, carry: U64)
    ensures 0 <= x * lower + carry % B < B * B
    ensures 0 <= x * upper + (x * lower + carry % B) / B + carry / B < B * B
  {
    ProductBound(x, lower, B - 1, B - 1);
    ProductBound(x, upper, B - 1, B - 1);
  }

  /** The carry of the loop stays below the factor, so for one of 64 bits it is at most 2^64 - 2. */
  lemma CarryBelowFactor(s: seq<U32>, t: seq<U32>, i: nat, value: nat, carry: nat)
    requires PartialProduct(s, t, i, value, carry) && value > 0
    ensures carry < value
  {
    ValBound(s[..i]);
    MulStrict(value, Val(s[..i]), W(i));
    if carry >= value { MulMono(W(i), value, carry); }
  }

  /** Two bigits and a factor with all bits set reach this carry. */
  lemma LargestCarry()
    ensures PartialProduct([B - 1, B - 1], [1, 0], 2, B * B - 1, B * B - 2)
  {
    var s: seq<U32>, t: seq<U32> := [B - 1, B - 1], [1, 0];
    assert s[..2] == s && t[..2] == t && s[1..] == [B - 1] && t[1..] == [0];
    assert Val([B - 1]) == B - 1 && Val([0]) == 0;
    assert Val(s) == B - 1 + B * (B - 1) && Val(t) == 1;
    assert W(2) == B * W(1) && W(1) == B * W(0);
  }

  lemma ShiftSplit(s: seq<U32>, exp: nat, shift: nat)
    ensures Scaled(s, exp) * Pow(2, shift) == Scaled(s, exp + shift / 32) * Pow(2, shift % 32)
  {
    var words, r := shift / 32, shift % 32;
    PowAdd(2, 32 * words, r);
    PowOfTwoWords(words);
    PowAdd(B, exp, words);
    MulAssoc(Val(s), W(exp), W(words));
    MulAssoc(Scaled(s, exp), W(words), Pow(2, r));
  }

  /** A product of a normal number has a nonzero top bigit when it has no room for another. */
  lemma TopNonzero(s: seq<U32>, t: seq<U32>, value: nat)
    requires Normal(s) && value > 0 && |t| >= |s|
    requires Val(t) == Val(s) * value
    requires |t| > |s| ==> Normal(t)
    ensures Normal(t)
  {
    if |t| == |s| {
      ValTop(s);
      MulMono(Val(s), 1, value);
      var n := |t| - 1;
      ValNext(t, n);
      assert t[..n + 1] == t;
      ValBound(t[..n]);
    }
  }

  lemma {:induction false} PowOfTwoWords(n: nat)
    ensures Pow(2, 32 * n) == W(n)
  {
    if n == 0 {
    } else {
      PowOfTwoWords(n - 1);
      PowAdd(2, 32, 32 * (n - 1));
      TwoToThe32();
    }
  }

  /** The bits that leave a bigit shifted left by r. */
  function HighBits(x: U32, r: nat): nat
    requires r < 32
  {
    x / Pow(2, 32 - r)
  }

  /** The bits that stay in a bigit shifted left by r. */
  function LowBits(x: U32, r: nat): U32 {
    (x * Pow(2, r)) % B
  }

  /** Shifting one bigit left splits it exactly between the new bigit and the carry. */
  lemma ShiftedBigit(x: U32, r: nat, carry: nat) returns (result: nat)
    requires 0 < r < 32 && carry < Pow(2, r)
    ensures HighBits(x, r) < Pow(2, r) < B
    ensures LowBits(x, r) + carry < B
    ensures result == x * Pow(2, r) + carry
    ensures result % B == LowBits(x, r) + carry && result / B == HighBits(x, r)
  {
    hide Pow;
    var p, q := Pow(2, r), Pow(2, 32 - r);
    PowZero(2);
    PowNext(2, 0);
    assert p * q == B by {
      PowAdd(2, r, 32 - r);
      TwoToThe32();
    }
    PowMono(2, 1, 32 - r);
    MulStrict(p, 1, q);
    SplitAtBit(x, p, q, carry);
    result := x * p + carry;
  }

  lemma SplitAtBit(x: nat, p: nat, q: nat, carry: nat)
    requires p > 0 && q > 0 && carry < p && x < p * q
    ensures x / q < p
    ensures (x * p) % (p * q) + carry < p * q
    ensures (x * p + carry) % (p * q) == (x * p) % (p * q) + carry
    ensures (x * p + carry) / (p * q) == x / q
  {
    DivMod(x, q);
    var d, m := x / q, x % q;
    if d >= p { MulMono(q, p, d); }
    MulStrict(p, m, q);
    MulMono(p, 0, m);
    assert x * p == (p * q) * d + p * m by {
      MulDist(p, q * d, m);
      MulAssoc(p, q, d);
    }
    DivUnique(x * p, p * q, d, p * m);
    DivUnique(x * p + carry, p * q, d, p * m + carry);
  }
}
