/** Little-endian sequences of 32-bit bigits and the numbers they denote. */
module Bigits {
  import opened Arith

  /** The number a bigit sequence denotes, least significant bigit first. */
  ghost function Val(s: seq<U32>): nat {
    if s == [] then 0 else s[0] + B * Val(s[1..])
  }

  predicate Normal(s: seq<U32>) {
    s != [] && s[|s| - 1] != 0
  }

  /** What every operation leaves behind: no leading zero except in the number zero. */
  predicate Trimmed(s: seq<U32>) {
    s != [] && (s[|s| - 1] != 0 || |s| == 1)
  }

  /** The weight of the bigit at position n. */
  ghost function W(n: nat): (r: nat)
    ensures r > 0
  {
    Pow(B, n)
  }

  function Zeros(n: nat): (s: seq<U32>)
    ensures |s| == n && forall k :: 0 <= k < n ==> s[k] == 0
  {
    seq(n, _ => 0)
  }

  lemma {:induction false} ValConcat(s: seq<U32>, t: seq<U32>)
    ensures Val(s + t) == Val(s) + W(|s|) * Val(t)
  {
    if s == [] {
      assert s + t == t;
    } else {
      ValConcat(s[1..], t);
      assert (s + t)[1..] == s[1..] + t;
      MulAssoc(B, W(|s| - 1), Val(t));
    }
  }

  lemma ValSnoc(s: seq<U32>, x: U32)
    ensures Val(s + [x]) == Val(s) + W(|s|) * x
  {
    ValConcat(s, [x]);
    assert Val([x]) == x;
  }

  /** Taking one more bigit of s adds that bigit times its weight. */
  lemma ValNext(s: seq<U32>, i: nat)
    requires i < |s|
    ensures Val(s[..i + 1]) == Val(s[..i]) + W(i) * s[i]
  {
    assert s[..i + 1] == s[..i] + [s[i]];
    ValSnoc(s[..i], s[i]);
  }

  lemma ValSplit(s: seq<U32>, i: nat)
    requires i <= |s|
    ensures Val(s) == Val(s[..i]) + W(i) * Val(s[i..])
  {
    assert s == s[..i] + s[i..];
    ValConcat(s[..i], s[i..]);
  }

  lemma {:induction false} ValBound(s: seq<U32>)
    ensures Val(s) < W(|s|)
  {
    if s == [] {
    } else {
      ValBound(s[1..]);
      MulMono(B, Val(s[1..]) + 1, W(|s| - 1));
    }
  }

  lemma {:induction false} ValZero(s: seq<U32>)
    ensures Val(s) == 0 <==> s == Zeros(|s|)
  {
    if s == [] {
    } else {
      ValZero(s[1..]);
      if s == Zeros(|s|) { assert s[1..] == Zeros(|s| - 1); }
      if Val(s) == 0 { assert s == [0] + Zeros(|s| - 1); }
    }
  }

  lemma LowBigit(s: seq<U32>)
    requires s != []
    ensures Val(s) % B == s[0]
  {
    DivUnique(Val(s), B, Val(s[1..]), s[0]);
  }

  lemma ValTop(s: seq<U32>)
    requires s != [] && s[|s| - 1] != 0
    ensures Val(s) >= W(|s| - 1)
  {
    var n := |s| - 1;
    ValNext(s, n);
    assert s[..n + 1] == s;
    MulMono(W(n), 1, s[n]);
  }

  lemma ValZerosPrefix(k: nat, t: seq<U32>)
    ensures Val(Zeros(k) + t) == W(k) * Val(t)
  {
    ValConcat(Zeros(k), t);
    ValZero(Zeros(k));
  }

  lemma ValZerosSuffix(s: seq<U32>, k: nat)
    ensures Val(s + Zeros(k)) == Val(s)
  {
    ValConcat(s, Zeros(k));
    ValZero(Zeros(k));
  }

  /** The number denoted by bigits s scaled by 2^(32 * exp). */
  ghost function Scaled(s: seq<U32>, exp: nat): nat {
    Val(s) * W(exp)
  }

  lemma ScaledShift(s: seq<U32>, k: nat, exp: nat)
    ensures Scaled(Zeros(k) + s, exp) == Scaled(s, exp + k)
  {
    ValZerosPrefix(k, s);
    PowAdd(B, exp, k);
    MulRotate(W(k), Val(s), W(exp));
  }

  lemma ScaledSingle(x: U32, exp: nat)
    ensures Scaled([x], exp) == W(exp) * x
  {
    assert Val([x]) == x;
  }

  lemma WeightNext(n: nat)
    ensures W(n + 1) == B * W(n)
  {}

  lemma ScaledCancel(s: seq<U32>, exp: nat, v: nat)
    requires Scaled(s, exp) == W(exp) * v
    ensures Val(s) == v
  {
    MulCancel(W(exp), Val(s), v);
  }

  lemma ScaledBound(s: seq<U32>, exp: nat)
    ensures Scaled(s, exp) < W(|s| + exp)
  {
    ValBound(s);
    MulStrict(W(exp), Val(s), W(|s|));
    PowAdd(B, |s|, exp);
  }

  lemma ScaledTop(s: seq<U32>, exp: nat)
    requires s != [] && s[|s| - 1] != 0
    ensures Scaled(s, exp) >= W(|s| + exp - 1) > 0
  {
    ValTop(s);
    MulMono(W(exp), W(|s| - 1), Val(s));
    PowAdd(B, |s| - 1, exp);
  }

  /** Splitting off the i low bigits of a scaled number. */
  lemma ScaledSplit(s: seq<U32>, i: nat, exp: nat)
    requires i <= |s|
    ensures Scaled(s, exp) == Scaled(s[..i], exp) + Scaled(s[i..], exp + i)
  {
    ValSplit(s, i);
    PowAdd(B, exp, i);
    MulDist(W(exp), Val(s[..i]), W(i) * Val(s[i..]));
    MulRotate(W(i), Val(s[i..]), W(exp));
  }

  /** The bigit of weight W(i) in the scaled number, zero outside the stored range. */
  function GetBigit(s: seq<U32>, exp: nat, i: int): U32 {
    if exp <= i < |s| + exp then s[i - exp] else 0
  }

  /** The bigit at position i is digit i in base 2^32 of the number. */
  lemma GetBigitIsDigit(s: seq<U32>, exp: nat, i: nat)
    ensures Scaled(s, exp) / W(i) == B * (Scaled(s, exp) / W(i + 1)) + GetBigit(s, exp, i)
  {
    hide Scaled, W, Pow;
    if i < exp {
      QuotientBelow(s, exp, i);
      QuotientBelow(s, exp, i + 1);
      WeightStep(Val(s), exp - i - 1);
    } else if i < |s| + exp {
      QuotientAt(s, exp, i - exp);
      QuotientAt(s, exp, i + 1 - exp);
      var t := s[i - exp..];
      assert t[1..] == s[i + 1 - exp..];
    } else {
      NothingAbove(s, exp, i);
      NothingAbove(s, exp, i + 1);
    }
  }

  lemma WeightStep(v: nat, n: nat)
    ensures v * W(n + 1) == B * (v * W(n))
  {
    MulRotate(B, v, W(n));
    MulRotate(v, B, W(n));
  }

  lemma NothingAbove(s: seq<U32>, exp: nat, i: nat)
    requires |s| + exp <= i
    ensures Scaled(s, exp) / W(i) == 0
  {
    ScaledBound(s, exp);
    PowMono(B, |s| + exp, i);
    DivUnique(Scaled(s, exp), W(i), 0, Scaled(s, exp));
  }

  lemma QuotientBelow(s: seq<U32>, exp: nat, i: nat)
    requires i <= exp
    ensures Scaled(s, exp) / W(i) == Val(s) * W(exp - i)
  {
    PowAdd(B, i, exp - i);
    MulRotate(W(i), Val(s), W(exp - i));
    MulRotate(Val(s), W(i), W(exp - i));
    DivUnique(Scaled(s, exp), W(i), Val(s) * W(exp - i), 0);
  }

  lemma QuotientAt(s: seq<U32>, exp: nat, j: nat)
    requires j <= |s|
    ensures Scaled(s, exp) / W(j + exp) == Val(s[j..])
  {
    ScaledSplit(s, j, exp);
    ScaledBound(s[..j], exp);
    DivUnique(Scaled(s, exp), W(j + exp), Val(s[j..]), Scaled(s[..j], exp));
  }
}
