/** Subtracting one scaled bigit sequence from another in place. */
module BigitDivision {
  import opened Arith
  import opened Bigits
  import opened BigitOrder

  /** The subtraction borrows past the subtrahend, into a bigit that is zero. */
  ghost predicate BorrowLost(s: seq<U32>, sexp: nat, t: seq<U32>, texp: nat)
    requires sexp <= texp
  {
    var d := texp - sexp;
    && d + |t| < |s|
    && s[d + |t|] == 0
    && Val(s[d..d + |t|]) < Val(t)
  }

  /** The low j bigits of t have been subtracted from s at offset d, giving u. */
  ghost predicate PartialDifference(s: seq<U32>, u: seq<U32>, d: nat, t: seq<U32>, j: nat, borrow: nat) {
    && |u| == |s| && j <= |t| && d + |t| <= |s|
    && u[..d] == s[..d] && u[d + j..] == s[d + j..]
    && Val(u[d..d + j]) + Val(t[..j]) == Val(s[d..d + j]) + W(j) * borrow
  }

  lemma EndsWithin(s: seq<U32>, sexp: nat, t: seq<U32>, texp: nat)
    requires s != [] && Normal(t) && Scaled(s, sexp) >= Scaled(t, texp)
    ensures |t| + texp <= |s| + sexp
  {
    ScaledBound(s, sexp);
    ScaledTop(t, texp);
    if |s| + sexp <= |t| + texp - 1 {
      PowMono(B, |s| + sexp, |t| + texp - 1);
    }
  }

  lemma DifferenceStart(s: seq<U32>, d: nat, t: seq<U32>)
    requires d + |t| <= |s|
    ensures PartialDifference(s, s, d, t, 0, 0)
  {
    assert s[d..d] == [] && t[..0] == [];
  }

  lemma DifferenceColumn(s: seq<U32>, u: seq<U32>, d: nat, t: seq<U32>, j: nat, borrow: nat, x: U32, borrow': nat)
    requires j < |t| && PartialDifference(s, u, d, t, j, borrow)
    requires x - B * borrow' == u[d + j] - t[j] - borrow
    ensures PartialDifference(s, u[d + j := x], d, t, j + 1, borrow')
  {
    var v := u[d + j := x];
    assert u[d + j] == u[d + j..][0] == s[d + j];
    assert v[d + j + 1..] == u[d + j..][1..] == s[d + j + 1..];
    assert v[d..d + j + 1] == u[d..d + j] + [x];
    assert s[d..d + j + 1] == s[d..d + j] + [s[d + j]];
    ValSnoc(u[d..d + j], x);
    ValSnoc(s[d..d + j], s[d + j]);
    ValNext(t, j);
    ColumnAlgebra(Val(u[d..d + j]), Val(t[..j]), Val(s[d..d + j]), W(j), x, t[j], s[d + j], borrow, borrow');
  }

  lemma ColumnAlgebra(a: int, b: int, c: int, w: int, x: int, y: int, z: int, borrow: int, borrow': int)
    requires a + b == c + w * borrow && x - B * borrow' == z - y - borrow
    ensures (a + w * x) + (b + w * y) == (c + w * z) + (B * w) * borrow'
  {
    assert w * (x + y + borrow) == w * (z + B * borrow');
    MulDist(w, x, y);
    MulDist(w, x + y, borrow);
    MulDist(w, z, B * borrow');
    MulRotate(B, w, borrow');
    MulRotate(w, B, borrow');
  }

  /** A final borrow leaves a bigit to take it from. */
  lemma LastBorrow(s: seq<U32>, exp: nat, u: seq<U32>, d: nat, t: seq<U32>, borrow: nat)
    requires PartialDifference(s, u, d, t, |t|, borrow) && borrow <= 1
    requires Scaled(s, exp) >= Scaled(t, exp + d)
    ensures borrow == 1 <==> Val(s[d..d + |t|]) < Val(t)
    ensures borrow == 1 ==> d + |t| < |s|
  {
    assert t[..|t|] == t;
    ValBound(u[d..d + |t|]);
    MulBit(W(|t|), borrow);
    if borrow == 1 && d + |t| == |s| {
      assert s[d..] == s[d..d + |t|];
      WindowIsLess(s, exp, d, t);
    }
  }

  /** A window smaller than t makes the number smaller than t at that offset. */
  lemma WindowIsLess(s: seq<U32>, exp: nat, d: nat, t: seq<U32>)
    requires d <= |s| && Val(s[d..]) < Val(t)
    ensures Scaled(s, exp) < Scaled(t, exp + d)
  {
    ScaledSplit(s, d, exp);
    ScaledBound(s[..d], exp);
    MulStrict(W(exp + d), Val(s[d..]), Val(t));
  }

  /** What the loop that repays the borrow from bigit i alone has done so far. */
  ghost predicate BorrowStep(u: seq<U32>, v: seq<U32>, i: nat, start: nat, borrow: nat) {
    if start == borrow then v == u || (i < |u| && start == 1 && u[i] == 0 && v == u[i := B - 1])
    else start == 1 && borrow == 0 && i < |u| && v == u[i := if u[i] > 0 then u[i] - 1 else B - 2]
  }

  lemma BorrowStart(u: seq<U32>, i: nat, borrow: nat)
    ensures BorrowStep(u, u, i, borrow, borrow)
  {}

  lemma BorrowNext(u: seq<U32>, v: seq<U32>, v': seq<U32>, i: nat, start: nat, borrow: nat, borrow': nat)
    requires BorrowStep(u, v, i, start, borrow) && borrow == 1 && start == 1 && borrow' <= 1
    requires i < |u| == |v| == |v'| && v' == v[i := v'[i]] && v'[i] - B * borrow' == v[i] - borrow
    ensures BorrowStep(u, v', i, start, borrow')
    ensures borrow' == 1 ==> v[i] == 0 && v'[i] != 0
  {}

  /** Above the window the borrow has been repaid, or B - 1 too much is left. */
  lemma RepaidTail(s: seq<U32>, u: seq<U32>, v: seq<U32>, d: nat, t: seq<U32>, i: nat, borrow: nat)
    returns (extra: nat)
    requires PartialDifference(s, u, d, t, |t|, borrow) && i == d + |t|
    requires borrow <= 1 && (borrow == 1 ==> i < |s|)
    requires BorrowStep(u, v, i, borrow, 0)
    ensures |v| == |s| && v[..i] == u[..i]
    ensures Val(v[i..]) + borrow == Val(s[i..]) + extra
    ensures extra > 0 <==> borrow == 1 && s[i] == 0
  {
    extra := 0;
    if borrow == 1 {
      assert u[i] == u[i..][0] == s[i..][0] == s[i];
      assert v[i..][1..] == u[i..][1..] == s[i..][1..];
      extra := if s[i] == 0 then B - 1 else 0;
    }
  }

  /** The difference is exact, or too large by what the lost borrow left behind. */
  lemma DifferenceValue(s: seq<U32>, exp: nat, u: seq<U32>, v: seq<U32>, d: nat, t: seq<U32>, borrow: nat, extra: nat)
    requires PartialDifference(s, u, d, t, |t|, borrow)
    requires |v| == |s| && v[..d + |t|] == u[..d + |t|]
    requires Val(v[d + |t|..]) + borrow == Val(s[d + |t|..]) + extra
    ensures Scaled(v, exp) == Scaled(s, exp) - Scaled(t, exp + d) <==> extra == 0
  {
    var n := |t|;
    assert t[..n] == t;
    assert v[d..d + n] == v[..d + n][d..] == u[d..d + n];
    assert v[..d] == v[..d + n][..d] == s[..d];
    SplitAt(s, d, n);
    SplitAt(v, d, n);
    ScaledSplit(s, d, exp);
    ScaledSplit(v, d, exp);
    DifferenceAlgebra(W(exp + d), W(n), Val(v[d..]), Val(s[d..]), Val(t), Val(v[d..d + n]), Val(s[d..d + n]),
                      Val(v[d + n..]), Val(s[d + n..]), borrow, extra);
  }

  lemma LostExactly(s: seq<U32>, exp: nat, d: nat, t: seq<U32>, borrow: nat, extra: nat)
    requires d + |t| <= |s| && borrow <= 1 && (borrow == 1 ==> d + |t| < |s|)
    requires borrow == 1 <==> Val(s[d..d + |t|]) < Val(t)
    requires extra > 0 <==> borrow == 1 && s[d + |t|] == 0
    ensures extra > 0 <==> BorrowLost(s, exp, t, exp + d)
  {}

  lemma DifferenceAlgebra(w: nat, w': nat, x: int, y: int, z: int, a: int, b: int, x': int, y': int,
                          borrow: int, extra: nat)
    requires w > 0 && w' > 0
    requires x == a + w' * x' && y == b + w' * y'
    requires a + z == b + w' * borrow && x' + borrow == y' + extra
    ensures x * w == y * w - z * w <==> extra == 0
  {
    MulDist(w', x', borrow);
    MulDist(w', y', extra);
    MulDist(w, x, z);
    MulDist(w, y, w' * extra);
    MulCancel(w, 0, w' * extra);
    MulCancel(w', 0, extra);
  }

  lemma SplitAt(s: seq<U32>, d: nat, n: nat)
    requires d + n <= |s|
    ensures Val(s[d..]) == Val(s[d..d + n]) + W(n) * Val(s[d + n..])
  {
    ValSplit(s[d..], n);
    assert s[d..][..n] == s[d..d + n] && s[d..][n..] == s[d + n..];
  }

  /** A quotient below 2^32 leaves at most one bigit above the divisor, so no borrow is lost. */
  lemma SmallQuotientKeepsBorrow(s: seq<U32>, sexp: nat, t: seq<U32>, texp: nat)
    requires Normal(s) && sexp <= texp && Scaled(s, sexp) < B * Scaled(t, texp)
    ensures !BorrowLost(s, sexp, t, texp)
  {
    ScaledTop(s, sexp);
    ScaledBound(t, texp);
    if |s| + sexp - 1 >= |t| + texp + 1 {
      PowMono(B, |t| + texp + 1, |s| + sexp - 1);
    }
  }

  /** 2^64 - 1 is a difference whose borrow meets a zero bigit. */
  lemma BorrowCanBeLost()
    ensures BorrowLost([0, 0, 1], 0, [1], 0)
    ensures Scaled([0, 0, 1], 0) > Scaled([1], 0)
  {
    assert [0, 0, 1][0..1] == [0];
    assert Val([0]) == 0 && Val([1]) == 1;
    ScaledTop([0, 0, 1], 0);
    assert W(2) == B * W(1) && W(1) == B * W(0);
  }

  /** What the first comparison of a division settles. */
  lemma QuotientStart(s: seq<U32>, sexp: nat, t: seq<U32>, texp: nat, r: int)
    requires Trimmed(s) && Normal(t) && IsComparison(s, sexp, t, texp, r)
    requires IsZero(s) ==> sexp < |t| + texp
    ensures Scaled(t, texp) > 0
    ensures PaddedCopy(t, texp, s, sexp) ==> r < 0 && Scaled(s, sexp) == Scaled(t, texp)
    ensures !PaddedCopy(t, texp, s, sexp) ==> (r >= 0 <==> Scaled(s, sexp) >= Scaled(t, texp))
    ensures r >= 0 ==> Normal(s)
    ensures Scaled(s, sexp) < Scaled(t, texp) ==>
              Scaled(s, sexp) / Scaled(t, texp) == 0 && Scaled(s, sexp) % Scaled(t, texp) == Scaled(s, sexp)
  {
    ScaledTop(t, texp);
    ZeroValue(sexp);
    if PaddedCopy(t, texp, s, sexp) {
      assert t[|t| - |s|..] == s;
      LongerIsGreater(t, texp, s, sexp);
    } else {
      ComparisonSplits(s, sexp, t, texp, r);
    }
    if Scaled(s, sexp) < Scaled(t, texp) {
      DivUnique(Scaled(s, sexp), Scaled(t, texp), 0, Scaled(s, sexp));
    }
  }

  /** One more subtraction is possible and exact. */
  lemma AtLeastOnce(s: seq<U32>, sexp: nat, t: seq<U32>, texp: nat, v: nat, quotient: nat)
    requires Trimmed(s) && Normal(t) && sexp <= texp
    requires Scaled(s, sexp) >= Scaled(t, texp)
    requires Scaled(s, sexp) + Scaled(t, texp) * quotient == v < 0x8000_0000 * Scaled(t, texp)
    ensures Scaled(t, texp) > 0 && !BorrowLost(s, sexp, t, texp)
    ensures Scaled(s, sexp) - Scaled(t, texp) + Scaled(t, texp) * (quotient + 1) == v
  {
    ScaledTop(t, texp);
    ZeroValue(sexp);
    assert !Normal(s) ==> s == [0];
    MulMono(Scaled(t, texp), 0, quotient);
    MulDist(Scaled(t, texp), quotient, 1);
    SmallQuotientKeepsBorrow(s, sexp, t, texp);
  }
}
