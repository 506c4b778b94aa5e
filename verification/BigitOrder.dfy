/** Comparing scaled bigit sequences from their most significant ends. */
module BigitOrder {
  import opened Arith
  import opened Bigits

  predicate IsZero(s: seq<U32>) {
    s == [0]
  }

  /** s is t with explicit low zero bigits where t has a larger exponent. */
  predicate PaddedCopy(s: seq<U32>, sexp: nat, t: seq<U32>, texp: nat) {
    |s| > |t| && |s| + sexp == |t| + texp && s == Zeros(|s| - |t|) + t
  }

  /** When the comparison of trimmed numbers reports their true order. */
  predicate ComparesExactly(s: seq<U32>, sexp: nat, t: seq<U32>, texp: nat) {
    if IsZero(s) && IsZero(t) then sexp == texp
    else if IsZero(s) then sexp < |t| + texp
    else if IsZero(t) then texp < |s| + sexp
    else !PaddedCopy(s, sexp, t, texp) && !PaddedCopy(t, texp, s, sexp)
  }

  /**
   * What comparing trimmed numbers yields: the true order exactly when
   * ComparesExactly holds, and the padded operand as the larger otherwise.
   */
  ghost predicate IsComparison(s: seq<U32>, sexp: nat, t: seq<U32>, texp: nat, r: int) {
    && (r == Sign(Scaled(s, sexp) - Scaled(t, texp)) <==> ComparesExactly(s, sexp, t, texp))
    && -1 <= r <= 1
    && (PaddedCopy(s, sexp, t, texp) ==> r == 1)
    && (PaddedCopy(t, texp, s, sexp) ==> r == -1)
  }

  lemma ZeroValue(exp: nat)
    ensures Scaled([0], exp) == 0
  {
    assert Val([0]) == 0;
  }

  lemma ShorterIsLess(s: seq<U32>, sexp: nat, t: seq<U32>, texp: nat)
    requires |s| + sexp < |t| + texp && Normal(t)
    ensures Scaled(s, sexp) < Scaled(t, texp)
  {
    ScaledBound(s, sexp);
    ScaledTop(t, texp);
    PowMono(B, |s| + sexp, |t| + texp - 1);
  }

  /** A larger bigit below equal leading bigits decides the order. */
  lemma FirstDifference(s: seq<U32>, sexp: nat, t: seq<U32>, texp: nat, i: nat, j: nat)
    requires i < |s| && j < |t| && i + sexp == j + texp
    requires s[i + 1..] == t[j + 1..] && s[i] < t[j]
    ensures Scaled(s, sexp) < Scaled(t, texp)
  {
    var w := W(i + sexp);
    ScaledSplit(s, i + 1, sexp);
    ScaledSplit(t, j + 1, texp);
    LeadingBigit(s, sexp, i);
    LeadingBigit(t, texp, j);
    MulStrict(w, s[i], t[j]);
  }

  lemma LeadingBigit(s: seq<U32>, exp: nat, i: nat)
    requires i < |s|
    ensures W(i + exp) * s[i] <= Scaled(s[..i + 1], exp) < W(i + exp) * s[i] + W(i + exp)
  {
    hide Scaled, Val, Pow;
    ScaledSplit(s[..i + 1], i, exp);
    assert s[..i + 1][..i] == s[..i] && s[..i + 1][i..] == [s[i]];
    ScaledSingle(s[i], i + exp);
    ScaledBound(s[..i], exp);
  }

  /** Equal leading bigits, and s stored further down: s is at least t, equal only as a padded copy. */
  lemma LongerIsGreater(s: seq<U32>, sexp: nat, t: seq<U32>, texp: nat)
    requires |s| > |t| && |s| + sexp == |t| + texp
    requires s[|s| - |t|..] == t
    ensures Scaled(s, sexp) >= Scaled(t, texp)
    ensures Scaled(s, sexp) == Scaled(t, texp) <==> PaddedCopy(s, sexp, t, texp)
  {
    var k := |s| - |t|;
    ScaledSplit(s, k, sexp);
    ValZero(s[..k]);
    assert s == s[..k] + t;
    MulCancel(W(sexp), 0, Val(s[..k]));
    if s[..k] != Zeros(k) {
      assert (Zeros(k) + t)[..k] == Zeros(k);
    }
  }

  /** s above position i is t above position j. */
  ghost predicate SameAbove(s: seq<U32>, i: int, t: seq<U32>, j: int) {
    -1 <= i < |s| && -1 <= j < |t| && s[i + 1..] == t[j + 1..]
  }

  lemma ComparisonStart(s: seq<U32>, t: seq<U32>)
    requires s != [] && t != []
    ensures SameAbove(s, |s| - 1, t, |t| - 1)
  {}

  lemma SameAboveNext(s: seq<U32>, i: int, t: seq<U32>, j: int)
    requires i >= 0 && j >= 0 && SameAbove(s, i, t, j) && s[i] == t[j]
    ensures SameAbove(s, i - 1, t, j - 1)
  {
    assert s[i..] == [s[i]] + s[i + 1..] && t[j..] == [t[j]] + t[j + 1..];
  }

  /** Summary of the comparison when the operands reach different positions. */
  lemma DifferentLengths(s: seq<U32>, sexp: nat, t: seq<U32>, texp: nat)
    requires Trimmed(s) && Trimmed(t) && |s| + sexp != |t| + texp
    ensures IsComparison(s, sexp, t, texp, if |s| + sexp > |t| + texp then 1 else -1)
  {
    ZeroValue(sexp);
    ZeroValue(texp);
    if !IsZero(s) { ScaledTop(s, sexp); }
    if !IsZero(t) { ScaledTop(t, texp); }
    if !IsZero(t) && |s| + sexp < |t| + texp { ShorterIsLess(s, sexp, t, texp); }
    if !IsZero(s) && |s| + sexp > |t| + texp { ShorterIsLess(t, texp, s, sexp); }
  }

  /** Summary of the comparison at the first bigits that differ. */
  lemma DifferentBigits(s: seq<U32>, sexp: nat, t: seq<U32>, texp: nat, i: nat, j: nat)
    requires Trimmed(s) && Trimmed(t) && |s| + sexp == |t| + texp
    requires i < |s| && j < |t| && i + sexp == j + texp
    requires SameAbove(s, i, t, j) && s[i] != t[j]
    ensures IsComparison(s, sexp, t, texp, if s[i] > t[j] then 1 else -1)
  {
    if s[i] < t[j] {
      FirstDifference(s, sexp, t, texp, i, j);
    } else {
      FirstDifference(t, texp, s, sexp, j, i);
    }
  }

  /** Summary of the comparison when the leading bigits agree over the shorter operand. */
  lemma CommonPrefix(s: seq<U32>, sexp: nat, t: seq<U32>, texp: nat, i: int, j: int)
    requires Trimmed(s) && Trimmed(t) && |s| + sexp == |t| + texp
    requires SameAbove(s, i, t, j) && i - j == |s| - |t| && (i == -1 || j == -1)
    ensures IsComparison(s, sexp, t, texp, Sign(|s| - |t|))
  {
    if |s| > |t| {
      LongerPrefix(s, sexp, t, texp, i);
    } else if |t| > |s| {
      ShorterPrefix(s, sexp, t, texp, j);
    } else {
      assert s[0..] == s && t[0..] == t;
    }
  }

  lemma LongerPrefix(s: seq<U32>, sexp: nat, t: seq<U32>, texp: nat, i: int)
    requires Trimmed(s) && Trimmed(t) && |s| + sexp == |t| + texp
    requires SameAbove(s, i, t, -1) && i + 1 == |s| - |t| > 0
    ensures IsComparison(s, sexp, t, texp, 1)
  {
    hide Scaled;
    assert t[0..] == t;
    LongerIsGreater(s, sexp, t, texp);
    assert s[|s| - 1] == t[|t| - 1];
    if IsZero(t) { ZeroValue(texp); }
  }

  lemma ShorterPrefix(s: seq<U32>, sexp: nat, t: seq<U32>, texp: nat, j: int)
    requires Trimmed(s) && Trimmed(t) && |s| + sexp == |t| + texp
    requires SameAbove(s, -1, t, j) && j + 1 == |t| - |s| > 0
    ensures IsComparison(s, sexp, t, texp, -1)
  {
    hide Scaled;
    assert s[0..] == s;
    LongerIsGreater(t, texp, s, sexp);
    assert s[|s| - 1] == t[|t| - 1];
    if IsZero(s) { ZeroValue(sexp); }
  }

  /** A zero operand stored past position n, which hides the true order. */
  predicate Phantom(s: seq<U32>, exp: nat, n: int) {
    IsZero(s) && |s| + exp > n
  }

  /** Leading parts that differ by enough settle the order of a sum and a number. */
  lemma LeadingParts(x: nat, y: nat, z: nat, w: nat)
    requires w > 0
    ensures z / w < x / w + y / w ==> z < x + y
    ensures z / w >= x / w + y / w + 2 ==> z > x + y
  {
    DivMod(x, w);
    DivMod(y, w);
    DivMod(z, w);
    MulDist(w, x / w, y / w);
    if z / w < x / w + y / w {
      MulStrict(w, z / w, x / w + y / w);
    }
    if z / w >= x / w + y / w + 2 {
      MulMono(w, x / w + y / w + 2, z / w);
      MulDist(w, x / w + y / w, 2);
    }
  }

  /** rhs minus both left operands, all cut off below position i. */
  ghost function LeadingGap(s: seq<U32>, sexp: nat, t: seq<U32>, texp: nat, u: seq<U32>, uexp: nat, i: nat): int {
    Scaled(u, uexp) / W(i) - Scaled(s, sexp) / W(i) - Scaled(t, texp) / W(i)
  }

  /** Below every stored bigit the leading parts are the whole numbers. */
  lemma WholeParts(x: nat, y: nat, z: nat, w: nat)
    requires w > 0 && x % w == 0 && y % w == 0 && z % w == 0
    requires z / w >= x / w + y / w
    ensures z >= x + y
    ensures z == x + y <==> z / w == x / w + y / w
  {
    DivMod(x, w);
    DivMod(y, w);
    DivMod(z, w);
    MulDist(w, x / w, y / w);
    MulCancel(w, x / w + y / w, z / w);
  }

  lemma ScaledMultiple(s: seq<U32>, exp: nat, i: nat)
    requires i <= exp
    ensures Scaled(s, exp) % W(i) == 0
  {
    QuotientBelow(s, exp, i);
    PowAdd(B, i, exp - i);
    MulRotate(Val(s), W(i), W(exp - i));
    MulRotate(W(i), Val(s), W(exp - i));
    DivUnique(Scaled(s, exp), W(i), Val(s) * W(exp - i), 0);
  }

  /**
   * What comparing a sum with a number yields: the true order, except for the
   * fixed answers given when a zero operand is stored past the others.
   */
  ghost predicate IsSumComparison(s: seq<U32>, sexp: nat, t: seq<U32>, texp: nat, u: seq<U32>, uexp: nat, r: int) {
    var n, m := Max(|s| + sexp, |t| + texp), |u| + uexp;
    var exact := r == Sign(Scaled(s, sexp) + Scaled(t, texp) - Scaled(u, uexp));
    if n + 1 < m then
      r == -1 && (exact <==> !IsZero(u))
    else if n > m && (|s| + sexp <= m || Phantom(s, sexp, m)) && (|t| + texp <= m || Phantom(t, texp, m)) then
      r == 1
    else
      exact
  }

  /** One column of the running borrow, and when it settles the comparison. */
  lemma BorrowColumn(s: seq<U32>, sexp: nat, t: seq<U32>, texp: nat, u: seq<U32>, uexp: nat, i: nat)
    requires Max(|s| + sexp, |t| + texp) <= |u| + uexp <= Max(|s| + sexp, |t| + texp) + 1
    ensures var gap := LeadingGap(s, sexp, t, texp, u, uexp, i);
            && gap == B * LeadingGap(s, sexp, t, texp, u, uexp, i + 1)
                      + GetBigit(u, uexp, i) - GetBigit(s, sexp, i) - GetBigit(t, texp, i)
            && (gap < 0 ==> IsSumComparison(s, sexp, t, texp, u, uexp, 1))
            && (gap > 1 ==> IsSumComparison(s, sexp, t, texp, u, uexp, -1))
  {
    GetBigitIsDigit(s, sexp, i);
    GetBigitIsDigit(t, texp, i);
    GetBigitIsDigit(u, uexp, i);
    LeadingParts(Scaled(s, sexp), Scaled(t, texp), Scaled(u, uexp), W(i));
  }

  /** The gap below every stored bigit is the difference of the whole numbers. */
  lemma FinalGap(s: seq<U32>, sexp: nat, t: seq<U32>, texp: nat, u: seq<U32>, uexp: nat, i: nat)
    requires Max(|s| + sexp, |t| + texp) <= |u| + uexp <= Max(|s| + sexp, |t| + texp) + 1
    requires i <= sexp && i <= texp && i <= uexp
    requires LeadingGap(s, sexp, t, texp, u, uexp, i) >= 0
    ensures IsSumComparison(s, sexp, t, texp, u, uexp, if LeadingGap(s, sexp, t, texp, u, uexp, i) == 0 then 0 else -1)
  {
    ScaledMultiple(s, sexp, i);
    ScaledMultiple(t, texp, i);
    ScaledMultiple(u, uexp, i);
    WholeParts(Scaled(s, sexp), Scaled(t, texp), Scaled(u, uexp), W(i));
  }

  lemma ShortSum(s: seq<U32>, sexp: nat, t: seq<U32>, texp: nat, u: seq<U32>, uexp: nat)
    requires Trimmed(u) && Max(|s| + sexp, |t| + texp) + 1 < |u| + uexp
    ensures IsSumComparison(s, sexp, t, texp, u, uexp, -1)
  {
    if IsZero(u) {
      ZeroValue(uexp);
    } else {
      SumIsLess(s, sexp, t, texp, u, uexp);
    }
  }

  lemma LongSum(s: seq<U32>, sexp: nat, t: seq<U32>, texp: nat, u: seq<U32>, uexp: nat)
    requires Trimmed(s) && Trimmed(t) && Max(|s| + sexp, |t| + texp) > |u| + uexp
    ensures IsSumComparison(s, sexp, t, texp, u, uexp, 1)
  {
    var m := |u| + uexp;
    if |s| + sexp > m && !IsZero(s) {
      ShorterIsLess(u, uexp, s, sexp);
    }
    if |t| + texp > m && !IsZero(t) {
      ShorterIsLess(u, uexp, t, texp);
    }
  }

  /** A sum is below a number that reaches two positions further. */
  lemma SumIsLess(s: seq<U32>, sexp: nat, t: seq<U32>, texp: nat, u: seq<U32>, uexp: nat)
    requires Normal(u) && Max(|s| + sexp, |t| + texp) + 1 < |u| + uexp
    ensures Scaled(s, sexp) + Scaled(t, texp) < Scaled(u, uexp)
  {
    var n := Max(|s| + sexp, |t| + texp);
    ScaledBound(s, sexp);
    ScaledBound(t, texp);
    PowMono(B, |s| + sexp, n);
    PowMono(B, |t| + texp, n);
    assert 2 * W(n) <= W(n + 1);
    PowMono(B, n + 1, |u| + uexp - 1);
    ScaledTop(u, uexp);
  }

  lemma PaddedProperties(t: seq<U32>, texp: nat, s: seq<U32>, sexp: nat)
    requires s != [] && PaddedCopy(t, texp, s, sexp)
    ensures t[0] == 0 && texp < sexp && Scaled(t, texp) == Scaled(s, sexp)
  {
    assert t[|t| - |s|..] == s;
    LongerIsGreater(t, texp, s, sexp);
  }

  lemma ZeroOrNormal(s: seq<U32>)
    requires Trimmed(s)
    ensures IsZero(s) || Normal(s)
  {
    assert !Normal(s) ==> s == [0];
  }

  /** Comparing tells smaller from not smaller unless t is s padded with low zeros. */
  lemma ComparisonSplits(s: seq<U32>, sexp: nat, t: seq<U32>, texp: nat, r: int)
    requires Trimmed(s) && Normal(t) && IsComparison(s, sexp, t, texp, r)
    requires IsZero(s) ==> sexp < |t| + texp
    requires !PaddedCopy(t, texp, s, sexp)
    ensures r >= 0 <==> Scaled(s, sexp) >= Scaled(t, texp)
  {
    if PaddedCopy(s, sexp, t, texp) {
      assert s[|s| - |t|..] == t;
      LongerIsGreater(s, sexp, t, texp);
    }
  }

  /** Two equal numbers that the comparison tells apart. */
  lemma PaddedCopiesCompareUnequal(r: int)
    requires IsComparison([1], 1, [0, 1], 0, r)
    ensures Scaled([1], 1) == Scaled([0, 1], 0) && r == -1
  {
    assert [0, 1] == Zeros(1) + [1];
    ScaledShift([1], 1, 0);
    assert PaddedCopy([0, 1], 0, [1], 1);
  }
}
