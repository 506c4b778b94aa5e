/** Squaring by columns of cross products, summed in a two-word accumulator. */
module BigitSquare {
  import opened Arith
  import opened Bigits

  const TWO_TO_64: nat := 0x1_0000_0000_0000_0000

  /** The two 64-bit words that stand in for a 128-bit integer. */
  class Accumulator {
    var lower: U64
    var upper: U64

    constructor ()
      ensures Value() == 0
    {
      lower, upper := 0, 0;
    }

    ghost function Value(): nat
      reads this
    {
      lower + TWO_TO_64 * upper
    }

    function LowWord(): U32
      reads this
    {
      lower % B
    }

    /** Adds as 128-bit arithmetic does, wrapping around 2^128. */
    method Add(n: U64)
      modifies this
      ensures Value() == (old(Value()) + n) % (TWO_TO_64 * TWO_TO_64)
      ensures old(Value()) + n < TWO_TO_64 * TWO_TO_64 ==> Value() == old(Value()) + n
    {
      AddWords(lower, upper, n);
      lower := (lower + n) % TWO_TO_64;
      if lower < n {
        upper := (upper + 1) % TWO_TO_64;
      }
    }

    /** Shifts right by one bigit. */
    method ShiftRight32()
      modifies this
      ensures Value() == old(Value()) / B
      ensures old(Value()) == B * Value() + old(LowWord())
    {
      lower := (upper * B) % TWO_TO_64 + lower / B;
      upper := upper / B;
    }
  }

  /** Adding to the low word and counting its overflow adds to the pair, modulo 2^128. */
  lemma AddWords(lower: U64, upper: U64, n: U64)
    ensures var low := (lower + n) % TWO_TO_64;
            && (low < n <==> lower + n >= TWO_TO_64)
            && low + TWO_TO_64 * (if low < n then (upper + 1) % TWO_TO_64 else upper)
               == (lower + TWO_TO_64 * upper + n) % (TWO_TO_64 * TWO_TO_64)
  {
    if lower + n < TWO_TO_64 {
      DivUnique(lower + n, TWO_TO_64, 0, lower + n);
    } else {
      DivUnique(lower + n, TWO_TO_64, 1, lower + n - TWO_TO_64);
    }
  }

  function At(s: seq<U32>, i: int): U32 {
    if 0 <= i < |s| then s[i] else 0
  }

  /** The first m cross products of column k: s[0] * s[k] + ... + s[m - 1] * s[k - m + 1]. */
  ghost function Column(s: seq<U32>, k: nat, m: nat): nat {
    if m == 0 then 0 else Column(s, k, m - 1) + At(s, m - 1) * At(s, k - m + 1)
  }

  /** The columns below k, each with its weight and cut after m cross products. */
  ghost function Columns(s: seq<U32>, m: nat, k: nat): nat {
    if k == 0 then 0 else Columns(s, m, k - 1) + W(k - 1) * Column(s, k - 1, m)
  }

  /** s moved up by m positions and cut off below position k. */
  ghost function Shifted(s: seq<U32>, m: nat, k: nat): nat {
    if k == 0 then 0 else Shifted(s, m, k - 1) + W(k - 1) * At(s, k - 1 - m)
  }

  lemma {:induction false} ShiftedValue(s: seq<U32>, m: nat, k: nat)
    ensures k <= m ==> Shifted(s, m, k) == 0
    ensures m <= k <= m + |s| ==> Shifted(s, m, k) == W(m) * Val(s[..k - m])
    ensures k >= m + |s| ==> Shifted(s, m, k) == W(m) * Val(s)
  {
    if k == 0 {
      assert s[..0] == [];
    } else {
      ShiftedValue(s, m, k - 1);
      if m < k <= m + |s| {
        var j := k - 1 - m;
        ValNext(s, j);
        MulDist(W(m), Val(s[..j]), W(j) * s[j]);
        MulAssoc(W(m), W(j), s[j]);
        PowAdd(B, m, j);
        assert s[..|s|] == s;
      } else if k == m {
        assert s[..0] == [];
      }
    }
  }

  lemma {:induction false} OneMoreProduct(s: seq<U32>, m: nat, k: nat)
    ensures Columns(s, m + 1, k) == Columns(s, m, k) + At(s, m) * Shifted(s, m, k)
  {
    if k == 0 {
    } else {
      OneMoreProduct(s, m, k - 1);
      ProductAlgebra(Columns(s, m + 1, k - 1), Columns(s, m, k - 1), Shifted(s, m, k - 1),
                     Column(s, k - 1, m), At(s, m), At(s, k - 1 - m), W(k - 1));
    }
  }

  lemma ProductAlgebra(x: int, y: int, z: int, c: int, a: int, b: int, w: int)
    requires x == y + a * z
    ensures x + w * (c + a * b) == (y + w * c) + a * (z + w * b)
  {
    MulDist(w, c, a * b);
    MulDist(a, z, w * b);
    MulRotate(w, a, b);
    MulRotate(a, w, b);
  }

  /** All columns together are the square. */
  lemma {:induction false} ColumnsValue(s: seq<U32>, m: nat)
    requires m <= |s|
    ensures Columns(s, m, 2 * |s|) == Val(s[..m]) * Val(s)
  {
    if m == 0 {
      NoProducts(s, 2 * |s|);
    } else {
      ColumnsValue(s, m - 1);
      OneMoreProduct(s, m - 1, 2 * |s|);
      ShiftedValue(s, m - 1, 2 * |s|);
      ValNext(s, m - 1);
      MulDist(Val(s), Val(s[..m - 1]), W(m - 1) * s[m - 1]);
      MulRotate(W(m - 1), s[m - 1], Val(s));
    }
  }

  lemma {:induction false} NoProducts(s: seq<U32>, k: nat)
    ensures Columns(s, 0, k) == 0
  {
    if k > 0 { NoProducts(s, k - 1); }
  }

  /** Cross products that reach past either end of s vanish. */
  lemma {:induction false} ColumnRange(s: seq<U32>, k: nat, m: nat)
    ensures k >= |s| && m <= k - |s| + 1 ==> Column(s, k, m) == 0
    ensures k < m ==> Column(s, k, m) == Column(s, k, k + 1)
    ensures m == 0 ==> Column(s, k, m) == 0
    ensures Column(s, k, m) <= m * ((B - 1) * (B - 1))
  {
    if m > 0 {
      ColumnRange(s, k, m - 1);
      ProductBound(At(s, m - 1), At(s, k - m + 1), B - 1, B - 1);
    }
  }

  /** The k low bigits of the square are in place and carry is what remains of the columns so far. */
  ghost predicate PartialSquare(s: seq<U32>, r: seq<U32>, k: nat, carry: nat) {
    && |r| == 2 * |s| && k <= |r|
    && carry <= |s| * B
    && Val(r[..k]) + W(k) * carry == Columns(s, |s|, k)
  }

  lemma SquareStart(s: seq<U32>)
    ensures PartialSquare(s, Zeros(2 * |s|), 0, 0)
  {
    var r: seq<U32> := Zeros(2 * |s|);
    assert r[..0] == [];
  }

  /** The next cross product is a 64-bit word and the sum with it stays below 2^128. */
  lemma CrossProduct(s: seq<U32>, k: nat, i: nat, carry: nat)
    requires carry <= |s| * B && i < |s| < 0x8000_0000 && 0 <= k - i < |s|
    ensures 0 <= (s[i] as int) * s[k - i] < TWO_TO_64
    ensures Column(s, k, i + 1) == Column(s, k, i) + (s[i] as int) * s[k - i]
    ensures carry + Column(s, k, i + 1) < TWO_TO_64 * TWO_TO_64
  {
    ProductBound(s[i], s[k - i], B - 1, B - 1);
    ColumnRange(s, k, i + 1);
  }

  /** A finished column leaves its low word in place and passes the rest on. */
  lemma SquareColumn(s: seq<U32>, r: seq<U32>, k: nat, carry: nat)
    requires k < |r| && PartialSquare(s, r, k, carry)
    ensures carry <= |s| * B
    ensures var sum := carry + Column(s, k, |s|);
            PartialSquare(s, r[k := sum % B], k + 1, sum / B)
  {
    hide Column, Val, W, Pow;
    WeightNext(k);
    var sum := carry + Column(s, k, |s|);
    var r' := r[k := sum % B];
    assert r'[..k] == r[..k];
    ValNext(r', k);
    ColumnRange(s, k, |s|);
    CarryBound(|s|, carry, Column(s, k, |s|));
    CarryAlgebra(Val(r[..k]), Columns(s, |s|, k), W(k), carry, Column(s, k, |s|));
  }

  lemma CarryBound(n: nat, carry: nat, column: nat)
    requires carry <= n * B && column <= n * ((B - 1) * (B - 1))
    ensures (carry + column) / B <= n * B
  {
    assert carry + column <= (n * B) * B by {
      assert n * B + n * ((B - 1) * (B - 1)) <= n * (B * B);
    }
  }

  lemma CarryAlgebra(done: int, total: int, w: int, carry: int, column: int)
    requires done + w * carry == total
    ensures (done + w * ((carry + column) % B)) + (B * w) * ((carry + column) / B) == total + w * column
  {
    var sum := carry + column;
    DivMod(sum, B);
    MulDist(w, sum % B, B * (sum / B));
    MulRotate(w, B, sum / B);
    MulRotate(B, w, sum / B);
    MulDist(w, carry, column);
  }

  lemma WholeSquare(s: seq<U32>, r: seq<U32>, carry: nat)
    requires PartialSquare(s, r, |r|, carry)
    ensures Val(r) == Val(s) * Val(s)
  {
    ColumnsValue(s, |s|);
    assert s[..|s|] == s && r[..|r|] == r;
    ValBound(s);
    PowAdd(B, |s|, |s|);
    SquareFits(Val(s), W(|s|), W(|r|), Val(r), carry);
  }

  lemma SquareFits(v: nat, w: nat, w': nat, r: nat, carry: nat)
    requires v < w && w' == w * w && r + w' * carry == v * v
    ensures carry == 0
  {
    MulMono(v, v, w);
    MulStrict(w, v, w);
    if carry > 0 { MulMono(w', 1, carry); }
  }

  lemma SquareScaled(s: seq<U32>, r: seq<U32>, exp: nat)
    requires Val(r) == Val(s) * Val(s)
    ensures Scaled(r, 2 * exp) == Scaled(s, exp) * Scaled(s, exp)
  {
    PowAdd(B, exp, exp);
    MulSwap(Val(s), Val(s), W(exp), W(exp));
  }

  /** Adds the cross products of a column in the low half of the square. */
  method LowColumn(n: seq<U32>, k: nat, sum: Accumulator)
    requires k < |n| < 0x8000_0000 && sum.Value() <= |n| * B
    modifies sum
    ensures sum.Value() == old(sum.Value()) + Column(n, k, |n|)
  {
    hide Column;
    ColumnRange(n, k, 0);
    ColumnRange(n, k, |n|);
    var i, j := 0, k;
    while j >= 0
      invariant j == k - i && i <= k + 1
      invariant sum.Value() == old(sum.Value()) + Column(n, k, i)
    {
      CrossProduct(n, k, i, old(sum.Value()));
      sum.Add((n[i] as int) * n[j]);
      i, j := i + 1, j - 1;
    }
  }

  /** Adds the cross products of a column in the high half of the square. */
  method HighColumn(n: seq<U32>, k: nat, sum: Accumulator)
    requires |n| <= k < 2 * |n| && |n| < 0x8000_0000 && sum.Value() <= |n| * B
    modifies sum
    ensures sum.Value() == old(sum.Value()) + Column(n, k, |n|)
  {
    hide Column;
    var j := |n| - 1;
    var i := k - j;
    ColumnRange(n, k, i);
    while i < |n|
      invariant j == k - i && k - |n| + 1 <= i <= |n|
      invariant sum.Value() == old(sum.Value()) + Column(n, k, i)
    {
      CrossProduct(n, k, i, old(sum.Value()));
      sum.Add((n[i] as int) * n[j]);
      i, j := i + 1, j - 1;
    }
  }
}
