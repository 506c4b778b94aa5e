/** Powers, quotients and machine words: the arithmetic the other modules share. */
module Arith {

  const B: nat := 0x1_0000_0000

  /** An unsigned 32-bit word. */
  type U32 = x: int | 0 <= x < 0x1_0000_0000
  /** An unsigned 64-bit word. */
  type U64 = x: int | 0 <= x < 0x1_0000_0000_0000_0000

  function Pow(b: nat, n: nat): (r: nat)
    ensures b > 0 ==> r > 0
  {
    if n == 0 then 1 else b * Pow(b, n - 1)
  }

  function Sign(x: int): int {
    if x > 0 then 1 else if x < 0 then -1 else 0
  }

  function Max(x: int, y: int): int { if x >= y then x else y }

  function Min(x: int, y: int): int { if x <= y then x else y }

  lemma {:induction false} PowAdd(b: nat, m: nat, n: nat)
    ensures Pow(b, m + n) == Pow(b, m) * Pow(b, n)
  {
    if m == 0 {
    } else {
      PowAdd(b, m - 1, n);
      calc {
        Pow(b, m + n);
        b * Pow(b, m - 1 + n);
        b * (Pow(b, m - 1) * Pow(b, n));
        { MulAssoc(b, Pow(b, m - 1), Pow(b, n)); }
        Pow(b, m) * Pow(b, n);
      }
    }
  }

  lemma PowZero(b: nat)
    ensures Pow(b, 0) == 1
  {}

  lemma PowNext(b: nat, n: nat)
    ensures Pow(b, n + 1) == b * Pow(b, n)
  {}

  lemma PowMono(b: nat, m: nat, n: nat)
    requires b > 0 && m <= n
    ensures Pow(b, m) <= Pow(b, n)
  {
    PowAdd(b, m, n - m);
    MulMono(Pow(b, m), 1, Pow(b, n - m));
  }

  lemma {:induction false} PowMul(a: nat, b: nat, n: nat)
    ensures Pow(a * b, n) == Pow(a, n) * Pow(b, n)
  {
    if n == 0 {
    } else {
      PowMul(a, b, n - 1);
      var p, q := Pow(a, n - 1), Pow(b, n - 1);
      assert (a * b) * (p * q) == (a * p) * (b * q) by {
        MulSwap(a, b, p, q);
      }
    }
  }

  /** Powers of five are odd. */
  lemma {:induction false} Pow5Odd(x: nat)
    ensures Pow(5, x) % 2 == 1
  {
    if x > 0 { Pow5Odd(x - 1); }
  }

  lemma TwoToThe32()
    ensures Pow(2, 32) == B
  {
    assert Pow(2, 4) == 16;
    PowAdd(2, 4, 4);
    PowAdd(2, 8, 8);
    PowAdd(2, 16, 16);
  }

  lemma MulAssoc(a: int, b: int, c: int)
    ensures a * (b * c) == (a * b) * c
  {}

  /** The middle factor moves to the front. */
  lemma MulRotate(a: int, b: int, c: int)
    ensures (a * b) * c == b * (c * a)
    ensures (a * b) * c == b * (a * c)
  {}

  lemma MulSwap(a: int, b: int, c: int, d: int)
    ensures (a * b) * (c * d) == (a * c) * (b * d)
  {
    calc {
      (a * b) * (c * d);
      a * (b * (c * d));
      { assert b * (c * d) == c * (b * d); }
      a * (c * (b * d));
      (a * c) * (b * d);
    }
  }

  lemma MulMono(a: int, x: int, y: int)
    requires 0 <= a && x <= y
    ensures a * x <= a * y
    ensures x * a <= y * a
  {}

  lemma MulStrict(a: int, x: int, y: int)
    requires 0 < a && x < y
    ensures a * x < a * y
    ensures x * a < y * a
    ensures a * x + a <= a * y
    ensures x * a + a <= y * a
  {
    MulMono(a, x + 1, y);
  }

  lemma MulDist(a: int, x: int, y: int)
    ensures a * (x + y) == a * x + a * y
    ensures (x + y) * a == x * a + y * a
    ensures a * (x - y) == a * x - a * y
    ensures (x - y) * a == x * a - y * a
  {}

  lemma MulBit(w: int, bit: int)
    requires 0 <= bit <= 1
    ensures w * bit == if bit == 1 then w else 0
  {}

  lemma MulCancel(a: int, x: int, y: int)
    requires 0 < a
    ensures a * x < a * y <==> x < y
    ensures a * x == a * y <==> x == y
  {
    if x < y { MulStrict(a, x, y); }
    if y < x { MulStrict(a, y, x); }
  }

  lemma ProductBound(a: int, b: int, m: int, n: int)
    requires 0 <= a <= m && 0 <= b <= n
    ensures 0 <= a * b <= m * n
  {
    MulMono(a, b, n);
    MulMono(n, a, m);
  }

  lemma DivMod(x: int, d: int)
    requires d > 0
    ensures x == d * (x / d) + x % d && 0 <= x % d < d
  {}

  /** Quotient and remainder are unique. */
  lemma DivUnique(x: int, d: int, q: int, r: int)
    requires d > 0 && x == d * q + r && 0 <= r < d
    ensures x / d == q && x % d == r
  {
    DivMod(x, d);
    var q' := x / d;
    MulDist(d, q, q');
    if q < q' { MulMono(d, 1, q' - q); }
    if q' < q { MulMono(d, 1, q - q'); }
  }

  lemma DivDiv(x: int, a: int, b: int)
    requires a > 0 && b > 0
    ensures a * b > 0
    ensures x / (a * b) == (x / a) / b
  {
    MulStrict(a, 0, b);
    var q := x / a;
    DivMod(x, a);
    DivMod(q, b);
    var r := a * (q % b) + x % a;
    MulStrict(a, q % b, b);
    MulMono(a, 0, q % b);
    MulDist(a, b * (q / b), q % b);
    MulAssoc(a, b, q / b);
    DivUnique(x, a * b, q / b, r);
  }

  lemma ModMultiple(x: int, k: int, d: int)
    requires d > 0
    ensures (x + d * k) % d == x % d
    ensures (x + d * k) / d == x / d + k
  {
    DivMod(x, d);
    MulDist(d, x / d, k);
    DivUnique(x + d * k, d, x / d + k, x % d);
  }

  /** Reducing modulo a multiple first makes no difference. */
  lemma ModMod(x: int, p: int, q: int)
    requires p > 0 && q > 0
    ensures p * q > 0 && x % (p * q) % p == x % p
  {
    MulStrict(p, 0, q);
    DivMod(x, p * q);
    MulAssoc(p, q, x / (p * q));
    ModMultiple(x % (p * q), q * (x / (p * q)), p);
  }
}
