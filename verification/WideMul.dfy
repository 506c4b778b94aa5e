/** Wide products assembled from 32-bit limbs. */
module WideMul {
  import opened Arith

  const Q: nat := 0x1_0000_0000_0000_0000

  /** A 128-bit number as two 64-bit words. */
  datatype Uint128 = Uint128(high: U64, low: U64) {
    function Value(): nat {
      high * Q + low
    }

    /** Adds a word, carrying into the high word when the low one wraps. */
    function Plus(n: U64): (r: Uint128)
      ensures r.Value() == (Value() + n) % (Q * Q)
    {
      var sum: U64 := (low + n) % Q;
      var r := Uint128((high + if sum < low then 1 else 0) % Q, sum);
      PlusWraps(high, low, n);
      r
    }
  }

  lemma PlusWraps(high: U64, low: U64, n: U64)
    ensures var sum := (low + n) % Q;
            (high + if sum < low then 1 else 0) % Q * Q + sum == (high * Q + low + n) % (Q * Q)
  {
    if low + n < Q {
      DivUnique(low + n, Q, 0, low + n);
      DivUnique(high * Q + low + n, Q * Q, 0, high * Q + low + n);
    } else {
      DivUnique(low + n, Q, 1, low + n - Q);
    }
  }

  /** The partial products of two 64-bit words split into 32-bit halves. */
  lemma Limbs(x: U64, y: U64)
    ensures var a, b, c, d := x / B, x % B, y / B, y % B;
            && x * y == a * c * Q + (b * c + a * d) * B + b * d
            && 0 <= a * c <= (B - 1) * (B - 1) && 0 <= b * c <= (B - 1) * (B - 1)
            && 0 <= a * d <= (B - 1) * (B - 1) && 0 <= b * d <= (B - 1) * (B - 1)
  {
    var a, b, c, d := x / B, x % B, y / B, y % B;
    ProductBound(a, c, B - 1, B - 1);
    ProductBound(b, c, B - 1, B - 1);
    ProductBound(a, d, B - 1, B - 1);
    ProductBound(b, d, B - 1, B - 1);
    calc {
      x * y;
      (a * B + b) * y;
      { MulDist(y, a * B, b); }
      (a * B) * y + b * y;
      (a * B) * (c * B + d) + b * (c * B + d);
      { MulDist(a * B, c * B, d); MulDist(b, c * B, d); }
      (a * B) * (c * B) + (a * B) * d + b * (c * B) + b * d;
      { MulSwap(a, B, c, B); MulRotate(a, B, d); MulRotate(b, c, B); MulAssoc(b, c, B); }
      a * c * Q + (b * c + a * d) * B + b * d;
    }
  }

  /** Recombining four partial products from their 32-bit halves. */
  lemma Recombine(ac: nat, bc: nat, ad: nat, bd: nat)
    requires ac <= (B - 1) * (B - 1) && bc <= (B - 1) * (B - 1) && ad <= (B - 1) * (B - 1) && bd <= (B - 1) * (B - 1)
    ensures var mid := bd / B + ad % B + bc % B;
            && mid < Q
            && ac + mid / B + ad / B + bc / B < Q
            && (mid * B) % Q + bd % B < Q
            && (ac + mid / B + ad / B + bc / B) * Q + ((mid * B) % Q + bd % B) == ac * Q + (bc + ad) * B + bd
  {
    var mid := bd / B + ad % B + bc % B;
    assert (mid * B) % Q == mid % B * B;
  }

  /** The full product, from four 32-bit products and one middle sum. */
  function Umul128(x: U64, y: U64): (r: Uint128)
    ensures r.Value() == x * y
  {
    Limbs(x, y);
    var a, b, c, d := x / B, x % B, y / B, y % B;
    var ac: U64, bc: U64, ad: U64, bd: U64 := a * c, b * c, a * d, b * d;
    Recombine(ac, bc, ad, bd);
    var intermediate: U64 := bd / B + ad % B + bc % B;
    Uint128(ac + intermediate / B + ad / B + bc / B, (intermediate * B) % Q + bd % B)
  }

  function Umul128Upper64(x: U64, y: U64): (r: U64)
    ensures r == x * y / Q
  {
    var p := Umul128(x, y);
    DivUnique(x * y, Q, p.high, p.low);
    p.high
  }

  /** The high word of a 64 by 128-bit product. */
  function Umul192Upper64(x: U64, y: Uint128): (r: U64)
    ensures r == x * y.Value() / (Q * Q)
  {
    var g0 := Umul128(x, y.high).Plus(Umul128Upper64(x, y.low));
    Upper192(x, y, g0);
    g0.high
  }

  lemma Product192(x: U64, y: Uint128)
    ensures x * y.Value() == Q * (x * y.high) + x * y.low
    ensures x * y.Value() / Q == x * y.high + x * y.low / Q
    ensures 0 <= x * y.high <= (Q - 1) * (Q - 1) && 0 <= x * y.low <= (Q - 1) * (Q - 1)
    ensures 0 <= x * y.low / Q < Q
  {
    ProductBound(x, y.high, Q - 1, Q - 1);
    ProductBound(x, y.low, Q - 1, Q - 1);
    MulDist(x, y.high * Q, y.low);
    MulAssoc(x, y.high, Q);
    ModMultiple(x * y.low, x * y.high, Q);
  }

  lemma Upper192(x: U64, y: Uint128, g0: Uint128)
    requires g0.Value() == (x * y.high + x * y.low / Q) % (Q * Q)
    ensures g0.high == x * y.Value() / (Q * Q)
  {
    Product192(x, y);
    DivDiv(x * y.Value(), Q, Q);
    DivUnique(x * y.high + x * y.low / Q, Q, g0.high, g0.low);
  }

  /** The middle word of a 64 by 128-bit product, in wrapping arithmetic. */
  function Umul192Middle64(x: U64, y: Uint128): (r: U64)
    ensures r == x * y.Value() / Q % Q
  {
    Product192(x, y);
    var g01: U64 := x * y.high % Q;
    var g10 := Umul128Upper64(x, y.low);
    MiddleWraps(x * y.high, g10);
    (g01 + g10) % Q
  }

  lemma MiddleWraps(p: nat, q: nat)
    ensures (p % Q + q) % Q == (p + q) % Q
  {
    ModMultiple(p % Q + q, p / Q, Q);
  }

  /** The product divided by 2^64, rounded half up, from 32-bit parts. */
  function Multiply(lhs: U64, rhs: U64): (r: U64)
    ensures r == (lhs * rhs + Q / 2) / Q
  {
    Limbs(lhs, rhs);
    var a, b, c, d := lhs / B, lhs % B, rhs / B, rhs % B;
    var ac: U64, bc: U64, ad: U64, bd: U64 := a * c, b * c, a * d, b * d;
    RoundedHigh(ac, bc, ad, bd, lhs * rhs);
    var mid: U64 := bd / B + ad % B + bc % B + B / 2;
    ac + ad / B + bc / B + mid / B
  }

  lemma RoundedHigh(ac: nat, bc: nat, ad: nat, bd: nat, p: nat)
    requires ac <= (B - 1) * (B - 1) && bc <= (B - 1) * (B - 1) && ad <= (B - 1) * (B - 1) && bd <= (B - 1) * (B - 1)
    requires p == ac * Q + (bc + ad) * B + bd
    ensures var mid := bd / B + ad % B + bc % B + B / 2;
            && mid < Q && ac + ad / B + bc / B + mid / B < Q
            && ac + ad / B + bc / B + mid / B == (p + Q / 2) / Q
  {
    var mid := bd / B + ad % B + bc % B + B / 2;
    var h := ac + ad / B + bc / B + mid / B;
    assert p + Q / 2 == Q * h + (mid % B * B + bd % B);
    DivUnique(p + Q / 2, Q, h, mid % B * B + bd % B);
  }

  /** The 128-bit form of the rounded product: the high word, plus the top bit of the low one. */
  function MultiplyWide(lhs: U64, rhs: U64): (r: nat)
    ensures r == Multiply(lhs, rhs)
  {
    var product := Umul128(lhs, rhs);
    TopBitRounds(product);
    if product.low >= Q / 2 then product.high + 1 else product.high
  }

  lemma TopBitRounds(p: Uint128)
    ensures (p.Value() + Q / 2) / Q == if p.low >= Q / 2 then p.high + 1 else p.high
  {
    if p.low >= Q / 2 {
      DivUnique(p.Value() + Q / 2, Q, p.high + 1, p.low - Q / 2);
    } else {
      DivUnique(p.Value() + Q / 2, Q, p.high, p.low + Q / 2);
    }
  }
}
