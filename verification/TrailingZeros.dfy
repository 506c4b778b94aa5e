/** Divisibility by powers of five through modular inverses, and trailing-zero removal. */
module TrailingZeros {
  import opened Arith

  const Q: nat := 0x1_0000_0000_0000_0000

  /** inv is the inverse of d modulo m, and top the largest multiple of d below m divided by d. */
  predicate IsInverse(inv: nat, top: nat, d: nat, m: nat) {
    d > 0 && m > 1 && inv * d % m == 1 && top == (m - 1) / d
  }

  /**
   * Multiplying by the inverse of d modulo m gives the quotient exactly when
   * d divides n, and then and only then a result not above top.
   */
  lemma InverseDivides(n: nat, inv: nat, top: nat, d: nat, m: nat)
    requires n < m && IsInverse(inv, top, d, m)
    ensures var q := n * inv % m;
            && (q <= top <==> n % d == 0)
            && (n % d == 0 ==> q == n / d)
  {
    InverseUndoes(n, inv, d, m);
    SmallProductDivides(n, n * inv % m, top, d, m);
    if n % d == 0 {
      Arith.DivMod(n, d);
      QuotientReappears(n / d, inv, d, m);
      QuotientIsSmall(n, n / d, top, d, m);
    }
  }

  lemma SmallProductDivides(n: nat, q: nat, top: nat, d: nat, m: nat)
    requires n < m && d > 0 && m > 1 && top == (m - 1) / d && d * q % m == n
    ensures q <= top ==> n % d == 0
  {
    if q <= top {
      Arith.DivMod(m - 1, d);
      MulMono(d, q, top);
      DivUnique(d * q, m, 0, d * q);
      DivUnique(n, d, q, 0);
    }
  }

  lemma QuotientIsSmall(n: nat, k: nat, top: nat, d: nat, m: nat)
    requires n < m && d > 0 && m > 1 && top == (m - 1) / d && n == d * k
    ensures k <= top && k % m == k
  {
    Arith.DivMod(m - 1, d);
    MulMono(k, 1, d);
    DivUnique(k, m, 0, k);
    if k > top {
      MulMono(d, top + 1, k);
      MulDist(d, top, 1);
    }
  }

  /** d times the product with the inverse is n again, modulo m. */
  lemma InverseUndoes(n: nat, inv: nat, d: nat, m: nat)
    requires n < m && d > 0 && m > 1 && inv * d % m == 1
    ensures d * (n * inv % m) % m == n
  {
    Arith.DivMod(n * inv, m);
    Arith.DivMod(inv * d, m);
    var q, a, b := n * inv % m, n * inv / m, inv * d / m;
    assert d * q + m * (d * a) == n + m * (n * b) by {
      MulDist(d, m * a, q);
      MulRotate(d, m, a);
      MulRotate(m, d, a);
      MulDist(n, m * b, 1);
      MulRotate(n, m, b);
      MulRotate(m, n, b);
      MulRotate(n, inv, d);
      MulAssoc(n, inv, d);
      MulAssoc(d, n, inv);
    }
    ModMultiple(d * q, d * a, m);
    ModMultiple(n, n * b, m);
    DivUnique(n, m, 0, n);
  }

  lemma QuotientReappears(k: nat, inv: nat, d: nat, m: nat)
    requires d > 0 && m > 1 && inv * d % m == 1
    ensures (d * k) * inv % m == k % m
  {
    var b := inv * d / m;
    Arith.DivMod(inv * d, m);
    assert (d * k) * inv == k + m * (k * b) by {
      MulRotate(d, k, inv);
      MulAssoc(k, inv, d);
      MulDist(k, m * b, 1);
      MulRotate(k, m, b);
      MulRotate(m, k, b);
    }
    ModMultiple(k, k * b, m);
  }

  /** The inverse and largest quotient the library tables for 5^exp in 32 bits. */
  function Pow5Entry32(exp: nat): (U32, U32)
    requires exp <= 10
  {
    match exp
    case 0 => (0x00000001, 0xffffffff)
    case 1 => (0xcccccccd, 0x33333333)
    case 2 => (0xc28f5c29, 0x0a3d70a3)
    case 3 => (0x26e978d5, 0x020c49ba)
    case 4 => (0x3afb7e91, 0x0068db8b)
    case 5 => (0x0bcbe61d, 0x0014f8b5)
    case 6 => (0x68c26139, 0x000431bd)
    case 7 => (0xae8d46a5, 0x0000d6bf)
    case 8 => (0x22e90e21, 0x00002af3)
    case 9 => (0x3a2e9c6d, 0x00000897)
    case 10 => (0x3ed61f49, 0x000001b7)
  }

  function Pow5Entry64(exp: nat): (U64, U64)
    requires exp <= 23
  {
    match exp
    case 0 => (0x0000000000000001, 0xffffffffffffffff)
    case 1 => (0xcccccccccccccccd, 0x3333333333333333)
    case 2 => (0x8f5c28f5c28f5c29, 0x0a3d70a3d70a3d70)
    case 3 => (0x1cac083126e978d5, 0x020c49ba5e353f7c)
    case 4 => (0xd288ce703afb7e91, 0x0068db8bac710cb2)
    case 5 => (0x5d4e8fb00bcbe61d, 0x0014f8b588e368f0)
    case 6 => (0x790fb65668c26139, 0x000431bde82d7b63)
    case 7 => (0xe5032477ae8d46a5, 0x0000d6bf94d5e57a)
    case 8 => (0xc767074b22e90e21, 0x00002af31dc46118)
    case 9 => (0x8e47ce423a2e9c6d, 0x0000089705f4136b)
    case 10 => (0x4fa7f60d3ed61f49, 0x000001b7cdfd9d7b)
    case 11 => (0x0fee64690c913975, 0x00000057f5ff85e5)
    case 12 => (0x3662e0e1cf503eb1, 0x000000119799812d)
    case 13 => (0xa47a2cf9f6433fbd, 0x0000000384b84d09)
    case 14 => (0x54186f653140a659, 0x00000000b424dc35)
    case 15 => (0x7738164770402145, 0x0000000024075f3d)
    case 16 => (0xe4a4d1417cd9a041, 0x000000000734aca5)
    case 17 => (0xc75429d9e5c5200d, 0x000000000170ef54)
    case 18 => (0xc1773b91fac10669, 0x000000000049c977)
    case 19 => (0x26b172506559ce15, 0x00000000000ec1e4)
    case 20 => (0xd489e3a9addec2d1, 0x000000000002f394)
    case 21 => (0x90e860bb892c8d5d, 0x000000000000971d)
    case 22 => (0x502e79bf1b6f4f79, 0x0000000000001e39)
    case 23 => (0xdcd618596be30fe5, 0x000000000000060b)
  }

  /** 5^exp as a number, for the exponents that are tabled. */
  function PowerOf5(exp: nat): nat
    requires exp <= 23
  {
    match exp
    case 0 => 1 case 1 => 5 case 2 => 25 case 3 => 125 case 4 => 625 case 5 => 3125
    case 6 => 15625 case 7 => 78125 case 8 => 390625 case 9 => 1953125 case 10 => 9765625
    case 11 => 48828125 case 12 => 244140625 case 13 => 1220703125 case 14 => 6103515625
    case 15 => 30517578125 case 16 => 152587890625 case 17 => 762939453125
    case 18 => 3814697265625 case 19 => 19073486328125 case 20 => 95367431640625
    case 21 => 476837158203125 case 22 => 2384185791015625 case 23 => 11920928955078125
  }

  lemma {:induction false} PowerOf5Value(exp: nat)
    requires exp <= 23
    ensures PowerOf5(exp) == Pow(5, exp)
  {
    if exp > 0 {
      PowerOf5Value(exp - 1);
      assert PowerOf5(exp) == 5 * PowerOf5(exp - 1);
    }
  }

  lemma Entry32IsInverse(exp: nat)
    requires exp <= 10
    ensures IsInverse(Pow5Entry32(exp).0, Pow5Entry32(exp).1, Pow(5, exp), B)
  {
    PowerOf5Value(exp);
  }

  lemma LowEntriesAreInverse(exp: nat)
    requires exp <= 11
    ensures IsInverse(Pow5Entry64(exp).0, Pow5Entry64(exp).1, PowerOf5(exp), Q)
  {}

  lemma HighEntriesAreInverse(exp: nat)
    requires 12 <= exp <= 23
    ensures IsInverse(Pow5Entry64(exp).0, Pow5Entry64(exp).1, PowerOf5(exp), Q)
  {}

  lemma Entry64IsInverse(exp: nat)
    requires exp <= 23
    ensures IsInverse(Pow5Entry64(exp).0, Pow5Entry64(exp).1, Pow(5, exp), Q)
  {
    hide IsInverse, Pow5Entry64, PowerOf5;
    PowerOf5Value(exp);
    if exp <= 11 { LowEntriesAreInverse(exp); } else { HighEntriesAreInverse(exp); }
  }

  predicate DivisibleByPowerOf5In32(x: U32, exp: nat)
    requires exp <= 10
    ensures DivisibleByPowerOf5In32(x, exp) <==> x % Pow(5, exp) == 0
  {
    Entry32IsInverse(exp);
    InverseDivides(x, Pow5Entry32(exp).0, Pow5Entry32(exp).1, Pow(5, exp), B);
    x * Pow5Entry32(exp).0 % B <= Pow5Entry32(exp).1
  }

  predicate DivisibleByPowerOf5In64(x: U64, exp: nat)
    requires exp <= 23
    ensures DivisibleByPowerOf5In64(x, exp) <==> x % Pow(5, exp) == 0
  {
    Entry64IsInverse(exp);
    InverseDivides(x, Pow5Entry64(exp).0, Pow5Entry64(exp).1, Pow(5, exp), Q);
    x * Pow5Entry64(exp).0 % Q <= Pow5Entry64(exp).1
  }

  /** The number of trailing zero bits. */
  function CountTrailingZeros(n: nat): nat
    requires n > 0
  {
    if n % 2 == 1 then 0 else 1 + CountTrailingZeros(n / 2)
  }

  lemma {:induction false} TrailingBits(n: nat)
    requires n > 0
    ensures n % Pow(2, CountTrailingZeros(n)) == 0
    ensures n % Pow(2, CountTrailingZeros(n) + 1) != 0
  {
    var t := CountTrailingZeros(n);
    if n % 2 == 1 {
      assert Pow(2, 1) == 2;
    } else {
      TrailingBits(n / 2);
      DoubleMod(n / 2, Pow(2, t - 1));
      DoubleMod(n / 2, Pow(2, t));
    }
  }

  lemma DoubleMod(n: nat, p: nat)
    requires p > 0
    ensures 2 * n % (2 * p) == 0 <==> n % p == 0
  {
    Arith.DivMod(n, p);
    MulAssoc(2, p, n / p);
    DivUnique(2 * n, 2 * p, n / p, 2 * (n % p));
  }

  /** A smaller power of two divides what a larger one does. */
  lemma FewerTwos(n: nat, t: nat, s: nat)
    requires s <= t && n % Pow(2, t) == 0
    ensures n % Pow(2, s) == 0
  {
    PowAdd(2, s, t - s);
    Arith.DivMod(n, Pow(2, t));
    var k := n / Pow(2, t);
    MulAssoc(Pow(2, s), Pow(2, t - s), k);
    DivUnique(n, Pow(2, s), Pow(2, t - s) * k, 0);
  }

  /** An odd factor has no part in divisibility by a power of two. */
  lemma {:induction false} OddFactor(p: nat, m: nat, j: nat)
    requires p % 2 == 1 && p * m % Pow(2, j) == 0
    ensures m % Pow(2, j) == 0
  {
    if j > 0 {
      FewerTwos(p * m, j, 1);
      assert Pow(2, 1) == 2;
      OddTimes(p, m);
      assert p * m == 2 * (p * (m / 2)) by {
        MulRotate(p, 2, m / 2);
        MulRotate(2, p, m / 2);
      }
      DoubleMod(p * (m / 2), Pow(2, j - 1));
      OddFactor(p, m / 2, j - 1);
      DoubleMod(m / 2, Pow(2, j - 1));
    }
  }

  lemma OddTimes(p: nat, m: nat)
    requires p % 2 == 1 && p * m % 2 == 0
    ensures m % 2 == 0
  {
    var h := p / 2;
    MulDist(m, 2 * h, 1);
    MulAssoc(2, h, m);
    EvenAndOdd(h * m, m);
  }

  lemma EvenAndOdd(x: int, m: nat)
    requires (2 * x + m) % 2 == 0
    ensures m % 2 == 0
  {}

  /** What dividing by 5^s and shifting right by s leaves is n without s zeros. */
  lemma ZerosRemoved(n: nat, m: nat, s: nat, t: nat)
    requires Pow(5, s) * m == n && n % Pow(2, t) == 0 && s <= t
    ensures m % Pow(2, s) == 0
    ensures m / Pow(2, s) * Pow(10, s) == n
  {
    FewerTwos(n, t, s);
    Pow5Odd(s);
    OddFactor(Pow(5, s), m, s);
    Arith.DivMod(m, Pow(2, s));
    PowMul(5, 2, s);
    MulRotate(Pow(5, s), Pow(2, s), m / Pow(2, s));
    MulAssoc(Pow(5, s), Pow(2, s), m / Pow(2, s));
  }

  /** No further zero can be removed without another factor of two and of five. */
  lemma NoMoreZeros(n: nat, m: nat, s: nat)
    requires Pow(5, s) * m == n && (n % Pow(2, s + 1) != 0 || m % 5 != 0)
    ensures n % Pow(10, s + 1) != 0
  {
    if n % Pow(10, s + 1) == 0 {
      var k := n / Pow(10, s + 1);
      Arith.DivMod(n, Pow(10, s + 1));
      PowMul(5, 2, s + 1);
      var p, q := Pow(5, s), Pow(2, s + 1);
      MulRotate(Pow(5, s + 1), q, k);
      DivUnique(n, q, Pow(5, s + 1) * k, 0);
      MulAssoc(Pow(5, s + 1), q, k);
      MulAssoc(p, 5, q * k);
      MulCancel(p, m, 5 * (q * k));
    }
  }

  /** A 32-bit product, which wraps. */
  function Product32(m: U32, inv: U32): U32 {
    m * inv % B
  }

  function Product64(m: U64, inv: U64): U64 {
    m * inv % Q
  }

  /** Dividing by five through its inverse, on condition that five divides. */
  lemma Fifth(m: U32)
    ensures Product32(m, 0xcccccccd) <= 0x33333333 <==> m % 5 == 0
    ensures m % 5 == 0 ==> Product32(m, 0xcccccccd) == m / 5
  {
    InverseDivides(m, 0xcccccccd, 0x33333333, 5, B);
  }

  lemma TwentyFifth(m: U32)
    ensures Product32(m, 0xc28f5c29) <= 0x0a3d70a3 <==> m % 25 == 0
    ensures m % 25 == 0 ==> Product32(m, 0xc28f5c29) == m / 25
  {
    InverseDivides(m, 0xc28f5c29, 0x0a3d70a3, 25, B);
  }

  lemma EightFifths(n: U64)
    ensures Product64(n, 0xc767074b22e90e21) <= 0x00002af31dc46118 <==> n % 390625 == 0
    ensures n % 390625 == 0 ==> Product64(n, 0xc767074b22e90e21) == n / 390625
  {
    InverseDivides(n, 0xc767074b22e90e21, 0x00002af31dc46118, 390625, Q);
  }

  /** m is n with s factors of five divided out. */
  ghost predicate Fifths(n: nat, m: nat, s: nat) {
    Pow(5, s) * m == n
  }

  lemma MoreFifths(n: nat, m: nat, s: nat)
    requires Fifths(n, m, s)
    ensures m % 5 == 0 ==> Fifths(n, m / 5, s + 1)
    ensures m % 25 == 0 ==> Fifths(n, m / 25, s + 2)
  {
    MulRotate(Pow(5, s), 5, m / 5);
    MulAssoc(Pow(5, s), 5, m / 5);
    assert Pow(5, s + 2) == 5 * Pow(5, s + 1);
    MulAssoc(Pow(5, s), 25, m / 25);
  }

  /** s is the number of trailing decimal zeros of n, or the cap, and r is n without them. */
  ghost predicate IsStripped(n: nat, r: nat, s: nat, cap: nat) {
    r * Pow(10, s) == n && s <= cap && (s == cap || n % Pow(10, s + 1) != 0)
  }

  /** When t bounds the zero bits and no five is left, or s has reached t, all zeros are found. */
  lemma Stripped(n: nat, m: nat, s: nat, t: nat, cap: nat)
    requires n > 0 && t == Min(CountTrailingZeros(n), cap) && s <= t
    requires Fifths(n, m, s) && (s == t || m % 5 != 0)
    ensures IsStripped(n, m / Pow(2, s), s, cap)
  {
    var c := CountTrailingZeros(n);
    TrailingBits(n);
    ZerosRemoved(n, m, s, c);
    if s < cap { NoMoreZeros(n, m, s); }
  }

  lemma NoFifths(n: nat)
    ensures Fifths(n, n, 0)
  {}

  /** Removes up to seven trailing zeros of a 32-bit number, two and then one at a time. */
  method RemoveTrailingZeros32(n: U32) returns (r: U32, s: nat)
    requires n > 0
    ensures IsStripped(n, r, s, 7)
  {
    hide Pow, CountTrailingZeros, Fifths, IsStripped, Product32;
    var t := Min(CountTrailingZeros(n), 7);
    var m: U32 := n;
    s := 0;
    NoFifths(n);
    while s < t - 1
      invariant s <= t && Fifths(n, m, s)
      decreases t - s
    {
      TwentyFifth(m);
      MoreFifths(n, m, s);
      if Product32(m, 0xc28f5c29) > 0x0a3d70a3 {
        break;
      }
      m := Product32(m, 0xc28f5c29);
      s := s + 2;
    }
    assert s >= t - 1 || m % 25 != 0;
    Fifth(m);
    MoreFifths(n, m, s);
    if s < t && Product32(m, 0xcccccccd) <= 0x33333333 {
      m := Product32(m, 0xcccccccd);
      s := s + 1;
    }
    assert s == t || m % 5 != 0;
    Stripped(n, m, s, t, 7);
    r := ShiftRight(m, s);
  }

  function ShiftRight(m: U32, s: nat): (r: U32)
    ensures r == m / Pow(2, s)
  {
    Arith.DivMod(m, Pow(2, s));
    MulMono(m / Pow(2, s), 1, Pow(2, s));
    m / Pow(2, s)
  }

  /** The remainder by 10^8, from a 32-bit product that may wrap. */
  lemma WrappedRemainder(n: U64, quotient: U32)
    requires quotient == n / 100000000
    ensures (n - Product32(quotient, 100000000)) % B == n % 100000000
  {
    var w := quotient * 100000000;
    Arith.DivMod(w, B);
    ModMultiple(n - w, w / B, B);
    assert n - Product32(quotient, 100000000) == (n - w) + B * (w / B);
    DivUnique(n - w, B, 0, n - w);
  }

  /** The powers the unrolled chain of divisions relies on. */
  lemma ChainPowers(k: nat)
    requires k <= 8
    ensures Pow(5, k) * Pow(5, 8 - k) == 390625 && Pow(2, k) * Pow(2, 8 - k) == 256
    ensures Pow(5, 8 - k) * Pow(2, 8 - k) == Pow(10, 8 - k)
    ensures k < 8 ==> Pow(5, 8 - k) % 5 == 0
  {
    PowerOf5Value(8);
    PowAdd(5, k, 8 - k);
    PowAdd(2, k, 8 - k);
    assert Pow(2, 4) == 16;
    PowAdd(2, 4, 4);
    PowMul(5, 2, 8 - k);
  }

  /** What is left of the remainder shifted down, in front of it the quotient. */
  ghost function Joined(rem: nat, quotient: nat, s: nat): nat
    requires s <= 8
  {
    rem / Pow(2, s) + quotient * Pow(10, 8 - s)
  }

  /** Adding back the quotient's share of n to what is left of the remainder. */
  lemma ChainValue(n: nat, quotient: nat, r0: nat, rem: nat, k: nat) returns (m: nat)
    requires n == 100000000 * quotient + r0 && Fifths(r0, rem, k) && k <= 7
    ensures Fifths(n, m, k) && m % 5 == rem % 5
    ensures m / Pow(2, k) == Joined(rem, quotient, k)
  {
    hide Pow;
    ChainPowers(k);
    var f, f', w, w' := Pow(5, k), Pow(5, 8 - k), Pow(2, k), Pow(2, 8 - k);
    var share := quotient * (f' * 256);
    m := rem + share;
    ShareAlgebra(f, f', w, w', rem, quotient, r0);
    ModMultiple(rem, quotient * (f' / 5 * 256), 5);
    ModMultiple(rem, quotient * (f' * w'), w);
  }

  lemma ShareAlgebra(f: nat, f': nat, w: nat, w': nat, rem: nat, quotient: nat, r0: nat)
    requires f * f' == 390625 && w * w' == 256 && f' % 5 == 0 && f * rem == r0
    ensures f * (rem + quotient * (f' * 256)) == 100000000 * quotient + r0
    ensures quotient * (f' * 256) == 5 * (quotient * (f' / 5 * 256))
    ensures quotient * (f' * 256) == w * (quotient * (f' * w'))
  {
    MulDist(f, rem, quotient * (f' * 256));
    MulRotate(f, quotient, f' * 256);
    MulRotate(quotient, f, f' * 256);
    MulAssoc(f, f', 256);
    MulRotate(5, quotient, f' / 5 * 256);
    MulRotate(quotient, 5, f' / 5 * 256);
    MulRotate(f', w, w');
    MulRotate(w, f', w');
    MulRotate(quotient, w, f' * w');
    MulRotate(w, quotient, f' * w');
  }

  lemma ChainStops(n: nat, quotient: nat, r0: nat, rem: nat, k: nat, t: nat)
    requires n > 0 && n == 100000000 * quotient + r0 && Fifths(r0, rem, k) && k <= 7
    requires t == Min(CountTrailingZeros(n), 16) && k <= t
    requires k == t || rem % 5 != 0 || (k == 7 && n % 390625 != 0)
    ensures IsStripped(n, Joined(rem, quotient, k), k, 16)
  {
    var m := ChainValue(n, quotient, r0, rem, k);
    if k == t || rem % 5 != 0 {
      Stripped(n, m, k, t, 16);
    } else {
      TrailingBits(n);
      ZerosRemoved(n, m, k, CountTrailingZeros(n));
      if n % Pow(10, 8) == 0 {
        ChainPowers(0);
        Arith.DivMod(n, Pow(10, 8));
        MulAssoc(390625, Pow(2, 8), n / Pow(10, 8));
        DivUnique(n, 390625, Pow(2, 8) * (n / Pow(10, 8)), 0);
      }
    }
  }

  /** With eight zeros gone at once, the rest are found in 32 bits. */
  lemma BigQuotient(n: U64, t: nat)
    requires 0 < n <= (Q - 1) / 1000 && t == Min(CountTrailingZeros(n), 16) && t >= 8
    requires n % 390625 == 0
    ensures n / 390625 / 256 < B
    ensures Fifths(n, n / 390625 / 256 * 256, 8)
  {
    TrailingBits(n);
    FewerTwos(n, CountTrailingZeros(n), 8);
    ChainPowers(8);
    Pow5Odd(8);
    OddFactor(390625, n / 390625, 8);
  }

  lemma BigStripped(n: nat, q: nat, s: nat, t: nat)
    requires n > 0 && t == Min(CountTrailingZeros(n), 16) && 8 <= s <= t
    requires Fifths(n, q * 256, s) && (s == t || q % 5 != 0)
    ensures IsStripped(n, q / Pow(2, s - 8), s, 16)
  {
    Stripped(n, q * 256, s, t, 16);
    PowAdd(2, 8, s - 8);
    ChainPowers(8);
    DivDiv(q * 256, 256, Pow(2, s - 8));
    ModMultiple(0, q, 256);
  }

  lemma BigMoreFifths(n: nat, q: nat, s: nat)
    requires Fifths(n, q * 256, s) && q % 5 == 0
    ensures Fifths(n, q / 5 * 256, s + 1)
  {
    MoreFifths(n, q * 256, s);
    assert q * 256 == 5 * (q / 5 * 256);
  }

  /** From the quotient by 10^8, one zero at a time. */
  method RemoveFromQuotient(n: U64, t: nat, candidate: U64) returns (r: U64, s: nat)
    requires 0 < n <= (Q - 1) / 1000 && t == Min(CountTrailingZeros(n), 16) && t >= 8
    requires candidate == Product64(n, 0xc767074b22e90e21) <= 0x00002af31dc46118
    ensures IsStripped(n, r, s, 16)
  {
    hide Pow, CountTrailingZeros, Fifths, IsStripped, Product32, Product64;
    EightFifths(n);
    BigQuotient(n, t);
    var quotient: U32 := candidate / 256 % B;
    s := 8;
    while s < t
      invariant 8 <= s <= t && Fifths(n, quotient * 256, s)
    {
      Fifth(quotient);
      if Product32(quotient, 0xcccccccd) > 0x33333333 {
        break;
      }
      BigMoreFifths(n, quotient, s);
      quotient := Product32(quotient, 0xcccccccd);
      s := s + 1;
    }
    BigStripped(n, quotient, s, t);
    r := ShiftRight(quotient, s - 8);
  }

  /** From the remainder by 10^8, one zero at a time. */
  method RemoveFromRemainder(n: U64, t: nat) returns (r: U64, s: nat)
    requires 0 < n <= (Q - 1) / 1000 && t == Min(CountTrailingZeros(n), 16)
    requires t >= 8 ==> Product64(n, 0xc767074b22e90e21) > 0x00002af31dc46118
    ensures IsStripped(n, r, s, 16)
  {
    hide Pow, CountTrailingZeros, Fifths, IsStripped, Product32, Product64;
    EightFifths(n);
    var quotient: U32 := n / 100000000 % B;
    WrappedRemainder(n, quotient);
    var remainder: U32 := (n - Product32(quotient, 100000000)) % B;
    ghost var r0 := remainder;
    NoFifths(r0);
    s := 0;
    while s < 7
      invariant s <= 7 && s <= t && Fifths(r0, remainder, s) && (s == 7 ==> t >= 7)
    {
      Fifth(remainder);
      if t == s || Product32(remainder, 0xcccccccd) > 0x33333333 {
        break;
      }
      MoreFifths(r0, remainder, s);
      remainder := Product32(remainder, 0xcccccccd);
      s := s + 1;
    }
    ChainStops(n, quotient, r0, remainder, s, t);
    ChainFits(n, remainder, quotient, s);
    r := ShiftRight(remainder, s) + quotient * Pow(10, 8 - s);
  }

  /**
   * Removes up to sixteen trailing zeros of a 64-bit number no larger than a
   * thousandth of 2^64: eight at once when possible, else one at a time from
   * the remainder by 10^8.
   */
  method RemoveTrailingZeros64(n: U64) returns (r: U64, s: nat)
    requires 0 < n <= (Q - 1) / 1000
    ensures IsStripped(n, r, s, 16)
  {
    hide CountTrailingZeros, IsStripped, Product64;
    var t := Min(CountTrailingZeros(n), 16);
    if t >= 8 {
      var candidate := Product64(n, 0xc767074b22e90e21);
      if candidate <= 0x00002af31dc46118 {
        r, s := RemoveFromQuotient(n, t, candidate);
        return;
      }
    }
    r, s := RemoveFromRemainder(n, t);
  }

  /** The number without its zeros is no larger. */
  lemma ChainFits(n: nat, rem: nat, quotient: nat, s: nat)
    requires s <= 8 && IsStripped(n, Joined(rem, quotient, s), s, 16)
    ensures Joined(rem, quotient, s) <= n
  {
    MulMono(Joined(rem, quotient, s), 1, Pow(10, s));
  }
}
