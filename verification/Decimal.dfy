/** Decimal digit strings, rounding, and the carry through a run of nines. */
module Decimal {
  import opened Arith

  /** The character for a digit; the characters after '9' stand for ten and more. */
  function DigitChar(d: nat): char
    requires d <= 20
  {
    ('0' as int + d) as char
  }

  function Digit(c: char): int {
    c as int - '0' as int
  }

  predicate IsDigit(c: char) {
    '0' <= c <= '9'
  }

  predicate AllDigits(s: string) {
    forall i :: 0 <= i < |s| ==> IsDigit(s[i])
  }

  /** The number a digit string denotes, most significant digit first. */
  ghost function DecimalValue(s: string): int {
    if s == [] then 0 else 10 * DecimalValue(s[..|s| - 1]) + Digit(s[|s| - 1])
  }

  lemma DecimalSnoc(s: string, c: char)
    ensures DecimalValue(s + [c]) == 10 * DecimalValue(s) + Digit(c)
  {
    assert (s + [c])[..|s|] == s;
  }

  lemma {:induction false} DecimalConcat(s: string, t: string)
    ensures DecimalValue(s + t) == DecimalValue(s) * Pow(10, |t|) + DecimalValue(t)
  {
    if t == [] {
      assert s + t == s;
    } else {
      var t', c := t[..|t| - 1], t[|t| - 1];
      DecimalConcat(s, t');
      assert s + t == (s + t') + [c];
      DecimalSnoc(s + t', c);
      AppendDigit(DecimalValue(s), Pow(10, |t'|), DecimalValue(t'), Digit(c));
    }
  }

  lemma AppendDigit(x: int, p: int, y: int, d: int)
    ensures 10 * (x * p + y) + d == x * (10 * p) + (10 * y + d)
  {
    MulRotate(x, 10, p);
  }

  lemma {:induction false} DecimalBound(s: string)
    requires AllDigits(s)
    ensures 0 <= DecimalValue(s) < Pow(10, |s|)
  {
    if s != [] {
      DecimalBound(s[..|s| - 1]);
    }
  }

  lemma {:induction false} DecimalUpdate(s: string, i: nat, c: char)
    requires i < |s|
    ensures DecimalValue(s[i := c]) == DecimalValue(s) + (Digit(c) - Digit(s[i])) * Pow(10, |s| - 1 - i)
  {
    var n := |s| - 1;
    if i == n {
      assert s[i := c][..n] == s[..n];
    } else {
      DecimalUpdate(s[..n], i, c);
      assert s[i := c][..n] == s[..n][i := c];
      MulRotate(10, Digit(c) - Digit(s[i]), Pow(10, n - 1 - i));
    }
  }

  function ZeroDigits(n: nat): (s: string)
    ensures |s| == n && AllDigits(s) && forall i :: 0 <= i < n ==> s[i] == '0'
  {
    seq(n, _ => '0')
  }

  lemma {:induction false} DecimalZeros(n: nat)
    ensures DecimalValue(ZeroDigits(n)) == 0
  {
    if n > 0 {
      DecimalZeros(n - 1);
      assert ZeroDigits(n)[..n - 1] == ZeroDigits(n - 1);
    }
  }

  /** Moving a ten one place left keeps the value. */
  lemma CarryKeepsValue(s: string, i: nat)
    requires 0 < i < |s| && s[i] == ':' && s[i - 1] <= 'C'
    ensures var c := (s[i - 1] as int + 1) as char;
            DecimalValue(s[i := '0'][i - 1 := c]) == DecimalValue(s)
  {
    var c := (s[i - 1] as int + 1) as char;
    var t := s[i := '0'];
    DecimalUpdate(s, i, '0');
    DecimalUpdate(t, i - 1, c);
    assert Pow(10, |s| - i) == 10 * Pow(10, |s| - 1 - i);
  }

  /** A leading ten followed by zeros is ten times a leading one followed by zeros. */
  lemma TenIsOneUp(s: string)
    requires s != [] && s[0] == ':' && forall k :: 0 < k < |s| ==> s[k] == '0'
    ensures DecimalValue(s) == 10 * DecimalValue(s[0 := '1'])
  {
    var z := ZeroDigits(|s| - 1);
    assert s == ":" + z && s[0 := '1'] == "1" + z;
    DecimalConcat(":", z);
    DecimalConcat("1", z);
    DecimalZeros(|z|);
    assert DecimalValue(":") == 10 && DecimalValue("1") == 1 by {
      assert DecimalValue([]) == 0;
      assert ":"[..0] == [] && "1"[..0] == [];
    }
  }

  /** A one that a carry has left in front of zeros. */
  predicate Carried(s: string) {
    s != "" && s[0] == '1' && forall k :: 0 < k < |s| ==> s[k] == '0'
  }

  lemma {:induction false} CarriedValue(s: string)
    requires Carried(s)
    ensures AllDigits(s) && DecimalValue(s) == Pow(10, |s| - 1)
  {
    var z := ZeroDigits(|s| - 1);
    assert s == "1" + z;
    DecimalConcat("1", z);
    DecimalZeros(|z|);
    DecimalSnoc([], '1');
    assert [] + ['1'] == "1";
  }

  /** Digits behind a first character that may stand for up to nineteen. */
  predicate WideDigits(s: string) {
    s != [] ==> '0' <= s[0] <= 'C' && AllDigits(s[1..])
  }

  /** Such digits after rounding: the first character may stand for up to twenty. */
  predicate LooseDigits(s: string) {
    s != [] ==> '0' <= s[0] <= 'D' && AllDigits(s[1..])
  }

  lemma WideAt(s: string, i: nat)
    requires WideDigits(s) && i < |s|
    ensures '0' <= s[i] <= 'C' && (i > 0 ==> IsDigit(s[i]))
  {
    if i > 0 { assert s[1..][i - 1] == s[i]; }
  }

  lemma DigitsAreWide(s: string)
    requires AllDigits(s)
    ensures WideDigits(s)
  {
  }

  lemma WideOrDigits(s: string)
    requires WideDigits(s)
    ensures AllDigits(s) <==> s == [] || s[0] <= '9'
  {
    forall i | 0 <= i < |s| && s[0] <= '9' ensures IsDigit(s[i]) { WideAt(s, i); }
  }

  /** From i on s holds a possible ten and zeros, and before it is what was there. */
  ghost predicate CarryAt(was: string, s: string, i: nat) {
    && i < |s| == |was|
    && WideDigits(was[..|was| - 1]) && '0' <= was[|was| - 1] <= ':'
    && s[..i] == was[..i]
    && (s[i] == was[i] || s[i] as int == was[i] as int + 1)
    && (s[i] == was[i] <==> i == |s| - 1)
    && forall k :: i < k < |s| ==> s[k] == '0'
  }

  lemma CarryBegins(s: string)
    requires s != [] && WideDigits(s[..|s| - 1]) && '0' <= s[|s| - 1] <= ':'
    ensures CarryAt(s, s, |s| - 1)
  {}

  /** The characters that a carry can meet. */
  lemma CarryRange(was: string, s: string, i: nat)
    requires CarryAt(was, s, i)
    ensures '0' <= was[i] && (0 < i ==> '0' <= s[i] <= ':') && (i > 1 ==> IsDigit(s[i - 1]))
    ensures i == 1 ==> s[0] == was[0] && '0' <= s[0] <= 'C'
  {
    var w := was[..|was| - 1];
    if i < |w| { WideAt(w, i); assert was[i] == w[i]; }
    if i > 0 {
      WideAt(w, i - 1);
      assert s[i - 1] == s[..i][i - 1] == was[..i][i - 1] == w[i - 1];
    }
  }

  lemma CarryStep(was: string, s: string, i: nat)
    requires CarryAt(was, s, i) && i > 0 && s[i] == ':' && s[i - 1] <= 'C'
    ensures var c := (s[i - 1] as int + 1) as char;
            var t := s[i := '0'][i - 1 := c];
            CarryAt(was, t, i - 1) && DecimalValue(t) == DecimalValue(s)
  {
    CarryRange(was, s, i);
    CarryKeepsValue(s, i);
    var t := s[i := '0'][i - 1 := (s[i - 1] as int + 1) as char];
    assert s[i - 1] == s[..i][i - 1] == was[..i][i - 1];
    assert t[..i - 1] == s[..i][..i - 1];
  }

  /** Where the carry ends: in front of everything it passed, or inside. */
  lemma CarryEnd(was: string, s: string, i: nat)
    requires CarryAt(was, s, i) && (i == 0 || s[i] <= '9')
    ensures forall k :: 0 < k < |s| ==> IsDigit(s[k])
    ensures s[0] == was[0] || (s[0] as int == was[0] as int + 1 && forall k :: 0 < k < |s| ==> s[k] == '0')
    ensures |s| == 1 ==> s[0] == was[0]
  {
    CarryRange(was, s, i);
    forall k | 0 < k < |s| ensures IsDigit(s[k]) {
      if k < i {
        WideAt(was[..|was| - 1], k);
        assert s[k] == s[..i][k] == was[..i][k] == was[..|was| - 1][k];
      }
    }
    if i > 0 { assert s[0] == s[..i][0] == was[..i][0]; }
  }

  /** Carries a ten in the last of size digits leftwards through a run of nines. */
  method CarryNines(buf: array<char>, size: nat)
    requires 0 < size <= buf.Length && WideDigits(buf[..size - 1]) && '0' <= buf[size - 1] <= ':'
    modifies buf
    ensures buf[size..] == old(buf[size..])
    ensures DecimalValue(buf[..size]) == old(DecimalValue(buf[..size]))
    ensures forall k :: 0 < k < size ==> IsDigit(buf[k])
    ensures buf[0] == old(buf[0])
            || (size > 1 && buf[0] as int == old(buf[0]) as int + 1 && forall k :: 0 < k < size ==> buf[k] == '0')
  {
    hide CarryAt, DecimalValue, WideDigits;
    ghost var was := buf[..size];
    var i := size - 1;
    assert was[..size - 1] == buf[..size - 1];
    CarryBegins(was);
    while i > 0 && buf[i] > '9'
      invariant 0 <= i < size
      invariant CarryAt(was, buf[..size], i) && DecimalValue(buf[..size]) == DecimalValue(was)
      invariant buf[size..] == old(buf[size..])
    {
      ghost var s := buf[..size];
      CarryRange(was, s, i);
      CarryStep(was, s, i);
      buf[i] := '0';
      buf[i - 1] := (buf[i - 1] as int + 1) as char;
      assert buf[..size] == s[i := '0'][i - 1 := (s[i - 1] as int + 1) as char];
      i := i - 1;
    }
    CarryEnd(was, buf[..size], i);
  }

  /** q is the integer nearest to num / den, and the even one of two nearest. */
  ghost predicate IsHalfEven(q: int, num: int, den: int) {
    && -den <= 2 * (num - q * den) <= den
    && (2 * (num - q * den) == den || 2 * (num - q * den) == -den ==> q % 2 == 0)
  }

  lemma HalfEvenUnique(p: int, q: int, num: int, den: int)
    requires den > 0 && IsHalfEven(p, num, den) && IsHalfEven(q, num, den)
    ensures p == q
  {
    if p < q { NearestNeighbours(p, q, num, den); }
    if q < p { NearestNeighbours(q, p, num, den); }
  }

  lemma NearestNeighbours(p: int, q: int, num: int, den: int)
    requires den > 0 && p < q && IsHalfEven(p, num, den)
    ensures !IsHalfEven(q, num, den)
  {
    MulStrict(den, p, q);
    if q > p + 1 { MulMono(den, p + 2, q); MulDist(den, p, 2); }
    MulDist(den, p, 1);
  }

  /** Rounding does not depend on how the fraction is scaled. */
  lemma HalfEvenScale(q: int, num: int, den: int, num': int, den': int)
    requires den > 0 && den' > 0 && num * den' == num' * den
    requires IsHalfEven(q, num, den)
    ensures IsHalfEven(q, num', den')
  {
    var r, r' := num - q * den, num' - q * den';
    assert r * den' == r' * den by {
      MulDist(den', num, q * den);
      MulDist(den, num', q * den');
      MulRotate(q, den, den');
      MulRotate(q, den', den);
    }
    MulMono(den', 2 * r, den);
    MulMono(den', -den, 2 * r);
    ScaledLe(2 * r', den', den, 2 * r * den');
  }

  lemma ScaledLe(r: int, d: int, c: int, x: int)
    requires c > 0 && x == r * c && -(d * c) <= x <= d * c
    ensures -d <= r <= d
    ensures r == d <==> x == d * c
    ensures r == -d <==> x == -(d * c)
  {
    MulCancel(c, r, d);
    MulCancel(c, d, r);
    MulCancel(c, -d, r);
    MulCancel(c, r, -d);
  }

  /** Rounding a quotient by its remainder. */
  lemma RoundQuotient(num: int, den: int, quotient: int, remainder: int, q: int)
    requires num == quotient * den + remainder && 0 <= remainder < den
    requires q == quotient + if 2 * remainder > den || (2 * remainder == den && quotient % 2 != 0) then 1 else 0
    ensures IsHalfEven(q, num, den)
  {
    MulDist(den, quotient, 1);
  }
}
