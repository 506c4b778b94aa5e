/** Printing unsigned integers into a buffer and reading them back. */
module IntegerText {
  import opened Arith
  import opened Decimal
  import opened DigitCount

  /** The two characters the digit table holds for a value below one hundred. */
  function DigitPair(v: nat): (p: string)
    requires v < 100
    ensures |p| == 2
  {
    [DigitChar(v / 10), DigitChar(v % 10)]
  }

  lemma DigitPairValue(v: nat)
    requires v < 100
    ensures AllDigits(DigitPair(v)) && DecimalValue(DigitPair(v)) == v
  {
    var p := DigitPair(v);
    assert p[..1] == [p[0]] && [p[0]][..0] == [];
    assert DecimalValue([p[0]]) == v / 10;
  }

  /** The characters of s are the decimal form of v. */
  ghost predicate IsDecimalForm(s: string, v: nat) {
    AllDigits(s) && DecimalValue(s) == v && |s| == NumDigits(v)
  }

  /** Equally long digit strings with the same value are the same. */
  lemma {:induction false} DecimalInjective(s: string, t: string)
    requires AllDigits(s) && AllDigits(t) && |s| == |t| && DecimalValue(s) == DecimalValue(t)
    ensures s == t
  {
    if s != [] {
      var n := |s| - 1;
      DecimalInjective(s[..n], t[..n]);
      assert s == s[..n] + [s[n]] && t == t[..n] + [t[n]];
    }
  }

  /** Prefixing a pair of digits to the decimal form of a remainder extends the value. */
  lemma PrependPair(v: nat, tail: string)
    requires v < 100
    ensures DecimalValue(DigitPair(v) + tail) == v * Pow(10, |tail|) + DecimalValue(tail)
  {
    DigitPairValue(v);
    DecimalConcat(DigitPair(v), tail);
  }

  /** value is what remains to be written in front of tail. */
  ghost predicate Remaining(total: nat, value: nat, tail: string) {
    && AllDigits(tail)
    && total == value * Pow(10, |tail|) + DecimalValue(tail)
    && NumDigits(total) == NumDigits(value) + |tail|
  }

  lemma WritePair(total: nat, value: nat, tail: string)
    requires Remaining(total, value, tail) && value >= 100
    ensures Remaining(total, value / 100, DigitPair(value % 100) + tail)
    ensures NumDigits(total) >= |tail| + 3
  {
    hide Pow, DecimalValue, NumDigits;
    DigitPairValue(value % 100);
    PrependPair(value % 100, tail);
    HundredTimes(|tail|);
    SplitPair(value, Pow(10, |tail|));
    TwoDigitsLess(value);
  }

  lemma HundredTimes(n: nat)
    ensures Pow(10, n + 2) == 100 * Pow(10, n)
  {
    assert Pow(10, n + 2) == 10 * Pow(10, n + 1);
  }

  lemma TwoDigitsLess(n: nat)
    requires n >= 100
    ensures NumDigits(n) == 2 + NumDigits(n / 100)
    ensures NumDigits(n) >= 3
  {
    assert NumDigits(n) == 2 + NumDigits(n / 10 / 10);
  }

  lemma SplitPair(value: nat, p: nat)
    ensures value * p == value / 100 * (100 * p) + value % 100 * p
  {
    MulDist(p, 100 * (value / 100), value % 100);
    MulRotate(value / 100, 100, p);
  }

  lemma WriteLast(total: nat, value: nat, tail: string)
    requires Remaining(total, value, tail) && value < 100
    ensures NumDigits(total) == |tail| + if value < 10 then 1 else 2
    ensures value < 10 ==> IsDecimalForm([DigitChar(value)] + tail, total)
    ensures value >= 10 ==> IsDecimalForm(DigitPair(value) + tail, total)
  {
    SmallCounts(value);
    if value < 10 {
      DecimalConcat([DigitChar(value)], tail);
      DecimalSnoc([], DigitChar(value));
      assert [] + [DigitChar(value)] == [DigitChar(value)];
    } else {
      DigitPairValue(value);
      PrependPair(value, tail);
    }
  }

  /** Copies two characters into out. */
  method Copy2(out: array<char>, at: nat, pair: string)
    requires |pair| == 2 && at + 2 <= out.Length
    modifies out
    ensures out[..] == old(out[..at]) + pair + old(out[at + 2..])
  {
    out[at], out[at + 1] := pair[0], pair[1];
  }

  /**
   * Writes value right-aligned into the first size characters of out and
   * returns where it begins.
   */
  method FormatDecimal(out: array<char>, value: nat, size: nat) returns (begin: nat)
    requires NumDigits(value) <= size <= out.Length
    modifies out
    ensures begin == size - NumDigits(value)
    ensures IsDecimalForm(out[begin..size], value)
    ensures out[..begin] == old(out[..begin]) && out[size..] == old(out[size..])
  {
    hide Remaining, IsDecimalForm, NumDigits, Holds, DigitPair, DigitChar;
    ghost var was := out[..];
    ghost var tail := "";
    begin := size;
    var v := value;
    WriteStart(value, was, size);
    while v >= 100
      invariant begin == size - |tail| && Holds(out[..], was, begin, tail, size)
      invariant Remaining(value, v, tail)
    {
      WritePair(value, v, tail);
      ghost var s := out[..];
      begin := begin - 2;
      Copy2(out, begin, DigitPair(v % 100));
      PutInFront(s, was, begin, DigitPair(v % 100), tail, size);
      tail := DigitPair(v % 100) + tail;
      v := v / 100;
    }
    WriteLast(value, v, tail);
    ghost var s := out[..];
    ghost var head := if v < 10 then [DigitChar(v)] else DigitPair(v);
    begin := begin - if v < 10 then 1 else 2;
    if v < 10 {
      out[begin] := DigitChar(v);
    } else {
      Copy2(out, begin, DigitPair(v));
    }
    assert out[..] == s[..begin] + head + s[begin + |head|..];
    PutInFront(s, was, begin, head, tail, size);
    DecimalFormLength(head + tail, value);
    FinallyHolds(out[..], was, begin, head + tail, size);
  }

  /** s is was with the characters from begin to end replaced by tail. */
  ghost predicate Holds(s: string, was: string, begin: nat, tail: string, end: nat) {
    && begin + |tail| == end <= |was|
    && s == was[..begin] + tail + was[end..]
  }

  lemma PutInFront(s: string, was: string, begin: nat, head: string, tail: string, end: nat)
    requires Holds(s, was, begin + |head|, tail, end)
    ensures Holds(s[..begin] + head + s[begin + |head|..], was, begin, head + tail, end)
  {
    assert s[..begin] == was[..begin];
    assert s[begin + |head|..] == tail + was[end..];
  }

  lemma FinallyHolds(s: string, was: string, begin: nat, tail: string, end: nat)
    requires Holds(s, was, begin, tail, end)
    ensures |s| == |was| && s[begin..end] == tail && s[..begin] == was[..begin] && s[end..] == was[end..]
  {}

  lemma WriteStart(value: nat, was: string, size: nat)
    requires size <= |was|
    ensures Remaining(value, value, "") && Holds(was, was, size, "", size)
  {}

  lemma DecimalFormLength(s: string, v: nat)
    requires IsDecimalForm(s, v)
    ensures |s| == NumDigits(v)
  {}

  const INT_MAX: nat := 0x7fff_ffff

  datatype ParsedInt = TooBig | Parsed(value: nat, end: nat)

  /** The end of the run of digits that starts at i. */
  function DigitRunEnd(s: string, i: nat): (e: nat)
    requires i <= |s|
    ensures i <= e <= |s| && AllDigits(s[i..e])
    ensures e < |s| ==> !IsDigit(s[e])
    decreases |s| - i
  {
    if i == |s| || !IsDigit(s[i]) then i
    else
      var e := DigitRunEnd(s, i + 1);
      assert s[i..e] == [s[i]] + s[i + 1..e];
      e
  }

  /** The value of the digits at i when an int can hold it, and where they end. */
  ghost function NonnegativeIntAt(s: string, i: nat): ParsedInt
    requires i <= |s|
  {
    var e := DigitRunEnd(s, i);
    DecimalBound(s[i..e]);
    var v := DecimalValue(s[i..e]);
    if v <= INT_MAX then Parsed(v, e) else TooBig
  }

  /**
   * Reads an unsigned integer in 32-bit arithmetic that never wraps, and
   * fails exactly on numerals above INT_MAX.
   */
  method ParseNonnegativeInt(s: string, begin: nat) returns (r: ParsedInt)
    requires begin < |s| && IsDigit(s[begin])
    ensures r == NonnegativeIntAt(s, begin)
  {
    var value: U32 := 0;
    var big := INT_MAX / 10;
    var i := begin;
    ghost var e := DigitRunEnd(s, begin);
    assert s[begin..begin] == [];
    while true
      invariant begin <= i < e
      invariant DecimalValue(s[begin..i]) == value
      decreases e - i
    {
      RunContinues(s, begin, i);
      if value > big {
        RunExceeds(s, begin, i, e);
        return TooBig;
      }
      value := value * 10 + Digit(s[i]);
      assert s[begin..i + 1] == s[begin..i] + [s[i]];
      DecimalSnoc(s[begin..i], s[i]);
      i := i + 1;
      RunContinues(s, begin, i);
      if i == |s| || !IsDigit(s[i]) {
        break;
      }
    }
    if value > INT_MAX {
      return TooBig;
    }
    return Parsed(value, i);
  }

  lemma RunContinues(s: string, begin: nat, i: nat)
    requires begin <= |s| && begin <= i <= DigitRunEnd(s, begin)
    ensures i < |s| ==> (IsDigit(s[i]) <==> i < DigitRunEnd(s, begin))
  {
    var e := DigitRunEnd(s, begin);
    if i < e { assert s[begin..e][i - begin] == s[i]; }
  }

  /** A prefix above INT_MAX / 10 with another digit to come makes the numeral too big. */
  lemma RunExceeds(s: string, begin: nat, i: nat, e: nat)
    requires begin <= i < e <= |s| && AllDigits(s[begin..e])
    requires DecimalValue(s[begin..i]) > INT_MAX / 10
    ensures DecimalValue(s[begin..e]) > INT_MAX
  {
    assert s[begin..e] == s[begin..i] + s[i..e];
    assert AllDigits(s[i..e]) by {
      forall k | 0 <= k < e - i ensures IsDigit(s[i..e][k]) { assert s[i..e][k] == s[begin..e][k + i - begin]; }
    }
    DecimalConcat(s[begin..i], s[i..e]);
    DecimalBound(s[i..e]);
    PowMono(10, 1, e - i);
    MulMono(DecimalValue(s[begin..i]), 10, Pow(10, e - i));
  }

  /** Reading what was printed, when it fits an int, gives the number back. */
  lemma ReadBack(s: string, v: nat, rest: string)
    requires IsDecimalForm(s, v) && (rest == [] || !IsDigit(rest[0]))
    ensures NonnegativeIntAt(s + rest, 0) == if v <= INT_MAX then Parsed(v, |s|) else TooBig
  {
    RunOfDigits(s, rest, 0);
    assert (s + rest)[0..|s|] == s;
  }

  lemma {:induction false} RunOfDigits(s: string, rest: string, i: nat)
    requires AllDigits(s) && i <= |s| && (rest == [] || !IsDigit(rest[0]))
    ensures DigitRunEnd(s + rest, i) == |s|
    decreases |s| - i
  {
    if i < |s| {
      assert (s + rest)[i] == s[i];
      RunOfDigits(s, rest, i + 1);
    }
  }
}
