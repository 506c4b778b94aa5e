/** Laying out a decimal significand and exponent as text. */
module FloatText {
  import opened Arith
  import opened Decimal
  import opened IntegerText

  datatype Format = General | Exp | Fixed | Hex

  datatype FloatSpecs = FloatSpecs(precision: int, format: Format, upper: bool, showpoint: bool)

  /** The first position of c in s, or the length of s. */
  function IndexOf(s: string, c: char): (i: nat)
    ensures i <= |s| && (i < |s| ==> s[i] == c)
  {
    if s == [] || s[0] == c then 0 else 1 + IndexOf(s[1..], c)
  }

  lemma {:induction false} IndexOfConcat(a: string, c: char, b: string)
    requires c !in a
    ensures IndexOf(a + [c] + b, c) == |a|
    ensures IndexOf(a, c) == |a|
  {
    if a != [] {
      assert (a + [c] + b)[1..] == a[1..] + [c] + b;
      IndexOfConcat(a[1..], c, b);
    }
  }

  /** Where the exponent of a number begins. */
  function ExponentMark(s: string): (i: nat)
    ensures i <= |s|
  {
    Min(IndexOf(s, 'e'), IndexOf(s, 'E'))
  }

  /** x * 10^i and y * 10^j are the same number. */
  ghost predicate SameDecimal(x: int, i: int, y: int, j: int) {
    x * Pow(10, Max(i - j, 0)) == y * Pow(10, Max(j - i, 0))
  }

  /** Equal numbers are equal in units of any place below both. */
  lemma SameInUnits(x: int, i: int, y: int, j: int, b: int)
    requires b <= i && b <= j
    ensures SameDecimal(x, i, y, j) <==> x * Pow(10, i - b) == y * Pow(10, j - b)
  {
    hide Pow;
    PowZero(10);
    if i >= j {
      PowAdd(10, i - j, j - b);
      MulAssoc(x, Pow(10, i - j), Pow(10, j - b));
      MulCancel(Pow(10, j - b), x * Pow(10, i - j), y);
    } else {
      PowAdd(10, j - i, i - b);
      MulAssoc(y, Pow(10, j - i), Pow(10, i - b));
      MulCancel(Pow(10, i - b), x, y * Pow(10, j - i));
    }
  }

  lemma SameTransitive(x: int, i: int, y: int, j: int, z: int, k: int)
    requires SameDecimal(x, i, y, j)
    ensures SameDecimal(x, i, z, k) <==> SameDecimal(y, j, z, k)
  {
    hide Pow, SameDecimal;
    var b := Min(i, Min(j, k));
    SameInUnits(x, i, y, j, b);
    SameInUnits(y, j, z, k, b);
    SameInUnits(x, i, z, k, b);
  }

  /** A signed exponent: a sign and at least two digits. */
  predicate IsExponent(s: string) {
    && |s| >= 3 && AllDigits(s[1..])
    && (s[0] == '+' || s[0] == '-')
  }

  ghost function ExponentValue(s: string): int {
    if s == [] then 0 else if s[0] == '-' then -DecimalValue(s[1..]) else DecimalValue(s[1..])
  }

  /** The digits of a mantissa without its decimal point. */
  function MantissaDigits(m: string, point: char): string {
    var p := IndexOf(m, point);
    if p < |m| then m[..p] + m[p + 1..] else m
  }

  /** The power of ten that the decimal point stands for. */
  function MantissaScale(m: string, point: char): int {
    var p := IndexOf(m, point);
    if p < |m| then -(|m| - p - 1) else 0
  }

  /** m is a mantissa with the digits d scaled by 10^i. */
  ghost predicate IsMantissa(m: string, point: char, d: string, i: int) {
    && MantissaDigits(m, point) == d && MantissaScale(m, point) == i
    && d != [] && AllDigits(d)
  }

  /** Digits, with a point among them or without, and an optional exponent. */
  predicate IsNumber(s: string, point: char) {
    var mark := ExponentMark(s);
    var d := MantissaDigits(s[..mark], point);
    d != [] && AllDigits(d) && (mark < |s| ==> IsExponent(s[mark + 1..]))
  }

  /** Read as a decimal number with an optional exponent, s is v * 10^k. */
  ghost predicate Denotes(s: string, point: char, v: int, k: int) {
    var mark := ExponentMark(s);
    var m, t := s[..mark], if mark < |s| then s[mark + 1..] else [];
    && IsNumber(s, point)
    && SameDecimal(DecimalValue(MantissaDigits(m, point)), MantissaScale(m, point) + ExponentValue(t), v, k)
  }

  /** A text denotes one number, in whatever units it is given. */
  lemma DenotesOneNumber(s: string, point: char, v: int, k: int, x: int, i: int)
    requires Denotes(s, point, v, k)
    ensures Denotes(s, point, x, i) <==> SameDecimal(v, k, x, i)
  {
    hide SameDecimal, DecimalValue, MantissaDigits, MantissaScale, ExponentValue, ExponentMark, IsNumber;
    var mark := ExponentMark(s);
    var m, t := s[..mark], if mark < |s| then s[mark + 1..] else [];
    SameTransitive(DecimalValue(MantissaDigits(m, point)), MantissaScale(m, point) + ExponentValue(t), v, k, x, i);
  }

  predicate IsPoint(c: char) {
    !IsDigit(c) && c != 'e' && c != 'E'
  }

  /** Digits, a point and more digits. */
  lemma PointedMantissa(a: string, point: char, b: string)
    requires AllDigits(a) && AllDigits(b) && a + b != [] && IsPoint(point)
    ensures IsMantissa(a + [point] + b, point, a + b, -|b|)
  {
    var m := a + [point] + b;
    IndexOfConcat(a, point, b);
    assert m[..|a|] + m[|a| + 1..] == a + b;
  }

  lemma PlainMantissa(a: string, point: char)
    requires AllDigits(a) && a != [] && IsPoint(point)
    ensures IsMantissa(a, point, a, 0)
  {
    IndexOfConcat(a, point, []);
  }

  predicate NoMark(s: string) {
    'e' !in s && 'E' !in s
  }

  lemma HaveNoMark(a: string, point: char, b: string)
    requires NoMark(a) && NoMark(b) && IsPoint(point)
    ensures NoMark(a + [point] + b) && NoMark(a + b)
  {}

  lemma LooseHasNoMark(s: string, zeros: nat)
    requires LooseDigits(s)
    ensures NoMark(s) && NoMark(ZeroDigits(zeros))
    ensures forall i, j :: 0 <= i <= j <= |s| ==> NoMark(s[i..j])
  {
    forall c | c in s ensures c != 'e' && c != 'E' {
      if c != s[0] { assert c in s[1..]; }
    }
  }

  /** What stands in place of a digit for ten and more. */
  predicate IsQuotient(c: char) {
    '9' < c <= 'D'
  }

  lemma {:induction false} IndexBehind(s: string, c: char, i: nat)
    requires i <= |s| && c !in s[..i]
    ensures IndexOf(s, c) >= i
  {
    if i > 0 {
      assert s[0] == s[..i][0];
      assert s[1..][..i - 1] == s[..i][1..];
      IndexBehind(s[1..], c, i - 1);
    }
  }

  /** No text with such a character in its mantissa is a number. */
  lemma NotANumber(s: string, i: nat, point: char)
    requires i < |s| && NoMark(s[..i + 1]) && IsQuotient(s[i]) && s[i] != point
    ensures !IsNumber(s, point)
  {
    IndexBehind(s, 'e', i + 1);
    IndexBehind(s, 'E', i + 1);
    var m := s[..ExponentMark(s)];
    var p := IndexOf(m, point);
    assert m[i] == s[i];
    if p < |m| {
      var d := m[..p] + m[p + 1..];
      assert d[if i < p then i else i - 1] == s[i];
    }
  }

  // The layout of a text, measured on the text.

  /** The characters before the point or the exponent. */
  function Front(s: string, point: char): nat {
    Min(IndexOf(s, point), ExponentMark(s))
  }

  predicate HasPoint(s: string, point: char) {
    IndexOf(s, point) < ExponentMark(s)
  }

  /** The characters between the point and the exponent or the end. */
  function Behind(s: string, point: char): nat {
    if HasPoint(s, point) then ExponentMark(s) - IndexOf(s, point) - 1 else 0
  }

  predicate Laid(s: string, point: char, front: nat, behind: nat, hasPoint: bool) {
    Front(s, point) == front && Behind(s, point) == behind && (HasPoint(s, point) <==> hasPoint)
  }

  /** Nothing, or an exponent with its letter. */
  predicate IsTail(t: string) {
    t == "" || t[0] == 'e' || t[0] == 'E'
  }

  lemma MarkBehind(s: string, t: string)
    requires NoMark(s) && IsTail(t)
    ensures ExponentMark(s + t) == |s|
  {
    if t == "" {
      assert s + t == s;
      IndexOfConcat(s, 'e', "");
      IndexOfConcat(s, 'E', "");
    } else {
      assert s + t == s + [t[0]] + t[1..];
      IndexOfConcat(s, t[0], t[1..]);
      MarkIsFirst(s, t[0], t[1..]);
    }
  }

  lemma LaidWithPoint(a: string, point: char, b: string, t: string)
    requires NoMark(a) && NoMark(b) && IsPoint(point) && point !in a && IsTail(t)
    ensures Laid(a + [point] + b + t, point, |a|, |b|, true)
  {
    HaveNoMark(a, point, b);
    MarkBehind(a + [point] + b, t);
    assert a + [point] + b + t == a + [point] + (b + t);
    IndexOfConcat(a, point, b + t);
  }

  lemma LaidWithoutPoint(a: string, point: char, t: string)
    requires NoMark(a) && IsPoint(point) && point !in a && IsTail(t)
    ensures Laid(a + t, point, |a|, 0, false)
  {
    MarkBehind(a, t);
    assert (a + t)[..|a|] == a;
    IndexBehind(a + t, point, |a|);
  }

  lemma NoPointInDigits(s: string, zeros: nat, point: char)
    requires LooseDigits(s) && IsPoint(point) && !IsQuotient(point)
    ensures point !in s && point !in ZeroDigits(zeros)
    ensures forall i, j :: 0 <= i <= j <= |s| ==> point !in s[i..j]
  {
  }

  /**
   * The text shows digits scaled by 10^k: it denotes that number, or is none
   * when nothing is shown; and it is none when they are not all digits.
   */
  ghost predicate Shown(out: string, point: char, digits: string, k: int, shows: bool) {
    if !AllDigits(digits) then IsQuotient(point) || !IsNumber(out, point)
    else if shows then Denotes(out, point, DecimalValue(digits), k)
    else !IsNumber(out, point)
  }

  /** Loose digits that are not all digits make no number of a text that has them in front of any exponent. */
  lemma LooseIsShown(a: string, digits: string, b: string, point: char, k: int)
    requires LooseDigits(digits) && !AllDigits(digits) && NoMark(a) && IsPoint(point) && |b| >= |digits|
    requires b[0] == digits[0]
    ensures Shown(a + b, point, digits, k, true)
  {
    var out := a + b;
    assert out[|a|] == digits[0] && out[..|a| + 1] == a + [digits[0]];
    assert AllDigits(digits) <==> IsDigit(digits[0]) by {
      forall i | 0 < i < |digits| ensures IsDigit(digits[i]) { assert digits[1..][i - 1] == digits[i]; }
    }
    if digits[0] != point { NotANumber(out, |a|, point); }
  }

  lemma DenotesWithoutExponent(m: string, point: char, d: string, i: int, v: int, k: int)
    requires NoMark(m) && IsMantissa(m, point, d, i) && SameDecimal(DecimalValue(d), i, v, k)
    ensures Denotes(m, point, v, k)
  {
    hide MantissaDigits, MantissaScale, SameDecimal, DecimalValue;
    IndexOfConcat(m, 'e', []);
    IndexOfConcat(m, 'E', []);
    assert m[..|m|] == m;
  }

  lemma DenotesWithExponent(m: string, mark: char, t: string, point: char, d: string, i: int, v: int, k: int)
    requires NoMark(m) && (mark == 'e' || mark == 'E')
    requires IsMantissa(m, point, d, i) && IsExponent(t) && SameDecimal(DecimalValue(d), i + ExponentValue(t), v, k)
    ensures Denotes(m + [mark] + t, point, v, k)
  {
    hide MantissaDigits, MantissaScale, SameDecimal, DecimalValue, IsExponent, ExponentValue, IndexOf;
    var s := m + [mark] + t;
    IndexOfConcat(m, mark, t);
    MarkIsFirst(m, mark, t);
    assert ExponentMark(s) == |m|;
    assert s[..|m|] == m && s[|m| + 1..] == t;
  }

  lemma {:induction false} MarkIsFirst(m: string, mark: char, t: string)
    requires NoMark(m)
    ensures IndexOf(m + [mark] + t, 'e') >= |m| && IndexOf(m + [mark] + t, 'E') >= |m|
  {
    if m != [] {
      assert (m + [mark] + t)[1..] == m[1..] + [mark] + t;
      MarkIsFirst(m[1..], mark, t);
    }
  }

  lemma SameNumber(x: int, i: int, k: int)
    requires i == k || x == 0
    ensures SameDecimal(x, i, x, k)
  {}

  /** Trailing zeros scale the digits up and the exponent down. */
  lemma TrailingZeros(s: string, n: nat, k: int)
    ensures SameDecimal(DecimalValue(s + ZeroDigits(n)), k - n, DecimalValue(s), k)
  {
    DecimalConcat(s, ZeroDigits(n));
    DecimalZeros(n);
  }

  lemma LeadingZeros(n: nat, s: string)
    ensures DecimalValue(ZeroDigits(n) + s) == DecimalValue(s)
  {
    DecimalConcat(ZeroDigits(n), s);
    DecimalZeros(n);
  }

  /** Extends digits whose value is x by the digit y. */
  lemma OneMoreDigit(digits: string, x: int, y: nat)
    requires AllDigits(digits) && DecimalValue(digits) == x && y < 10
    ensures AllDigits(digits + [DigitChar(y)]) && DecimalValue(digits + [DigitChar(y)]) == 10 * x + y
  {
    DecimalSnoc(digits, DigitChar(y));
  }

  lemma NoDigitsYet()
    ensures AllDigits("") && DecimalValue("") == 0
  {}

  /** The exponent as it is written: its sign, and two digits or as many as it has. */
  ghost predicate IsExponentOf(s: string, exp: int) {
    && ExponentValue(s) == exp
    && s != "" && s[0] == (if exp < 0 then '-' else '+')
    && |s| == 1 + if -100 < exp < 100 then 2 else if -1000 < exp < 1000 then 3 else 4
  }

  /** Writes the exponent as a sign and at least two digits. */
  method WriteExponent(exp: int) returns (out: string)
    requires -10000 < exp < 10000
    ensures IsExponent(out) && IsExponentOf(out, exp)
  {
    hide IsExponent, ExponentValue, AllDigits, DecimalValue, DigitChar;
    var e := exp;
    if e < 0 {
      out := "-";
      e := -e;
    } else {
      out := "+";
    }
    ghost var sign, value := out, e;
    ghost var digits := "";
    NoDigitsYet();
    if e >= 100 {
      var top := DigitPair(e / 100);
      if e >= 1000 {
        OneMoreDigit(digits, 0, e / 1000);
        out := out + [top[0]];
        digits := digits + [top[0]];
      }
      OneMoreDigit(digits, DecimalValue(digits), e / 100 % 10);
      out := out + [top[1]];
      digits := digits + [top[1]];
      e := e % 100;
    }
    assert out == sign + digits && DecimalValue(digits) == value / 100 && AllDigits(digits);
    var d := DigitPair(e);
    OneMoreDigit(digits, value / 100, e / 10);
    out := out + [d[0]];
    digits := digits + [d[0]];
    OneMoreDigit(digits, value / 10, e % 10);
    out := out + [d[1]];
    digits := digits + [d[1]];
    assert out == sign + digits;
    ExponentForm(sign, digits);
  }

  lemma ExponentForm(sign: string, digits: string)
    requires (sign == "+" || sign == "-") && AllDigits(digits) && |digits| >= 2
    ensures IsExponent(sign + digits)
    ensures ExponentValue(sign + digits) == if sign == "-" then -DecimalValue(digits) else DecimalValue(digits)
  {
    assert (sign + digits)[1..] == digits;
  }

  /** A decimal number significand * 10^exp, its digits as text. */
  datatype DecimalFp = DecimalFp(significand: string, exp: int)

  function OutputExp(fp: DecimalFp): int {
    fp.exp + |fp.significand| - 1
  }

  predicate UseExpFormat(fp: DecimalFp, specs: FloatSpecs) {
    specs.format == Exp ||
    (specs.format == General &&
     (OutputExp(fp) < -4 || OutputExp(fp) >= if specs.precision > 0 then specs.precision else 16))
  }

  /** Whether the layout without an exponent has a digit: an empty significand may leave none. */
  predicate ShowsDigits(fp: DecimalFp, specs: FloatSpecs) {
    fp.significand != "" || fp.exp != 0 || (specs.showpoint && (specs.precision > 0 || specs.format != Fixed))
  }

  /** How many characters stand before the point. */
  function FrontShown(fp: DecimalFp, specs: FloatSpecs): nat {
    var exp := OutputExp(fp) + 1;
    if UseExpFormat(fp, specs) then 1 else if exp > 0 then exp else if fp.exp < 0 then 1 else 0
  }

  /** How many places stand behind it: those of the digits, and zeros added with showpoint. */
  function PlacesShown(fp: DecimalFp, specs: FloatSpecs): nat {
    var size, exp := |fp.significand|, OutputExp(fp) + 1;
    var added := if specs.showpoint then Max(specs.precision - size, 0) else 0;
    if UseExpFormat(fp, specs) then (if size > 0 then size - 1 else 0) + added
    else if fp.exp >= 0 then
      if !specs.showpoint then 0
      else if specs.precision > exp then specs.precision - exp
      else if specs.format == Fixed then 0 else 1
    else if exp > 0 then -fp.exp + added
    else if size == 0 && 0 <= specs.precision < -fp.exp then specs.precision
    else -fp.exp
  }

  /** A point is written before places, and with showpoint. */
  predicate LaidOut(out: string, point: char, fp: DecimalFp, specs: FloatSpecs) {
    Laid(out, point, FrontShown(fp, specs), PlacesShown(fp, specs), PlacesShown(fp, specs) > 0 || specs.showpoint)
  }

  /** The last of the digits is the last character before any exponent. */
  predicate EndsInDigit(out: string, digits: string)
    requires digits != ""
  {
    ExponentMark(out) > 0 && out[ExponentMark(out) - 1] == digits[|digits| - 1]
  }

  lemma DigitAtEnd(m: string, t: string, digits: string)
    requires NoMark(m) && IsTail(t) && digits != "" && m != "" && m[|m| - 1] == digits[|digits| - 1]
    ensures EndsInDigit(m + t, digits)
  {
    MarkBehind(m, t);
  }

  /** The letter of the exponent, and the exponent itself. */
  ghost predicate EndsInExponent(out: string, fp: DecimalFp, specs: FloatSpecs) {
    var mark := ExponentMark(out);
    && mark < |out| && out[mark] == (if specs.upper then 'E' else 'e')
    && IsExponentOf(out[mark + 1..], OutputExp(fp))
  }

  /**
   * Writes significand * 10^exp in one of four layouts. The text denotes
   * exactly that number, whatever zeros are added, and has an exponent exactly
   * when the format and the magnitude ask for one. An empty significand has no
   * layout with an exponent, whose digits would be copied from beyond its end.
   */
  method WriteFloat(fp: DecimalFp, specs: FloatSpecs, point: char) returns (ok: bool, out: string)
    requires LooseDigits(fp.significand) && IsPoint(point)
    requires UseExpFormat(fp, specs) ==> -10000 < OutputExp(fp) < 10000
    ensures ok <==> fp.significand != "" || !UseExpFormat(fp, specs)
    ensures ok ==> Shown(out, point, fp.significand, fp.exp, ShowsDigits(fp, specs))
    ensures ok ==> (NoMark(out) <==> !UseExpFormat(fp, specs))
    ensures ok && !IsQuotient(point) ==> LaidOut(out, point, fp, specs)
    ensures ok && UseExpFormat(fp, specs) ==> EndsInExponent(out, fp, specs)
    ensures ok && fp.significand != "" && !specs.showpoint && PlacesShown(fp, specs) > 0 ==>
              EndsInDigit(out, fp.significand)
    ensures ok && fp.significand == "" && !specs.showpoint ==>
              && (fp.exp >= 0 ==> out == ZeroDigits(fp.exp))
              && (fp.exp < 0 && specs.precision == 0 ==> out == "0")
  {
    hide Shown, LooseDigits, NoMark, IsPoint, IsQuotient, Laid, EndsInExponent, EndsInDigit;
    ok := true;
    var digits := fp.significand;
    var size := |digits|;
    if UseExpFormat(fp, specs) {
      if size == 0 { return false, ""; }
      out := WriteScientific(fp, specs, point);
      return;
    }
    var exp := fp.exp + size;
    if size <= exp {
      out := WriteInteger(fp, specs, point);
    } else if exp > 0 {
      out := digits[..exp];
      if !specs.showpoint {
        if size != exp {
          out := out + [point];
        }
        out := out + digits[exp..];
        PointInside(digits, exp, 0, point);
        assert digits[exp..] + ZeroDigits(0) == digits[exp..];
        assert out + "" == out;
        DigitAtEnd(out, "", digits);
        return;
      }
      out := out + [point];
      out := out + digits[exp..];
      var zeros := Max(specs.precision - size, 0);
      PointInside(digits, exp, zeros, point);
      assert digits[..exp] + [point] + digits[exp..] + ZeroDigits(zeros)
          == digits[..exp] + [point] + (digits[exp..] + ZeroDigits(zeros));
      out := out + ZeroDigits(zeros);
    } else {
      out := "0";
      var numZeros := -exp;
      if size == 0 && specs.precision >= 0 && specs.precision < numZeros {
        numZeros := specs.precision;
      }
      PointInFront(digits, numZeros, point, fp.exp);
      if numZeros != 0 || size != 0 || specs.showpoint {
        out := out + [point];
        out := out + ZeroDigits(numZeros);
        out := out + digits;
        if size > 0 {
          assert out + "" == out;
          DigitAtEnd(out, "", digits);
        }
      }
    }
  }

  lemma EmptyValue()
    ensures DecimalValue("") == 0
  {}

  /** 1234e-2 as 12.34, with zeros added. */
  lemma PointInside(digits: string, exp: nat, zeros: nat, point: char)
    requires LooseDigits(digits) && IsPoint(point) && 0 < exp <= |digits|
    ensures var out := digits[..exp] + [point] + (digits[exp..] + ZeroDigits(zeros));
            && Shown(out, point, digits, exp - |digits|, true) && NoMark(out)
            && (!IsQuotient(point) ==> Laid(out, point, exp, |digits| - exp + zeros, true))
  {
    hide Denotes, IsMantissa, SameDecimal, DecimalValue, Pow, NoMark, IsNumber, Laid, IsPoint, IsQuotient;
    var a, b := digits[..exp], digits[exp..] + ZeroDigits(zeros);
    LooseHasNoMark(digits, zeros);
    HaveNoMark(digits[exp..], point, ZeroDigits(zeros));
    HaveNoMark(a, point, b);
    if !IsQuotient(point) {
      NoPointInDigits(digits, zeros, point);
      LaidWithPoint(a, point, b, "");
      assert a + [point] + b + "" == a + [point] + b;
    }
    if AllDigits(digits) {
      PointedMantissa(a, point, b);
      assert a + b == digits + ZeroDigits(zeros);
      TrailingZeros(digits, zeros, exp - |digits|);
      DenotesWithoutExponent(a + [point] + b, point, a + b, -|b|, DecimalValue(digits), exp - |digits|);
    } else {
      LooseIsShown("", digits, a + [point] + b, point, exp - |digits|);
      assert "" + (a + [point] + b) == a + [point] + b;
    }
  }

  /** 1234e-6 as 0.001234, and zero with any number of zeros. */
  lemma PointInFront(digits: string, zeros: nat, point: char, k: int)
    requires LooseDigits(digits) && IsPoint(point)
    requires digits == "" || k == -(zeros + |digits|)
    ensures var out := "0" + [point] + ZeroDigits(zeros) + digits;
            && Shown(out, point, digits, k, true) && NoMark(out)
            && (!IsQuotient(point) ==> Laid(out, point, 1, zeros + |digits|, true))
    ensures NoMark("0") && (digits == "" ==> Shown("0", point, digits, k, true))
    ensures !IsQuotient(point) ==> Laid("0", point, 1, 0, false)
  {
    hide Denotes, IsMantissa, SameDecimal, DecimalValue, Pow, NoMark, IsNumber, Laid, IsPoint, IsQuotient;
    var b := ZeroDigits(zeros) + digits;
    LooseHasNoMark(digits, zeros);
    LooseHasNoMark("0", 0);
    HaveNoMark(ZeroDigits(zeros), point, digits);
    HaveNoMark("0", point, ZeroDigits(zeros));
    HaveNoMark("0", point, b);
    assert "0" + [point] + b == "0" + [point] + ZeroDigits(zeros) + digits;
    if !IsQuotient(point) {
      NoPointInDigits("0", zeros, point);
      LaidWithPoint("0", point, b, "");
      LaidWithoutPoint("0", point, "");
      assert "0" + [point] + b + "" == "0" + [point] + b && "0" + "" == "0";
    }
    if AllDigits(digits) {
      PointedMantissa("0", point, b);
      assert "0" + b == ZeroDigits(zeros + 1) + digits;
      LeadingZeros(zeros + 1, digits);
      EmptyValue();
      SameNumber(DecimalValue(digits), -|b|, k);
      DenotesWithoutExponent("0" + [point] + b, point, "0" + b, -|b|, DecimalValue(digits), k);
      if digits == "" { ZeroAlone(point, k); }
    } else {
      LooseIsShown("0" + [point] + ZeroDigits(zeros), digits, digits, point, k);
    }
  }

  lemma ZeroAlone(point: char, k: int)
    requires IsPoint(point)
    ensures Denotes("0", point, 0, k)
  {
    hide Denotes, IsMantissa, SameDecimal, DecimalValue;
    PlainMantissa("0", point);
    assert "0" == ZeroDigits(1);
    DecimalZeros(1);
    SameNumber(0, 0, k);
    DenotesWithoutExponent("0", point, "0", 0, 0, k);
  }

  /** The layout 1.234e+05. */
  method WriteScientific(fp: DecimalFp, specs: FloatSpecs, point: char) returns (out: string)
    requires LooseDigits(fp.significand) && fp.significand != "" && IsPoint(point)
    requires -10000 < OutputExp(fp) < 10000
    ensures Shown(out, point, fp.significand, fp.exp, true) && !NoMark(out)
    ensures var size := |fp.significand|;
            var places := size - 1 + if specs.showpoint then Max(specs.precision - size, 0) else 0;
            !IsQuotient(point) ==> Laid(out, point, 1, places, size > 1 || specs.showpoint)
    ensures EndsInExponent(out, fp, specs) && (!specs.showpoint ==> EndsInDigit(out, fp.significand))
  {
    hide Shown, LooseDigits, Laid, EndsInExponent, EndsInDigit, IsPoint, IsQuotient, IsExponent, ExponentValue;
    var digits := fp.significand;
    var size := |digits|;
    out := [digits[0]];
    var numZeros := specs.precision - size;
    var hasPoint := size > 1 || specs.showpoint;
    if hasPoint {
      out := out + [point];
    }
    out := out + digits[1..];
    var zeros := if numZeros > 0 && specs.showpoint then numZeros else 0;
    out := out + ZeroDigits(zeros);
    assert hasPoint ==> out == digits[..1] + [point] + (digits[1..] + ZeroDigits(zeros));
    assert !hasPoint ==> out == digits;
    ghost var mantissa := out;
    var mark := if specs.upper then 'E' else 'e';
    out := out + [mark];
    var t := WriteExponent(OutputExp(fp));
    if hasPoint {
      ScientificPointed(digits, zeros, mark, t, point, fp.exp);
    } else {
      ScientificPlain(digits, mark, t, point, fp.exp);
    }
    assert mark in out;
    out := out + t;
    ExponentAtEnd(mantissa, mark, t, fp, specs);
    if !specs.showpoint {
      assert mantissa + ([mark] + t) == out;
      assert mantissa[|mantissa| - 1] == digits[size - 1];
      DigitAtEnd(mantissa, [mark] + t, digits);
    }
  }

  lemma ExponentAtEnd(m: string, mark: char, t: string, fp: DecimalFp, specs: FloatSpecs)
    requires NoMark(m) && mark == (if specs.upper then 'E' else 'e') && IsExponentOf(t, OutputExp(fp))
    ensures EndsInExponent(m + [mark] + t, fp, specs)
  {
    MarkBehind(m, [mark] + t);
    assert m + ([mark] + t) == m + [mark] + t;
    assert (m + [mark] + t)[|m| + 1..] == t;
  }

  lemma SplitDigits(digits: string, zeros: nat)
    requires AllDigits(digits) && digits != ""
    ensures var a, b := digits[..1], digits[1..] + ZeroDigits(zeros);
            AllDigits(a) && AllDigits(b) && a + b == digits + ZeroDigits(zeros)
  {}

  lemma ScientificPointed(digits: string, zeros: nat, mark: char, t: string, point: char, k: int)
    requires LooseDigits(digits) && digits != "" && IsPoint(point) && (mark == 'e' || mark == 'E')
    requires IsExponent(t) && ExponentValue(t) == k + |digits| - 1
    ensures var m := digits[..1] + [point] + (digits[1..] + ZeroDigits(zeros));
            && NoMark(m) && Shown(m + [mark] + t, point, digits, k, true)
            && (!IsQuotient(point) ==> Laid(m + [mark] + t, point, 1, |digits| - 1 + zeros, true))
  {
    hide IsExponent, ExponentValue, AllDigits, Denotes, IsMantissa, SameDecimal, DecimalValue, Pow, IsNumber, NoMark;
    hide Laid, IsPoint, IsQuotient;
    var a, b := digits[..1], digits[1..] + ZeroDigits(zeros);
    LooseHasNoMark(digits, zeros);
    HaveNoMark(digits[1..], point, ZeroDigits(zeros));
    HaveNoMark(a, point, b);
    if !IsQuotient(point) {
      NoPointInDigits(digits, zeros, point);
      LaidWithPoint(a, point, b, [mark] + t);
      assert a + [point] + b + ([mark] + t) == a + [point] + b + [mark] + t;
    }
    if AllDigits(digits) {
      SplitDigits(digits, zeros);
      TrailingZeros(digits, zeros, k);
      PointedMantissa(a, point, b);
      DenotesWithExponent(a + [point] + b, mark, t, point, a + b, -|b|, DecimalValue(digits), k);
    } else {
      var out := a + [point] + b + [mark] + t;
      EmptyHasNoMark();
      LooseIsShown("", digits, out, point, k);
      assert "" + out == out;
    }
  }

  lemma EmptyHasNoMark()
    ensures NoMark("")
  {}

  lemma ScientificPlain(digits: string, mark: char, t: string, point: char, k: int)
    requires LooseDigits(digits) && |digits| == 1 && IsPoint(point) && (mark == 'e' || mark == 'E')
    requires IsExponent(t) && ExponentValue(t) == k
    ensures NoMark(digits) && Shown(digits + [mark] + t, point, digits, k, true)
    ensures !IsQuotient(point) ==> Laid(digits + [mark] + t, point, 1, 0, false)
  {
    hide IsExponent, ExponentValue, Denotes, IsMantissa, SameDecimal, DecimalValue, Pow, IsNumber, NoMark;
    hide Laid, IsPoint, IsQuotient;
    LooseHasNoMark(digits, 0);
    if !IsQuotient(point) {
      NoPointInDigits(digits, 0, point);
      LaidWithoutPoint(digits, point, [mark] + t);
      assert digits + ([mark] + t) == digits + [mark] + t;
    }
    if AllDigits(digits) {
      PlainMantissa(digits, point);
      SameNumber(DecimalValue(digits), k, k);
      DenotesWithExponent(digits, mark, t, point, digits, 0, DecimalValue(digits), k);
    } else {
      var out := digits + [mark] + t;
      EmptyHasNoMark();
      LooseIsShown("", digits, out, point, k);
      assert "" + out == out;
    }
  }

  /** The layout 1234e7 as 12340000000, with an optional point and zeros. */
  method WriteInteger(fp: DecimalFp, specs: FloatSpecs, point: char) returns (out: string)
    requires LooseDigits(fp.significand) && IsPoint(point)
    requires fp.exp >= 0
    ensures Shown(out, point, fp.significand, fp.exp, ShowsDigits(fp, specs))
    ensures NoMark(out) && (!specs.showpoint ==> out == fp.significand + ZeroDigits(fp.exp))
    ensures var exp := fp.exp + |fp.significand|;
            var places := if specs.precision > exp then specs.precision - exp
                          else if specs.format == Fixed then 0 else 1;
            !IsQuotient(point) ==>
              Laid(out, point, exp, if specs.showpoint then places else 0, specs.showpoint)
  {
    hide Shown, LooseDigits, NoMark, Laid, IsPoint, IsQuotient;
    var digits := fp.significand;
    var exp := fp.exp + |digits|;
    out := digits;
    out := out + ZeroDigits(exp - |digits|);
    IntegerDenotes(digits, fp.exp, point);
    if specs.showpoint {
      out := out + [point];
      var numZeros := specs.precision - exp;
      if numZeros <= 0 {
        if specs.format != Fixed {
          IntegerWithZeros(digits, fp.exp, 1, point);
          assert ZeroDigits(1) == "0";
          out := out + "0";
        } else {
          IntegerWithZeros(digits, fp.exp, 0, point);
          assert out + ZeroDigits(0) == out;
        }
        return;
      }
      IntegerWithZeros(digits, fp.exp, numZeros, point);
      out := out + ZeroDigits(numZeros);
    }
  }

  lemma NoDigitsNoNumber(point: char)
    requires IsPoint(point)
    ensures !IsNumber("", point) && !IsNumber([point], point)
  {
    IndexOfConcat([point], 'e', "");
    IndexOfConcat([point], 'E', "");
    IndexOfConcat("", point, "");
    assert "" + [point] + "" == [point];
  }

  lemma IntegerDenotes(digits: string, k: nat, point: char)
    requires LooseDigits(digits) && IsPoint(point)
    ensures Shown(digits + ZeroDigits(k), point, digits, k, digits != "" || k != 0)
    ensures NoMark(digits + ZeroDigits(k))
    ensures !IsQuotient(point) ==> Laid(digits + ZeroDigits(k), point, |digits| + k, 0, false)
  {
    hide Denotes, IsMantissa, SameDecimal, DecimalValue, Pow, NoMark, IsNumber, Laid, IsPoint, IsQuotient;
    var a := digits + ZeroDigits(k);
    LooseHasNoMark(digits, k);
    HaveNoMark(digits, point, ZeroDigits(k));
    if !IsQuotient(point) {
      NoPointInDigits(digits, k, point);
      LaidWithoutPoint(a, point, "");
      assert a + "" == a;
    }
    if a == "" {
      NoDigitsNoNumber(point);
    } else if AllDigits(digits) {
      PlainMantissa(a, point);
      TrailingZeros(digits, k, k);
      DenotesWithoutExponent(a, point, a, 0, DecimalValue(digits), k);
    } else {
      EmptyHasNoMark();
      LooseIsShown("", digits, a, point, k);
      assert "" + a == a;
    }
  }

  lemma IntegerWithZeros(digits: string, k: nat, zeros: nat, point: char)
    requires LooseDigits(digits) && IsPoint(point)
    ensures var out := digits + ZeroDigits(k) + [point] + ZeroDigits(zeros);
            && Shown(out, point, digits, k, digits != "" || k != 0 || zeros != 0) && NoMark(out)
            && (!IsQuotient(point) ==> Laid(out, point, |digits| + k, zeros, true))
  {
    hide Denotes, IsMantissa, SameDecimal, DecimalValue, Pow, NoMark, IsNumber, Laid, IsPoint, IsQuotient;
    var a, b := digits + ZeroDigits(k), ZeroDigits(zeros);
    LooseHasNoMark(digits, k);
    LooseHasNoMark("", zeros);
    HaveNoMark(digits, point, ZeroDigits(k));
    HaveNoMark(a, point, b);
    if !IsQuotient(point) {
      NoPointInDigits(digits, k, point);
      LaidWithPoint(a, point, b, "");
      assert a + [point] + b + "" == a + [point] + b;
    }
    if a + b == "" {
      assert a + [point] + b == [point];
      NoDigitsNoNumber(point);
    } else if AllDigits(digits) {
      PointedMantissa(a, point, b);
      assert a + b == digits + ZeroDigits(k + zeros);
      TrailingZeros(digits, k + zeros, k);
      DenotesWithoutExponent(a + [point] + b, point, a + b, -|b|, DecimalValue(digits), k);
    } else {
      EmptyHasNoMark();
      LooseIsShown("", digits, a + [point] + b, point, k);
      assert "" + (a + [point] + b) == a + [point] + b;
    }
  }
}
