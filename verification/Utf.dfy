/**
 * The branchless UTF-8 decoder and the transcoder to UTF-16 built on it, against
 * section 4 of RFC 3629 (well-formed UTF-8) and section 2 of RFC 2781 (UTF-16).
 */
module Utf {
  import opened Sequences

  type Scalar = c: bv32 | c <= 0x10FFFF && !(0xD800 <= c <= 0xDFFF)

  // The encodings.

  /** Section 3 of RFC 3629. */
  function Utf8(c: Scalar): (s: seq<bv8>)
    ensures 1 <= |s| <= 4
  {
    if c < 0x80 then [c as bv8]
    else if c < 0x800 then [Lead2(c), Tail(c)]
    else if c < 0x10000 then [Lead3(c), Tail(c >> 6), Tail(c)]
    else [Lead4(c), Tail(c >> 12), Tail(c >> 6), Tail(c)]
  }

  function Lead2(c: Scalar): bv8
    requires c < 0x800
  {
    (0xC0 | (c >> 6)) as bv8
  }

  function Lead3(c: Scalar): bv8
    requires c < 0x10000
  {
    (0xE0 | (c >> 12)) as bv8
  }

  function Lead4(c: Scalar): bv8 {
    (0xF0 | (c >> 18)) as bv8
  }

  function Tail(c: bv32): bv8 {
    (0x80 | (c & 0x3F)) as bv8
  }

  /** Section 2.1 of RFC 2781. */
  function Utf16(c: Scalar): (u: seq<bv16>)
    ensures 1 <= |u| <= 2
  {
    if c <= 0xFFFF then [c as bv16]
    else [HighSurrogate(c), LowSurrogate(c)]
  }

  function HighSurrogate(c: Scalar): bv16
    requires c > 0xFFFF
  {
    (0xD800 + ((c - 0x10000) >> 10)) as bv16
  }

  function LowSurrogate(c: Scalar): bv16
    requires c > 0xFFFF
  {
    (0xDC00 + ((c - 0x10000) & 0x3FF)) as bv16
  }

  function Utf8Text(cs: seq<Scalar>): seq<bv8> {
    if cs == [] then [] else Utf8Text(cs[..|cs| - 1]) + Utf8(cs[|cs| - 1])
  }

  function Utf16Text(cs: seq<Scalar>): seq<bv16> {
    if cs == [] then [] else Utf16Text(cs[..|cs| - 1]) + Utf16(cs[|cs| - 1])
  }

  // Well-formed UTF-8 by the grammar of section 4 of RFC 3629.

  predicate IsTail(b: bv8) {
    0x80 <= b <= 0xBF
  }

  predicate IsCharacter(s: seq<bv8>) {
    || (|s| == 1 && s[0] <= 0x7F)
    || (|s| == 2 && 0xC2 <= s[0] <= 0xDF && IsTail(s[1]))
    || (|s| == 3 && IsThreeBytes(s[0], s[1]) && IsTail(s[2]))
    || (|s| == 4 && IsFourBytes(s[0], s[1]) && IsTail(s[2]) && IsTail(s[3]))
  }

  predicate IsThreeBytes(a: bv8, b: bv8) {
    || (a == 0xE0 && 0xA0 <= b <= 0xBF)
    || (0xE1 <= a <= 0xEC && IsTail(b))
    || (a == 0xED && 0x80 <= b <= 0x9F)
    || (0xEE <= a <= 0xEF && IsTail(b))
  }

  predicate IsFourBytes(a: bv8, b: bv8) {
    || (a == 0xF0 && 0x90 <= b <= 0xBF)
    || (0xF1 <= a <= 0xF3 && IsTail(b))
    || (a == 0xF4 && 0x80 <= b <= 0x8F)
  }

  ghost predicate WellFormed(s: seq<bv8>) {
    s == [] || exists n :: 1 <= n <= |s| && IsCharacter(s[..n]) && WellFormed(s[n..])
  }

  // The decoder.

  function Lengths(index: bv8): nat {
    if index < 16 then 1 else if index < 24 then 0 else if index < 28 then 2
    else if index < 30 then 3 else if index < 31 then 4 else 0
  }

  function Masks(len: nat): bv32 {
    match len { case 0 => 0x00 case 1 => 0x7f case 2 => 0x1f case 3 => 0x0f case _ => 0x07 }
  }

  function Mins(len: nat): bv32 {
    match len { case 0 => 4194304 case 1 => 0 case 2 => 128 case 3 => 2048 case _ => 65536 }
  }

  function ShiftC(len: nat): bv6 {
    match len { case 0 => 0 case 1 => 18 case 2 => 12 case 3 => 6 case _ => 0 }
  }

  function ShiftE(len: nat): bv6 {
    match len { case 0 => 0 case 1 => 6 case 2 => 4 case 3 => 2 case _ => 0 }
  }

  function Flag(b: bool): bv32 {
    if b then 1 else 0
  }

  /** How far to advance. */
  function Advance(s0: bv8): (n: nat)
    ensures 1 <= n <= 4
  {
    var len := Lengths(s0 >> 3);
    len + if len == 0 then 1 else 0
  }

  function CodePoint(s0: bv8, s1: bv8, s2: bv8, s3: bv8): bv32 {
    var len := Lengths(s0 >> 3);
    (((s0 as bv32 & Masks(len)) << 18) | ((s1 as bv32 & 0x3f) << 12) | ((s2 as bv32 & 0x3f) << 6) | (s3 as bv32 & 0x3f))
      >> ShiftC(len)
  }

  /** Zero exactly when the character is valid. */
  function Errors(s0: bv8, s1: bv8, s2: bv8, s3: bv8): bv32 {
    var len, c := Lengths(s0 >> 3), CodePoint(s0, s1, s2, s3);
    (((Flag(c < Mins(len)) << 6) | (Flag(c >> 11 == 0x1b) << 7) | (Flag(c > 0x10FFFF) << 8)
      | ((s1 as bv32 & 0xc0) >> 2) | ((s2 as bv32 & 0xc0) >> 4) | (s3 as bv32 >> 6))
     ^ 0x2a) >> ShiftE(len)
  }

  lemma ErrorsByLength(s0: bv8, s1: bv8, s2: bv8, s3: bv8)
    ensures Lengths(s0 >> 3) == 0 ==> Errors(s0, s1, s2, s3) != 0
    ensures Lengths(s0 >> 3) == 1 ==> Errors(s0, s1, s2, s3) == 0
    ensures Lengths(s0 >> 3) == 2 ==> (Errors(s0, s1, s2, s3) == 0 <==> 0xC2 <= s0 && IsTail(s1))
    ensures Lengths(s0 >> 3) == 3 ==> (Errors(s0, s1, s2, s3) == 0 <==> IsThreeBytes(s0, s1) && IsTail(s2))
    ensures Lengths(s0 >> 3) == 4
            ==> (Errors(s0, s1, s2, s3) == 0 <==> IsFourBytes(s0, s1) && IsTail(s2) && IsTail(s3))
  {
  }

  lemma LeadsByLength(s0: bv8, s1: bv8)
    ensures Lengths(s0 >> 3) == 0 ==> 0x80 <= s0 <= 0xBF || 0xF8 <= s0
    ensures Lengths(s0 >> 3) == 1 <==> s0 <= 0x7F
    ensures Lengths(s0 >> 3) == 2 <==> 0xC0 <= s0 <= 0xDF
    ensures IsThreeBytes(s0, s1) ==> Lengths(s0 >> 3) == 3
    ensures IsFourBytes(s0, s1) ==> Lengths(s0 >> 3) == 4
  {
  }

  /** The error bits are zero exactly for the characters of the grammar. */
  lemma ErrorsAreExact(s0: bv8, s1: bv8, s2: bv8, s3: bv8)
    ensures Errors(s0, s1, s2, s3) == 0 <==> IsCharacter([s0, s1, s2, s3][..Advance(s0)])
  {
    hide Errors, IsThreeBytes, IsFourBytes, IsTail, Lengths;
    ErrorsByLength(s0, s1, s2, s3);
    LeadsByLength(s0, s1);
  }

  /** An accepted code point is a scalar value of the range that the length is for. */
  lemma AcceptedIsScalar(s0: bv8, s1: bv8, s2: bv8, s3: bv8)
    requires Errors(s0, s1, s2, s3) == 0
    ensures var c, n := CodePoint(s0, s1, s2, s3), Advance(s0);
            && c <= 0x10FFFF && !(0xD800 <= c <= 0xDFFF)
            && n == (if c < 0x80 then 1 else if c < 0x800 then 2 else if c < 0x10000 then 3 else 4)
  {
  }

  /** The four fields of a code point before its unused bits are shifted out. */
  lemma Fields(a: bv32, b: bv32, c: bv32, d: bv32)
    requires a < 128 && b < 64 && c < 64 && d < 64
    ensures var x := (a << 18) | (b << 12) | (c << 6) | d;
            && x >> 18 == a && x >> 12 == (a << 6) | b && (x >> 12) & 0x3F == b
            && x >> 6 == (a << 12) | (b << 6) | c && (x >> 6) & 0x3F == c && x & 0x3F == d
  {
  }

  lemma TailBits(s: bv8)
    requires IsTail(s)
    ensures s as bv32 == 0x80 | (s as bv32 & 0x3F)
  {
  }

  lemma LeadBits(s: bv8)
    ensures s <= 0x7F ==> s as bv32 & 0x7F == s as bv32
    ensures 0xC0 <= s <= 0xDF ==> s as bv32 == 0xC0 | (s as bv32 & 0x1F)
    ensures 0xE0 <= s <= 0xEF ==> s as bv32 == 0xE0 | (s as bv32 & 0x0F)
    ensures 0xF0 <= s <= 0xF7 ==> s as bv32 == 0xF0 | (s as bv32 & 0x07)
  {
  }

  /** Shifting out the unused bits leaves the payload bits of the bytes in use. */
  lemma Payload(s0: bv8, s1: bv8, s2: bv8, s3: bv8)
    ensures var c, len := CodePoint(s0, s1, s2, s3), Lengths(s0 >> 3);
            var a, b, d, e := s0 as bv32 & Masks(len), s1 as bv32 & 0x3F, s2 as bv32 & 0x3F, s3 as bv32 & 0x3F;
            && (len == 1 ==> c == a)
            && (len == 2 ==> c >> 6 == a && c & 0x3F == b)
            && (len == 3 ==> c >> 12 == a && (c >> 6) & 0x3F == b && c & 0x3F == d)
            && (len == 4 ==> c >> 18 == a && (c >> 12) & 0x3F == b && (c >> 6) & 0x3F == d && c & 0x3F == e)
  {
    var len := Lengths(s0 >> 3);
    var a, b, d, e := s0 as bv32 & Masks(len), s1 as bv32 & 0x3F, s2 as bv32 & 0x3F, s3 as bv32 & 0x3F;
    FieldBounds(s0 as bv32, s1 as bv32, s2 as bv32, s3 as bv32, len);
    Fields(a, b, d, e);
    if len == 2 { Fields(0, 0, a, b); }
    if len == 3 { Fields(0, a, b, d); }
  }

  lemma FieldBounds(s0: bv32, s1: bv32, s2: bv32, s3: bv32, len: nat)
    ensures s0 & Masks(len) < 128 && s1 & 0x3F < 64 && s2 & 0x3F < 64 && s3 & 0x3F < 64
    ensures len >= 2 ==> s0 & Masks(len) < 32
    ensures len >= 3 ==> s0 & Masks(len) < 16
  {
  }

  /** The bytes of an accepted character in terms of its code point. */
  lemma AcceptedBytes(s0: bv8, s1: bv8, s2: bv8, s3: bv8)
    requires IsCharacter([s0, s1, s2, s3][..Advance(s0)])
    ensures var c, n := CodePoint(s0, s1, s2, s3), Advance(s0);
            && (n == 1 ==> s0 as bv32 == c)
            && (n == 2 ==> s0 as bv32 == 0xC0 | (c >> 6) && s1 as bv32 == 0x80 | (c & 0x3F))
            && (n == 3 ==> s0 as bv32 == 0xE0 | (c >> 12) && s1 as bv32 == 0x80 | ((c >> 6) & 0x3F)
                           && s2 as bv32 == 0x80 | (c & 0x3F))
            && (n == 4 ==> s0 as bv32 == 0xF0 | (c >> 18) && s1 as bv32 == 0x80 | ((c >> 12) & 0x3F)
                           && s2 as bv32 == 0x80 | ((c >> 6) & 0x3F) && s3 as bv32 == 0x80 | (c & 0x3F))
  {
    hide CodePoint, Errors;
    Payload(s0, s1, s2, s3);
    LeadBits(s0);
    var n := Advance(s0);
    if n >= 2 { TailBits(s1); }
    if n >= 3 { TailBits(s2); }
    if n >= 4 { TailBits(s3); }
  }

  lemma LeadByte(c: Scalar, s: bv8)
    ensures c < 0x80 && s as bv32 == c ==> c as bv8 == s
    ensures c < 0x800 && s as bv32 == 0xC0 | (c >> 6) ==> Lead2(c) == s
    ensures c < 0x10000 && s as bv32 == 0xE0 | (c >> 12) ==> Lead3(c) == s
    ensures s as bv32 == 0xF0 | (c >> 18) ==> Lead4(c) == s
  {
  }

  lemma TailByte(c: bv32, s: bv8)
    ensures s as bv32 == 0x80 | (c & 0x3F) ==> Tail(c) == s
  {
  }

  /** Each byte of an accepted character is the byte of its encoding. */
  lemma AcceptedElements(s0: bv8, s1: bv8, s2: bv8, s3: bv8, c: Scalar)
    requires IsCharacter([s0, s1, s2, s3][..Advance(s0)]) && c == CodePoint(s0, s1, s2, s3)
    ensures Advance(s0) == 1 && c < 0x80 ==> c as bv8 == s0
    ensures Advance(s0) == 2 && c < 0x800 ==> Lead2(c) == s0 && Tail(c) == s1
    ensures Advance(s0) == 3 && c < 0x10000 ==> Lead3(c) == s0 && Tail(c >> 6) == s1 && Tail(c) == s2
    ensures Advance(s0) == 4 ==> Lead4(c) == s0 && Tail(c >> 12) == s1 && Tail(c >> 6) == s2 && Tail(c) == s3
  {
    hide CodePoint, Errors, Advance, IsCharacter, Lead2, Lead3, Lead4, Tail;
    AcceptedBytes(s0, s1, s2, s3);
    LeadByte(c, s0);
    if Advance(s0) == 2 {
      TailByte(c, s1);
    } else if Advance(s0) == 3 {
      TailByte(c >> 6, s1);
      TailByte(c, s2);
    } else if Advance(s0) == 4 {
      TailByte(c >> 12, s1);
      TailByte(c >> 6, s2);
      TailByte(c, s3);
    }
  }

  lemma Shapes(c: Scalar)
    ensures c < 0x80 ==> Utf8(c) == [c as bv8]
    ensures 0x80 <= c < 0x800 ==> Utf8(c) == [Lead2(c), Tail(c)]
    ensures 0x800 <= c < 0x10000 ==> Utf8(c) == [Lead3(c), Tail(c >> 6), Tail(c)]
    ensures 0x10000 <= c ==> Utf8(c) == [Lead4(c), Tail(c >> 12), Tail(c >> 6), Tail(c)]
  {
    hide Lead2, Lead3, Lead4, Tail;
  }

  /** A valid character decodes to the scalar that it encodes. */
  lemma DecodesWhatIsEncoded(s0: bv8, s1: bv8, s2: bv8, s3: bv8)
    requires Errors(s0, s1, s2, s3) == 0
    ensures CodePoint(s0, s1, s2, s3) <= 0x10FFFF && !(0xD800 <= CodePoint(s0, s1, s2, s3) <= 0xDFFF)
    ensures Utf8(CodePoint(s0, s1, s2, s3)) == [s0, s1, s2, s3][..Advance(s0)]
  {
    hide CodePoint, Errors, Advance, IsCharacter, Lead2, Lead3, Lead4, Tail, Utf8;
    AcceptedIsScalar(s0, s1, s2, s3);
    ErrorsAreExact(s0, s1, s2, s3);
    var c, n := CodePoint(s0, s1, s2, s3), Advance(s0);
    AcceptedElements(s0, s1, s2, s3, c);
    Shapes(c);
    if n == 1 {
      assert Utf8(c) == [s0];
    } else if n == 2 {
      assert Utf8(c) == [s0, s1];
    } else if n == 3 {
      assert Utf8(c) == [s0, s1, s2];
    } else {
      assert Utf8(c) == [s0, s1, s2, s3];
    }
  }

  // Every encoding is a character of the grammar, and decodes to the scalar.

  lemma EncodingIsCharacter(c: Scalar)
    ensures IsCharacter(Utf8(c)) && Advance(Utf8(c)[0]) == |Utf8(c)|
  {
  }

  lemma Utf8Injective(c: Scalar, d: Scalar)
    requires Utf8(c) == Utf8(d)
    ensures c == d
  {
    hide Lead2, Lead3, Lead4, Tail;
    Shapes(c);
    Shapes(d);
    assert |Utf8(c)| == |Utf8(d)|;
    assert forall k :: 0 <= k < |Utf8(c)| ==> Utf8(c)[k] == Utf8(d)[k];
    SameFields(c, d);
  }

  lemma SameFields(c: Scalar, d: Scalar)
    ensures c < 0x80 && d < 0x80 && c as bv8 == d as bv8 ==> c == d
    ensures c < 0x800 && d < 0x800 && Lead2(c) == Lead2(d) && Tail(c) == Tail(d) ==> c == d
    ensures c < 0x10000 && d < 0x10000 && Lead3(c) == Lead3(d) && Tail(c >> 6) == Tail(d >> 6) && Tail(c) == Tail(d)
            ==> c == d
    ensures Lead4(c) == Lead4(d) && Tail(c >> 12) == Tail(d >> 12) && Tail(c >> 6) == Tail(d >> 6) && Tail(c) == Tail(d)
            ==> c == d
  {
    hide Lead2, Lead3, Lead4, Tail;
    SameLead(c, d);
    SameTail(c, d);
    SameTail(c >> 6, d >> 6);
    SameTail(c >> 12, d >> 12);
    SameParts(c, d);
    SameParts(c >> 6, d >> 6);
    SameParts(c >> 12, d >> 12);
    ShiftTwice(c);
    ShiftTwice(d);
  }

  lemma SameLead(c: Scalar, d: Scalar)
    ensures c < 0x80 && d < 0x80 && c as bv8 == d as bv8 ==> c == d
    ensures c < 0x800 && d < 0x800 && Lead2(c) == Lead2(d) ==> c >> 6 == d >> 6
    ensures c < 0x10000 && d < 0x10000 && Lead3(c) == Lead3(d) ==> c >> 12 == d >> 12
    ensures Lead4(c) == Lead4(d) ==> c >> 18 == d >> 18
  {
  }

  lemma SameTail(c: bv32, d: bv32)
    ensures Tail(c) == Tail(d) ==> c & 0x3F == d & 0x3F
  {
  }

  lemma SameParts(c: bv32, d: bv32)
    ensures c >> 6 == d >> 6 && c & 0x3F == d & 0x3F ==> c == d
  {
  }

  lemma ShiftTwice(c: bv32)
    ensures (c >> 6) >> 6 == c >> 12 && (c >> 12) >> 6 == c >> 18
  {
  }

  /** The decoder inverts the encoding, whatever bytes follow. */
  lemma DecodeEncode(c: Scalar, s0: bv8, s1: bv8, s2: bv8, s3: bv8)
    requires Utf8(c) <= [s0, s1, s2, s3]
    ensures Errors(s0, s1, s2, s3) == 0 && Advance(s0) == |Utf8(c)| && CodePoint(s0, s1, s2, s3) == c
  {
    hide Errors, CodePoint, Advance, Utf8, IsCharacter;
    EncodingIsCharacter(c);
    assert [s0, s1, s2, s3][..|Utf8(c)|] == Utf8(c);
    assert s0 == Utf8(c)[0];
    ErrorsAreExact(s0, s1, s2, s3);
    DecodesWhatIsEncoded(s0, s1, s2, s3);
    Utf8Injective(c, CodePoint(s0, s1, s2, s3));
  }

  // Texts.

  lemma CharacterLength(s: seq<bv8>)
    requires IsCharacter(s)
    ensures |s| == Advance(s[0])
  {
  }

  /** The first character of a text is determined by its first byte. */
  lemma WellFormedFirst(s: seq<bv8>)
    requires s != []
    ensures WellFormed(s) <==> Advance(s[0]) <= |s| && IsCharacter(s[..Advance(s[0])]) && WellFormed(s[Advance(s[0])..])
  {
    hide IsCharacter, Advance;
    forall n | 1 <= n <= |s| && IsCharacter(s[..n])
      ensures n == Advance(s[0])
    {
      CharacterLength(s[..n]);
    }
  }

  /** A text of encoded scalars followed by t is well formed exactly when t is. */
  lemma {:induction false} WellFormedAfter(cs: seq<Scalar>, t: seq<bv8>)
    ensures WellFormed(Utf8Text(cs) + t) <==> WellFormed(t)
    decreases |cs|
  {
    hide IsCharacter, Advance, Utf8, WellFormed;
    if cs == [] {
      assert Utf8Text(cs) + t == t;
    } else {
      var c, u := cs[|cs| - 1], Utf8(cs[|cs| - 1]) + t;
      assert Utf8Text(cs) + t == Utf8Text(cs[..|cs| - 1]) + u;
      WellFormedAfter(cs[..|cs| - 1], u);
      EncodingIsCharacter(c);
      WellFormedFirst(u);
      assert u[..|Utf8(c)|] == Utf8(c) && u[|Utf8(c)|..] == t;
    }
  }

  lemma {:induction false} TextIsWellFormed(cs: seq<Scalar>)
    ensures WellFormed(Utf8Text(cs))
  {
    WellFormedAfter(cs, []);
    assert Utf8Text(cs) + [] == Utf8Text(cs);
  }

  lemma TextAppend(cs: seq<Scalar>, c: Scalar)
    ensures Utf8Text(cs + [c]) == Utf8Text(cs) + Utf8(c)
  {
    assert (cs + [c])[..|cs|] == cs;
  }

  lemma {:induction false} TextPrepend(c: Scalar, cs: seq<Scalar>)
    ensures Utf8Text([c] + cs) == Utf8(c) + Utf8Text(cs)
    decreases |cs|
  {
    hide Utf8;
    if cs == [] {
      assert [c] + cs == [c] && [c][..0] == [];
      assert Utf8Text([c]) == Utf8Text([]) + Utf8(c);
    } else {
      var n := |cs| - 1;
      assert [c] + cs == ([c] + cs[..n]) + [cs[n]];
      TextPrepend(c, cs[..n]);
      TextAppend([c] + cs[..n], cs[n]);
      Associative(Utf8(c), Utf8Text(cs[..n]), Utf8(cs[n]));
    }
  }

  function FirstScalar(s: seq<bv8>): (c: Scalar)
    requires s != [] && Advance(s[0]) <= |s| && IsCharacter(s[..Advance(s[0])])
    ensures s == Utf8(c) + s[Advance(s[0])..]
  {
    hide IsCharacter, Advance, Errors, CodePoint, Utf8;
    var n, w := Advance(s[0]), s + [0, 0, 0];
    assert [w[0], w[1], w[2], w[3]][..n] == s[..n];
    ErrorsAreExact(w[0], w[1], w[2], w[3]);
    DecodesWhatIsEncoded(w[0], w[1], w[2], w[3]);
    CodePoint(w[0], w[1], w[2], w[3])
  }

  /** The scalars of a well-formed text. */
  ghost function Scalars(s: seq<bv8>): (cs: seq<Scalar>)
    requires WellFormed(s)
    ensures Utf8Text(cs) == s
  {
    hide IsCharacter, Advance, Utf8, FirstScalar;
    if s == [] then [] else
      WellFormedFirst(s);
      var rest := Scalars(s[Advance(s[0])..]);
      TextPrepend(FirstScalar(s), rest);
      [FirstScalar(s)] + rest
  }

  /** Different sequences of scalars have different encodings. */
  lemma {:induction false} TextInjective(cs: seq<Scalar>, ds: seq<Scalar>)
    requires Utf8Text(cs) == Utf8Text(ds)
    ensures cs == ds
    decreases |cs| + |ds|
  {
    hide Utf8, Advance, IsCharacter;
    if cs != [] && ds != [] {
      var s := Utf8Text(cs);
      var c, d := cs[0], ds[0];
      assert cs == [c] + cs[1..] && ds == [d] + ds[1..];
      TextPrepend(c, cs[1..]);
      TextPrepend(d, ds[1..]);
      EncodingIsCharacter(c);
      EncodingIsCharacter(d);
      assert s[..|Utf8(c)|] == Utf8(c) && s[|Utf8(c)|..] == Utf8Text(cs[1..]);
      assert s[..|Utf8(d)|] == Utf8(d) && s[|Utf8(d)|..] == Utf8Text(ds[1..]);
      Utf8Injective(c, d);
      TextInjective(cs[1..], ds[1..]);
    }
  }

  // Reading UTF-16 back.

  predicate IsHigh(u: bv16) {
    0xD800 <= u <= 0xDBFF
  }

  predicate IsLow(u: bv16) {
    0xDC00 <= u <= 0xDFFF
  }

  function Join(high: bv16, low: bv16): bv32 {
    (((high as bv32 & 0x3FF) << 10) | (low as bv32 & 0x3FF)) + 0x10000
  }

  /** Section 2.2 of RFC 2781, a lone surrogate standing for itself. */
  function FromUtf16(u: seq<bv16>): seq<bv32> {
    if u == [] then []
    else if |u| >= 2 && IsHigh(u[0]) && IsLow(u[1]) then [Join(u[0], u[1])] + FromUtf16(u[2..])
    else [u[0] as bv32] + FromUtf16(u[1..])
  }

  lemma Narrow(x: bv32)
    requires x <= 0xFFFF
    ensures (x as bv16) as bv32 == x
  {
  }

  lemma WideRanges(u: bv16)
    ensures IsHigh(u) <==> 0xD800 <= u as bv32 <= 0xDBFF
    ensures IsLow(u) <==> 0xDC00 <= u as bv32 <= 0xDFFF
  {
  }

  lemma SurrogateSums(x: bv32)
    requires x < 0x400
    ensures 0xD800 <= 0xD800 + x <= 0xDBFF && 0xDC00 <= 0xDC00 + x <= 0xDFFF
  {
  }

  lemma TenBits(y: bv32)
    requires y < 0x400
    ensures (0xD800 + y) & 0x3FF == y && (0xDC00 + y) & 0x3FF == y
  {
  }

  lemma Halves(x: bv32)
    requires x < 0x100000
    ensures x >> 10 < 0x400 && x & 0x3FF < 0x400 && ((x >> 10) << 10) | (x & 0x3FF) == x
  {
  }

  lemma SmallUnit(c: Scalar)
    requires c <= 0xFFFF
    ensures !IsHigh(c as bv16) && (c as bv16) as bv32 == c
  {
    hide IsHigh, IsLow;
    Narrow(c);
    WideRanges(c as bv16);
  }

  lemma HighUnit(c: Scalar)
    requires c > 0xFFFF
    ensures IsHigh(HighSurrogate(c)) && HighSurrogate(c) as bv32 & 0x3FF == (c - 0x10000) >> 10
  {
    hide IsHigh, IsLow;
    var x := c - 0x10000;
    Halves(x);
    SurrogateSums(x >> 10);
    Narrow(0xD800 + (x >> 10));
    WideRanges(HighSurrogate(c));
    TenBits(x >> 10);
  }

  lemma LowUnit(c: Scalar)
    requires c > 0xFFFF
    ensures IsLow(LowSurrogate(c)) && LowSurrogate(c) as bv32 & 0x3FF == (c - 0x10000) & 0x3FF
  {
    hide IsHigh, IsLow;
    var x := c - 0x10000;
    Halves(x);
    SurrogateSums(x & 0x3FF);
    Narrow(0xDC00 + (x & 0x3FF));
    WideRanges(LowSurrogate(c));
    TenBits(x & 0x3FF);
  }

  /** A surrogate pair stands for its scalar. */
  lemma SurrogatePair(c: Scalar)
    requires c > 0xFFFF
    ensures IsHigh(HighSurrogate(c)) && IsLow(LowSurrogate(c)) && Join(HighSurrogate(c), LowSurrogate(c)) == c
  {
    hide HighSurrogate, LowSurrogate, IsHigh, IsLow;
    HighUnit(c);
    LowUnit(c);
    Halves(c - 0x10000);
  }

  lemma FromUtf16Prepend(c: Scalar, u: seq<bv16>)
    ensures FromUtf16(Utf16(c) + u) == [c as bv32] + FromUtf16(u)
  {
    hide HighSurrogate, LowSurrogate, IsHigh, IsLow, Join;
    if c <= 0xFFFF {
      SmallUnit(c);
      assert ([c as bv16] + u)[1..] == u;
    } else {
      SurrogatePair(c);
      assert ([HighSurrogate(c), LowSurrogate(c)] + u)[2..] == u;
    }
  }

  function Values(cs: seq<Scalar>): seq<bv32> {
    seq(|cs|, k requires 0 <= k < |cs| => cs[k] as bv32)
  }

  /** The UTF-16 text gives the scalars back. */
  lemma {:induction false} Utf16RoundTrip(cs: seq<Scalar>, u: seq<bv16>)
    ensures FromUtf16(Utf16Text(cs) + u) == Values(cs) + FromUtf16(u)
    decreases |cs|
  {
    hide Utf16;
    if cs == [] {
      assert Utf16Text(cs) + u == u;
    } else {
      var n := |cs| - 1;
      assert Utf16Text(cs) + u == Utf16Text(cs[..n]) + (Utf16(cs[n]) + u);
      Utf16RoundTrip(cs[..n], Utf16(cs[n]) + u);
      FromUtf16Prepend(cs[n], u);
      assert Values(cs) == Values(cs[..n]) + [cs[n] as bv32];
    }
  }

  /** Encoding any scalars gives a well-formed text, from which they are read back, also through UTF-16. */
  lemma EncodeDecodeText(cs: seq<Scalar>)
    ensures WellFormed(Utf8Text(cs)) && Scalars(Utf8Text(cs)) == cs && FromUtf16(Utf16Text(cs)) == Values(cs)
  {
    hide WellFormed, Utf8, Utf16;
    TextIsWellFormed(cs);
    TextInjective(cs, Scalars(Utf8Text(cs)));
    Utf16RoundTrip(cs, []);
    assert Utf16Text(cs) + [] == Utf16Text(cs);
    assert Values(cs) + [] == Values(cs);
  }

  // What the transcoder keeps: the scalars cs of the first p bytes are written.

  ghost predicate Written(s: seq<bv8>, p: nat, cs: seq<Scalar>, units: seq<bv16>) {
    p <= |s| && s[..p] == Utf8Text(cs) && units == Utf16Text(cs)
  }

  lemma Nothing(s: seq<bv8>)
    ensures Written(s, 0, [], [])
  {
  }

  lemma WriteNext(s: seq<bv8>, p: nat, next: nat, cs: seq<Scalar>, units: seq<bv16>, c: Scalar)
    requires Written(s, p, cs, units) && p <= next <= |s| && s[p..next] == Utf8(c)
    ensures Written(s, next, cs + [c], units + Utf16(c))
  {
    hide Utf8, Utf16;
    assert s[..next] == s[..p] + s[p..next];
    assert (cs + [c])[..|cs|] == cs;
  }

  /** A character is not completed by zero bytes. */
  lemma NoZeroTail(s: seq<bv8>, k: nat)
    requires IsCharacter(s) && 0 < k < |s|
    ensures s[k] != 0
  {
  }

  /** Where the bytes that follow, zero bytes added, do not start with a character, the text is ill-formed. */
  lemma StopsWhereIllFormed(s: seq<bv8>, p: nat, cs: seq<Scalar>, units: seq<bv16>, window: seq<bv8>)
    requires Written(s, p, cs, units) && p < |s| && s[p..] <= window && Advance(s[p]) <= |window|
    requires !IsCharacter(window[..Advance(s[p])])
    ensures !WellFormed(s)
  {
    hide IsCharacter, Advance, WellFormed;
    var t := s[p..];
    assert s == Utf8Text(cs) + t;
    WellFormedAfter(cs, t);
    WellFormedFirst(t);
    if Advance(t[0]) <= |t| {
      assert window[..Advance(t[0])] == t[..Advance(t[0])];
    }
  }

  lemma WrittenBound(s: seq<bv8>, p: nat, cs: seq<Scalar>, units: seq<bv16>)
    requires Written(s, p, cs, units)
    ensures p <= |s|
  {
  }

  lemma TailWindow(s: seq<bv8>, p0: nat, data: seq<bv8>, p: nat)
    requires p0 <= |s| && |s| - p0 <= |data| && data[..|s| - p0] == s[p0..] && p <= |s| - p0
    ensures s[p0 + p..] <= data[p..]
  {
    forall k | 0 <= k < |s| - p0 - p
      ensures s[p0 + p..][k] == data[p..][k]
    {
      assert s[p0 + p..][k] == s[p0..][p + k] == data[..|s| - p0][p + k];
    }
  }

  /** An accepted character ends before the zero bytes. */
  lemma EndsInside(data: seq<bv8>, left: nat, p: nat, next: nat)
    requires p < left <= |data| && p < next <= |data| && IsCharacter(data[p..next])
    requires forall k :: left <= k < |data| ==> data[k] == 0
    ensures next <= left
  {
    hide IsCharacter;
    if next > left {
      NoZeroTail(data[p..next], left - p);
    }
  }

  lemma AllWritten(s: seq<bv8>, cs: seq<Scalar>, units: seq<bv16>)
    requires Written(s, |s|, cs, units)
    ensures WellFormed(s) && units == Utf16Text(Scalars(s))
  {
    hide WellFormed;
    assert s[..|s|] == s;
    TextIsWellFormed(cs);
    TextInjective(cs, Scalars(s));
  }

  // The transcoder.

  /** The last bytes in a buffer of seven, where four can be read at each of them. */
  method PaddedTail(s: seq<bv8>, p0: nat) returns (data: seq<bv8>)
    requires p0 < |s| <= p0 + 3
    ensures |data| == 7 && data[..|s| - p0] == s[p0..]
    ensures forall k :: |s| - p0 <= k < 7 ==> data[k] == 0
  {
    var buf := new bv8[7](_ => 0);
    for i := 0 to |s| - p0
      invariant buf[..i] == s[p0..p0 + i]
      invariant forall k :: i <= k < 7 ==> buf[k] == 0
    {
      buf[i] := s[p0 + i];
    }
    data := buf[..];
    assert s[p0..|s|] == s[p0..];
  }

  /** The object: the code units produced so far. */
  class Utf8ToUtf16 {
    var buffer: seq<bv16>

    constructor ()
      ensures buffer == []
    {
      buffer := [];
    }

    method Push(c: bv32)
      requires c <= 0x10FFFF && !(0xD800 <= c <= 0xDFFF)
      modifies this
      ensures buffer == old(buffer) + Utf16(c)
    {
      hide HighSurrogate, LowSurrogate;
      if c <= 0xFFFF {
        buffer := buffer + [c as bv16];
      } else {
        buffer := buffer + [HighSurrogate(c)];
        buffer := buffer + [LowSurrogate(c)];
      }
    }

    /**
     * Decodes the character at p, reading four bytes whatever its length, and
     * returns the position after it; fails when no character starts at p.
     */
    method TranscodeOne(data: seq<bv8>, p: nat) returns (ok: bool, next: nat)
      requires p + 4 <= |data|
      modifies this
      ensures p < next <= p + 4 && next == p + Advance(data[p])
      ensures ok <==> IsCharacter(data[p..next])
      ensures ok ==> exists c: Scalar :: Utf8(c) == data[p..next] && buffer == old(buffer) + Utf16(c)
      ensures !ok ==> buffer == old(buffer)
    {
      hide IsCharacter, Advance, Errors, CodePoint, Utf8, Utf16;
      var s0, s1, s2, s3 := data[p], data[p + 1], data[p + 2], data[p + 3];
      next := p + Advance(s0);
      var c, error := CodePoint(s0, s1, s2, s3), Errors(s0, s1, s2, s3);
      assert [s0, s1, s2, s3][..Advance(s0)] == data[p..next];
      ErrorsAreExact(s0, s1, s2, s3);
      if error != 0 {
        return false, next;
      }
      DecodesWhatIsEncoded(s0, s1, s2, s3);
      Push(c);
      ok := true;
    }

    /** Transcodes the characters that start at least four bytes before the end. */
    method TranscodeBlocks(s: seq<bv8>) returns (ok: bool, p: nat, ghost cs: seq<Scalar>)
      requires buffer == []
      modifies this
      ensures ok ==> Written(s, p, cs, buffer) && |s| - p < 4
      ensures !ok ==> !WellFormed(s)
    {
      hide IsCharacter, Advance, Utf8, Utf16, WellFormed, Written;
      p, cs, ok := 0, [], true;
      Nothing(s);
      if |s| >= 4 {
        var end := |s| - 4 + 1;
        while p < end
          invariant p <= |s| && Written(s, p, cs, buffer)
        {
          ghost var before := buffer;
          var next;
          ok, next := TranscodeOne(s, p);
          if !ok {
            assert s[p..][..next - p] == s[p..next];
            StopsWhereIllFormed(s, p, cs, before, s[p..]);
            return;
          }
          ghost var c: Scalar :| Utf8(c) == s[p..next] && buffer == before + Utf16(c);
          WriteNext(s, p, next, cs, before, c);
          p, cs := next, cs + [c];
        }
      }
    }

    /** Transcodes fewer than four last bytes from a copy followed by zero bytes. */
    method TranscodeTail(s: seq<bv8>, p0: nat, ghost cs0: seq<Scalar>) returns (ok: bool, ghost cs: seq<Scalar>)
      requires Written(s, p0, cs0, buffer) && 0 < |s| - p0 < 4
      modifies this
      ensures ok ==> Written(s, |s|, cs, buffer)
      ensures !ok ==> !WellFormed(s)
    {
      hide IsCharacter, Advance, Utf8, Utf16, WellFormed;
      var left, p := |s| - p0, 0;
      var data := PaddedTail(s, p0);
      cs, ok := cs0, true;
      while p < left
        invariant p <= left && Written(s, p0 + p, cs, buffer)
      {
        hide Written;
        ghost var before := buffer;
        var next;
        assert s[p0 + p..] <= data[p..] by { TailWindow(s, p0, data, p); }
        ok, next := TranscodeOne(data, p);
        assert data[p..][..next - p] == data[p..next];
        if !ok {
          StopsWhereIllFormed(s, p0 + p, cs, before, data[p..]);
          return;
        }
        EndsInside(data, left, p, next);
        assert data[p..next] == s[p0 + p..p0 + next];
        ghost var c: Scalar :| Utf8(c) == data[p..next] && buffer == before + Utf16(c);
        WriteNext(s, p0 + p, p0 + next, cs, before, c);
        p, cs := next, cs + [c];
      }
    }

    /** Transcodes a text, or fails exactly when it is not well-formed UTF-8. */
    method Transcode(s: seq<bv8>) returns (ok: bool)
      requires buffer == []
      modifies this
      ensures ok <==> WellFormed(s)
      ensures ok ==> buffer == Utf16Text(Scalars(s)) + [0]
    {
      hide WellFormed, Written;
      var p; ghost var cs;
      ok, p, cs := TranscodeBlocks(s);
      if !ok { return; }
      WrittenBound(s, p, cs, buffer);
      if |s| - p != 0 {
        ok, cs := TranscodeTail(s, p, cs);
        if !ok { return; }
      }
      AllWritten(s, cs, buffer);
      buffer := buffer + [0];
    }
  }
}
