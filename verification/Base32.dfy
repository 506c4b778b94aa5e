/** The base-32 encoder of section 6 of RFC 4648, without padding characters. */
module Base32 {
  import opened Arith
  import opened Positional

  type U8 = x: int | 0 <= x < 256

  const ALPHABET := "ABCDEFGHIJKLMNOPQRSTUVWXYZ234567"

  /** The number of characters that hold n bytes five bits at a time. */
  function EncodedLength(n: nat): (t: nat)
    ensures 8 * n <= 5 * t <= 8 * n + 4
  {
    (8 * n + 4) / 5
  }

  /** How many zero bits complete the last group. */
  function Pad(n: nat): (p: nat)
    ensures p <= 4
  {
    5 * EncodedLength(n) - 8 * n
  }

  /** The input bits as one number, zero bits added up to a multiple of five. */
  ghost function Bits(data: seq<U8>): nat {
    ValueOf(data, 256) * Pow(2, Pad(|data|))
  }

  /** The groups of five bits, in order. */
  ghost function Groups(data: seq<U8>): (g: seq<nat>)
    ensures |g| == EncodedLength(|data|)
  {
    DigitsOf(Bits(data), 32, EncodedLength(|data|))
  }

  /** The encoding: one character of the alphabet for each group. */
  ghost function Encoding(data: seq<U8>): (s: string)
    ensures |s| == EncodedLength(|data|)
  {
    seq(|Groups(data)|, k requires 0 <= k < |Groups(data)| => Symbol(Groups(data)[k]))
  }

  function Symbol(index: nat): char {
    ALPHABET[index % 32]
  }

  /** The group a character stands for. */
  function GroupOf(c: char): nat {
    if 'A' <= c <= 'Z' then c as int - 'A' as int else if '2' <= c <= '7' then c as int - '2' as int + 26 else 0
  }

  lemma GroupOfSymbol(index: nat)
    requires index < 32
    ensures GroupOf(Symbol(index)) == index
  {
    hide Symbol, GroupOf;
    if index < 8 {
      LowSymbols(index);
    } else if index < 16 {
      MiddleSymbols(index);
    } else if index < 24 {
      HighSymbols(index);
    } else {
      LastSymbols(index);
    }
  }

  lemma LowSymbols(index: nat)
    requires index < 8
    ensures GroupOf(Symbol(index)) == index
  {
    assert ALPHABET[index] == ('A' as int + index) as char;
  }

  lemma MiddleSymbols(index: nat)
    requires 8 <= index < 16
    ensures GroupOf(Symbol(index)) == index
  {
    assert ALPHABET[index] == ('A' as int + index) as char;
  }

  lemma HighSymbols(index: nat)
    requires 16 <= index < 24
    ensures GroupOf(Symbol(index)) == index
  {
    assert ALPHABET[index] == ('A' as int + index) as char;
  }

  lemma LastSymbols(index: nat)
    requires 24 <= index < 32
    ensures GroupOf(Symbol(index)) == index
  {
    assert ALPHABET[index] == if index < 26 then ('A' as int + index) as char else ('2' as int + index - 26) as char;
  }

  /** Decoding: the groups as one number, the added bits dropped, split into bytes. */
  ghost function Decoding(s: string): seq<nat> {
    var n := 5 * |s| / 8;
    DigitsOf(ValueOf(GroupsOf(s), 32) / Pow(2, 5 * |s| - 8 * n), 256, n)
  }

  function GroupsOf(s: string): (g: seq<nat>)
    ensures |g| == |s|
  {
    seq(|s|, k requires 0 <= k < |s| => GroupOf(s[k]))
  }

  lemma {:induction false} PowOfPow(b: nat, m: nat, n: nat)
    ensures Pow(Pow(b, m), n) == Pow(b, m * n)
  {
    if n > 0 {
      PowOfPow(b, m, n - 1);
      PowAdd(b, m, m * (n - 1));
    }
  }

  lemma Radix()
    ensures Pow(2, 5) == 32 && Pow(2, 8) == 256
  {
    PowAdd(2, 4, 4);
    assert Pow(2, 4) == 16;
  }

  /** Decoding an encoding gives the bytes back, and the bits added to the last group are zero. */
  lemma DecodeEncode(data: seq<U8>)
    ensures Decoding(Encoding(data)) == data
    ensures var s := Encoding(data);
            5 * |s| >= 8 * |data| && ValueOf(GroupsOf(s), 32) % Pow(2, 5 * |s| - 8 * |data|) == 0
  {
    hide Pow, DigitsOf, DigitAt, GroupOf;
    var n, t, pad := |data|, EncodedLength(|data|), Pad(|data|);
    var v := ValueOf(data, 256);
    DigitsOfValue(data, 256);
    BitsFit(v, n, t, pad);
    ValueOfDigits(Bits(data), 32, t);
    GroupsOfEncoding(data);
    assert 5 * |Encoding(data)| / 8 == n;
    MulRotate(v, Pow(2, pad), 1);
    DivUnique(Bits(data), Pow(2, pad), v, 0);
  }

  lemma BitsFit(v: nat, n: nat, t: nat, pad: nat)
    requires v < Pow(256, n) && 5 * t == 8 * n + pad
    ensures v * Pow(2, pad) < Pow(32, t)
  {
    Radix();
    PowOfPow(2, 8, n);
    PowOfPow(2, 5, t);
    PowAdd(2, 8 * n, pad);
    MulStrict(Pow(2, pad), v, Pow(256, n));
  }

  lemma GroupsOfEncoding(data: seq<U8>)
    ensures GroupsOf(Encoding(data)) == Groups(data)
  {
    hide DigitAt, Symbol, GroupOf, Bits;
    forall k {:trigger GroupsOf(Encoding(data))[k]} | 0 <= k < |Groups(data)|
      ensures GroupsOf(Encoding(data))[k] == Groups(data)[k]
    {
      GroupOfSymbol(Groups(data)[k]);
    }
  }

  /** The low bits of the buffer are the input bits not yet written. */
  ghost predicate BufferHolds(buffer: nat, bitsLeft: nat, consumed: nat) {
    buffer % Pow(2, bitsLeft) == consumed % Pow(2, bitsLeft)
  }

  /** Reducing modulo 2^32 keeps up to 32 low bits. */
  lemma LowBits(x: nat, n: nat)
    requires n <= 32
    ensures x % B % Pow(2, n) == x % Pow(2, n)
  {
    PowAdd(2, n, 32 - n);
    TwoToThe32();
    ModMod(x, Pow(2, n), Pow(2, 32 - n));
  }

  /** Shifting in new low bits. */
  lemma ShiftIn(x: nat, n: nat, m: nat, d: nat)
    requires d < Pow(2, m)
    ensures (x * Pow(2, m) + d) % Pow(2, n + m) == x % Pow(2, n) * Pow(2, m) + d
  {
    var p, q := Pow(2, n), Pow(2, m);
    PowAdd(2, n, m);
    Arith.DivMod(x, p);
    MulDist(q, p * (x / p), x % p);
    MulRotate(p, x / p, q);
    MulRotate(x / p, p, q);
    MulAssoc(p, q, x / p);
    MulStrict(q, x % p, p);
    DivUnique(x * q + d, p * q, x / p, x % p * q + d);
  }

  /** The next byte, or zero bits, shifted into a buffer that wraps at 32 bits. */
  lemma Refill(buffer: nat, bitsLeft: nat, consumed: nat, m: nat, d: nat)
    requires BufferHolds(buffer, bitsLeft, consumed) && bitsLeft + m <= 32 && d < Pow(2, m)
    ensures BufferHolds((buffer * Pow(2, m)) % B + d, bitsLeft + m, consumed * Pow(2, m) + d)
  {
    hide Pow;
    var p, y := Pow(2, bitsLeft + m), buffer * Pow(2, m);
    ShiftIn(buffer, bitsLeft, m, d);
    ShiftIn(consumed, bitsLeft, m, d);
    LowBits(y, bitsLeft + m);
    SameResidue(y % B, y, d, p);
  }

  lemma SameResidue(x: int, y: int, d: int, p: int)
    requires p > 0 && x % p == y % p
    ensures (x + d) % p == (y + d) % p
  {
    Arith.DivMod(x, p);
    Arith.DivMod(y, p);
    MulDist(p, x / p, y / p);
    ModMultiple(y + d, x / p - y / p, p);
  }

  /** The top five of the held bits are the next five bits of the input. */
  lemma TopFive(buffer: nat, bitsLeft: nat, consumed: nat)
    requires BufferHolds(buffer, bitsLeft, consumed) && bitsLeft >= 5
    ensures buffer / Pow(2, bitsLeft - 5) % 32 == consumed / Pow(2, bitsLeft - 5) % 32
    ensures BufferHolds(buffer, bitsLeft - 5, consumed)
  {
    var n := bitsLeft - 5;
    Radix();
    PowAdd(2, n, 5);
    SplitField(buffer, Pow(2, n));
    SplitField(consumed, Pow(2, n));
  }

  lemma SplitField(x: nat, p: nat)
    requires p > 0
    ensures x % (p * 32) / p == x / p % 32
    ensures x % (p * 32) % p == x % p
  {
    Arith.DivMod(x, p * 32);
    var k, r := x / (p * 32), x % (p * 32);
    assert x == r + p * (32 * k) by { MulAssoc(p, 32, k); }
    ModMultiple(r, 32 * k, p);
    Arith.DivMod(r, p);
    if r / p >= 32 { MulMono(p, 32, r / p); }
    DivUnique(x / p, 32, k, r / p);
  }

  /** The bits of the first next bytes are the leading bits of the input. */
  lemma LeadingBits(data: seq<U8>, next: nat)
    requires next <= |data|
    ensures Bits(data) / Pow(2, 8 * (|data| - next) + Pad(|data|)) == ValueOf(data[..next], 256)
  {
    hide Pow, ValueOf;
    assert data == data[..next] + data[next..];
    ValueConcat(data[..next], data[next..], 256);
    DigitsOfValue(data[next..], 256);
    BytesThenPad(ValueOf(data[..next], 256), ValueOf(data[next..], 256), |data| - next, Pad(|data|));
  }

  lemma BytesThenPad(x: nat, y: nat, rest: nat, pad: nat)
    requires y < Pow(256, rest)
    ensures (x * Pow(256, rest) + y) * Pow(2, pad) / Pow(2, 8 * rest + pad) == x
  {
    hide Pow;
    Radix();
    PowOfPow(2, 8, rest);
    PowAdd(2, 8 * rest, pad);
    LeadingPart(x, y, Pow(2, 8 * rest), Pow(2, pad));
  }

  lemma LeadingPart(x: nat, y: nat, w: nat, p: nat)
    requires y < w && p > 0
    ensures w * p > 0 && (x * w + y) * p / (w * p) == x
  {
    MulStrict(p, y, w);
    MulDist(p, x * w, y);
    MulRotate(x, w, p);
    MulRotate(w, x, p);
    DivUnique((x * w + y) * p, w * p, x, y * p);
  }

  /** The next group consists of the next five bits, when that many have been read. */
  lemma GroupFromPrefix(data: seq<U8>, next: nat, count: nat, n: nat)
    requires next <= |data| && count < EncodedLength(|data|) && n + 5 == 8 * next - 5 * count
    ensures Groups(data)[count] == ValueOf(data[..next], 256) / Pow(2, n) % 32
  {
    hide Pow, ValueOf, Bits, DigitAt;
    var r := 8 * (|data| - next) + Pad(|data|);
    var i := EncodedLength(|data|) - 1 - count;
    LeadingBits(data, next);
    DigitsOfValue(data, 256);
    GroupAt(Bits(data), r, n, i);
  }

  lemma GroupAt(x: nat, r: nat, n: nat, i: nat)
    requires 5 * i == r + n
    ensures DigitAt(x, 32, i) == x / Pow(2, r) / Pow(2, n) % 32
  {
    hide Pow;
    Radix();
    PowOfPow(2, 5, i);
    PowAdd(2, r, n);
    DivDiv(x, Pow(2, r), Pow(2, n));
  }

  /** The last group is completed with zero bits. */
  lemma LastGroup(data: seq<U8>, count: nat)
    requires count + 1 == EncodedLength(|data|)
    ensures Groups(data)[count] == Bits(data) % 32
  {
    LastDigit(Bits(data), 32);
  }

  lemma NextByte(data: seq<U8>, next: nat)
    requires next < |data|
    ensures ValueOf(data[..next + 1], 256) == ValueOf(data[..next], 256) * Pow(2, 8) + data[next]
  {
    Radix();
    assert data[..next + 1] == data[..next] + [data[next]];
    ValueSnoc(data[..next], data[next], 256);
  }

  /** count characters are written and bitsLeft bits of the first next bytes are still in the buffer. */
  ghost predicate EncoderState(data: seq<U8>, count: nat, buffer: nat, next: nat, bitsLeft: nat) {
    && 1 <= next <= |data| && count <= EncodedLength(|data|)
    && if count == EncodedLength(|data|) then bitsLeft == 0 && next == |data|
       else bitsLeft <= 8 && bitsLeft == 8 * next - 5 * count
            && BufferHolds(buffer, bitsLeft, ValueOf(data[..next], 256))
  }

  lemma StartState(data: seq<U8>)
    requires data != []
    ensures EncoderState(data, 0, data[0], 1, 8)
  {
    assert data[..1] == [] + [data[0]];
    ValueSnoc([], data[0], 256);
  }

  /** When nothing is held and all is read, all characters are written. */
  lemma EncoderEnds(data: seq<U8>, count: nat, buffer: nat, next: nat, bitsLeft: nat)
    requires EncoderState(data, count, buffer, next, bitsLeft) && bitsLeft == 0 && next >= |data|
    ensures count == EncodedLength(|data|)
  {
  }

  lemma EncoderFits(data: seq<U8>, count: nat, buffer: nat, next: nat, bitsLeft: nat)
    requires EncoderState(data, count, buffer, next, bitsLeft)
    ensures count <= EncodedLength(|data|)
  {
  }

  /** After reading a byte when fewer than five bits are held, five are. */
  lemma StateWithByte(data: seq<U8>, count: nat, buffer: U32, next: nat, bitsLeft: nat)
    requires EncoderState(data, count, buffer, next, bitsLeft)
    requires bitsLeft < 5 && next < |data|
    ensures (buffer * 256) % B + data[next] < B
    ensures BufferHolds((buffer * 256) % B + data[next], bitsLeft + 8, ValueOf(data[..next + 1], 256))
    ensures bitsLeft + 8 == 8 * (next + 1) - 5 * count
  {
    hide Pow, BufferHolds, ValueOf;
    Radix();
    Refill(buffer, bitsLeft, ValueOf(data[..next], 256), 8, data[next]);
    NextByte(data, next);
    ByteFits(buffer, data[next]);
  }

  lemma ByteFits(x: nat, d: U8)
    ensures (x * 256) % B + d < B
  {
    assert B == 256 * 0x100_0000;
    Arith.DivMod(x * 256, B);
    assert (x * 256) % B == 256 * (x - 0x100_0000 * (x * 256 / B));
  }

  /** With nothing left to read the last group is filled up with zero bits. */
  lemma StateWithPad(data: seq<U8>, count: nat, buffer: U32, bitsLeft: nat)
    requires EncoderState(data, count, buffer, |data|, bitsLeft) && 0 < bitsLeft < 5
    ensures count + 1 == EncodedLength(|data|)
    ensures (buffer * Pow(2, 5 - bitsLeft)) % B % 32 == Groups(data)[count]
  {
    Radix();
    assert data[..|data|] == data;
    Refill(buffer, bitsLeft, ValueOf(data, 256), 5 - bitsLeft, 0);
    LastGroup(data, count);
  }

  /** With five bits held, the top five are the next group. */
  lemma StateTakesFive(data: seq<U8>, count: nat, buffer: U32, next: nat, bitsLeft: nat)
    requires 1 <= next <= |data| && 5 <= bitsLeft <= 12 && bitsLeft == 8 * next - 5 * count
    requires BufferHolds(buffer, bitsLeft, ValueOf(data[..next], 256))
    ensures count < EncodedLength(|data|)
    ensures buffer / Pow(2, bitsLeft - 5) % 32 == Groups(data)[count]
    ensures EncoderState(data, count + 1, buffer, next, bitsLeft - 5)
  {
    hide Groups, ValueOf, Pow;
    TopFive(buffer, bitsLeft, ValueOf(data[..next], 256));
    GroupFromPrefix(data, next, count, bitsLeft - 5);
  }

  /** Takes the next five bits from the buffer, reading a byte or padding when it holds fewer. */
  method NextCharacter(data: seq<U8>, ghost count: nat, buffer0: U32, next0: nat, bitsLeft0: nat)
    returns (c: char, buffer: U32, next: nat, bitsLeft: nat)
    requires EncoderState(data, count, buffer0, next0, bitsLeft0)
    requires bitsLeft0 > 0 || next0 < |data|
    ensures count < EncodedLength(|data|) && c == Encoding(data)[count]
    ensures EncoderState(data, count + 1, buffer, next, bitsLeft)
  {
    hide Pow, BufferHolds, Groups, ValueOf, Symbol;
    buffer, next, bitsLeft := buffer0, next0, bitsLeft0;
    if bitsLeft < 5 {
      if next < |data| {
        StateWithByte(data, count, buffer, next, bitsLeft);
        buffer := (buffer * 256) % B + data[next];
        next := next + 1;
        bitsLeft := bitsLeft + 8;
      } else {
        StateWithPad(data, count, buffer, bitsLeft);
        var pad := 5 - bitsLeft;
        buffer := (buffer * Pow(2, pad)) % B;
        bitsLeft := bitsLeft + pad;
      }
    }
    if bitsLeft0 >= 5 || next0 < |data| {
      StateTakesFive(data, count, buffer, next, bitsLeft);
    } else {
      PowZero(2);
    }
    var index := buffer / Pow(2, bitsLeft - 5) % 32;
    bitsLeft := bitsLeft - 5;
    c := Symbol(index);
  }

  /** Writing the next character extends what is written by one. */
  lemma NextWritten(text: string, was: string, count: nat)
    requires count < |text| && count < |was|
    ensures (text[..count] + was[count..])[count := text[count]] == text[..count + 1] + was[count + 1..]
  {
    assert text[..count + 1] == text[..count] + [text[count]];
    assert was[count..] == [was[count]] + was[count + 1..];
  }

  /** The loop over groups: writes characters while there is room and input. */
  method EncodeGroups(data: seq<U8>, result: array<char>, bufSize: int) returns (count: nat)
    requires data != [] && bufSize <= result.Length
    modifies result
    ensures count == Max(Min(bufSize, EncodedLength(|data|)), 0)
    ensures result[..count] == Encoding(data)[..count] && result[count..] == old(result[count..])
  {
    hide Encoding, EncoderState, Symbol, Groups, Pow, ValueOf;
    count := 0;
    ghost var was := result[..];
    var buffer: U32 := data[0];
    var next: nat, bitsLeft: nat := 1, 8;
    StartState(data);
    EncoderFits(data, 0, buffer, next, bitsLeft);
    while count < bufSize && (bitsLeft > 0 || next < |data|)
      invariant 0 <= count <= Max(bufSize, 0) && count <= EncodedLength(|data|)
      invariant EncoderState(data, count, buffer, next, bitsLeft)
      invariant result[..] == Encoding(data)[..count] + was[count..]
      decreases EncodedLength(|data|) - count
    {
      var c;
      c, buffer, next, bitsLeft := NextCharacter(data, count, buffer, next, bitsLeft);
      result[count] := c;
      NextWritten(Encoding(data), was, count);
      count := count + 1;
    }
    if count < bufSize {
      EncoderEnds(data, count, buffer, next, bitsLeft);
    }
  }

  /**
   * Encodes length bytes, truncated to bufSize characters, and returns the
   * number written. The buffer is never masked: only its low bits matter.
   */
  method Encode(data: seq<U8>, length: int, result: array<char>, bufSize: int) returns (count: int)
    requires 0 <= length <= 0x1000_0000 ==> |data| == length
    requires bufSize <= result.Length
    modifies result
    ensures !(0 <= length <= 0x1000_0000) ==> count == -1 && result[..] == old(result[..])
    ensures 0 <= length <= 0x1000_0000 ==>
              && count == Max(Min(bufSize, EncodedLength(length)), 0)
              && result[..count] == Encoding(data)[..count]
              && (if count < bufSize then result[count] == '\0' && result[count + 1..] == old(result[count + 1..])
                  else result[count..] == old(result[count..]))
  {
    hide Encoding;
    if length < 0 || length > 0x1000_0000 {
      return -1;
    }
    count := 0;
    if length > 0 {
      count := EncodeGroups(data, result, bufSize);
    }
    if count < bufSize {
      ghost var before := result[..];
      result[count] := '\0';
      assert result[..] == before[..count] + ['\0'] + before[count + 1..];
    }
  }
}
