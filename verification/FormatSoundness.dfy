/** Accepted format strings: each is written in the way of the grammar for the events that the parser gives. */
module FormatSoundness {
  import opened Decimal
  import opened IntegerText
  import opened FormatParser
  import opened FormatScanner
  import opened FormatRendering

  // How the parts may be written; numbers may have leading zeros where no flag or id forbids them.

  ghost predicate NumeralFor(t: string, n: nat) {
    t != "" && AllDigits(t) && DecimalValue(t) == n && n <= INT_MAX
  }

  ghost predicate IdFor(t: string, id: ArgId) {
    match id {
      case Auto => t == ""
      case Index(n) => (t == "0" && n == 0) || (NumeralFor(t, n) && t[0] != '0')
      case Name(x) => t == x && x != "" && IsNameStart(x[0]) && forall k :: 0 <= k < |x| ==> IsNameChar(x[k])
    }
  }

  ghost predicate CountFor(t: string, c: Count) {
    match c {
      case Absent => t == ""
      case Given(n) => NumeralFor(t, n)
      case Dynamic(id) => |t| >= 2 && t[0] == '{' && t[|t| - 1] == '}' && IdFor(t[1..|t| - 1], id)
    }
  }

  ghost predicate PrecisionFor(t: string, c: Count) {
    if c.Absent? then t == "" else t != "" && t[0] == '.' && CountFor(t[1..], c)
  }

  /** One code point. */
  predicate IsCodePoint(t: string) {
    t != "" && (if t[0] as int < 0x80 then |t| == 1 else forall k :: 1 <= k < |t| ==> IsContinuation(t[k]))
  }

  predicate AlignFor(t: string, fill: string, align: Align) {
    t == fill + RenderAlign(align) && (fill != "" ==> align != NoAlign && fill[0] != '{' && IsCodePoint(fill))
  }

  ghost predicate SpecsFor(t: string, x: Specs) {
    exists a: string, w: string, p: string ::
      && AlignFor(a, x.fill, x.align) && CountFor(w, x.width) && PrecisionFor(p, x.precision)
      && |x.kind| <= 1 && (x.kind != "" ==> x.kind[0] != '}')
      && t == a + RenderSign(x.sign) + (if x.alt then "#" else "") + (if x.zero then "0" else "") + w + p + x.kind
  }

  /** A text without braces, or up to an escaped closing one, an escaped opening one, or a field. */
  ghost predicate EventFor(t: string, e: Event) {
    match e {
      case Text(x) =>
        || (t == x && t != "" && '{' !in t && '}' !in t)
        || (|x| > 0 && t == x + "}" && x[|x| - 1] == '}' && '{' !in x && '}' !in x[..|x| - 1])
        || (t == "{{" && x == "{")
      case Field(id) => |t| >= 2 && t[0] == '{' && t[|t| - 1] == '}' && IdFor(t[1..|t| - 1], id)
      case SpecField(id, x) =>
        exists k :: 1 <= k < |t| - 1 && t[0] == '{' && t[k] == ':' && t[|t| - 1] == '}'
                    && IdFor(t[1..k], id) && SpecsFor(t[k + 1..|t| - 1], x)
    }
  }

  ghost predicate WrittenFor(t: string, events: seq<Event>)
    decreases |events|
  {
    if events == [] then t == ""
    else exists n: nat :: n <= |t| && EventFor(t[..n], events[0]) && WrittenFor(t[n..], events[1..])
  }

  // What is accepted is written so.

  lemma {:induction false} NameChars(s: string, i: nat, k: nat)
    requires i <= |s| && i <= k < NameEnd(s, i)
    ensures IsNameChar(s[k])
    decreases |s| - i
  {
    if i < k { NameChars(s, i + 1, k); }
  }

  lemma {:induction false} ContinuationChars(s: string, i: nat, k: nat)
    requires i <= |s| && i <= k < ContinuationEnd(s, i)
    ensures IsContinuation(s[k])
    decreases |s| - i
  {
    if i < k { ContinuationChars(s, i + 1, k); }
  }

  lemma NumberSound(s: string, i: nat)
    requires i < |s| && IsDigit(s[i]) && NonnegativeIntAt(s, i).Parsed?
    ensures var r := NonnegativeIntAt(s, i); i < r.end <= |s| && NumeralFor(s[i..r.end], r.value)
  {
    hide DecimalValue;
    RunContinues(s, i, i);
  }

  lemma IdSound(s: string, i: nat)
    requires i < |s| && ArgIdAt(s, i).At?
    ensures var r := ArgIdAt(s, i); i <= r.next <= |s| && IdFor(s[i..r.next], r.value)
  {
    hide DecimalValue, NonnegativeIntAt, NameEnd;
    if s[i] == '}' || s[i] == ':' {
    } else if IsDigit(s[i]) {
      if s[i] != '0' { NumberSound(s, i); }
    } else {
      var e := NameEnd(s, i + 1);
      forall k | 0 < k < e - i ensures IsNameChar(s[i..e][k]) { NameChars(s, i + 1, i + k); }
    }
  }

  lemma NestedSound(s: string, i: nat)
    requires i < |s| && s[i] == '{' && NestedAt(s, i).At?
    ensures var r := NestedAt(s, i); i <= r.next <= |s| && CountFor(s[i..r.next], r.value)
  {
    hide ArgIdAt, IdFor;
    IdSound(s, i + 1);
    var n := NestedAt(s, i).next;
    var t := s[i..n];
    assert t[1..|t| - 1] == s[i + 1..n - 1];
  }

  lemma WidthSound(s: string, i: nat)
    requires i <= |s| && WidthAt(s, i).At?
    ensures var r := WidthAt(s, i); i <= r.next <= |s| && CountFor(s[i..r.next], r.value)
  {
    hide NestedAt, NonnegativeIntAt, NumeralFor;
    if i < |s| {
      if IsDigit(s[i]) { NumberSound(s, i); } else if s[i] == '{' { NestedSound(s, i); }
    }
  }

  lemma PrecisionSound(s: string, i: nat)
    requires i <= |s| && PrecisionAt(s, i).At?
    ensures var r := PrecisionAt(s, i); i <= r.next <= |s| && PrecisionFor(s[i..r.next], r.value)
  {
    hide NestedAt, NonnegativeIntAt, NumeralFor, IdFor;
    if i < |s| && s[i] == '.' {
      if IsDigit(s[i + 1]) { NumberSound(s, i + 1); } else { NestedSound(s, i + 1); NestedIsDynamic(s, i + 1); }
      var n := PrecisionAt(s, i).next;
      assert s[i..n][1..] == s[i + 1..n];
    }
  }

  lemma NestedIsDynamic(s: string, i: nat)
    requires i < |s| && NestedAt(s, i).At?
    ensures NestedAt(s, i).value.Dynamic?
  {
    hide ArgIdAt;
  }

  lemma AlignSound(s: string, i: nat)
    requires i <= |s| && AlignAt(s, i).At?
    ensures var r := AlignAt(s, i); i <= r.next <= |s| && AlignFor(s[i..r.next], r.value.0, r.value.1)
  {
    hide ContinuationEnd;
    if i < |s| {
      var p := CodePointEnd(s, i);
      if p < |s| && AlignOf(s[p]) != NoAlign {
        var fill := s[i..p];
        forall k | 1 <= k < |fill| && s[i] as int >= 0x80 ensures IsContinuation(fill[k]) {
          ContinuationChars(s, i + 1, i + k);
        }
        assert s[i..p + 1] == fill + [s[p]];
      }
    }
  }

  lemma SpecsBuilt(x: Specs, a: string, w: string, p: string, t: string)
    requires AlignFor(a, x.fill, x.align) && CountFor(w, x.width) && PrecisionFor(p, x.precision)
    requires |x.kind| <= 1 && (x.kind != "" ==> x.kind[0] != '}')
    requires t == a + RenderSign(x.sign) + (if x.alt then "#" else "") + (if x.zero then "0" else "") + w + p + x.kind
    ensures SpecsFor(t, x)
  {
    hide AlignFor, CountFor, PrecisionFor, RenderSign;
  }

  /** Where the parts of a specification end. */
  ghost predicate Parts(s: string, i: nat, r: Parsed<Specs>, a: nat, h: nat, z: nat, w: nat, p: nat, k: nat)
    requires r.At? && i <= |s|
  {
    var x := r.value;
    && i <= a <= h <= z <= w <= p <= k <= r.next <= |s|
    && AlignAt(s, i) == At((x.fill, x.align), a) && WidthAt(s, w) == At(x.width, p)
    && PrecisionAt(s, p) == At(x.precision, k)
    && s[a..h] == RenderSign(x.sign) && s[h..z] == (if x.alt then "#" else "")
    && s[z..w] == (if x.zero then "0" else "") && s[k..r.next] == x.kind
    && |x.kind| <= 1 && (x.kind != "" ==> x.kind[0] != '}')
  }

  function SignAt(s: string, i: nat): Sign
    requires i <= |s|
  {
    if i < |s| then SignOf(s[i]) else NoSign
  }

  predicate Has(s: string, i: nat, c: char) {
    i < |s| && s[i] == c
  }

  function OneIf(b: bool): nat { if b then 1 else 0 }

  lemma SpecsUnfold(s: string, i: nat, a: nat, h: nat, z: nat, w: nat, p: nat, k: nat)
    requires i < |s| && s[i] != '}' && SpecsAt(s, i).At?
    requires AlignAt(s, i).At? && a == AlignAt(s, i).next && h == a + OneIf(SignAt(s, a) != NoSign)
    requires z == h + OneIf(Has(s, h, '#')) && w == z + OneIf(Has(s, z, '0'))
    requires WidthAt(s, w).At? ==> p == WidthAt(s, w).next
    requires p <= |s| && (PrecisionAt(s, p).At? ==> k == PrecisionAt(s, p).next)
    ensures WidthAt(s, w).At? && PrecisionAt(s, p).At? && k <= |s|
    ensures var kind := if k < |s| && s[k] != '}' then [s[k]] else "";
            SpecsAt(s, i) == At(Specs(AlignAt(s, i).value.0, AlignAt(s, i).value.1, SignAt(s, a), Has(s, h, '#'),
                                      Has(s, z, '0'), WidthAt(s, w).value, PrecisionAt(s, p).value, kind), k + |kind|)
  {
    hide AlignAt, WidthAt, PrecisionAt, SignOf;
  }

  lemma HasParts(s: string, i: nat) returns (a: nat, h: nat, z: nat, w: nat, p: nat, k: nat)
    requires i < |s| && s[i] != '}' && SpecsAt(s, i).At?
    ensures Parts(s, i, SpecsAt(s, i), a, h, z, w, p, k)
  {
    hide AlignAt, WidthAt, PrecisionAt, RenderSign, SignOf, SpecsAt;
    AlignThere(s, i);
    a := AlignAt(s, i).next;
    h := a + OneIf(SignAt(s, a) != NoSign);
    z := h + OneIf(Has(s, h, '#'));
    w := z + OneIf(Has(s, z, '0'));
    p := if WidthAt(s, w).At? then WidthAt(s, w).next else 0;
    k := if PrecisionAt(s, p).At? then PrecisionAt(s, p).next else 0;
    SpecsUnfold(s, i, a, h, z, w, p, k);
    SignSound(s, a);
    Optional(s, h, Has(s, h, '#'));
    Optional(s, z, Has(s, z, '0'));
    Optional(s, k, k < |s| && s[k] != '}');
  }

  lemma AlignThere(s: string, i: nat)
    requires i < |s| && s[i] != '}' && SpecsAt(s, i).At?
    ensures AlignAt(s, i).At?
  {
    hide AlignAt, WidthAt, PrecisionAt, SignOf;
  }

  lemma Optional(s: string, i: nat, there: bool)
    requires i <= |s| && (there ==> i < |s|)
    ensures s[i..i + if there then 1 else 0] == if there then [s[i]] else ""
  {
  }

  /** The parts in a row. */
  lemma SpecsSound(s: string, i: nat)
    requires i <= |s| && SpecsAt(s, i).At?
    ensures var r := SpecsAt(s, i); i <= r.next <= |s| && SpecsFor(s[i..r.next], r.value)
  {
    if i == |s| || s[i] == '}' {
      NothingWritten();
      assert s[i..i] == "";
    } else {
      hide AlignAt, WidthAt, PrecisionAt, AlignFor, CountFor, PrecisionFor, SpecsAt, SpecsFor, RenderSign;
      var r := SpecsAt(s, i);
      var a, h, z, w, p, k := HasParts(s, i);
      AlignSound(s, i);
      WidthSound(s, w);
      PrecisionSound(s, p);
      Pieces(s, i, a, h, z, w, p, k, r.next);
      SpecsBuilt(r.value, s[i..a], s[w..p], s[p..k], s[i..r.next]);
    }
  }

  lemma NothingWritten()
    ensures SpecsFor("", Specs("", NoAlign, NoSign, false, false, Absent, Absent, ""))
  {
    assert AlignFor("", "", NoAlign) && CountFor("", Absent) && PrecisionFor("", Absent);
    var w := "";
    assert "" == "" + RenderSign(NoSign) + "" + "" + w + w + "";
  }

  lemma SignSound(s: string, i: nat)
    requires i <= |s|
    ensures s[i..i + OneIf(SignAt(s, i) != NoSign)] == RenderSign(SignAt(s, i))
  {
  }

  lemma SubSlice(s: string, i: nat, j: nat, a: nat, b: nat)
    requires i <= j <= |s| && a <= b <= j - i
    ensures s[i..j][a..b] == s[i + a..i + b]
  {
    var t, u, v := s[i..j], s[i..j][a..b], s[i + a..i + b];
    forall k | 0 <= k < b - a ensures u[k] == v[k] {
      assert u[k] == t[a + k];
      assert t[a + k] == s[i + (a + k)];
    }
  }

  lemma Pieces(s: string, a: nat, b: nat, c: nat, d: nat, e: nat, f: nat, g: nat, h: nat)
    requires a <= b <= c <= d <= e <= f <= g <= h <= |s|
    ensures s[a..h] == s[a..b] + s[b..c] + s[c..d] + s[d..e] + s[e..f] + s[f..g] + s[g..h]
  {
    assert s[a..c] == s[a..b] + s[b..c];
    assert s[a..d] == s[a..c] + s[c..d];
    assert s[a..e] == s[a..d] + s[d..e];
    assert s[a..f] == s[a..e] + s[e..f];
    assert s[a..g] == s[a..f] + s[f..g];
    assert s[a..h] == s[a..g] + s[g..h];
  }

  lemma FieldSound(s: string, i: nat)
    requires i < |s| && s[i] == '{' && FieldAt(s, i).At?
    ensures var r := FieldAt(s, i); i < r.next <= |s| && EventFor(s[i..r.next], r.value)
  {
    hide ArgIdAt, SpecsAt, IdFor, SpecsFor;
    var r := FieldAt(s, i);
    var t := s[i..r.next];
    if s[i + 1] == '}' {
      AutoWritten();
      SubSlice(s, i, r.next, 1, 1);
    } else if s[i + 1] != '{' {
      IdSound(s, i + 1);
      var n := ArgIdAt(s, i + 1).next;
      SubSlice(s, i, r.next, 1, n - i);
      if s[n] == ':' {
        SpecsSound(s, n + 1);
        SubSlice(s, i, r.next, n - i + 1, |t| - 1);
        assert t[n - i] == ':';
      }
    }
  }

  lemma AutoWritten()
    ensures IdFor("", Auto)
  {
  }

  lemma TextWritten(s: string, i: nat, k: nat)
    requires i <= |s| && NextBrace(s, i) == k
    ensures i < k ==> EventFor(s[i..k], Text(s[i..k]))
    ensures k + 1 < |s| && s[k] == '}' && s[k + 1] == '}' ==> EventFor(s[i..k + 2], Text(s[i..k + 1]))
  {
    hide NextBrace;
    assert forall c :: c in s[i..k] ==> c != '{' && c != '}';
    if k + 1 < |s| && s[k] == '}' && s[k + 1] == '}' {
      EscapedAtEnd(s, i, k);
    }
  }

  lemma EscapedAtEnd(s: string, i: nat, k: nat)
    requires i <= k && k + 1 < |s| && s[k] == '}' && s[k + 1] == '}'
    ensures var x := s[i..k + 1];
            x[|x| - 1] == '}' && x[..|x| - 1] == s[i..k] && s[i..k + 2] == x + "}"
  {
    var x := s[i..k + 1];
    assert |x| == k + 1 - i;
    assert x[..k - i] == s[i..k];
    assert s[i..k + 2] == x + [s[k + 1]];
  }

  lemma WrittenPrepend(t: string, n: nat, e: Event, events: seq<Event>)
    requires n <= |t| && EventFor(t[..n], e) && WrittenFor(t[n..], events)
    ensures WrittenFor(t, [e] + events)
  {
    hide EventFor;
    assert ([e] + events)[1..] == events;
  }

  lemma TextComesFirst(s: string, i: nat, k: nat, events: seq<Event>)
    requires i <= |s| && NextBrace(s, i) == k && WrittenFor(s[k..], events)
    ensures WrittenFor(s[i..], TextOf(s[i..k]) + events)
  {
    hide NextBrace, EventFor, WrittenFor;
    TextWritten(s, i, k);
    if i < k {
      assert s[i..][..k - i] == s[i..k] && s[i..][k - i..] == s[k..];
      WrittenPrepend(s[i..], k - i, Text(s[i..k]), events);
    } else {
      assert TextOf(s[i..k]) + events == events;
    }
  }

  /** A string that is accepted is written for its events, piece by piece. */
  lemma {:induction false} AcceptedIsWritten(s: string, i: nat)
    requires i <= |s| && TraceFrom(s, i).ok
    ensures WrittenFor(s[i..], TraceFrom(s, i).events)
    decreases |s| - i
  {
    hide FieldAt, NextBrace, EventFor, WrittenFor, TraceFrom, TextOf;
    var k := NextBrace(s, i);
    if k == |s| {
      TraceEnd(s, i);
      WrittenEmpty();
      assert s[i..k] == s[i..] && s[k..] == "";
      TextComesFirst(s, i, k, []);
      assert TextOf(s[i..]) + [] == TextOf(s[i..]);
    } else if s[k] == '}' {
      TraceBrace(s, i, k);
      TextWritten(s, i, k);
      AcceptedIsWritten(s, k + 2);
      assert s[i..][..k + 2 - i] == s[i..k + 2] && s[i..][k + 2 - i..] == s[k + 2..];
      WrittenPrepend(s[i..], k + 2 - i, Text(s[i..k + 1]), TraceFrom(s, k + 2).events);
    } else {
      TraceField(s, i, k);
      var f := FieldAt(s, k);
      var rest := TraceFrom(s, f.next).events;
      FieldSound(s, k);
      AcceptedIsWritten(s, f.next);
      assert s[k..][..f.next - k] == s[k..f.next] && s[k..][f.next - k..] == s[f.next..];
      WrittenPrepend(s[k..], f.next - k, f.value, rest);
      TextComesFirst(s, i, k, [f.value] + rest);
      assert TextOf(s[i..k]) + ([f.value] + rest) == TextOf(s[i..k]) + [f.value] + rest;
    }
  }

  lemma WrittenEmpty()
    ensures WrittenFor("", [])
  {
  }
}
