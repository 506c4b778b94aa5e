/** The parser functions that step through a format string, and its two scanning strategies. */
module FormatScanner {
  import opened IntegerText
  import opened FormatParser

  method NextCodePoint(s: string, begin: nat) returns (p: nat)
    requires begin < |s|
    ensures p == CodePointEnd(s, begin)
  {
    p := begin + 1;
    if s[begin] as int < 0x80 { return; }
    while p != |s| && IsContinuation(s[p])
      invariant p <= |s| && ContinuationEnd(s, p) == ContinuationEnd(s, begin + 1)
    {
      p := p + 1;
    }
  }

  method ParseArgId(s: string, begin: nat) returns (r: Parsed<ArgId>)
    requires begin < |s|
    ensures r == ArgIdAt(s, begin)
  {
    var c := s[begin];
    if c == '}' || c == ':' {
      return At(Auto, begin);
    }
    if '0' <= c <= '9' {
      var index, it := 0, begin + 1;
      if c != '0' {
        var n := ParseNonnegativeInt(s, begin);
        if n.TooBig? { return Failed; }
        index, it := n.value, n.end;
      }
      if it == |s| || (s[it] != '}' && s[it] != ':') {
        return Failed;
      }
      return At(Index(index), it);
    }
    if !IsNameStart(c) {
      return Failed;
    }
    var it := begin + 1;
    while it != |s| && (IsNameStart(s[it]) || '0' <= s[it] <= '9')
      invariant begin < it <= |s| && NameEnd(s, it) == NameEnd(s, begin + 1)
    {
      it := it + 1;
    }
    return At(Name(s[begin..it]), it);
  }

  /** Looks for an alignment after the first code point, then in its place. */
  method ParseAlign(s: string, begin: nat) returns (r: Parsed<(string, Align)>)
    requires begin < |s|
    ensures r == AlignAt(s, begin)
  {
    var p := NextCodePoint(s, begin);
    if p == |s| { p := begin; }
    ghost var second := p;
    while true
      invariant p == second || (p == begin && AlignOf(s[second]) == NoAlign)
      invariant second < |s| && (second == begin || second == CodePointEnd(s, begin))
      invariant second == begin ==> CodePointEnd(s, begin) == |s|
      decreases p
    {
      var align := AlignOf(s[p]);
      if align != NoAlign {
        if p == begin { return At(("", align), begin + 1); }
        if s[begin] == '{' { return Failed; }
        return At((s[begin..p], align), p + 1);
      }
      if p == begin { return At(("", NoAlign), begin); }
      p := begin;
    }
  }

  method ParseNested(s: string, begin: nat) returns (r: Parsed<Count>)
    requires begin < |s|
    ensures r == NestedAt(s, begin)
  {
    var it := begin + 1;
    if it == |s| { return Failed; }
    var id := ParseArgId(s, it);
    if id.Failed? || id.next == |s| || s[id.next] != '}' {
      return Failed;
    }
    return At(Dynamic(id.value), id.next + 1);
  }

  method ParseWidth(s: string, begin: nat) returns (r: Parsed<Count>)
    requires begin < |s|
    ensures r == WidthAt(s, begin)
  {
    if '0' <= s[begin] <= '9' {
      var n := ParseNonnegativeInt(s, begin);
      return if n.TooBig? then Failed else At(Given(n.value), n.end);
    } else if s[begin] == '{' {
      r := ParseNested(s, begin);
    } else {
      r := At(Absent, begin);
    }
  }

  method ParsePrecision(s: string, begin: nat) returns (r: Parsed<Count>)
    requires begin < |s| && s[begin] == '.'
    ensures r == PrecisionAt(s, begin)
  {
    var it := begin + 1;
    var c := if it != |s| then s[it] else '\0';
    if '0' <= c <= '9' {
      var n := ParseNonnegativeInt(s, it);
      return if n.TooBig? then Failed else At(Given(n.value), n.end);
    } else if c == '{' {
      r := ParseNested(s, it);
    } else {
      r := Failed;
    }
  }

  /** Steps over the parts of a format specification, stopping wherever the string ends. */
  method ParseFormatSpecs(s: string, begin: nat) returns (r: Parsed<Specs>)
    requires begin <= |s|
    ensures r == SpecsAt(s, begin)
  {
    hide AlignAt, WidthAt, PrecisionAt;
    var specs := Specs("", NoAlign, NoSign, false, false, Absent, Absent, "");
    if begin == |s| || s[begin] == '}' { return At(specs, begin); }
    NothingAtEnd(s);
    var a := ParseAlign(s, begin);
    if a.Failed? { return Failed; }
    var it: nat := a.next;
    specs := specs.(fill := a.value.0, align := a.value.1);
    if it == |s| { return At(specs, it); }
    if SignOf(s[it]) != NoSign {
      specs := specs.(sign := SignOf(s[it]));
      it := it + 1;
    }
    if it == |s| { return At(specs, it); }
    if s[it] == '#' {
      specs := specs.(alt := true);
      it := it + 1;
      if it == |s| { return At(specs, it); }
    }
    if s[it] == '0' {
      specs := specs.(zero := true);
      it := it + 1;
      if it == |s| { return At(specs, it); }
    }
    var w := ParseWidth(s, it);
    if w.Failed? { return Failed; }
    it := w.next;
    specs := specs.(width := w.value);
    if it == |s| { return At(specs, it); }
    var p := At(Absent, it);
    if s[it] == '.' {
      p := ParsePrecision(s, it);
      if p.Failed? { return Failed; }
      it := p.next;
      specs := specs.(precision := p.value);
    } else {
      NoPrecision(s, it);
    }
    if it != |s| && s[it] != '}' {
      specs := specs.(kind := [s[it]]);
      it := it + 1;
    }
    return At(specs, it);
  }

  lemma NothingAtEnd(s: string)
    ensures WidthAt(s, |s|) == At(Absent, |s|) && PrecisionAt(s, |s|) == At(Absent, |s|)
  {
  }

  lemma NoPrecision(s: string, i: nat)
    requires i < |s| && s[i] != '.'
    ensures PrecisionAt(s, i) == At(Absent, i)
  {
  }

  method ParseReplacementField(s: string, begin: nat) returns (r: Parsed<Event>)
    requires begin < |s|
    ensures r == FieldAt(s, begin)
  {
    var it := begin + 1;
    if it == |s| { return Failed; }
    if s[it] == '}' { return At(Field(Auto), it + 1); }
    if s[it] == '{' { return At(Text("{"), it + 1); }
    var id := ParseArgId(s, it);
    if id.Failed? { return Failed; }
    var c := if id.next != |s| then s[id.next] else '\0';
    if c == '}' {
      return At(Field(id.value), id.next + 1);
    } else if c == ':' {
      var specs := ParseFormatSpecs(s, id.next + 1);
      if specs.Failed? || specs.next == |s| || s[specs.next] != '}' { return Failed; }
      return At(SpecField(id.value, specs.value), specs.next + 1);
    } else {
      return Failed;
    }
  }

  // The scanners.

  lemma NextBraceIs(s: string, i: nat, k: nat)
    requires i <= k <= |s|
    requires forall j :: i <= j < k ==> s[j] != '{' && s[j] != '}'
    requires k < |s| ==> s[k] == '{' || s[k] == '}'
    ensures NextBrace(s, i) == k
  {
  }

  /** The events so far, followed by what is to be parsed from i, are those of the string from i0 on. */
  ghost predicate Sofar(s: string, i0: nat, events: seq<Event>, i: nat) {
    i0 <= |s| && i <= |s| && Prepend(events, TraceFrom(s, i)) == TraceFrom(s, i0)
  }

  lemma Start(s: string, i: nat)
    requires i <= |s|
    ensures Sofar(s, i, [], i)
  {
    hide TraceFrom;
  }

  /** An escaped closing brace at k ends a text. */
  lemma StepBrace(s: string, i0: nat, events: seq<Event>, i: nat, k: nat)
    requires Sofar(s, i0, events, i) && NextBrace(s, i) == k && k < |s| && s[k] == '}'
    ensures k + 1 < |s| && s[k + 1] == '}' ==> Sofar(s, i0, events + TextOf(s[i..k + 1]), k + 2)
    ensures k + 1 == |s| || s[k + 1] != '}' ==> TraceFrom(s, i0) == Trace(events, false)
  {
    hide FieldAt;
  }

  /** A text ends at the replacement field at k. */
  lemma StepField(s: string, i0: nat, events: seq<Event>, i: nat, k: nat)
    requires Sofar(s, i0, events, i) && NextBrace(s, i) == k && k < |s| && s[k] == '{'
    ensures var field := FieldAt(s, k);
            if field.Failed? then TraceFrom(s, i0) == Trace(events + TextOf(s[i..k]), false)
            else Sofar(s, i0, events + TextOf(s[i..k]) + [field.value], field.next)
  {
    hide FieldAt;
  }

  lemma StepEnd(s: string, i0: nat, events: seq<Event>, i: nat)
    requires Sofar(s, i0, events, i) && NextBrace(s, i) == |s|
    ensures TraceFrom(s, i0) == Trace(events + TextOf(s[i..]), true)
  {
    hide FieldAt;
    assert s[i..|s|] == s[i..];
  }

  /** A text that ends at an opening brace, or at the end, can be split off. */
  lemma StepText(s: string, i0: nat, events: seq<Event>, i: nat, k: nat)
    requires Sofar(s, i0, events, i) && NextBrace(s, i) == k && (k < |s| ==> s[k] == '{')
    ensures Sofar(s, i0, events + TextOf(s[i..k]), k)
  {
    hide TraceFrom, AfterText;
    NextBraceIs(s, k, k);
    TextFirst(s, i, k);
    TextFirst(s, k, k);
    assert s[k..k] == "";
  }

  /** What follows a text that ends at k. */
  ghost function AfterText(s: string, k: nat): Trace
    requires k <= |s|
  {
    if k == |s| then Trace([], true)
    else match FieldAt(s, k) {
      case Failed => Trace([], false)
      case At(event, next) => Prepend([event], TraceFrom(s, next))
    }
  }

  lemma TextFirst(s: string, i: nat, k: nat)
    requires i <= |s| && NextBrace(s, i) == k && (k < |s| ==> s[k] == '{')
    ensures TraceFrom(s, i) == Prepend(TextOf(s[i..k]), AfterText(s, k))
  {
    hide FieldAt, TextOf;
    if k < |s| {
      match FieldAt(s, k) {
        case Failed =>
        case At(event, next) => PrependTwice(TextOf(s[i..k]), [event], TraceFrom(s, next));
      }
    }
  }

  lemma PrependTwice(a: seq<Event>, b: seq<Event>, t: Trace)
    ensures Prepend(a + b, t) == Prepend(a, Prepend(b, t))
  {
  }

  lemma Join(s: string, events: seq<Event>, i: nat, more: seq<Event>, k: nat)
    requires Sofar(s, 0, events, i) && Sofar(s, i, more, k)
    ensures Sofar(s, 0, events + more, k)
  {
    hide TraceFrom;
  }

  lemma JoinFailed(s: string, events: seq<Event>, i: nat, t: Trace)
    requires Sofar(s, 0, events, i) && TraceFrom(s, i) == t
    ensures TraceFrom(s, 0) == Prepend(events, t)
  {
    hide TraceFrom;
  }

  // What a string that parses consists of.

  lemma TraceBrace(s: string, i: nat, k: nat)
    requires i <= |s| && NextBrace(s, i) == k && k < |s| && s[k] == '}' && TraceFrom(s, i).ok
    ensures k + 2 <= |s| && s[k + 1] == '}' && TraceFrom(s, k + 2).ok
    ensures TraceFrom(s, i).events == [Text(s[i..k + 1])] + TraceFrom(s, k + 2).events
  {
    hide FieldAt;
    assert TextOf(s[i..k + 1]) == [Text(s[i..k + 1])];
  }

  lemma TraceField(s: string, i: nat, k: nat)
    requires i <= |s| && NextBrace(s, i) == k && k < |s| && s[k] == '{' && TraceFrom(s, i).ok
    ensures var f := FieldAt(s, k);
            && f.At? && TraceFrom(s, f.next).ok
            && TraceFrom(s, i).events == TextOf(s[i..k]) + [f.value] + TraceFrom(s, f.next).events
  {
    hide FieldAt, TextOf;
  }

  lemma TraceEnd(s: string, i: nat)
    requires i <= |s| && NextBrace(s, i) == |s|
    ensures TraceFrom(s, i) == Trace(TextOf(s[i..]), true)
  {
    hide TextOf;
    assert s[i..|s|] == s[i..];
  }

  // The scanners themselves.

  /** The simple loop, used for strings of fewer than 32 characters. */
  method ScanShort(s: string) returns (t: Trace)
    ensures t == TraceFrom(s, 0)
  {
    hide FieldAt, TraceFrom, Sofar;
    var begin: nat, p: nat, events: seq<Event> := 0, 0, [];
    Start(s, 0);
    while p != |s|
      invariant begin <= p <= |s|
      invariant forall j :: begin <= j < p ==> s[j] != '{' && s[j] != '}'
      invariant Sofar(s, 0, events, begin)
      decreases |s| - p
    {
      var c := s[p];
      p := p + 1;
      if c == '{' {
        NextBraceIs(s, begin, p - 1);
        StepField(s, 0, events, begin, p - 1);
        events := events + TextOf(s[begin..p - 1]);
        var field := ParseReplacementField(s, p - 1);
        if field.Failed? { return Trace(events, false); }
        events := events + [field.value];
        begin, p := field.next, field.next;
      } else if c == '}' {
        NextBraceIs(s, begin, p - 1);
        StepBrace(s, 0, events, begin, p - 1);
        if p == |s| || s[p] != '}' { return Trace(events, false); }
        events := events + TextOf(s[begin..p]);
        p := p + 1;
        begin := p;
      }
    }
    NextBraceIs(s, begin, |s|);
    StepEnd(s, 0, events, begin);
    return Trace(events + TextOf(s[begin..]), true);
  }

  /** The first position of a character in a range. */
  method Find(s: string, first: nat, last: nat, value: char) returns (found: bool, p: nat)
    requires first <= last <= |s|
    ensures first <= p <= last && (found <==> p < last)
    ensures forall j :: first <= j < p ==> s[j] != value
    ensures found ==> s[p] == value
  {
    p := first;
    while p != last
      invariant first <= p <= last
      invariant forall j :: first <= j < p ==> s[j] != value
    {
      if s[p] == value { return true, p; }
      p := p + 1;
    }
    return false, p;
  }

  /** Writes a stretch without opening braces, unescaping the closing ones. */
  method WriteText(s: string, begin: nat, end: nat) returns (t: Trace)
    requires begin <= end <= |s| && (forall j :: begin <= j < end ==> s[j] != '{') && (end < |s| ==> s[end] == '{')
    ensures t.ok ==> Sofar(s, begin, t.events, end)
    ensures !t.ok ==> TraceFrom(s, begin) == t
  {
    hide FieldAt, TraceFrom, Sofar;
    Start(s, begin);
    if begin == end { return Trace([], true); }
    var b: nat, events: seq<Event> := begin, [];
    while true
      invariant begin <= b <= end
      invariant Sofar(s, begin, events, b)
      decreases end - b
    {
      var found, p := Find(s, b, end, '}');
      NextBraceIs(s, b, p);
      if !found {
        StepText(s, begin, events, b, end);
        return Trace(events + TextOf(s[b..end]), true);
      }
      StepBrace(s, begin, events, b, p);
      p := p + 1;
      if p == end || s[p] != '}' { return Trace(events, false); }
      events := events + TextOf(s[b..p]);
      b := p + 1;
    }
  }

  /** Two passes, one for opening and one for closing braces, used for longer strings. */
  method ScanLong(s: string) returns (t: Trace)
    ensures t == TraceFrom(s, 0)
  {
    hide FieldAt, TraceFrom, Sofar;
    var begin: nat, events: seq<Event> := 0, [];
    Start(s, 0);
    while begin != |s|
      invariant begin <= |s| && Sofar(s, 0, events, begin)
      decreases |s| - begin
    {
      var p: nat := begin;
      if s[begin] != '{' {
        var found;
        found, p := Find(s, begin + 1, |s|, '{');
      }
      var written := WriteText(s, begin, p);
      if !written.ok {
        JoinFailed(s, events, begin, written);
        return Prepend(events, written);
      }
      Join(s, events, begin, written.events, p);
      events := events + written.events;
      NextBraceIs(s, p, p);
      assert s[p..p] == "";
      if p == |s| {
        StepEnd(s, 0, events, p);
        return Trace(events, true);
      }
      StepField(s, 0, events, p, p);
      var field := ParseReplacementField(s, p);
      if field.Failed? { return Trace(events, false); }
      assert events + [] == events;
      events := events + [field.value];
      begin := field.next;
    }
    NextBraceIs(s, |s|, |s|);
    StepEnd(s, 0, events, |s|);
    return Trace(events, true);
  }

  /** Whichever strategy is chosen, a format string has the one meaning of the grammar. */
  method ParseFormatString(s: string) returns (t: Trace)
    ensures t == TraceFrom(s, 0)
  {
    if |s| < 32 {
      t := ScanShort(s);
    } else {
      t := ScanLong(s);
    }
  }
}
