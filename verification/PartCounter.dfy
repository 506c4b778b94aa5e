/** Counting the parts of a format string in advance, without parsing its specifications. */
module PartCounter {
  import opened Arith
  import opened Decimal
  import opened IntegerText
  import opened FormatParser
  import opened FormatScanner
  import opened Formatting
  import opened Compile

  /** The closing brace that matches, depth braces being open at i. */
  function Match(s: string, i: nat, depth: nat): (m: nat)
    requires i <= |s|
    ensures i <= m <= |s| && (m < |s| ==> s[m] == '}')
    decreases |s| - i
  {
    if i == |s| then i
    else if s[i] == '{' then Match(s, i + 1, depth + 1)
    else if s[i] == '}' then if depth == 0 then i else Match(s, i + 1, depth - 1)
    else Match(s, i + 1, depth)
  }

  /** Where reading a number stops: after its digits, or before the first one that it has no room for. */
  function NumberStop(s: string, i: nat, value: nat): (e: nat)
    requires i <= |s|
    ensures i <= e <= |s|
    decreases |s| - i
  {
    if i == |s| || !IsDigit(s[i]) || value > INT_MAX / 10 then i else NumberStop(s, i + 1, value * 10 + Digit(s[i]))
  }

  /** The parts that the counter counts, and how far it goes. */
  datatype Scan = Scan(parts: nat, next: nat)

  /** Scanning an argument id counts one part, unless there is no id or a number is not closed. */
  function IdScan(s: string, i: nat): (r: Scan)
    requires i < |s|
    ensures r.parts <= 1 && i <= r.next <= |s|
  {
    if s[i] == '}' || s[i] == ':' then Scan(1, i)
    else if IsDigit(s[i]) then
      var e := if s[i] == '0' then i + 1 else NumberStop(s, i, 0);
      Scan(if e < |s| && (s[e] == '}' || s[e] == ':') then 1 else 0, e)
    else if IsNameStart(s[i]) then Scan(1, NameEnd(s, i + 1))
    else Scan(0, i)
  }

  /** The counter at the opening brace at i: an error ends the scan of the string. */
  function FieldScan(s: string, i: nat): (r: Scan)
    requires i < |s|
    ensures r.parts <= 1 && i < r.next <= |s|
  {
    if i + 1 == |s| then Scan(0, |s|)
    else if s[i + 1] == '}' || s[i + 1] == '{' then Scan(1, i + 2)
    else
      var id := IdScan(s, i + 1);
      if id.next == |s| then id
      else if s[id.next] == '}' then Scan(id.parts, id.next + 1)
      else if s[id.next] != ':' then Scan(id.parts, |s|)
      else
        var m := Match(s, id.next + 1, 0);
        Scan(id.parts, if m == |s| then |s| else m + 1)
  }

  /** The first opening brace from i on. */
  function NextOpen(s: string, i: nat): (k: nat)
    requires i <= |s|
    ensures i <= k <= |s| && (k < |s| ==> s[k] == '{')
    ensures forall j :: i <= j < k ==> s[j] != '{'
    decreases |s| - i
  {
    if i == |s| || s[i] == '{' then i else NextOpen(s, i + 1)
  }

  function TextParts(i: nat, k: nat): nat {
    if i == k then 0 else 1
  }

  /**
   * The number of texts and fields from i on. At an unmatched closing brace
   * the simple loop ends; the two-pass scan goes on at the next opening brace.
   */
  function CountFrom(s: string, i: nat, twoPass: bool): nat
    requires i <= |s|
    decreases |s| - i
  {
    var k := NextBrace(s, i);
    if k == |s| then TextParts(i, k)
    else if s[k] == '{' then
      var field := FieldScan(s, k);
      TextParts(i, k) + field.parts + CountFrom(s, field.next, twoPass)
    else if k + 1 < |s| && s[k + 1] == '}' then 1 + CountFrom(s, k + 2, twoPass)
    else if twoPass then CountFrom(s, NextOpen(s, k + 1), twoPass)
    else 0
  }

  /** The number of parts that a format string is taken to have. */
  function PartCount(s: string): nat {
    CountFrom(s, 0, |s| >= 32)
  }

  // The counter: it is told of texts and fields, and errors do not stop it.

  class Counter {
    var numParts: nat

    constructor ()
      ensures numParts == 0
    {
      numParts := 0;
    }

    method OnText(begin: nat, end: nat)
      modifies this
      ensures numParts == old(numParts) + TextParts(begin, end)
    {
      if begin != end { numParts := numParts + 1; }
    }

    method OnArgId()
      modifies this
      ensures numParts == old(numParts) + 1
    {
      numParts := numParts + 1;
    }

    /** Finds the matching brace. */
    method OnFormatSpecs(s: string, begin: nat) returns (m: nat)
      requires begin <= |s|
      ensures m == Match(s, begin, 0)
    {
      var braceCounter: nat := 0;
      m := begin;
      while m != |s|
        invariant m <= |s| && Match(s, m, braceCounter) == Match(s, begin, 0)
      {
        if s[m] == '{' {
          braceCounter := braceCounter + 1;
        } else if s[m] == '}' {
          if braceCounter == 0 { break; }
          braceCounter := braceCounter - 1;
        }
        m := m + 1;
      }
    }

    static method SkipNumber(s: string, begin: nat) returns (i: nat)
      requires begin < |s| && IsDigit(s[begin])
      ensures i == NumberStop(s, begin, 0)
    {
      var value: U32 := 0;
      i := begin;
      while true
        invariant begin <= i < |s| && IsDigit(s[i])
        invariant NumberStop(s, i, value) == NumberStop(s, begin, 0)
        decreases |s| - i
      {
        if value > INT_MAX / 10 { break; }
        value := value * 10 + Digit(s[i]);
        i := i + 1;
        if i == |s| || !IsDigit(s[i]) { break; }
      }
    }

    method ParseArgId(s: string, begin: nat) returns (it: nat)
      requires begin < |s|
      modifies this
      ensures numParts == old(numParts) + IdScan(s, begin).parts && it == IdScan(s, begin).next
    {
      it := begin;
      var c := s[begin];
      if c == '}' || c == ':' {
        OnArgId();
      } else if '0' <= c <= '9' {
        if c != '0' { it := SkipNumber(s, begin); } else { it := it + 1; }
        if it != |s| && (s[it] == '}' || s[it] == ':') { OnArgId(); }
      } else if IsNameStart(c) {
        it := it + 1;
        while it != |s| && (IsNameStart(s[it]) || '0' <= s[it] <= '9')
          invariant begin < it <= |s| && NameEnd(s, it) == NameEnd(s, begin + 1)
        {
          it := it + 1;
        }
        OnArgId();
      }
    }

    method ParseReplacementField(s: string, begin: nat) returns (next: nat)
      requires begin < |s|
      modifies this
      ensures numParts == old(numParts) + FieldScan(s, begin).parts && next == FieldScan(s, begin).next
    {
      hide Match, IdScan;
      var it := begin + 1;
      if it == |s| { return |s|; }
      if s[it] == '}' {
        OnArgId();
      } else if s[it] == '{' {
        OnText(it, it + 1);
      } else {
        it := ParseArgId(s, it);
        var c := if it != |s| then s[it] else '\0';
        if c == ':' {
          it := OnFormatSpecs(s, it + 1);
          if it == |s| || s[it] != '}' { return |s|; }
        } else if c != '}' {
          return |s|;
        }
      }
      return it + 1;
    }

    /** The simple loop: an unmatched closing brace ends it. */
    method ScanShort(s: string)
      modifies this
      ensures numParts == old(numParts) + CountFrom(s, 0, false)
    {
      hide FieldScan, NextBrace;
      var begin: nat, p: nat := 0, 0;
      while p != |s|
        invariant begin <= p <= |s|
        invariant forall j :: begin <= j < p ==> s[j] != '{' && s[j] != '}'
        invariant numParts + CountFrom(s, begin, false) == old(numParts) + CountFrom(s, 0, false)
        decreases |s| - p
      {
        var c := s[p];
        p := p + 1;
        if c == '{' {
          NextBraceIs(s, begin, p - 1);
          OnText(begin, p - 1);
          p := ParseReplacementField(s, p - 1);
          begin := p;
        } else if c == '}' {
          NextBraceIs(s, begin, p - 1);
          if p == |s| || s[p] != '}' { return; }
          OnText(begin, p);
          p := p + 1;
          begin := p;
        }
      }
      NextBraceIs(s, begin, |s|);
      OnText(begin, |s|);
    }

    /** A stretch without opening braces: an unmatched closing brace ends this stretch alone. */
    method WriteText(s: string, begin: nat, end: nat)
      requires begin <= end <= |s| && (forall j :: begin <= j < end ==> s[j] != '{') && (end < |s| ==> s[end] == '{')
      modifies this
      ensures numParts + CountFrom(s, end, true) == old(numParts) + CountFrom(s, begin, true)
    {
      hide FieldScan, NextBrace, NextOpen, CountFrom;
      if begin == end { return; }
      var b: nat := begin;
      while true
        invariant begin <= b <= end
        invariant numParts + CountFrom(s, b, true) == old(numParts) + CountFrom(s, begin, true)
        decreases end - b
      {
        var found, p := Find(s, b, end, '}');
        NextBraceIs(s, b, p);
        if !found {
          TextCount(s, b, end);
          OnText(b, end);
          return;
        }
        CloseCount(s, b, p, true);
        p := p + 1;
        if p == end || s[p] != '}' {
          NextOpenIs(s, p, end);
          return;
        }
        OnText(b, p);
        b := p + 1;
      }
    }

    /** The two-pass scan. */
    method ScanLong(s: string)
      modifies this
      ensures numParts == old(numParts) + CountFrom(s, 0, true)
    {
      hide FieldScan, NextBrace, CountFrom;
      var begin: nat := 0;
      while begin != |s|
        invariant begin <= |s| && numParts + CountFrom(s, begin, true) == old(numParts) + CountFrom(s, 0, true)
        decreases |s| - begin
      {
        var p: nat := begin;
        if s[begin] != '{' {
          var found;
          found, p := Find(s, begin + 1, |s|, '{');
        }
        WriteText(s, begin, p);
        if p == |s| {
          EndCount(s);
          return;
        }
        OpenCount(s, p);
        begin := ParseReplacementField(s, p);
      }
      EndCount(s);
    }
  }

  method CountParts(s: string) returns (n: nat)
    ensures n == PartCount(s)
  {
    var counter := new Counter();
    if |s| < 32 {
      counter.ScanShort(s);
    } else {
      counter.ScanLong(s);
    }
    return counter.numParts;
  }

  lemma NextOpenIs(s: string, i: nat, k: nat)
    requires i <= k <= |s| && (forall j :: i <= j < k ==> s[j] != '{') && (k < |s| ==> s[k] == '{')
    ensures NextOpen(s, i) == k
  {
  }

  lemma TextCount(s: string, i: nat, k: nat)
    requires i <= |s| && NextBrace(s, i) == k && (k < |s| ==> s[k] == '{')
    ensures CountFrom(s, i, true) == TextParts(i, k) + CountFrom(s, k, true)
  {
    hide FieldScan, NextBrace;
    NextBraceIs(s, k, k);
  }

  lemma OpenCount(s: string, k: nat)
    requires k < |s| && s[k] == '{'
    ensures CountFrom(s, k, true) == FieldScan(s, k).parts + CountFrom(s, FieldScan(s, k).next, true)
  {
    hide FieldScan, NextBrace;
    NextBraceIs(s, k, k);
  }

  lemma CloseCount(s: string, i: nat, k: nat, twoPass: bool)
    requires i <= |s| && NextBrace(s, i) == k && k < |s| && s[k] == '}'
    ensures CountFrom(s, i, twoPass) ==
            if k + 1 < |s| && s[k + 1] == '}' then 1 + CountFrom(s, k + 2, twoPass)
            else if twoPass then CountFrom(s, NextOpen(s, k + 1), twoPass) else 0
  {
    hide FieldScan, NextBrace, NextOpen;
  }

  lemma EndCount(s: string)
    ensures CountFrom(s, |s|, true) == 0 && CountFrom(s, |s|, false) == 0
  {
  }

  // A specification has only matching braces, unless its type is an opening one.

  predicate NoBraces(s: string, i: nat, j: nat)
    requires j <= |s|
  {
    forall k :: i <= k < j ==> s[k] != '{' && s[k] != '}'
  }

  lemma {:induction false} MatchSkips(s: string, i: nat, j: nat, depth: nat)
    requires i <= j <= |s| && NoBraces(s, i, j)
    ensures Match(s, i, depth) == Match(s, j, depth)
    decreases j - i
  {
    if i < j { MatchSkips(s, i + 1, j, depth); }
  }

  lemma {:induction false} NoBracesInName(s: string, i: nat)
    requires i <= |s|
    ensures NoBraces(s, i, NameEnd(s, i))
    decreases |s| - i
  {
    if i < NameEnd(s, i) { NoBracesInName(s, i + 1); }
  }

  lemma {:induction false} NoBracesInContinuation(s: string, i: nat)
    requires i <= |s|
    ensures NoBraces(s, i, ContinuationEnd(s, i))
    decreases |s| - i
  {
    if i < ContinuationEnd(s, i) { NoBracesInContinuation(s, i + 1); }
  }

  lemma NoBracesInNumber(s: string, i: nat)
    requires i <= |s|
    ensures NoBraces(s, i, DigitRunEnd(s, i))
  {
    var e := DigitRunEnd(s, i);
    forall k | i <= k < e ensures s[k] != '{' && s[k] != '}' {
      assert s[i..e][k - i] == s[k];
    }
  }

  lemma NoBracesInId(s: string, i: nat)
    requires i < |s| && ArgIdAt(s, i).At?
    ensures NoBraces(s, i, ArgIdAt(s, i).next)
  {
    if IsDigit(s[i]) {
      NoBracesInNumber(s, i);
    } else if IsNameStart(s[i]) {
      NoBracesInName(s, i + 1);
    }
  }

  lemma NestedMatches(s: string, i: nat, depth: nat)
    requires i < |s| && s[i] == '{' && NestedAt(s, i).At?
    ensures Match(s, i, depth) == Match(s, NestedAt(s, i).next, depth)
  {
    hide ArgIdAt;
    var n := ArgIdAt(s, i + 1).next;
    NoBracesInId(s, i + 1);
    MatchSkips(s, i + 1, n, depth + 1);
    assert Match(s, n, depth + 1) == Match(s, n + 1, depth);
  }

  lemma NumberMatches(s: string, i: nat, depth: nat)
    requires i <= |s| && NumberAt(s, i).At?
    ensures Match(s, i, depth) == Match(s, NumberAt(s, i).next, depth)
  {
    NoBracesInNumber(s, i);
    MatchSkips(s, i, DigitRunEnd(s, i), depth);
  }

  lemma WidthMatches(s: string, i: nat, depth: nat)
    requires i <= |s| && WidthAt(s, i).At?
    ensures Match(s, i, depth) == Match(s, WidthAt(s, i).next, depth)
  {
    hide NumberAt, NestedAt, Match;
    if i < |s| {
      if IsDigit(s[i]) { NumberMatches(s, i, depth); } else if s[i] == '{' { NestedMatches(s, i, depth); }
    }
  }

  lemma PrecisionMatches(s: string, i: nat, depth: nat)
    requires i <= |s| && PrecisionAt(s, i).At?
    ensures Match(s, i, depth) == Match(s, PrecisionAt(s, i).next, depth)
  {
    hide NumberAt, NestedAt;
    if i < |s| && s[i] == '.' {
      if IsDigit(s[i + 1]) { NumberMatches(s, i + 1, depth); } else { NestedMatches(s, i + 1, depth); }
    }
  }

  lemma AlignMatches(s: string, i: nat, depth: nat)
    requires i < |s| && s[i] != '}' && AlignAt(s, i).At?
    ensures Match(s, i, depth) == Match(s, AlignAt(s, i).next, depth)
  {
    hide Match, AlignAt, CodePointEnd;
    AlignCases(s, i);
    var n := AlignAt(s, i).next;
    if n == CodePointEnd(s, i) + 1 { NoBracesInCodePoint(s, i); }
    MatchSkips(s, i, n, depth);
  }

  lemma AlignCases(s: string, i: nat)
    requires i < |s| && AlignAt(s, i).At?
    ensures var n := AlignAt(s, i).next;
            || n == i
            || (n == i + 1 && s[i] != '{')
            || (n == CodePointEnd(s, i) + 1 && n <= |s| && s[i] != '{' && s[n - 1] != '{' && s[n - 1] != '}')
  {
    hide CodePointEnd;
  }

  lemma NoBracesInCodePoint(s: string, i: nat)
    requires i < |s| && s[i] != '{' && s[i] != '}'
    ensures NoBraces(s, i, CodePointEnd(s, i))
  {
    NoBracesInContinuation(s, i + 1);
  }

  lemma StepMatches(s: string, i: nat, skip: bool, depth: nat)
    requires i <= |s| && (skip ==> i < |s| && s[i] != '{' && s[i] != '}')
    ensures Match(s, i, depth) == Match(s, if skip then i + 1 else i, depth)
  {
  }

  /** The end of the sign, '#' and '0' at i. */
  function FlagsEnd(s: string, i: nat): (w: nat)
    requires i <= |s|
    ensures w <= |s|
  {
    var h := i + if i < |s| && SignOf(s[i]) != NoSign then 1 else 0;
    var z := h + if h < |s| && s[h] == '#' then 1 else 0;
    z + if z < |s| && s[z] == '0' then 1 else 0
  }

  lemma FlagsMatch(s: string, i: nat, depth: nat)
    requires i <= |s|
    ensures Match(s, i, depth) == Match(s, FlagsEnd(s, i), depth)
  {
    hide Match;
    var sign := i < |s| && SignOf(s[i]) != NoSign;
    var h := i + if sign then 1 else 0;
    var alt := h < |s| && s[h] == '#';
    var z := h + if alt then 1 else 0;
    StepMatches(s, i, sign, depth);
    StepMatches(s, h, alt, depth);
    StepMatches(s, z, z < |s| && s[z] == '0', depth);
  }

  /** The type at the end of a specification. */
  function KindAt(s: string, k: nat): (kind: string)
    requires k <= |s|
    ensures k + |kind| <= |s|
  {
    if k < |s| && s[k] != '}' then [s[k]] else ""
  }

  /** The stages of a specification that is not empty. */
  lemma SpecsStages(s: string, i: nat)
    requires i < |s| && s[i] != '}' && SpecsAt(s, i).At?
    ensures AlignAt(s, i).At?
    ensures WidthAt(s, FlagsEnd(s, AlignAt(s, i).next)).At?
    ensures var p := PrecisionAt(s, WidthAt(s, FlagsEnd(s, AlignAt(s, i).next)).next);
            && p.At?
            && SpecsAt(s, i).value.kind == KindAt(s, p.next)
            && SpecsAt(s, i).next == p.next + |SpecsAt(s, i).value.kind|
  {
    hide AlignAt, WidthAt, PrecisionAt;
  }

  function OpenedBy(kind: string): nat {
    if kind == "{" then 1 else 0
  }

  /** A specification leaves as many braces open as it finds, and one more when its type is an opening brace. */
  lemma SpecsMatch(s: string, i: nat, depth: nat)
    requires i <= |s| && SpecsAt(s, i).At?
    ensures Match(s, i, depth) == Match(s, SpecsAt(s, i).next, depth + OpenedBy(SpecsAt(s, i).value.kind))
  {
    hide SpecsAt, Match;
    if i < |s| && s[i] != '}' { StagesMatch(s, i, depth); } else { NoSpecs(s, i); }
  }

  lemma NoSpecs(s: string, i: nat)
    requires i <= |s| && (i < |s| ==> s[i] == '}')
    ensures SpecsAt(s, i).At? && SpecsAt(s, i).next == i && SpecsAt(s, i).value.kind == ""
  {
  }

  lemma StagesMatch(s: string, i: nat, depth: nat)
    requires i < |s| && s[i] != '}' && SpecsAt(s, i).At?
    ensures Match(s, i, depth) == Match(s, SpecsAt(s, i).next, depth + OpenedBy(SpecsAt(s, i).value.kind))
  {
    hide AlignAt, WidthAt, PrecisionAt, Match, SpecsAt, FlagsEnd, OpenedBy, KindAt;
    SpecsStages(s, i);
    var a := AlignAt(s, i).next;
    var w := FlagsEnd(s, a);
    var p := WidthAt(s, w).next;
    AlignMatches(s, i, depth);
    FlagsMatch(s, a, depth);
    WidthMatches(s, w, depth);
    PrecisionMatches(s, p, depth);
    TypeMatches(s, PrecisionAt(s, p).next, depth);
  }

  lemma TypeMatches(s: string, k: nat, depth: nat)
    requires k <= |s|
    ensures Match(s, k, depth) == Match(s, k + |KindAt(s, k)|, depth + OpenedBy(KindAt(s, k)))
  {
  }

  lemma MatchAt(s: string, i: nat, depth: nat)
    requires i < |s|
    ensures s[i] == '{' ==> Match(s, i, depth) == Match(s, i + 1, depth + 1)
    ensures s[i] == '}' ==> Match(s, i, depth) == if depth == 0 then i else Match(s, i + 1, depth - 1)
    ensures s[i] != '{' && s[i] != '}' ==> Match(s, i, depth) == Match(s, i + 1, depth)
  {
  }

  // The scan of a field that parses.

  predicate BraceKind(e: Event) {
    e.SpecField? && e.specs.kind == "{"
  }

  /** The braces that a field, or an escaped brace, leaves open. */
  function LeftOpen(e: Event): nat {
    if e.Text? then 2 else if BraceKind(e) then 1 else 0
  }

  lemma FieldMatches(s: string, i: nat, depth: nat)
    requires i < |s| && s[i] == '{' && FieldAt(s, i).At?
    ensures var f := FieldAt(s, i); Match(s, i, depth) == Match(s, f.next, depth + LeftOpen(f.value))
  {
    hide ArgIdAt, SpecsAt, Match;
    MatchAt(s, i, depth);
    MatchAt(s, i + 1, depth + 1);
    var f := FieldAt(s, i);
    if s[i + 1] != '}' && s[i + 1] != '{' {
      var n := ArgIdAt(s, i + 1).next;
      NoBracesInId(s, i + 1);
      MatchSkips(s, i + 1, n, depth + 1);
      MatchAt(s, n, depth + 1);
      if s[n] == ':' {
        SpecsMatch(s, n + 1, depth + 1);
        MatchAt(s, f.next - 1, depth + 1 + LeftOpen(f.value));
      }
    }
  }

  lemma {:induction false} NumberStops(s: string, begin: nat, i: nat)
    requires begin <= |s| && begin <= i <= DigitRunEnd(s, begin) && NonnegativeIntAt(s, begin).Parsed?
    requires DecimalValue(s[begin..i]) >= 0
    ensures NumberStop(s, i, DecimalValue(s[begin..i])) == DigitRunEnd(s, begin)
    decreases |s| - i
  {
    var e := DigitRunEnd(s, begin);
    RunContinues(s, begin, i);
    if i < e {
      var value := DecimalValue(s[begin..i]);
      if value > INT_MAX / 10 { RunExceeds(s, begin, i, e); }
      assert s[begin..i + 1] == s[begin..i] + [s[i]];
      DecimalSnoc(s[begin..i], s[i]);
      NumberStops(s, begin, i + 1);
    }
  }

  lemma IdScans(s: string, i: nat)
    requires i < |s| && ArgIdAt(s, i).At?
    ensures IdScan(s, i) == Scan(1, ArgIdAt(s, i).next)
  {
    hide NumberStop, NonnegativeIntAt, DecimalValue, NameEnd;
    if IsDigit(s[i]) && s[i] != '0' {
      assert s[i..i] == [];
      NumberScans(s, i);
    }
  }

  lemma NumberScans(s: string, i: nat)
    requires i < |s| && NonnegativeIntAt(s, i).Parsed?
    ensures NumberStop(s, i, 0) == NonnegativeIntAt(s, i).end
  {
    assert s[i..i] == [];
    NumberStops(s, i, i);
  }

  /** A field is one part; after it the scan goes on where the parser does, unless its type is an opening brace. */
  lemma FieldScans(s: string, i: nat)
    requires i < |s| && FieldAt(s, i).At?
    ensures var f := FieldAt(s, i);
            FieldScan(s, i) == Scan(1, if BraceKind(f.value) then MatchEnd(s, f.next, 0) else f.next)
  {
    hide ArgIdAt, IdScan, SpecsAt, Match;
    var f := FieldAt(s, i);
    if s[i + 1] != '}' && s[i + 1] != '{' {
      IdScans(s, i + 1);
      var n := ArgIdAt(s, i + 1).next;
      if s[n] == ':' {
        SpecsMatch(s, n + 1, 0);
        MatchAt(s, f.next - 1, LeftOpen(f.value));
      }
    }
  }

  /** The position after the matching brace. */
  function MatchEnd(s: string, i: nat, depth: nat): (n: nat)
    requires i <= |s|
    ensures n <= |s|
  {
    var m := Match(s, i, depth);
    if m == |s| then |s| else m + 1
  }

  // The count never exceeds the number of events, and when it falls short.

  /** A field whose type is an opening brace may only be the last event. */
  predicate BraceKindsLast(events: seq<Event>) {
    forall j :: 0 <= j < |events| - 1 ==> !BraceKind(events[j])
  }

  lemma FieldCount(s: string, i: nat, k: nat, twoPass: bool)
    requires i <= |s| && NextBrace(s, i) == k && k < |s| && s[k] == '{'
    ensures CountFrom(s, i, twoPass)
            == |TextOf(s[i..k])| + FieldScan(s, k).parts + CountFrom(s, FieldScan(s, k).next, twoPass)
  {
    hide FieldScan, NextBrace, NextOpen;
  }

  lemma NoEvents(s: string, i: nat)
    requires i <= |s| && TraceFrom(s, i).ok
    ensures TraceFrom(s, i).events == [] <==> i == |s|
  {
    hide FieldAt, NextBrace;
  }

  lemma JoinedKinds(a: seq<Event>, b: seq<Event>)
    ensures (forall e :: e in a ==> !BraceKind(e)) ==> (BraceKindsLast(a + b) <==> BraceKindsLast(b))
    ensures a != [] && BraceKind(a[|a| - 1]) && b != [] ==> !BraceKindsLast(a + b)
  {
    hide BraceKind;
    if forall e :: e in a ==> !BraceKind(e) {
      if BraceKindsLast(a + b) {
        forall j | 0 <= j < |b| - 1 ensures !BraceKind(b[j]) { assert (a + b)[|a| + j] == b[j]; }
      }
    }
    if a != [] { assert (a + b)[|a| - 1] == a[|a| - 1]; }
  }

  /** For a string that parses, the count is at most the number of events, and this number exactly when. */
  lemma {:induction false} CountsEvents(s: string, i: nat, twoPass: bool)
    requires i <= |s| && TraceFrom(s, i).ok
    ensures var events := TraceFrom(s, i).events;
            && CountFrom(s, i, twoPass) <= |events|
            && (CountFrom(s, i, twoPass) == |events| <==> BraceKindsLast(events))
    decreases |s| - i
  {
    hide FieldAt, FieldScan, NextBrace, TraceFrom, CountFrom, BraceKind, BraceKindsLast, Match, NextOpen;
    var k := NextBrace(s, i);
    if k == |s| {
      EndCounts(s, i, twoPass);
    } else if s[k] == '}' {
      TraceBrace(s, i, k);
      CloseCount(s, i, k, twoPass);
      TextKind([Text(s[i..k + 1])]);
      JoinedKinds([Text(s[i..k + 1])], TraceFrom(s, k + 2).events);
      CountsEvents(s, k + 2, twoPass);
    } else {
      TraceField(s, i, k);
      FieldCount(s, i, k, twoPass);
      FieldScans(s, k);
      var f := FieldAt(s, k);
      TextKind(TextOf(s[i..k]));
      JoinedKinds(TextOf(s[i..k]) + [f.value], TraceFrom(s, f.next).events);
      if !BraceKind(f.value) {
        CountsEvents(s, f.next, twoPass);
      } else if f.next == |s| {
        AtEnd(s, twoPass);
        LastKind(TextOf(s[i..k]), f.value);
      } else {
        NoEvents(s, f.next);
        Skipped(s, f.next, 0, twoPass);
      }
    }
  }

  lemma EndCounts(s: string, i: nat, twoPass: bool)
    requires i <= |s| && NextBrace(s, i) == |s|
    ensures CountFrom(s, i, twoPass) == |TraceFrom(s, i).events| && BraceKindsLast(TraceFrom(s, i).events)
  {
    hide NextBrace, FieldAt;
    TraceEnd(s, i);
  }

  lemma AtEnd(s: string, twoPass: bool)
    ensures CountFrom(s, |s|, twoPass) == 0 && TraceFrom(s, |s|) == Trace([], true) && Match(s, |s|, 0) == |s|
  {
  }

  lemma TextKind(events: seq<Event>)
    requires forall e :: e in events ==> e.Text?
    ensures forall e :: e in events ==> !BraceKind(e)
  {
  }

  lemma LastKind(texts: seq<Event>, e: Event)
    requires forall t :: t in texts ==> !BraceKind(t)
    ensures BraceKindsLast(texts + [e] + [])
  {
  }

  /** Looking for a brace with depth open ones passes over at least one event for good. */
  lemma {:induction false} Skipped(s: string, i: nat, depth: nat, twoPass: bool)
    requires i < |s| && TraceFrom(s, i).ok
    ensures CountFrom(s, MatchEnd(s, i, depth), twoPass) < |TraceFrom(s, i).events|
    decreases |s| - i, 0
  {
    hide FieldAt, NextBrace, TraceFrom, CountFrom, Match, LeftOpen;
    var k := NextBrace(s, i);
    MatchSkips(s, i, k, depth);
    if k == |s| {
      MatchesToEnd(s, depth);
      AtEnd(s, twoPass);
      TraceEnd(s, i);
      assert s[i..] != "";
    } else if s[k] == '{' {
      TraceField(s, i, k);
      var f := FieldAt(s, k);
      FieldMatches(s, k, depth);
      SkippedOn(s, f.next, depth + LeftOpen(f.value), twoPass);
    } else {
      TraceBrace(s, i, k);
      MatchAt(s, k, depth);
      if depth == 0 {
        ShiftedCount(s, k + 1, twoPass);
      } else {
        MatchAt(s, k + 1, depth - 1);
        if depth == 1 {
          CountsEvents(s, k + 2, twoPass);
        } else {
          SkippedOn(s, k + 2, depth - 2, twoPass);
        }
      }
    }
  }

  lemma {:induction false} SkippedOn(s: string, i: nat, depth: nat, twoPass: bool)
    requires i <= |s| && TraceFrom(s, i).ok
    ensures CountFrom(s, MatchEnd(s, i, depth), twoPass) <= |TraceFrom(s, i).events|
    decreases |s| - i, 1
  {
    hide TraceFrom, CountFrom, Match;
    if i < |s| {
      Skipped(s, i, depth, twoPass);
    } else {
      MatchesToEnd(s, depth);
      AtEnd(s, twoPass);
    }
  }

  lemma MatchesToEnd(s: string, depth: nat)
    ensures Match(s, |s|, depth) == |s|
  {
  }

  /** From the second brace of an escaped one on, the scan pairs the closing braces wrongly. */
  lemma {:induction false} ShiftedCount(s: string, k: nat, twoPass: bool)
    requires k < |s| && s[k] == '}' && TraceFrom(s, k + 1).ok
    ensures CountFrom(s, k, twoPass) <= |TraceFrom(s, k + 1).events|
    decreases |s| - k
  {
    hide FieldAt, NextBrace, TraceFrom, CountFrom, NextOpen;
    NextBraceIs(s, k, k);
    CloseCount(s, k, k, twoPass);
    if k + 1 < |s| && s[k + 1] == '}' {
      NextBraceIs(s, k + 1, k + 1);
      TraceBrace(s, k + 1, k + 1);
      ShiftedCount(s, k + 2, twoPass);
    } else if twoPass {
      OpenIsReached(s, k + 1);
      CountsEvents(s, NextOpen(s, k + 1), twoPass);
    }
  }

  /** The parser comes to every opening brace that has none before it. */
  lemma {:induction false} OpenIsReached(s: string, i: nat)
    requires i <= |s| && TraceFrom(s, i).ok
    ensures var p := NextOpen(s, i);
            TraceFrom(s, p).ok && |TraceFrom(s, p).events| <= |TraceFrom(s, i).events|
    decreases |s| - i
  {
    hide FieldAt, NextBrace, TraceFrom, NextOpen;
    var k := NextBrace(s, i);
    if k < |s| && s[k] == '}' {
      TraceBrace(s, i, k);
      OpenIsReached(s, k + 2);
      NextOpenIs(s, i, NextOpen(s, k + 2));
    } else {
      NextOpenIs(s, i, k);
      TextSplits(s, i, k);
    }
  }

  lemma TextSplits(s: string, i: nat, k: nat)
    requires i <= |s| && NextBrace(s, i) == k && (k < |s| ==> s[k] == '{') && TraceFrom(s, i).ok
    ensures TraceFrom(s, k).ok && |TraceFrom(s, k).events| <= |TraceFrom(s, i).events|
  {
    hide TraceFrom, NextBrace, TextOf;
    NextBraceIs(s, k, k);
    if k == |s| {
      AtEnd(s, true);
    } else {
      TraceField(s, i, k);
      FieldStepBack(s, k);
    }
  }

  lemma FieldStepBack(s: string, k: nat)
    requires k < |s| && s[k] == '{' && FieldAt(s, k).At? && TraceFrom(s, FieldAt(s, k).next).ok
    ensures TraceFrom(s, k).ok
    ensures |TraceFrom(s, k).events| == 1 + |TraceFrom(s, FieldAt(s, k).next).events|
  {
    hide FieldAt, NextBrace;
    NextBraceIs(s, k, k);
    assert s[k..k] == "";
  }

  /** Compiling makes one part of every event. */
  lemma {:induction false} OnePartEach(st: Compiling, events: seq<Event>)
    requires CompileEvents(Some(st), events).Some?
    ensures |CompileEvents(Some(st), events).value.parts| == |st.parts| + |events|
    decreases |events|
  {
    hide Resolve, CompileSpecs;
    if events != [] {
      var next := CompileEvent(st, events[0]);
      if next.Some? { OnePartEach(next.value, events[1..]); }
    }
  }

  /** The count made in advance never exceeds the number of compiled parts, and is this number exactly when. */
  lemma CountsParts(s: string)
    requires Compiled(s).Some?
    ensures PartCount(s) <= |Compiled(s).value|
    ensures PartCount(s) == |Compiled(s).value| <==> BraceKindsLast(TraceFrom(s, 0).events)
  {
    hide CompileEvents, TraceFrom, CountFrom, BraceKindsLast;
    CountsEvents(s, 0, |s| >= 32);
    OnePartEach(Compiling([], 0), TraceFrom(s, 0).events);
  }

  const MISCOUNTED := "{:1{}a"

  lemma MiscountedSpecs()
    ensures SpecsAt(MISCOUNTED, 2) == At(Specs("", NoAlign, NoSign, false, false, Given(1), Absent, "{"), 4)
  {
    var s := MISCOUNTED;
    assert s[2..3] == ['1'] && ['1'][..0] == [];
    assert DigitRunEnd(s, 2) == 3;
    assert DecimalValue(['1']) == 1;
    assert WidthAt(s, 2) == At(Given(1), 3);
    assert AlignAt(s, 2) == At(("", NoAlign), 2);
  }

  lemma MiscountedTrace()
    ensures TraceFrom(MISCOUNTED, 0).ok && |TraceFrom(MISCOUNTED, 0).events| == 2
    ensures TraceFrom(MISCOUNTED, 0).events[0]
            == SpecField(Auto, Specs("", NoAlign, NoSign, false, false, Given(1), Absent, "{"))
    ensures TraceFrom(MISCOUNTED, 0).events[1] == Text("a")
  {
    hide SpecsAt;
    var s := MISCOUNTED;
    MiscountedSpecs();
    NextBraceIs(s, 0, 0);
    NextBraceIs(s, 5, 6);
    assert s[0..0] == "" && s[5..6] == "a";
    assert TraceFrom(s, 5) == Trace([Text("a")], true);
  }

  lemma TextCompiles(st: Compiling, f: Event)
    requires f.Text?
    ensures CompileEvent(st, f).Some?
  {
  }

  lemma TwoEventsCompile(e: Event, f: Event)
    requires CompileEvent(Compiling([], 0), e).Some? && f.Text?
    ensures CompileEvents(Some(Compiling([], 0)), [e, f]).Some?
  {
    hide CompileEvent;
    var st := CompileEvent(Compiling([], 0), e);
    assert [e, f][1..] == [f] && [f][1..] == [];
    var next := CompileEvent(st.value, f);
    TextCompiles(st.value, f);
    assert CompileEvents(next, []) == next;
    assert CompileEvents(st, [f]) == next;
  }

  lemma FieldCompiles()
    ensures var e := SpecField(Auto, Specs("", NoAlign, NoSign, false, false, Given(1), Absent, "{"));
            CompileEvent(Compiling([], 0), e).Some?
  {
  }

  /** With an opening brace as a type, the counter takes the rest of the string for the specification. */
  lemma BraceKindMiscounts()
    ensures Compiled(MISCOUNTED).Some? && |Compiled(MISCOUNTED).value| == 2 && PartCount(MISCOUNTED) == 1
  {
    hide TraceFrom, CountFrom, CompileEvents, CompileEvent;
    MiscountedCount();
    MiscountedTrace();
    var events := TraceFrom(MISCOUNTED, 0).events;
    assert events == [events[0], events[1]];
    FieldCompiles();
    TwoEventsCompile(events[0], events[1]);
    OnePartEach(Compiling([], 0), events);
  }

  lemma MiscountedCount()
    ensures PartCount(MISCOUNTED) == 1
  {
    var s := MISCOUNTED;
    NextBraceIs(s, 0, 0);
    NextBraceIs(s, 6, 6);
    assert IdScan(s, 1) == Scan(1, 1);
    assert Match(s, 5, 0) == 6 && Match(s, 4, 1) == 6 && Match(s, 2, 0) == 6;
    assert FieldScan(s, 0) == Scan(1, 6);
  }
}
