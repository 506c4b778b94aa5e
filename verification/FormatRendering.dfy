/** Writing format strings for given events, and parsing them back. */
module FormatRendering {
  import opened Decimal
  import opened IntegerText
  import opened FormatParser
  import opened FormatScanner
  import opened Sequences

  /** The decimal form of n. */
  function Numeral(n: nat): (t: string)
    ensures t != "" && AllDigits(t)
  {
    if n < 10 then [DigitChar(n)] else Numeral(n / 10) + [DigitChar(n % 10)]
  }

  lemma {:induction false} NumeralDenotes(n: nat)
    ensures DecimalValue(Numeral(n)) == n && (n > 0 ==> Numeral(n)[0] != '0')
  {
    if n < 10 {
      assert Numeral(n) == [] + [DigitChar(n)];
      DecimalSnoc([], DigitChar(n));
    } else {
      NumeralDenotes(n / 10);
      DecimalSnoc(Numeral(n / 10), DigitChar(n % 10));
    }
  }

  function RenderId(id: ArgId): string {
    match id {
      case Auto => ""
      case Index(n) => Numeral(n)
      case Name(x) => x
    }
  }

  function RenderCount(c: Count): string {
    match c {
      case Absent => ""
      case Given(n) => Numeral(n)
      case Dynamic(id) => "{" + RenderId(id) + "}"
    }
  }

  function RenderAlign(a: Align): string {
    match a { case NoAlign => "" case Left => "<" case Right => ">" case Center => "^" }
  }

  function RenderSign(s: Sign): string {
    match s { case NoSign => "" case Plus => "+" case Minus => "-" case Space => " " }
  }

  function RenderPrecision(c: Count): string {
    if c.Absent? then "" else "." + RenderCount(c)
  }

  function AfterZero(x: Specs): string {
    RenderCount(x.width) + (RenderPrecision(x.precision) + (x.kind + "}"))
  }

  function AfterAlign(x: Specs): string {
    RenderSign(x.sign) + ((if x.alt then "#" else "") + ((if x.zero then "0" else "") + AfterZero(x)))
  }

  /** A specification and the brace that closes the field. */
  function RenderSpecs(x: Specs): string {
    (x.fill + RenderAlign(x.align)) + AfterAlign(x)
  }

  /** A text with its braces doubled. */
  function Escape(t: string): string {
    if t == "" then ""
    else (if t[0] == '{' then "{{" else if t[0] == '}' then "}}" else [t[0]]) + Escape(t[1..])
  }

  function Render(e: Event): string {
    match e {
      case Text(t) => Escape(t)
      case Field(id) => "{" + RenderId(id) + "}"
      case SpecField(id, specs) => "{" + RenderId(id) + ":" + RenderSpecs(specs)
    }
  }

  function RenderAll(events: seq<Event>): string {
    if events == [] then "" else Render(events[0]) + RenderAll(events[1..])
  }

  // Which events a format string can express.

  predicate IsId(id: ArgId) {
    match id {
      case Auto => true
      case Index(n) => n <= INT_MAX
      case Name(x) => x != "" && IsNameStart(x[0]) && forall k :: 0 <= k < |x| ==> IsNameChar(x[k])
    }
  }

  predicate IsCount(c: Count) {
    match c {
      case Absent => true
      case Given(n) => n <= INT_MAX
      case Dynamic(id) => IsId(id)
    }
  }

  /** One character, of one byte or of a lead byte and continuation bytes; only with an alignment. */
  predicate IsFill(fill: string, align: Align) {
    fill != "" ==>
      && align != NoAlign && fill[0] != '{' && fill[0] != '}'
      && if fill[0] as int < 0x80 then |fill| == 1 else forall k :: 1 <= k < |fill| ==> IsContinuation(fill[k])
  }

  predicate IsKind(kind: string) {
    kind != "" ==> |kind| == 1 && !IsDigit(kind[0]) && kind[0] !in "<>^+- #.{}"
  }

  predicate IsSpecs(x: Specs) {
    && IsFill(x.fill, x.align) && IsCount(x.width) && IsCount(x.precision) && IsKind(x.kind)
    && (!x.zero ==> x.width != Given(0))
  }

  predicate IsEvent(e: Event) {
    match e {
      case Text(t) => true
      case Field(id) => IsId(id)
      case SpecField(id, specs) => IsId(id) && IsSpecs(specs)
    }
  }

  // Parsing what was written.

  /** The string contains t at position i. */
  ghost predicate Reads(s: string, i: nat, t: string) {
    i + |t| <= |s| && s[i..i + |t|] == t
  }

  lemma ReadsBoth(s: string, i: nat, t: string, u: string)
    requires Reads(s, i, t + u)
    ensures Reads(s, i, t) && Reads(s, i + |t|, u) && i + |t| + |u| <= |s|
  {
    assert t == (t + u)[..|t|] && u == (t + u)[|t|..];
    assert s[i..i + |t + u|][..|t|] == s[i..i + |t|];
    assert s[i..i + |t + u|][|t|..] == s[i + |t|..i + |t| + |u|];
  }

  lemma ReadsAt(s: string, i: nat, t: string, k: nat)
    requires Reads(s, i, t) && k < |t|
    ensures i + |t| <= |s| && s[i + k] == t[k]
  {
    assert s[i..i + |t|][k] == s[i + k];
  }

  lemma {:induction false} RunEnds(s: string, i: nat, j: nat)
    requires i <= j <= |s| && (forall k :: i <= k < j ==> IsDigit(s[k])) && (j < |s| ==> !IsDigit(s[j]))
    ensures DigitRunEnd(s, i) == j
    decreases j - i
  {
    if i < j { RunEnds(s, i + 1, j); }
  }

  lemma NumberParses(s: string, i: nat, n: nat)
    requires Reads(s, i, Numeral(n)) && n <= INT_MAX
    requires i + |Numeral(n)| < |s| ==> !IsDigit(s[i + |Numeral(n)|])
    ensures i + |Numeral(n)| <= |s| && IsDigit(s[i]) && NonnegativeIntAt(s, i) == Parsed(n, i + |Numeral(n)|)
    ensures n > 0 ==> s[i] != '0'
  {
    hide Numeral;
    var t := Numeral(n);
    NumeralDenotes(n);
    forall k | i <= k < i + |t| ensures IsDigit(s[k]) {
      ReadsAt(s, i, t, k - i);
    }
    RunEnds(s, i, i + |t|);
    ReadsAt(s, i, t, 0);
  }

  lemma {:induction false} NameEnds(s: string, i: nat, j: nat)
    requires i <= j < |s| && (forall k :: i <= k < j ==> IsNameChar(s[k])) && !IsNameChar(s[j])
    ensures NameEnd(s, i) == j
    decreases j - i
  {
    if i < j { NameEnds(s, i + 1, j); }
  }

  lemma IdParses(s: string, i: nat, id: ArgId)
    requires IsId(id) && Reads(s, i, RenderId(id))
    requires i + |RenderId(id)| < |s| && (s[i + |RenderId(id)|] == '}' || s[i + |RenderId(id)|] == ':')
    ensures ArgIdAt(s, i) == At(id, i + |RenderId(id)|)
  {
    hide ArgIdAt, Reads, Numeral;
    match id {
      case Auto => AutoParses(s, i);
      case Index(n) => IndexParses(s, i, n);
      case Name(x) => NameParses(s, i, x);
    }
  }

  lemma AutoParses(s: string, i: nat)
    requires i < |s| && (s[i] == '}' || s[i] == ':')
    ensures ArgIdAt(s, i) == At(Auto, i)
  {
  }

  lemma IndexParses(s: string, i: nat, n: nat)
    requires n <= INT_MAX && Reads(s, i, Numeral(n))
    requires i + |Numeral(n)| < |s| && (s[i + |Numeral(n)|] == '}' || s[i + |Numeral(n)|] == ':')
    ensures ArgIdAt(s, i) == At(Index(n), i + |Numeral(n)|)
  {
    hide NonnegativeIntAt, Reads;
    NumberParses(s, i, n);
    if n == 0 { ReadsAt(s, i, "0", 0); }
  }

  lemma NameParses(s: string, i: nat, x: string)
    requires IsId(Name(x)) && Reads(s, i, x) && i + |x| < |s| && (s[i + |x|] == '}' || s[i + |x|] == ':')
    ensures ArgIdAt(s, i) == At(Name(x), i + |x|)
  {
    hide NonnegativeIntAt;
    forall k | i <= k < i + |x| ensures IsNameChar(s[k]) {
      ReadsAt(s, i, x, k - i);
    }
    ReadsAt(s, i, x, 0);
    NameEnds(s, i + 1, i + |x|);
  }

  lemma NestedParses(s: string, i: nat, id: ArgId)
    requires IsId(id) && Reads(s, i, RenderCount(Dynamic(id)))
    ensures i + |RenderCount(Dynamic(id))| <= |s| && s[i] == '{'
    ensures NestedAt(s, i) == At(Dynamic(id), i + |RenderCount(Dynamic(id))|)
  {
    hide ArgIdAt, RenderId, Reads, IsId;
    var t := RenderId(id);
    ReadsBoth(s, i, "{" + t, "}");
    ReadsBoth(s, i, "{", t);
    ReadsAt(s, i, "{", 0);
    ReadsAt(s, i + 1 + |t|, "}", 0);
    IdParses(s, i + 1, id);
  }

  function Rest(x: Specs): (t: string)
    ensures |t| == |x.kind| + 1
  {
    x.kind + "}"
  }

  lemma PrecisionParses(s: string, i: nat, c: Count)
    requires IsCount(c) && Reads(s, i, RenderPrecision(c)) && i + |RenderPrecision(c)| < |s|
    requires s[i + |RenderPrecision(c)|] != '.' && !IsDigit(s[i + |RenderPrecision(c)|])
    ensures PrecisionAt(s, i) == At(c, i + |RenderPrecision(c)|)
  {
    hide PrecisionAt, Reads, Numeral, RenderId, IsDigit, IsId;
    match c {
      case Absent => PrecisionAbsent(s, i);
      case Given(n) =>
        ReadsBoth(s, i, ".", Numeral(n));
        ReadsAt(s, i, ".", 0);
        PrecisionGiven(s, i, n);
      case Dynamic(id) =>
        ReadsBoth(s, i, ".", RenderCount(c));
        ReadsAt(s, i, ".", 0);
        PrecisionDynamic(s, i, id);
    }
  }

  lemma RestHead(x: Specs)
    requires IsKind(x.kind)
    ensures Rest(x)[0] != '.' && !IsDigit(Rest(x)[0])
  {
  }

  lemma PrecisionAbsent(s: string, i: nat)
    requires i < |s| && s[i] != '.'
    ensures PrecisionAt(s, i) == At(Absent, i)
  {
  }

  lemma PrecisionGiven(s: string, i: nat, n: nat)
    requires i < |s| && s[i] == '.' && Reads(s, i + 1, Numeral(n)) && n <= INT_MAX
    requires i + 1 + |Numeral(n)| < |s| ==> !IsDigit(s[i + 1 + |Numeral(n)|])
    ensures PrecisionAt(s, i) == At(Given(n), i + 1 + |Numeral(n)|)
  {
    hide NonnegativeIntAt, Reads, Numeral, NestedAt;
    NumberParses(s, i + 1, n);
  }

  lemma PrecisionDynamic(s: string, i: nat, id: ArgId)
    requires i < |s| && s[i] == '.' && IsId(id) && Reads(s, i + 1, RenderCount(Dynamic(id)))
    ensures PrecisionAt(s, i) == At(Dynamic(id), i + 1 + |RenderCount(Dynamic(id))|)
  {
    hide NonnegativeIntAt, Reads, RenderId, NestedAt, IsId;
    NestedParses(s, i + 1, id);
  }

  /** What can follow a width or the flags: a precision, a type or the closing brace. */
  lemma PrecisionHead(x: Specs)
    requires IsKind(x.kind)
    ensures var c := (RenderPrecision(x.precision) + Rest(x))[0];
            !IsDigit(c) && c != '{' && c != '#' && SignOf(c) == NoSign
  {
    hide RenderCount;
  }

  lemma WidthParses(s: string, i: nat, x: Specs)
    requires IsSpecs(x) && Reads(s, i, AfterZero(x))
    ensures WidthAt(s, i) == At(x.width, i + |RenderCount(x.width)|)
    ensures i < |s| && s[i] != '#' && SignOf(s[i]) == NoSign && (!x.zero ==> s[i] != '0')
  {
    hide NonnegativeIntAt, NestedAt, Reads, RenderPrecision, Numeral, RenderId, IsId;
    var t, u := RenderCount(x.width), RenderPrecision(x.precision) + Rest(x);
    ReadsBoth(s, i, t, u);
    ReadsAt(s, i + |t|, u, 0);
    PrecisionHead(x);
    match x.width {
      case Absent =>
      case Given(n) => NumberParses(s, i, n);
      case Dynamic(id) => NestedParses(s, i, id);
    }
  }

  predicate NoAligns(t: string) {
    forall k :: 0 <= k < |t| ==> AlignOf(t[k]) == NoAlign
  }

  lemma NoAlignsBoth(t: string, u: string)
    requires NoAligns(t) && NoAligns(u)
    ensures NoAligns(t + u)
  {
  }

  lemma NoAlignsInId(id: ArgId)
    requires IsId(id)
    ensures NoAligns(RenderId(id))
  {
  }

  lemma NoAlignsInCount(c: Count)
    requires IsCount(c)
    ensures NoAligns(RenderCount(c)) && NoAligns(RenderPrecision(c))
  {
    hide NoAligns;
    match c {
      case Absent => NoAlignsInId(Auto);
      case Given(n) => NoAlignsInId(Index(n));
      case Dynamic(id) =>
        NoAlignsInId(id);
        Single('{'); Single('}');
        NoAlignsBoth("{", RenderId(id));
        NoAlignsBoth("{" + RenderId(id), "}");
    }
    if !c.Absent? {
      Single('.');
      NoAlignsBoth(".", RenderCount(c));
    }
  }

  lemma Single(c: char)
    requires AlignOf(c) == NoAlign
    ensures NoAligns([c])
  {
  }

  lemma NoAlignsAfter(x: Specs)
    requires IsSpecs(x)
    ensures NoAligns(AfterAlign(x))
  {
    hide NoAligns;
    Single('}');
    NoAlignsInId(Auto);
    if x.kind != "" { Single(x.kind[0]); assert x.kind == [x.kind[0]]; }
    NoAlignsBoth(x.kind, "}");
    NoAlignsInCount(x.precision);
    NoAlignsBoth(RenderPrecision(x.precision), x.kind + "}");
    NoAlignsInCount(x.width);
    NoAlignsBoth(RenderCount(x.width), RenderPrecision(x.precision) + (x.kind + "}"));
    Single('0'); Single('#'); Single('+'); Single('-'); Single(' ');
    NoAlignsBoth(if x.zero then "0" else "", AfterZero(x));
    NoAlignsBoth(if x.alt then "#" else "", (if x.zero then "0" else "") + AfterZero(x));
    NoAlignsBoth(RenderSign(x.sign), (if x.alt then "#" else "") + ((if x.zero then "0" else "") + AfterZero(x)));
  }

  lemma {:induction false} ContinuationStops(s: string, i: nat, j: nat)
    requires i <= j < |s| && !IsContinuation(s[j])
    ensures ContinuationEnd(s, i) <= j
    decreases j - i
  {
    if i < j { ContinuationStops(s, i + 1, j); }
  }

  lemma {:induction false} ContinuationRun(s: string, i: nat, j: nat)
    requires i <= j < |s| && (forall k :: i <= k < j ==> IsContinuation(s[k])) && !IsContinuation(s[j])
    ensures ContinuationEnd(s, i) == j
    decreases j - i
  {
    if i < j { ContinuationRun(s, i + 1, j); }
  }

  lemma AfterEndsWithBrace(x: Specs)
    ensures AfterAlign(x) != "" && AfterAlign(x)[|AfterAlign(x)| - 1] == '}'
  {
    hide RenderSign, AfterZero;
    AfterZeroEnds(x);
  }

  lemma AfterZeroEnds(x: Specs)
    ensures AfterZero(x) != "" && AfterZero(x)[|AfterZero(x)| - 1] == '}'
  {
    hide RenderCount, RenderPrecision;
  }

  lemma AlignParses(s: string, i: nat, x: Specs)
    requires IsSpecs(x) && Reads(s, i, RenderSpecs(x)) && i < |s| && s[i] != '}'
    ensures AlignAt(s, i) == At((x.fill, x.align), i + |x.fill + RenderAlign(x.align)|)
  {
    hide AfterAlign, NoAligns, Reads, AlignAt, AlignOf;
    var t, u := x.fill + RenderAlign(x.align), AfterAlign(x);
    ReadsBoth(s, i, t, u);
    NoAlignsAfter(x);
    AfterEndsWithBrace(x);
    var j := i + |t|;
    NoAlignsRead(s, j, u);
    ReadsAt(s, j, u, |u| - 1);
    if t == "" {
      AlignAbsent(s, i, j + |u| - 1);
    } else {
      ReadsBoth(s, i, x.fill, RenderAlign(x.align));
      ReadsAt(s, i + |x.fill|, RenderAlign(x.align), 0);
      AlignChars(x.align);
      if x.fill != "" {
        ReadsAt(s, i, x.fill, 0);
        FillParses(s, i, x);
        FillThenAlign(s, i, x.fill, x.align);
      } else {
        OnlyAlign(s, i, x.align);
      }
    }
  }

  lemma AlignChars(a: Align)
    ensures a != NoAlign ==> RenderAlign(a) != "" && AlignOf(RenderAlign(a)[0]) == a && |RenderAlign(a)| == 1
  {
  }

  lemma AlignAbsent(s: string, i: nat, j: nat)
    requires i < j < |s| && (forall k :: i <= k <= j ==> AlignOf(s[k]) == NoAlign) && s[j] == '}'
    ensures AlignAt(s, i) == At(("", NoAlign), i)
  {
    if s[i] as int >= 0x80 { ContinuationStops(s, i + 1, j); }
  }

  lemma OnlyAlign(s: string, i: nat, a: Align)
    requires i + 1 < |s| && AlignOf(s[i]) == a && a != NoAlign && AlignOf(s[i + 1]) == NoAlign
    ensures AlignAt(s, i) == At(("", a), i + 1)
  {
  }

  lemma FillThenAlign(s: string, i: nat, fill: string, a: Align)
    requires i + |fill| < |s| && fill != "" && s[i..i + |fill|] == fill && s[i] != '{'
    requires CodePointEnd(s, i) == i + |fill| && AlignOf(s[i + |fill|]) == a && a != NoAlign
    ensures AlignAt(s, i) == At((fill, a), i + |fill| + 1)
  {
  }

  lemma NoAlignsRead(s: string, j: nat, u: string)
    requires Reads(s, j, u) && NoAligns(u)
    ensures j + |u| <= |s| && forall k :: j <= k < j + |u| ==> AlignOf(s[k]) == NoAlign
  {
    forall k | j <= k < j + |u| ensures AlignOf(s[k]) == NoAlign {
      ReadsAt(s, j, u, k - j);
    }
  }

  lemma FillParses(s: string, i: nat, x: Specs)
    requires IsFill(x.fill, x.align) && x.fill != "" && Reads(s, i, x.fill) && i + |x.fill| < |s|
    requires AlignOf(s[i + |x.fill|]) != NoAlign
    ensures CodePointEnd(s, i) == i + |x.fill| && s[i..i + |x.fill|] == x.fill
  {
    ReadsAt(s, i, x.fill, 0);
    if s[i] as int >= 0x80 {
      forall k | i + 1 <= k < i + |x.fill| ensures IsContinuation(s[k]) {
        ReadsAt(s, i, x.fill, k - i);
      }
      ContinuationRun(s, i + 1, i + |x.fill|);
    }
  }

  /** What is read where an optional character f may stand in front of u. */
  lemma ReadsOptional(s: string, i: nat, f: string, u: string)
    requires Reads(s, i, f + u) && |f| <= 1 && u != ""
    ensures i < |s| && s[i] == (if f == "" then u[0] else f[0]) && Reads(s, i + |f|, u)
  {
    ReadsBoth(s, i, f, u);
    if f == "" { ReadsAt(s, i, u, 0); } else { ReadsAt(s, i, f, 0); }
  }

  function SignEnd(i: nat, x: Specs): nat {
    i + |RenderSign(x.sign)|
  }

  function AltEnd(i: nat, x: Specs): nat {
    SignEnd(i, x) + if x.alt then 1 else 0
  }

  function ZeroEnd(i: nat, x: Specs): nat {
    AltEnd(i, x) + if x.zero then 1 else 0
  }

  lemma CountsHead(x: Specs)
    requires IsSpecs(x)
    ensures AfterZero(x) != "" && SignOf(AfterZero(x)[0]) == NoSign && AfterZero(x)[0] != '#'
    ensures !x.zero ==> AfterZero(x)[0] != '0'
  {
    var s := AfterZero(x);
    assert s[..|s|] == s;
    WidthParses(s, 0, x);
  }

  /** The sign, '#' and '0' that were written are found, and none other. */
  lemma FlagsParse(s: string, i: nat, x: Specs)
    requires IsSpecs(x) && Reads(s, i, AfterAlign(x))
    ensures ZeroEnd(i, x) < |s| && SignOf(s[i]) == x.sign
    ensures s[SignEnd(i, x)] == '#' <==> x.alt
    ensures s[AltEnd(i, x)] == '0' <==> x.zero
    ensures Reads(s, ZeroEnd(i, x), AfterZero(x))
  {
    hide AfterZero, Reads, IsSpecs;
    CountsHead(x);
    var sign, alt, zero := RenderSign(x.sign), if x.alt then "#" else "", if x.zero then "0" else "";
    ReadsOptional(s, i, sign, alt + (zero + AfterZero(x)));
    ReadsOptional(s, SignEnd(i, x), alt, zero + AfterZero(x));
    ReadsOptional(s, AltEnd(i, x), zero, AfterZero(x));
    ReadsInside(s, ZeroEnd(i, x), AfterZero(x));
  }

  lemma ReadsInside(s: string, i: nat, t: string)
    requires Reads(s, i, t)
    ensures i + |t| <= |s|
  {
  }

  lemma AfterZeroStarts(x: Specs)
    ensures AfterZero(x) != ""
  {
  }

  lemma SpecsParse(s: string, i: nat, x: Specs)
    requires IsSpecs(x) && Reads(s, i, RenderSpecs(x))
    ensures SpecsAt(s, i) == At(x, i + |RenderSpecs(x)| - 1)
    ensures s[i + |RenderSpecs(x)| - 1] == '}'
  {
    hide AlignAt, WidthAt, PrecisionAt, IsSpecs, AfterAlign, AfterZero, Reads, RenderCount, RenderPrecision;
    var j := i + |x.fill + RenderAlign(x.align)|;
    ReadsBoth(s, i, x.fill + RenderAlign(x.align), AfterAlign(x));
    ReadsInside(s, i, RenderSpecs(x));
    LastBrace(s, i, x);
    if s[i] == '}' {
      EmptySpecs(s, i, x);
    } else {
      AlignParses(s, i, x);
      FlagsParse(s, j, x);
      CountsParse(s, ZeroEnd(j, x), x);
      AfterAlignLength(x);
      SpecsAssembled(s, i, j, x);
    }
  }

  lemma SpecsAssembled(s: string, i: nat, j: nat, x: Specs)
    requires i <= j && i < |s| && s[i] != '}' && AlignAt(s, i) == At((x.fill, x.align), j)
    requires ZeroEnd(j, x) < |s| && SignOf(s[j]) == x.sign
    requires (s[SignEnd(j, x)] == '#' <==> x.alt) && (s[AltEnd(j, x)] == '0' <==> x.zero)
    requires var w := WidthAt(s, ZeroEnd(j, x)); w.At? && w.value == x.width
    requires var p := PrecisionAt(s, WidthAt(s, ZeroEnd(j, x)).next); p.At? && p.value == x.precision
    requires var k := PrecisionAt(s, WidthAt(s, ZeroEnd(j, x)).next).next;
             k < |s| && if x.kind == "" then s[k] == '}' else s[k] != '}' && x.kind == [s[k]]
    ensures SpecsAt(s, i) == At(x, PrecisionAt(s, WidthAt(s, ZeroEnd(j, x)).next).next + |x.kind|)
  {
    hide AlignAt, WidthAt, PrecisionAt;
  }

  lemma AfterAlignLength(x: Specs)
    ensures |AfterAlign(x)|
            == |RenderSign(x.sign)| + (if x.alt then 1 else 0) + (if x.zero then 1 else 0) + |AfterZero(x)|
  {
    hide AfterZero;
  }

  lemma LastBrace(s: string, i: nat, x: Specs)
    requires Reads(s, i, RenderSpecs(x))
    ensures RenderSpecs(x) != "" && i + |RenderSpecs(x)| <= |s| && s[i + |RenderSpecs(x)| - 1] == '}'
  {
    hide Reads, AfterAlign;
    AfterEndsWithBrace(x);
    ReadsAt(s, i, RenderSpecs(x), |RenderSpecs(x)| - 1);
  }

  lemma CountsParse(s: string, w: nat, x: Specs)
    requires IsSpecs(x) && Reads(s, w, AfterZero(x))
    ensures WidthAt(s, w) == At(x.width, w + |RenderCount(x.width)|)
    ensures var p := w + |RenderCount(x.width)|;
            && PrecisionAt(s, p) == At(x.precision, p + |RenderPrecision(x.precision)|)
    ensures var k := w + |RenderCount(x.width)| + |RenderPrecision(x.precision)|;
            && k < |s| && k + |x.kind| + 1 == w + |AfterZero(x)|
            && if x.kind == "" then s[k] == '}' else s[k] != '}' && x.kind == [s[k]]
  {
    hide WidthAt, PrecisionAt, RenderCount, RenderPrecision;
    var t, u := RenderCount(x.width), RenderPrecision(x.precision);
    WidthParses(s, w, x);
    ReadsBoth(s, w, t, u + Rest(x));
    ReadsBoth(s, w + |t|, u, Rest(x));
    ReadsAt(s, w + |t| + |u|, Rest(x), 0);
    RestHead(x);
    PrecisionParses(s, w + |t|, x.precision);
  }

  /** Only the empty specification starts with the closing brace. */
  lemma EmptySpecs(s: string, i: nat, x: Specs)
    requires IsSpecs(x) && Reads(s, i, RenderSpecs(x)) && s[i] == '}'
    ensures x == Specs("", NoAlign, NoSign, false, false, Absent, Absent, "") && |RenderSpecs(x)| == 1
  {
    var r := RenderSpecs(x);
    LastBrace(s, i, x);
    ReadsAt(s, i, r, 0);
    StartsAligned(x);
    StartsWithFlags(x);
    StartsWithCounts(x);
  }

  lemma StartsAligned(x: Specs)
    requires IsFill(x.fill, x.align)
    ensures RenderSpecs(x) != ""
    ensures RenderSpecs(x)[0] == '}'
            ==> x.fill == "" && x.align == NoAlign && AfterAlign(x) != "" && AfterAlign(x)[0] == '}'
  {
    hide AfterAlign;
    AfterEndsWithBrace(x);
  }

  lemma StartsWithFlags(x: Specs)
    ensures AfterAlign(x) != "" && AfterZero(x) != ""
    ensures AfterAlign(x)[0] == '}' ==> x.sign == NoSign && !x.alt && !x.zero && AfterZero(x)[0] == '}'
  {
    hide AfterZero;
    AfterZeroStarts(x);
  }

  lemma StartsWithCounts(x: Specs)
    requires IsKind(x.kind)
    ensures AfterZero(x) != ""
    ensures AfterZero(x)[0] == '}' ==> x.width == Absent && x.precision == Absent && x.kind == ""
  {
  }

  /** A field that was written is parsed as that field. */
  lemma FieldParses(s: string, i: nat, e: Event)
    requires IsEvent(e) && !e.Text? && Reads(s, i, Render(e))
    ensures i < |s| && s[i] == '{' && FieldAt(s, i) == At(e, i + |Render(e)|)
  {
    hide IsId, IsSpecs, RenderId, RenderSpecs, Reads, FieldAt;
    if e.Field? {
      PlainFieldParses(s, i, e.id);
    } else {
      SpecFieldParses(s, i, e.id, e.specs);
    }
  }

  lemma PlainFieldParses(s: string, i: nat, id: ArgId)
    requires IsId(id) && Reads(s, i, "{" + RenderId(id) + "}")
    ensures i < |s| && s[i] == '{' && FieldAt(s, i) == At(Field(id), i + 2 + |RenderId(id)|)
  {
    hide ArgIdAt, SpecsAt, IsId, RenderId;
    var t := RenderId(id);
    ReadsBoth(s, i, "{" + t, "}");
    ReadsBoth(s, i, "{", t);
    ReadsAt(s, i, "{", 0);
    ReadsAt(s, i + 1 + |t|, "}", 0);
    IdParses(s, i + 1, id);
    IdStarts(s, i + 1, id);
  }

  lemma SpecFieldParses(s: string, i: nat, id: ArgId, x: Specs)
    requires IsId(id) && IsSpecs(x) && Reads(s, i, "{" + RenderId(id) + ":" + RenderSpecs(x))
    ensures i < |s| && s[i] == '{' && FieldAt(s, i) == At(SpecField(id, x), i + 2 + |RenderId(id)| + |RenderSpecs(x)|)
  {
    hide ArgIdAt, SpecsAt, IsId, RenderId, RenderSpecs, IsSpecs;
    var t, u := RenderId(id), RenderSpecs(x);
    ReadsBoth(s, i, "{" + t + ":", u);
    ReadsBoth(s, i, "{" + t, ":");
    ReadsBoth(s, i, "{", t);
    ReadsAt(s, i, "{", 0);
    ReadsAt(s, i + 1 + |t|, ":", 0);
    IdParses(s, i + 1, id);
    IdStarts(s, i + 1, id);
    SpecsParse(s, i + 2 + |t|, x);
    LastBrace(s, i + 2 + |t|, x);
  }

  lemma IdStarts(s: string, i: nat, id: ArgId)
    requires IsId(id) && Reads(s, i, RenderId(id)) && i + |RenderId(id)| < |s|
    ensures id != Auto ==> RenderId(id) != "" && s[i] != '{' && s[i] != '}'
    ensures id == Auto ==> RenderId(id) == ""
  {
    if id != Auto { ReadsAt(s, i, RenderId(id), 0); }
  }

  // Whole format strings, with texts taken apart into characters because escaped braces end a text.

  function Letters(t: string): (r: seq<Event>)
    ensures |r| == |t|
  {
    seq(|t|, k requires 0 <= k < |t| => Text([t[k]]))
  }

  function Exploded(e: Event): seq<Event> {
    if e.Text? then Letters(e.text) else [e]
  }

  function Explode(events: seq<Event>): seq<Event> {
    if events == [] then [] else Exploded(events[0]) + Explode(events[1..])
  }

  lemma {:induction false} ExplodeConcat(a: seq<Event>, b: seq<Event>)
    ensures Explode(a + b) == Explode(a) + Explode(b)
  {
    hide Exploded;
    if a == [] {
      assert a + b == b;
    } else {
      ExplodeConcat(a[1..], b);
      assert (a + b)[1..] == a[1..] + b && (a + b)[0] == a[0];
      Associative(Exploded(a[0]), Explode(a[1..]), Explode(b));
    }
  }

  lemma ExplodeText(t: string)
    ensures Explode(TextOf(t)) == Letters(t)
  {
    if t != "" { assert [Text(t)][1..] == []; }
  }

  /** The trace from i has the given events, exploded, in front of the trace from j. */
  ghost predicate Leads(s: string, i: nat, events: seq<Event>, j: nat)
    requires i <= |s| && j <= |s|
  {
    TraceFrom(s, j).ok ==>
      TraceFrom(s, i).ok && Explode(TraceFrom(s, i).events) == Explode(events) + Explode(TraceFrom(s, j).events)
  }

  lemma LeadsByPrepend(s: string, i: nat, events: seq<Event>, j: nat)
    requires i <= |s| && j <= |s| && TraceFrom(s, i) == Prepend(events, TraceFrom(s, j))
    ensures Leads(s, i, events, j)
  {
    hide TraceFrom, Explode;
    ExplodeConcat(events, TraceFrom(s, j).events);
  }

  lemma LeadsTwice(s: string, i: nat, a: seq<Event>, j: nat, b: seq<Event>, k: nat)
    requires i <= |s| && j <= |s| && k <= |s| && Leads(s, i, a, j) && Leads(s, j, b, k)
    ensures Leads(s, i, a + b, k)
  {
    hide TraceFrom, Explode;
    ExplodeConcat(a, b);
  }

  lemma BracesLead(s: string, i: nat)
    requires i + 1 < |s| && s[i] == s[i + 1] && (s[i] == '{' || s[i] == '}')
    ensures Leads(s, i, [Text([s[i]])], i + 2)
  {
    hide FieldAt, Explode;
    NextBraceIs(s, i, i);
    assert s[i..i] == "" && s[i..i + 1] == [s[i]];
    if s[i] == '{' {
      OpenBraces(s, i);
      FieldLeads(s, i, Text("{"), i + 2);
    } else {
      LeadsByPrepend(s, i, [Text([s[i]])], i + 2);
    }
  }

  lemma OpenBraces(s: string, i: nat)
    requires i + 1 < |s| && s[i + 1] == '{'
    ensures FieldAt(s, i) == At(Text("{"), i + 2)
  {
  }

  lemma FieldLeads(s: string, i: nat, e: Event, next: nat)
    requires i < |s| && s[i] == '{' && FieldAt(s, i) == At(e, next) && next <= |s|
    ensures Leads(s, i, [e], next)
  {
    hide FieldAt;
    NextBraceIs(s, i, i);
    assert s[i..i] == "" && [] + [e] == [e];
    LeadsByPrepend(s, i, [e], next);
  }

  /** The text in front of the next brace, up to and including an escaped closing brace. */
  function TextEnd(s: string, i: nat): (e: nat)
    requires i <= |s|
    ensures i <= e <= |s|
  {
    var k := NextBrace(s, i);
    if k < |s| && s[k] == '}' then k + 1 else k
  }

  /** A character that is no brace is passed on. */
  lemma LetterLeads(s: string, i: nat)
    requires i < |s| && s[i] != '{' && s[i] != '}'
    ensures Leads(s, i, [Text([s[i]])], i + 1)
  {
    hide FieldAt, Explode;
    var e := TextEnd(s, i);
    assert NextBrace(s, i) == NextBrace(s, i + 1);
    if TraceFrom(s, i + 1).ok {
      var rest := TraceRest(s, i);
      assert s[i..e] == [s[i]] + s[i + 1..e];
      FirstLetter(s[i], s[i + 1..e], rest.events);
    }
  }

  /** What the trace has after the text at i. */
  ghost function TraceRest(s: string, i: nat): (t: Trace)
    requires i < |s| && s[i] != '{' && s[i] != '}' && TraceFrom(s, i + 1).ok
    ensures t.ok
    ensures TraceFrom(s, i) == Prepend(TextOf(s[i..TextEnd(s, i)]), t)
    ensures TraceFrom(s, i + 1) == Prepend(TextOf(s[i + 1..TextEnd(s, i)]), t)
  {
    hide FieldAt, TextOf;
    var k := NextBrace(s, i);
    assert NextBrace(s, i + 1) == k;
    if k == |s| then Trace([], true)
    else if s[k] == '}' then TraceFrom(s, k + 2)
    else
      assert FieldAt(s, k).At?;
      PrependTwice(TextOf(s[i..k]), [FieldAt(s, k).value], TraceFrom(s, FieldAt(s, k).next));
      PrependTwice(TextOf(s[i + 1..k]), [FieldAt(s, k).value], TraceFrom(s, FieldAt(s, k).next));
      Prepend([FieldAt(s, k).value], TraceFrom(s, FieldAt(s, k).next))
  }

  lemma FirstLetter(c: char, t: string, events: seq<Event>)
    ensures Explode(TextOf([c] + t) + events) == Explode([Text([c])]) + Explode(TextOf(t) + events)
  {
    hide Explode;
    ExplodeConcat(TextOf([c] + t), events);
    ExplodeConcat(TextOf(t), events);
    ExplodeText([c] + t);
    ExplodeText(t);
    ExplodeText([c]);
    assert Letters([c] + t) == Letters([c]) + Letters(t);
  }

  /** A text whose braces are doubled is passed on as it is. */
  lemma {:induction false} TextLeads(s: string, i: nat, t: string)
    requires Reads(s, i, Escape(t))
    ensures Leads(s, i, Letters(t), i + |Escape(t)|)
    decreases |t|
  {
    hide TraceFrom, Explode, Reads, Leads;
    ReadsInside(s, i, Escape(t));
    if t == "" {
      LeadsNothing(s, i);
    } else {
      var c, rest := t[0], t[1..];
      var head := if c == '{' then "{{" else if c == '}' then "}}" else [c];
      ReadsBoth(s, i, head, Escape(rest));
      ReadsAt(s, i, head, 0);
      if |head| == 2 {
        ReadsAt(s, i, head, 1);
        BracesLead(s, i);
      } else {
        LetterLeads(s, i);
      }
      TextLeads(s, i + |head|, rest);
      LeadsTwice(s, i, [Text([c])], i + |head|, Letters(rest), i + |Escape(t)|);
      assert Letters(t) == [Text([c])] + Letters(rest);
    }
  }

  lemma LeadsNothing(s: string, i: nat)
    requires i <= |s|
    ensures Leads(s, i, [], i)
  {
    hide TraceFrom;
  }

  lemma {:induction false} AllLead(s: string, i: nat, events: seq<Event>)
    requires Reads(s, i, RenderAll(events)) && forall e :: e in events ==> IsEvent(e)
    ensures Leads(s, i, Explode(events), i + |RenderAll(events)|)
    decreases |events|
  {
    hide TraceFrom, Reads, Leads, Render, IsEvent;
    ReadsInside(s, i, RenderAll(events));
    if events == [] {
      LeadsNothing(s, i);
    } else {
      var e := events[0];
      ReadsBoth(s, i, Render(e), RenderAll(events[1..]));
      EventLeads(s, i, e);
      AllLead(s, i + |Render(e)|, events[1..]);
      LeadsTwice(s, i, Exploded(e), i + |Render(e)|, Explode(events[1..]), i + |RenderAll(events)|);
    }
  }

  lemma EventLeads(s: string, i: nat, e: Event)
    requires IsEvent(e) && Reads(s, i, Render(e)) && i + |Render(e)| <= |s|
    ensures Leads(s, i, Exploded(e), i + |Render(e)|)
  {
    hide TraceFrom, Leads, Reads, RenderId, RenderSpecs, FieldAt;
    if e.Text? {
      TextLeads(s, i, e.text);
    } else {
      FieldParses(s, i, e);
      FieldLeads(s, i, e, i + |Render(e)|);
    }
  }

  lemma {:induction false} ExplodeTwice(events: seq<Event>)
    ensures Explode(Explode(events)) == Explode(events)
  {
    if events != [] {
      ExplodeTwice(events[1..]);
      ExplodeConcat(Exploded(events[0]), Explode(events[1..]));
      if events[0].Text? { ExplodeLetters(events[0].text); } else { assert [events[0]][1..] == []; }
    }
  }

  lemma {:induction false} ExplodeLetters(t: string)
    ensures Explode(Letters(t)) == Letters(t)
  {
    if t != "" {
      assert Letters(t)[1..] == Letters(t[1..]);
      ExplodeLetters(t[1..]);
      assert Letters([t[0]]) == [Text([t[0]])] && [t[0]][0] == t[0];
      assert Letters(t) == Letters([t[0]]) + Letters(t[1..]);
    }
  }

  /** Parsing a format string that was written for some events gives these events. */
  lemma ParseRendered(events: seq<Event>)
    requires forall e :: e in events ==> IsEvent(e)
    ensures TraceFrom(RenderAll(events), 0).ok
    ensures Explode(TraceFrom(RenderAll(events), 0).events) == Explode(events)
  {
    hide TraceFrom, Explode, IsEvent, Render;
    var s := RenderAll(events);
    assert s[0..|s|] == s;
    AllLead(s, 0, events);
    AtEnd(s);
    ExplodeTwice(events);
    ExplodeNothing();
  }

  lemma AtEnd(s: string)
    ensures TraceFrom(s, |s|) == Trace([], true)
  {
    assert s[|s|..|s|] == "";
  }

  lemma ExplodeNothing()
    ensures Explode([]) == []
  {
  }

  function AllText(events: seq<Event>): string {
    if events == [] then "" else (if events[0].Text? then events[0].text else "") + AllText(events[1..])
  }

  /** Doubling every brace of any text gives a format string without fields that stands for the text. */
  lemma EscapedIsLiteral(t: string)
    ensures TraceFrom(Escape(t), 0).ok
    ensures forall e :: e in TraceFrom(Escape(t), 0).events ==> e.Text?
    ensures AllText(TraceFrom(Escape(t), 0).events) == t
  {
    hide TraceFrom, Explode, Leads;
    assert Escape(t)[0..|Escape(t)|] == Escape(t);
    TextLeads(Escape(t), 0, t);
    LeadsToEnd(Escape(t), Letters(t));
    ExplodeLetters(t);
    OnlyLetters(TraceFrom(Escape(t), 0).events, t);
  }

  lemma LeadsToEnd(s: string, events: seq<Event>)
    requires Leads(s, 0, events, |s|)
    ensures TraceFrom(s, 0).ok && Explode(TraceFrom(s, 0).events) == Explode(events)
  {
    hide TraceFrom;
    AtEnd(s);
  }

  lemma {:induction false} OnlyLetters(events: seq<Event>, t: string)
    requires Explode(events) == Letters(t)
    ensures (forall e :: e in events ==> e.Text?) && AllText(events) == t
    decreases |events|
  {
    hide Letters;
    if events != [] {
      var e, r := events[0], Explode(events[1..]);
      if e.Text? {
        LettersSplit(e.text, r, t);
        OnlyLetters(events[1..], t[|e.text|..]);
        assert forall d :: d in events ==> d == e || d in events[1..];
      } else {
        assert ([e] + r)[0] == e;
        LetterIsText(t);
      }
    } else {
      LettersSplit("", [], t);
    }
  }

  lemma LetterIsText(t: string)
    ensures t != "" ==> Letters(t)[0].Text?
  {
  }

  lemma LettersSplit(u: string, r: seq<Event>, t: string)
    requires Letters(u) + r == Letters(t)
    ensures |u| <= |t| && t == u + t[|u|..] && r == Letters(t[|u|..])
  {
    assert |u| + |r| == |t|;
    forall k | 0 <= k < |u| ensures u[k] == t[k] {
      assert (Letters(u) + r)[k] == Letters(u)[k] == Letters(t)[k];
    }
    forall k {:trigger r[k]} | 0 <= k < |r| ensures r[k] == Letters(t[|u|..])[k] {
      assert (Letters(u) + r)[|u| + k] == r[k];
    }
  }
}
