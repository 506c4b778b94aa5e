/**
 * The parser of format strings: the grammar of replacement fields, and the two
 * ways in which a format string is scanned for them.
 */
module FormatParser {
  import opened Decimal
  import opened IntegerText

  datatype ArgId = Auto | Index(index: nat) | Name(name: string)

  datatype Align = NoAlign | Left | Right | Center

  datatype Sign = NoSign | Plus | Minus | Space

  /** A width or precision: absent, a number, or the value of an argument. */
  datatype Count = Absent | Given(value: nat) | Dynamic(id: ArgId)

  /** The parts of a format specification, in the order in which a handler is told of them. */
  datatype Specs = Specs(fill: string, align: Align, sign: Sign, alt: bool, zero: bool,
                         width: Count, precision: Count, kind: string)

  datatype Event = Text(text: string) | Field(id: ArgId) | SpecField(id: ArgId, specs: Specs)

  /** What a handler is told, empty texts aside, and whether the parser came to the end. */
  datatype Trace = Trace(events: seq<Event>, ok: bool)

  /** A parsed part and the position after it. */
  datatype Parsed<T> = Failed | At(value: T, next: nat)

  // Characters.

  predicate IsNameStart(c: char) {
    'a' <= c <= 'z' || 'A' <= c <= 'Z' || c == '_'
  }

  predicate IsNameChar(c: char) {
    IsNameStart(c) || IsDigit(c)
  }

  /** Characters below 256 are the bytes of the format string. */
  predicate IsContinuation(c: char) {
    0x80 <= c as int < 0xC0
  }

  function AlignOf(c: char): Align {
    if c == '<' then Left else if c == '>' then Right else if c == '^' then Center else NoAlign
  }

  function SignOf(c: char): Sign {
    if c == '+' then Plus else if c == '-' then Minus else if c == ' ' then Space else NoSign
  }

  // The grammar.

  /** The end of the run of name characters at i. */
  function NameEnd(s: string, i: nat): (e: nat)
    requires i <= |s|
    ensures i <= e <= |s|
    decreases |s| - i
  {
    if i == |s| || !IsNameChar(s[i]) then i else NameEnd(s, i + 1)
  }

  function ContinuationEnd(s: string, i: nat): (e: nat)
    requires i <= |s|
    ensures i <= e <= |s|
    decreases |s| - i
  {
    if i == |s| || !IsContinuation(s[i]) then i else ContinuationEnd(s, i + 1)
  }

  function CodePointEnd(s: string, i: nat): (e: nat)
    requires i < |s|
    ensures i < e <= |s|
  {
    if s[i] as int < 0x80 then i + 1 else ContinuationEnd(s, i + 1)
  }

  ghost function ArgIdAt(s: string, i: nat): (r: Parsed<ArgId>)
    requires i < |s|
    ensures r.At? ==> i <= r.next <= |s|
  {
    if s[i] == '}' || s[i] == ':' then At(Auto, i)
    else if IsDigit(s[i]) then
      var n := if s[i] == '0' then Parsed(0, i + 1) else NonnegativeIntAt(s, i);
      if n.TooBig? || n.end == |s| || (s[n.end] != '}' && s[n.end] != ':') then Failed
      else At(Index(n.value), n.end)
    else if IsNameStart(s[i]) then At(Name(s[i..NameEnd(s, i + 1)]), NameEnd(s, i + 1))
    else Failed
  }

  /** Fill and alignment: a character before an alignment is a fill. */
  ghost function AlignAt(s: string, i: nat): (r: Parsed<(string, Align)>)
    requires i <= |s|
    ensures r.At? ==> i <= r.next <= |s|
  {
    if i == |s| then At(("", NoAlign), i)
    else
      var p := CodePointEnd(s, i);
      if p < |s| && AlignOf(s[p]) != NoAlign then
        if s[i] == '{' then Failed else At((s[i..p], AlignOf(s[p])), p + 1)
      else if AlignOf(s[i]) != NoAlign then At(("", AlignOf(s[i])), i + 1)
      else At(("", NoAlign), i)
  }

  /** A nested replacement field, at the brace that opens it. */
  ghost function NestedAt(s: string, i: nat): (r: Parsed<Count>)
    requires i < |s|
    ensures r.At? ==> i <= r.next <= |s|
  {
    if i + 1 == |s| then Failed
    else
      var id := ArgIdAt(s, i + 1);
      if id.Failed? || id.next == |s| || s[id.next] != '}' then Failed else At(Dynamic(id.value), id.next + 1)
  }

  ghost function NumberAt(s: string, i: nat): (r: Parsed<Count>)
    requires i <= |s|
    ensures r.At? ==> i <= r.next <= |s|
  {
    var n := NonnegativeIntAt(s, i);
    if n.TooBig? then Failed else At(Given(n.value), n.end)
  }

  ghost function WidthAt(s: string, i: nat): (r: Parsed<Count>)
    requires i <= |s|
    ensures r.At? ==> i <= r.next <= |s|
  {
    if i == |s| then At(Absent, i)
    else if IsDigit(s[i]) then NumberAt(s, i)
    else if s[i] == '{' then NestedAt(s, i)
    else At(Absent, i)
  }

  ghost function PrecisionAt(s: string, i: nat): (r: Parsed<Count>)
    requires i <= |s|
    ensures r.At? ==> i <= r.next <= |s|
  {
    if i == |s| || s[i] != '.' then At(Absent, i)
    else if i + 1 == |s| then Failed
    else if IsDigit(s[i + 1]) then NumberAt(s, i + 1)
    else if s[i + 1] == '{' then NestedAt(s, i + 1)
    else Failed
  }

  /** [[fill]align][sign]['#']['0'][width]['.' precision][type] */
  ghost function SpecsAt(s: string, i: nat): (r: Parsed<Specs>)
    requires i <= |s|
    ensures r.At? ==> i <= r.next <= |s|
  {
    if i == |s| || s[i] == '}' then At(Specs("", NoAlign, NoSign, false, false, Absent, Absent, ""), i)
    else
      var a := AlignAt(s, i);
      if a.Failed? then Failed
      else
        var sign := if a.next < |s| then SignOf(s[a.next]) else NoSign;
        var h := a.next + if sign != NoSign then 1 else 0;
        var alt := h < |s| && s[h] == '#';
        var z := h + if alt then 1 else 0;
        var zero := z < |s| && s[z] == '0';
        var w := WidthAt(s, z + if zero then 1 else 0);
        if w.Failed? then Failed
        else
          var p := PrecisionAt(s, w.next);
          if p.Failed? then Failed
          else
            var kind := if p.next < |s| && s[p.next] != '}' then [s[p.next]] else "";
            At(Specs(a.value.0, a.value.1, sign, alt, zero, w.value, p.value, kind), p.next + |kind|)
  }

  /** The replacement field, or the escaped brace, at the opening brace at i. */
  ghost function FieldAt(s: string, i: nat): (r: Parsed<Event>)
    requires i < |s|
    ensures r.At? ==> i < r.next <= |s|
  {
    if i + 1 == |s| then Failed
    else if s[i + 1] == '}' then At(Field(Auto), i + 2)
    else if s[i + 1] == '{' then At(Text("{"), i + 2)
    else
      var id := ArgIdAt(s, i + 1);
      if id.Failed? || id.next == |s| then Failed
      else if s[id.next] == '}' then At(Field(id.value), id.next + 1)
      else if s[id.next] != ':' then Failed
      else
        var specs := SpecsAt(s, id.next + 1);
        if specs.Failed? || specs.next == |s| || s[specs.next] != '}' then Failed
        else At(SpecField(id.value, specs.value), specs.next + 1)
  }

  function NextBrace(s: string, i: nat): (k: nat)
    requires i <= |s|
    ensures i <= k <= |s|
    ensures forall j :: i <= j < k ==> s[j] != '{' && s[j] != '}'
    ensures k < |s| ==> s[k] == '{' || s[k] == '}'
    decreases |s| - i
  {
    if i == |s| || s[i] == '{' || s[i] == '}' then i else NextBrace(s, i + 1)
  }

  function TextOf(t: string): seq<Event> {
    if t == "" then [] else [Text(t)]
  }

  function Prepend(events: seq<Event>, t: Trace): Trace {
    Trace(events + t.events, t.ok)
  }

  /** The meaning of the format string from position i on. */
  ghost function TraceFrom(s: string, i: nat): Trace
    requires i <= |s|
    decreases |s| - i
  {
    var k := NextBrace(s, i);
    if k == |s| then Trace(TextOf(s[i..k]), true)
    else if s[k] == '}' then
      if k + 1 < |s| && s[k + 1] == '}' then Prepend(TextOf(s[i..k + 1]), TraceFrom(s, k + 2)) else Trace([], false)
    else match FieldAt(s, k) {
      case Failed => Trace(TextOf(s[i..k]), false)
      case At(event, next) => Prepend(TextOf(s[i..k]) + [event], TraceFrom(s, next))
    }
  }
}
