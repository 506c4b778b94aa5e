/** Compiling a format string to parts, running the parts, and why this prints what interpreting prints. */
module Compile {
  import opened FormatParser
  import opened FormatScanner
  import opened Formatting

  /** A specification whose width and precision may still refer to arguments. */
  datatype DynamicSpecs = DynamicSpecs(specs: FormatSpecs, widthRef: Option<Ref>, precisionRef: Option<Ref>)

  datatype Part = TextPart(text: string) | ArgPart(ref: Ref) | Replacement(ref: Ref, specs: DynamicSpecs)

  // Compiling.

  /** A width or precision number, or the reference to its argument, and the numbering state afterwards. */
  function CompileCount(c: Count, next: int): Option<(Option<nat>, Option<Ref>, int)> {
    match c {
      case Absent => Some((None, None, next))
      case Given(n) => Some((Some(n), None, next))
      case Dynamic(id) =>
        match Resolve(id, next) { case None => None case Some(r) => Some((None, Some(r.0), r.1)) }
    }
  }

  function CompileSpecs(x: Specs, next: int): Option<(DynamicSpecs, int)> {
    if SetFlags(x).None? then None
    else
      match CompileCount(x.width, next) {
        case None => None
        case Some(w) =>
          match CompileCount(x.precision, w.2) {
            case None => None
            case Some(p) => Some((DynamicSpecs(WithCounts(SetFlags(x).value, w.0, p.0), w.1, p.1), p.2))
          }
      }
  }

  /** The parts and the numbering state. */
  datatype Compiling = Compiling(parts: seq<Part>, next: int)

  function CompileEvent(st: Compiling, e: Event): Option<Compiling> {
    if e.Text? then Some(st.(parts := st.parts + [TextPart(e.text)]))
    else
      match Resolve(e.id, st.next) {
        case None => None
        case Some(r) =>
          if e.Field? then Some(Compiling(st.parts + [ArgPart(r.0)], r.1))
          else match CompileSpecs(e.specs, r.1) {
            case None => None
            case Some(d) => Some(Compiling(st.parts + [Replacement(r.0, d.0)], d.1))
          }
      }
  }

  function CompileEvents(st: Option<Compiling>, events: seq<Event>): Option<Compiling>
    decreases |events|
  {
    if st.None? then None
    else if events == [] then st
    else CompileEvents(CompileEvent(st.value, events[0]), events[1..])
  }

  /** The parts of a format string, or nothing when it is in error. */
  ghost function Compiled(s: string): Option<seq<Part>> {
    var t := TraceFrom(s, 0);
    var st := CompileEvents(Some(Compiling([], 0)), t.events);
    if t.ok && st.Some? then Some(st.value.parts) else None
  }

  // Running.

  function KindOf(arg: Option<Arg>): ArgType {
    if arg.None? then NoArg else arg.value.kind
  }

  /** A width or precision: from an argument when there is a reference to one. */
  function HandleDynamicSpec(env: Env, ref: Option<Ref>): Option<Option<nat>> {
    if ref.None? then Some(None)
    else match DynamicSpec(Lookup(env, ref.value)) { case None => None case Some(v) => Some(Some(v)) }
  }

  predicate ChecksPass(kind: ArgType, f: FormatSpecs) {
    && (f.align == Numeric ==> IsArithmetic(kind)) && (f.sign != NoSign ==> AllowsSign(kind))
    && (f.alt ==> IsArithmetic(kind)) && (f.precision >= 0 ==> AllowsPrecision(kind))
  }

  function RunSpecs(env: Env, kind: ArgType, d: DynamicSpecs): Option<FormatSpecs> {
    match HandleDynamicSpec(env, d.widthRef) {
      case None => None
      case Some(w) =>
        match HandleDynamicSpec(env, d.precisionRef) {
          case None => None
          case Some(p) =>
            var f := WithCounts(d.specs, w, p);
            if ChecksPass(kind, f) then Some(f) else None
        }
    }
  }

  /** What a part prints; a missing argument prints nothing, as in a build without assertions. */
  function RunPart(env: Env, part: Part): Option<string> {
    match part {
      case TextPart(t) => Some(t)
      case ArgPart(ref) =>
        var arg := Lookup(env, ref);
        if arg.None? then Some("") else env.render(arg.value, None)
      case Replacement(ref, d) =>
        var arg := Lookup(env, ref);
        var f := RunSpecs(env, KindOf(arg), d);
        if f.None? then None else if arg.None? then Some("") else env.render(arg.value, f)
    }
  }

  function RunParts(env: Env, out: Option<string>, parts: seq<Part>): Option<string>
    decreases |parts|
  {
    if out.None? then None
    else if parts == [] then out
    else
      var text := RunPart(env, parts[0]);
      RunParts(env, if text.None? then None else Some(out.value + text.value), parts[1..])
  }

  /** The arguments that the parts print are there. */
  predicate Present(env: Env, parts: seq<Part>) {
    forall k :: 0 <= k < |parts| ==> !parts[k].TextPart? ==> Lookup(env, parts[k].ref).Some?
  }

  // Compiling preserves the meaning.

  /** Resolving a count at once, or keeping a reference and resolving that, is the same. */
  lemma CountAgrees(env: Env, c: Count, next: int)
    ensures CompileCount(c, next).None? ==> InterpretCount(env, c, next).None?
    ensures CompileCount(c, next).Some? ==>
              var d := CompileCount(c, next).value;
              var v := HandleDynamicSpec(env, d.1);
              && (d.0.Some? ==> d.1.None?) && (d.0.Some? || d.1.Some? <==> !c.Absent?)
              && if v.None? then InterpretCount(env, c, next).None?
                 else InterpretCount(env, c, next) == Some((if d.1.None? then d.0 else v.value, d.2))
  {
    hide Resolve, Lookup, DynamicSpec;
  }

  /** Checking the parts of a specification as they are parsed, or all of them afterwards, is the same. */
  lemma FlagChecksAgree(kind: ArgType, x: Specs, width: Option<nat>, precision: Option<nat>)
    requires SetFlags(x).Some? && (precision.Some? <==> !x.precision.Absent?)
    ensures ChecksPass(kind, WithCounts(SetFlags(x).value, width, precision))
            <==> FlagsAllowed(kind, x) && (!x.precision.Absent? ==> AllowsPrecision(kind))
  {
    hide IsArithmetic, AllowsSign, AllowsPrecision;
  }

  lemma CountsCombine(f: FormatSpecs, w: (Option<nat>, Option<Ref>, int), p: (Option<nat>, Option<Ref>, int),
                      v: Option<nat>, q: Option<nat>)
    requires (w.0.Some? ==> w.1.None?) && (p.0.Some? ==> p.1.None?)
    requires (w.1.None? <==> v.None?) && (p.1.None? <==> q.None?)
    ensures WithCounts(WithCounts(f, w.0, p.0), v, q)
            == WithCounts(f, if w.1.None? then w.0 else v, if p.1.None? then p.0 else q)
  {
  }

  /** Compiling a specification and running it gives what interpreting it gives. */
  lemma SpecsAgree(env: Env, kind: ArgType, x: Specs, next: int)
    ensures InterpretSpecs(env, kind, x, next) ==
            var d := CompileSpecs(x, next);
            if d.None? then None
            else
              var f := RunSpecs(env, kind, d.value.0);
              if f.None? then None else Some((f.value, d.value.1))
  {
    hide SetFlags, FlagsAllowed, AllowsPrecision, ChecksPass, InterpretCount, CompileCount;
    hide DynamicSpec, Lookup, WithCounts;
    CountAgrees(env, x.width, next);
    if SetFlags(x).Some? && CompileCount(x.width, next).Some? {
      var w := CompileCount(x.width, next).value;
      CountAgrees(env, x.precision, w.2);
      if CompileCount(x.precision, w.2).Some? {
        var p := CompileCount(x.precision, w.2).value;
        var v, q := HandleDynamicSpec(env, w.1), HandleDynamicSpec(env, p.1);
        if v.Some? && q.Some? {
          var width, precision := if w.1.None? then w.0 else v.value, if p.1.None? then p.0 else q.value;
          CountsCombine(SetFlags(x).value, w, p, v.value, q.value);
          FlagChecksAgree(kind, x, width, precision);
        }
      }
    }
  }

  /** One event, compiled and run, or interpreted. */
  lemma EventAgrees(env: Env, st: State, parts: seq<Part>, e: Event)
    ensures var c := CompileEvent(Compiling(parts, st.next), e);
            if c.None? then InterpretEvent(env, st, e).None?
            else
              && |c.value.parts| == |parts| + 1 && c.value.parts[..|parts|] == parts
              && var part := c.value.parts[|parts|];
                 InterpretEvent(env, st, e)
                 == if Present(env, [part]) then Append(st, RunPart(env, part), c.value.next) else None
  {
    hide InterpretSpecs, CompileSpecs, RunSpecs, Resolve, Lookup;
    if !e.Text? {
      var r := Resolve(e.id, st.next);
      if r.Some? && e.SpecField? {
        var arg := Lookup(env, r.value.0);
        if arg.Some? { SpecsAgree(env, arg.value.kind, e.specs, r.value.1); }
        if CompileSpecs(e.specs, r.value.1).None? { SpecsCompileAlike(env, e.specs, r.value.1); }
      }
    }
  }

  /** Whether a specification compiles does not depend on arguments. */
  lemma SpecsCompileAlike(env: Env, x: Specs, next: int)
    requires CompileSpecs(x, next).None?
    ensures forall kind :: InterpretSpecs(env, kind, x, next).None?
  {
    hide InterpretSpecs, CompileSpecs, RunSpecs;
    forall kind ensures InterpretSpecs(env, kind, x, next).None? {
      SpecsAgree(env, kind, x, next);
    }
  }

  lemma {:induction false} EventsAgree(env: Env, st: State, parts: seq<Part>, events: seq<Event>)
    ensures var c := CompileEvents(Some(Compiling(parts, st.next)), events);
            var r := InterpretEvents(env, Some(st), events);
            if c.None? then r.None?
            else
              && |parts| <= |c.value.parts| && c.value.parts[..|parts|] == parts
              && var more := c.value.parts[|parts|..];
                 r == if Present(env, more) then Append(State("", 0), RunParts(env, Some(st.out), more), c.value.next)
                      else None
    decreases |events|
  {
    hide CompileEvent, InterpretEvent, RunPart, Present;
    PresentNothing(env);
    if events == [] {
      assert parts[|parts|..] == [];
      assert "" + st.out == st.out;
    } else {
      EventAgrees(env, st, parts, events[0]);
      var c := CompileEvent(Compiling(parts, st.next), events[0]);
      if c.Some? {
        var part, next := c.value.parts[|parts|], c.value.next;
        var text := RunPart(env, part);
        var out := State(st.out + if text.Some? then text.value else "", next);
        EventsAgree(env, out, c.value.parts, events[1..]);
        var all := CompileEvents(c, events[1..]);
        if all.Some? {
          var more := all.value.parts[|c.value.parts|..];
          FirstMore(parts, c.value.parts, all.value.parts);
          PresentFirst(env, part, more);
          StaysFailed(env, more, events[1..]);
        }
      }
    }
  }

  lemma StaysFailed(env: Env, parts: seq<Part>, events: seq<Event>)
    ensures RunParts(env, None, parts).None? && InterpretEvents(env, None, events).None?
  {
  }

  lemma FirstMore(a: seq<Part>, b: seq<Part>, c: seq<Part>)
    requires |b| == |a| + 1 && b[..|a|] == a && |b| <= |c| && c[..|b|] == b
    ensures c[..|a|] == a && c[|a|..] == [b[|a|]] + c[|b|..]
  {
    assert c == b + c[|b|..] && b == a + [b[|a|]];
  }

  lemma PresentNothing(env: Env)
    ensures Present(env, [])
  {
  }

  lemma PresentFirst(env: Env, part: Part, more: seq<Part>)
    ensures Present(env, [part] + more) <==> Present(env, [part]) && Present(env, more)
  {
    if Present(env, [part] + more) {
      assert ([part] + more)[0] == part;
      forall k {:trigger more[k]} | 0 <= k < |more|
        ensures !more[k].TextPart? ==> Lookup(env, more[k].ref).Some?
      {
        assert ([part] + more)[k + 1] == more[k];
      }
    }
    if Present(env, [part]) { assert [part][0] == part; }
  }

  /**
   * For every format string and all arguments: interpreting prints what
   * running the compiled parts prints, when the arguments are there.
   */
  lemma CompilationPreservesMeaning(env: Env, s: string)
    ensures Interpret(env, s) ==
            var parts := Compiled(s);
            if parts.Some? && Present(env, parts.value) then RunParts(env, Some(""), parts.value) else None
  {
    hide TraceFrom, CompileEvents, InterpretEvents, RunParts, Present;
    EventsAgree(env, State("", 0), [], TraceFrom(s, 0).events);
    var c := CompileEvents(Some(Compiling([], 0)), TraceFrom(s, 0).events);
    if c.Some? {
      var parts := c.value.parts;
      assert parts[0..] == parts;
      var out := RunParts(env, Some(""), parts);
      if out.Some? { assert "" + out.value == out.value; }
    }
  }

  /** Without the argument the interpreter fails, but the compiled form silently prints nothing. */
  lemma MissingArgumentIsSilent(env: Env)
    requires env.args == []
    ensures Interpret(env, "{}") == None
    ensures Compiled("{}") == Some([ArgPart(IndexRef(0))])
    ensures RunParts(env, Some(""), [ArgPart(IndexRef(0))]) == Some("")
  {
    hide TraceFrom;
    OneField();
    FastPath(env);
    var part := ArgPart(IndexRef(0));
    assert [Field(Auto)][1..] == [] && [part][1..] == [] && [] + [part] == [part];
    assert CompileEvent(Compiling([], 0), Field(Auto)) == Some(Compiling([part], 1));
    assert RunPart(env, part) == Some("") && "" + "" == "";
    assert RunParts(env, Some(""), [part]) == RunParts(env, Some(""), []);
  }

  // The compiler and the loop that runs the parts.

  lemma {:induction false} CompileSnoc(st: Option<Compiling>, events: seq<Event>, e: Event)
    ensures CompileEvents(st, events + [e]) ==
            var mid := CompileEvents(st, events);
            if mid.None? then None else CompileEvent(mid.value, e)
    decreases |events|
  {
    hide CompileEvent;
    if st.Some? {
      if events == [] {
        assert (events + [e])[1..] == [];
      } else {
        assert (events + [e])[1..] == events[1..] + [e];
        CompileSnoc(CompileEvent(st.value, events[0]), events[1..], e);
      }
    }
  }

  lemma {:induction false} CompileStuck(st: Option<Compiling>, events: seq<Event>, i: nat)
    requires i <= |events| && CompileEvents(st, events[..i]).None?
    ensures CompileEvents(st, events).None?
    decreases |events|
  {
    hide CompileEvent;
    if st.Some? && events != [] && i > 0 {
      assert events[..i][1..] == events[1..][..i - 1];
      CompileStuck(CompileEvent(st.value, events[0]), events[1..], i - 1);
    }
  }

  /** The handler that compiles: an id is kept until the field it belongs to is complete. */
  class FormatStringCompiler {
    var parts: seq<Part>
    var part: Ref
    var next: int

    constructor ()
      ensures parts == [] && next == 0
    {
      parts, part, next := [], IndexRef(0), 0;
    }

    method OnText(text: string)
      modifies this
      ensures Some(Compiling(parts, next)) == CompileEvent(Compiling(old(parts), old(next)), Text(text))
    {
      parts := parts + [TextPart(text)];
    }

    method MakeArgRef(id: ArgId) returns (r: Option<Ref>)
      modifies this`next
      ensures Resolve(id, old(next)) == if r.None? then None else Some((r.value, next))
    {
      match id {
        case Auto =>
          if next < 0 { return None; }
          next := next + 1;
          return Some(IndexRef(next - 1));
        case Index(i) =>
          if next > 0 { return None; }
          next := -1;
          return Some(IndexRef(i));
        case Name(x) =>
          return Some(NameRef(x));
      }
    }

    method OnArgId(id: ArgId) returns (ok: bool)
      modifies this`part, this`next
      ensures Resolve(id, old(next)) == if ok then Some((part, next)) else None
    {
      var r := MakeArgRef(id);
      if r.None? { return false; }
      part := r.value;
      return true;
    }

    method OnReplacementField(id: ArgId) returns (ok: bool)
      modifies this
      ensures CompileEvent(Compiling(old(parts), old(next)), Field(id))
              == if ok then Some(Compiling(parts, next)) else None
    {
      hide Resolve;
      ok := OnArgId(id);
      if ok { parts := parts + [ArgPart(part)]; }
    }

    method OnCount(c: Count) returns (ok: bool, value: Option<nat>, ref: Option<Ref>)
      modifies this`next
      ensures CompileCount(c, old(next)) == if ok then Some((value, ref, next)) else None
    {
      hide Resolve;
      ok, value, ref := true, None, None;
      match c {
        case Absent =>
        case Given(n) => value := Some(n);
        case Dynamic(id) =>
          ref := MakeArgRef(id);
          ok := ref.Some?;
      }
    }

    method OnFormatSpecs(id: ArgId, x: Specs) returns (ok: bool)
      modifies this
      ensures CompileEvent(Compiling(old(parts), old(next)), SpecField(id, x))
              == if ok then Some(Compiling(parts, next)) else None
    {
      hide Resolve, SetFlags, CompileCount;
      ok := OnArgId(id);
      if !ok { return; }
      var specs := SetFlags(x);
      if specs.None? { return false; }
      var width, widthRef, precision, precisionRef;
      ok, width, widthRef := OnCount(x.width);
      if !ok { return; }
      ok, precision, precisionRef := OnCount(x.precision);
      if !ok { return; }
      var d := DynamicSpecs(WithCounts(specs.value, width, precision), widthRef, precisionRef);
      parts := parts + [Replacement(part, d)];
    }
  }

  method CompileFormatString(s: string) returns (r: Option<seq<Part>>)
    ensures r == Compiled(s)
  {
    hide TraceFrom, CompileEvent;
    var c := new FormatStringCompiler();
    var t := ParseFormatString(s);
    ghost var start := Some(Compiling([], 0));
    for i := 0 to |t.events|
      invariant CompileEvents(start, t.events[..i]) == Some(Compiling(c.parts, c.next))
    {
      var e := t.events[i];
      assert t.events[..i + 1] == t.events[..i] + [e];
      CompileSnoc(start, t.events[..i], e);
      var ok := true;
      match e {
        case Text(text) => c.OnText(text);
        case Field(id) => ok := c.OnReplacementField(id);
        case SpecField(id, specs) => ok := c.OnFormatSpecs(id, specs);
      }
      if !ok {
        CompileStuck(start, t.events, i + 1);
        return None;
      }
    }
    assert t.events[..|t.events|] == t.events;
    return if t.ok then Some(c.parts) else None;
  }

  /** Prints the parts of a compiled format one after another. */
  method VFormatCompiled(env: Env, parts: seq<Part>) returns (r: Option<string>)
    ensures r == RunParts(env, Some(""), parts)
  {
    hide RunPart;
    var out := "";
    for i := 0 to |parts|
      invariant RunParts(env, Some(out), parts[i..]) == RunParts(env, Some(""), parts)
    {
      var text := RunPart(env, parts[i]);
      assert parts[i..][1..] == parts[i + 1..];
      if text.None? { return None; }
      out := out + text.value;
    }
    return Some(out);
  }

  /** Compile, then run: the output of the interpreter, when the arguments are there. */
  method FormatCompiled(env: Env, s: string) returns (r: Option<string>)
    ensures Compiled(s).None? || Present(env, Compiled(s).value) ==> r == Interpret(env, s)
  {
    hide TraceFrom, RunParts, Present;
    CompilationPreservesMeaning(env, s);
    var parts := CompileFormatString(s);
    if parts.None? { return None; }
    r := VFormatCompiled(env, parts.value);
  }
}
