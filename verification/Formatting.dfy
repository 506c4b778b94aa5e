/** Interpreting a format string: arguments, argument ids, specification checks, and the handler that prints. */
module Formatting {
  import opened IntegerText
  import opened FormatParser
  import opened FormatScanner

  datatype Option<T> = None | Some(value: T)

  /** The types of arguments, except custom ones, in the order of the original enumeration. */
  datatype ArgType = NoArg | Int | UInt | LongLong | ULongLong | Int128 | UInt128 | Bool | Char
                   | Float | Double | LongDouble | CString | String | Address

  /** An argument; the value of an integer argument is its number. */
  datatype Arg = Arg(kind: ArgType, value: int)

  datatype Alignment = Aligned(align: Align) | Numeric

  /** The specification that the printer of an argument gets. */
  datatype FormatSpecs = FormatSpecs(width: nat, precision: int, kind: string, align: Alignment,
                                     sign: Sign, alt: bool, fill: string)

  const DEFAULTS := FormatSpecs(0, -1, "", Aligned(NoAlign), NoSign, false, " ")

  /** The arguments of a call, and how one argument is printed; printing fails for an unsuitable type. */
  datatype Env = Env(args: seq<Arg>, names: seq<(string, nat)>, render: (Arg, Option<FormatSpecs>) -> Option<string>)

  /** A reference to an argument once its id is known. */
  datatype Ref = IndexRef(index: nat) | NameRef(name: string)

  function Get(env: Env, index: nat): Option<Arg> {
    if index < |env.args| && env.args[index].kind != NoArg then Some(env.args[index]) else None
  }

  /** The index of the first argument of that name. */
  function GetId(names: seq<(string, nat)>, name: string): Option<nat> {
    if names == [] then None else if names[0].0 == name then Some(names[0].1) else GetId(names[1..], name)
  }

  function Lookup(env: Env, ref: Ref): Option<Arg> {
    match ref {
      case IndexRef(i) => Get(env, i)
      case NameRef(x) => match GetId(env.names, x) { case None => None case Some(i) => Get(env, i) }
    }
  }

  // Automatic and manual numbering: next is the next automatic id, or -1 after a manual one.

  function NextArgId(next: int): (r: Option<(nat, int)>) {
    if next >= 0 then Some((next, next + 1)) else None
  }

  function CheckArgId(next: int): Option<int> {
    if next > 0 then None else Some(-1)
  }

  function Resolve(id: ArgId, next: int): Option<(Ref, int)> {
    match id {
      case Auto => match NextArgId(next) { case None => None case Some(r) => Some((IndexRef(r.0), r.1)) }
      case Index(i) => match CheckArgId(next) { case None => None case Some(n) => Some((IndexRef(i), n)) }
      case Name(x) => Some((NameRef(x), next))
    }
  }

  // Checks of a specification against the type of the argument.

  predicate IsIntegral(k: ArgType) {
    k.Int? || k.UInt? || k.LongLong? || k.ULongLong? || k.Int128? || k.UInt128? || k.Bool? || k.Char?
  }

  predicate IsInteger(k: ArgType) {
    IsIntegral(k) && !k.Bool? && !k.Char?
  }

  predicate IsArithmetic(k: ArgType) {
    IsIntegral(k) || k.Float? || k.Double? || k.LongDouble?
  }

  predicate AllowsSign(k: ArgType) {
    IsArithmetic(k) && (IsIntegral(k) ==> k.Int? || k.LongLong? || k.Char?)
  }

  predicate AllowsPrecision(k: ArgType) {
    !IsIntegral(k) && !k.Address?
  }

  /**
   * The value of an argument as a width or precision: not negative, of an
   * integer type, and an int once the bits above 64 are cut off.
   */
  function DynamicSpec(arg: Option<Arg>): Option<nat> {
    if arg.None? || !IsInteger(arg.value.kind) then None
    else
      var value := arg.value.value % 0x1_0000_0000_0000_0000;
      if arg.value.value < 0 || value > INT_MAX then None else Some(value)
  }

  // The specification for an argument, checked and resolved part by part.

  /** Fill, alignment, sign, '#' and '0' before any check; a fill takes at most four bytes. */
  function SetFlags(x: Specs): Option<FormatSpecs> {
    if |x.fill| > 4 then None
    else
      var fill := if x.fill == "" then " " else x.fill;
      Some(DEFAULTS.(align := if x.zero then Numeric else Aligned(x.align), sign := x.sign, alt := x.alt,
                     fill := if x.zero then fill[0 := '0'] else fill, kind := x.kind))
  }

  predicate FlagsAllowed(kind: ArgType, x: Specs) {
    (x.sign != NoSign ==> AllowsSign(kind)) && (x.alt || x.zero ==> IsArithmetic(kind))
  }

  /** A width or precision, if there is one, and the numbering state afterwards. */
  function InterpretCount(env: Env, c: Count, next: int): Option<(Option<nat>, int)> {
    match c {
      case Absent => Some((None, next))
      case Given(n) => Some((Some(n), next))
      case Dynamic(id) =>
        match Resolve(id, next) {
          case None => None
          case Some(r) => match DynamicSpec(Lookup(env, r.0)) { case None => None case Some(v) => Some((Some(v), r.1)) }
        }
    }
  }

  /**
   * A width or precision from an integer argument is its value, or refused
   * beyond an int, exactly when the cut to 64 bits does not hide that it is beyond.
   */
  lemma CountOfArgument(env: Env, id: ArgId, next: int)
    requires var r := Resolve(id, next);
             r.Some? && var arg := Lookup(env, r.value.0); arg.Some? && IsInteger(arg.value.kind)
    ensures var r := Resolve(id, next).value;
            var value := Lookup(env, r.0).value.value;
            InterpretCount(env, Dynamic(id), next)
              == (if 0 <= value <= INT_MAX then Some((Some(value), r.1)) else None)
            <==> value <= INT_MAX || value % 0x1_0000_0000_0000_0000 > INT_MAX
  {
    hide Resolve, Lookup;
  }

  /** The value 2^64 + 5 as a width or precision is taken as 5. */
  lemma CutCount(env: Env)
    requires env.args == [Arg(UInt128, 0x1_0000_0000_0000_0005)]
    ensures InterpretCount(env, Dynamic(Auto), 0) == Some((Some(5), 1))
  {
  }

  /** The resolved specification of an argument of type kind, or nothing when a check fails. */
  function InterpretSpecs(env: Env, kind: ArgType, x: Specs, next: int): Option<(FormatSpecs, int)> {
    if SetFlags(x).None? || !FlagsAllowed(kind, x) then None
    else
      match InterpretCount(env, x.width, next) {
        case None => None
        case Some(w) =>
          match InterpretCount(env, x.precision, w.1) {
            case None => None
            case Some(p) =>
              if !x.precision.Absent? && !AllowsPrecision(kind) then None
              else Some((WithCounts(SetFlags(x).value, w.0, p.0), p.1))
          }
      }
  }

  function WithCounts(f: FormatSpecs, width: Option<nat>, precision: Option<nat>): FormatSpecs {
    f.(width := if width.Some? then width.value else f.width,
       precision := if precision.Some? then precision.value else f.precision)
  }

  /** The output and the numbering state. */
  datatype State = State(out: string, next: int)

  function Append(st: State, text: Option<string>, next: int): Option<State> {
    if text.None? then None else Some(State(st.out + text.value, next))
  }

  function InterpretEvent(env: Env, st: State, e: Event): Option<State> {
    if e.Text? then Some(State(st.out + e.text, st.next))
    else
      match Resolve(e.id, st.next) {
        case None => None
        case Some(r) =>
          match Lookup(env, r.0) {
            case None => None
            case Some(arg) =>
              if e.Field? then Append(st, env.render(arg, None), r.1)
              else
                match InterpretSpecs(env, arg.kind, e.specs, r.1) {
                  case None => None
                  case Some(f) => Append(st, env.render(arg, Some(f.0)), f.1)
                }
          }
      }
  }

  function InterpretEvents(env: Env, st: Option<State>, events: seq<Event>): Option<State>
    decreases |events|
  {
    if st.None? then None
    else if events == [] then st
    else InterpretEvents(env, InterpretEvent(env, st.value, events[0]), events[1..])
  }

  /** The output of a format string, or nothing when it or its arguments are in error. */
  ghost function Interpret(env: Env, s: string): Option<string> {
    var t := TraceFrom(s, 0);
    var st := InterpretEvents(env, Some(State("", 0)), t.events);
    if t.ok && st.Some? then Some(st.value.out) else None
  }

  lemma {:induction false} InterpretSnoc(env: Env, st: Option<State>, events: seq<Event>, e: Event)
    ensures InterpretEvents(env, st, events + [e]) ==
            var mid := InterpretEvents(env, st, events);
            if mid.None? then None else InterpretEvent(env, mid.value, e)
    decreases |events|
  {
    hide InterpretEvent;
    if st.Some? {
      if events == [] {
        assert (events + [e])[1..] == [];
      } else {
        assert (events + [e])[1..] == events[1..] + [e];
        InterpretSnoc(env, InterpretEvent(env, st.value, events[0]), events[1..], e);
      }
    }
  }

  /** The handler of the events of a format string: it prints as it is told of them. */
  class FormatHandler {
    const env: Env
    var out: string
    var next: int

    constructor (env: Env)
      ensures this.env == env && out == "" && next == 0
    {
      this.env := env;
      out, next := "", 0;
    }

    method OnText(text: string)
      modifies this
      ensures Some(State(out, next)) == InterpretEvent(env, State(old(out), old(next)), Text(text))
    {
      out := out + text;
    }

    /** The argument that an id refers to. */
    method OnArgId(id: ArgId) returns (arg: Option<Arg>)
      modifies this`next
      ensures var r := Resolve(id, old(next));
              if r.None? then arg == None else arg == Lookup(env, r.value.0) && next == r.value.1
    {
      match id {
        case Auto =>
          if next < 0 { return None; }
          arg := Get(env, next);
          next := next + 1;
        case Index(i) =>
          if next > 0 { return None; }
          next := -1;
          arg := Get(env, i);
        case Name(x) =>
          var i := GetId(env.names, x);
          arg := if i.None? then None else Get(env, i.value);
      }
    }

    method OnCount(c: Count) returns (ok: bool, value: Option<nat>)
      modifies this`next
      ensures InterpretCount(env, c, old(next)) == if ok then Some((value, next)) else None
    {
      match c {
        case Absent => return true, None;
        case Given(n) => return true, Some(n);
        case Dynamic(id) =>
          var arg := OnArgId(id);
          value := DynamicSpec(arg);
          return value.Some?, value;
      }
    }

    /** Sets fill, alignment, sign, '#' and '0' in order, each checked when it is set. */
    static method SetCheckedFlags(kind: ArgType, x: Specs) returns (r: Option<FormatSpecs>)
      ensures r == if FlagsAllowed(kind, x) then SetFlags(x) else None
    {
      hide AllowsSign, IsArithmetic;
      var specs := DEFAULTS;
      if x.fill != "" {
        if |x.fill| > 4 { return None; }
        specs := specs.(fill := x.fill);
      }
      specs := specs.(align := Aligned(x.align));
      if x.sign != NoSign {
        if !AllowsSign(kind) { return None; }
        specs := specs.(sign := x.sign);
      }
      if x.alt {
        if !IsArithmetic(kind) { return None; }
        specs := specs.(alt := true);
      }
      if x.zero {
        if !IsArithmetic(kind) { return None; }
        specs := specs.(align := Numeric, fill := specs.fill[0 := '0']);
      }
      return Some(specs.(kind := x.kind));
    }

    method SetSpecs(kind: ArgType, x: Specs) returns (r: Option<FormatSpecs>)
      modifies this`next
      ensures InterpretSpecs(env, kind, x, old(next)) == if r.None? then None else Some((r.value, next))
    {
      hide SetFlags, FlagsAllowed, AllowsPrecision, InterpretCount;
      var specs := SetCheckedFlags(kind, x);
      if specs.None? { return None; }
      var ok, width := OnCount(x.width);
      if !ok { return None; }
      var precision;
      ok, precision := OnCount(x.precision);
      if !ok { return None; }
      if !x.precision.Absent? && !AllowsPrecision(kind) { return None; }
      return Some(WithCounts(specs.value, width, precision));
    }

    method OnReplacementField(id: ArgId) returns (ok: bool)
      modifies this
      ensures InterpretEvent(env, State(old(out), old(next)), Field(id)) == if ok then Some(State(out, next)) else None
    {
      var arg := OnArgId(id);
      if arg.None? { return false; }
      var text := env.render(arg.value, None);
      if text.None? { return false; }
      out := out + text.value;
      return true;
    }

    method OnFormatSpecs(id: ArgId, x: Specs) returns (ok: bool)
      modifies this
      ensures InterpretEvent(env, State(old(out), old(next)), SpecField(id, x))
              == if ok then Some(State(out, next)) else None
    {
      var arg := OnArgId(id);
      if arg.None? { return false; }
      var specs := SetSpecs(arg.value.kind, x);
      if specs.None? { return false; }
      var text := env.render(arg.value, specs);
      if text.None? { return false; }
      out := out + text.value;
      return true;
    }
  }

  /** A single automatic field is one event. */
  lemma OneField()
    ensures TraceFrom("{}", 0) == Trace([Field(Auto)], true)
  {
    var s := "{}";
    NextBraceIs(s, 0, 0);
    NextBraceIs(s, 2, 2);
    assert s[0..0] == "" && s[2..2] == "";
    assert TraceFrom(s, 2) == Trace([], true);
  }

  method VFormatTo(env: Env, s: string) returns (r: Option<string>)
    ensures r == Interpret(env, s)
  {
    hide TraceFrom, InterpretEvent, Resolve, Lookup;
    if |s| == 2 && s == "{}" {
      OneField();
      FastPath(env);
      var arg := Get(env, 0);
      return if arg.None? then None else env.render(arg.value, None);
    }
    var h := new FormatHandler(env);
    var t := ParseFormatString(s);
    ghost var start := Some(State("", 0));
    for i := 0 to |t.events|
      invariant InterpretEvents(env, start, t.events[..i]) == Some(State(h.out, h.next))
    {
      var e := t.events[i];
      assert t.events[..i + 1] == t.events[..i] + [e];
      InterpretSnoc(env, start, t.events[..i], e);
      var ok := true;
      match e {
        case Text(text) => h.OnText(text);
        case Field(id) => ok := h.OnReplacementField(id);
        case SpecField(id, specs) => ok := h.OnFormatSpecs(id, specs);
      }
      if !ok {
        Stuck(env, start, t.events, i + 1);
        return None;
      }
    }
    assert t.events[..|t.events|] == t.events;
    return if t.ok then Some(h.out) else None;
  }

  lemma FastPath(env: Env)
    ensures InterpretEvents(env, Some(State("", 0)), [Field(Auto)]) ==
            var arg := Get(env, 0);
            var text := if arg.None? then None else env.render(arg.value, None);
            if text.None? then None else Some(State(text.value, 1))
  {
    assert [Field(Auto)][1..] == [];
    var arg := Get(env, 0);
    if arg.Some? && env.render(arg.value, None).Some? {
      var text := env.render(arg.value, None).value;
      assert "" + text == text;
    }
  }

  lemma {:induction false} Stuck(env: Env, st: Option<State>, events: seq<Event>, i: nat)
    requires i <= |events| && InterpretEvents(env, st, events[..i]).None?
    ensures InterpretEvents(env, st, events).None?
    decreases |events|
  {
    hide InterpretEvent;
    if st.Some? && events != [] && i > 0 {
      assert events[..i][1..] == events[1..][..i - 1];
      Stuck(env, InterpretEvent(env, st.value, events[0]), events[1..], i - 1);
    }
  }
}
