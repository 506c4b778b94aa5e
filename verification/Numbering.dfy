/** What the fields of a format string print, told by the arguments themselves, with all ids numbered. */
module Numbering {
  import opened IntegerText
  import opened FormatParser
  import opened Formatting
  import opened Sequences

  // The ids of a format string, in the order in which they are asked for.

  function CountIds(c: Count): seq<ArgId> {
    if c.Dynamic? then [c.id] else []
  }

  /** A field's own id comes first, then those of its width and precision. */
  function Ids(e: Event): seq<ArgId> {
    match e {
      case Text(_) => []
      case Field(id) => [id]
      case SpecField(id, x) => [id] + CountIds(x.width) + CountIds(x.precision)
    }
  }

  function AllIds(events: seq<Event>): seq<ArgId> {
    if events == [] then [] else Ids(events[0]) + AllIds(events[1..])
  }

  function Autos(ids: seq<ArgId>): nat {
    if ids == [] then 0 else (if ids[0].Auto? then 1 else 0) + Autos(ids[1..])
  }

  predicate HasIndex(ids: seq<ArgId>) {
    exists k :: 0 <= k < |ids| && ids[k].Index?
  }

  // Numbering the automatic ids from k on.

  function NumberId(id: ArgId, k: nat): ArgId {
    if id.Auto? then Index(k) else id
  }

  function NumberCount(c: Count, k: nat): Count {
    if c.Dynamic? then Dynamic(NumberId(c.id, k)) else c
  }

  function Number(e: Event, k: nat): Event {
    match e {
      case Text(_) => e
      case Field(id) => Field(NumberId(id, k))
      case SpecField(id, x) =>
        var w := k + Autos([id]);
        var p := w + Autos(CountIds(x.width));
        SpecField(NumberId(id, k), x.(width := NumberCount(x.width, w), precision := NumberCount(x.precision, p)))
    }
  }

  function NumberAll(events: seq<Event>, k: nat): seq<Event> {
    if events == [] then [] else [Number(events[0], k)] + NumberAll(events[1..], k + Autos(Ids(events[0])))
  }

  lemma {:induction false} AutosConcat(a: seq<ArgId>, b: seq<ArgId>)
    ensures Autos(a + b) == Autos(a) + Autos(b)
    decreases |a|
  {
    if a == [] {
      assert a + b == b;
    } else {
      assert (a + b)[1..] == a[1..] + b;
      AutosConcat(a[1..], b);
    }
  }

  lemma AutosOfEvent(e: Event)
    ensures e.Field? ==> Autos(Ids(e)) == Autos([e.id])
    ensures e.SpecField? ==>
              Autos(Ids(e)) == Autos([e.id]) + Autos(CountIds(e.specs.width)) + Autos(CountIds(e.specs.precision))
  {
    if e.SpecField? {
      AutosConcat([e.id] + CountIds(e.specs.width), CountIds(e.specs.precision));
      AutosConcat([e.id], CountIds(e.specs.width));
    }
  }

  lemma AutosOne(id: ArgId)
    ensures Autos([id]) == if id.Auto? then 1 else 0
  {
    assert [id][1..] == [];
  }

  predicate AllAuto(ids: seq<ArgId>) {
    forall k :: 0 <= k < |ids| ==> ids[k].Auto?
  }

  function Consecutive(k: nat, n: nat): (ids: seq<ArgId>)
    ensures |ids| == n
  {
    seq(n, i requires 0 <= i < n => Index(k + i))
  }

  lemma NumberedEvent(e: Event, k: nat)
    requires AllAuto(Ids(e))
    ensures Ids(Number(e, k)) == Consecutive(k, |Ids(e)|) && Autos(Ids(e)) == |Ids(e)|
  {
    AutosOfEvent(e);
    if !e.Text? {
      assert Ids(e)[0] == e.id;
      AutosOne(e.id);
    }
    if e.SpecField? {
      var w, p := CountIds(e.specs.width), CountIds(e.specs.precision);
      assert forall i :: 0 <= i < |w| ==> Ids(e)[1 + i] == w[i];
      assert forall i :: 0 <= i < |p| ==> Ids(e)[1 + |w| + i] == p[i];
      if w != [] { AutosOne(w[0]); }
      if p != [] { AutosOne(p[0]); }
    }
  }

  lemma ConsecutiveSplit(k: nat, m: nat, n: nat)
    ensures Consecutive(k, m) + Consecutive(k + m, n) == Consecutive(k, m + n)
  {
  }

  lemma AllAutoSplit(a: seq<ArgId>, b: seq<ArgId>)
    requires AllAuto(a + b)
    ensures AllAuto(a) && AllAuto(b)
  {
    forall i | 0 <= i < |a| ensures a[i].Auto? { assert (a + b)[i] == a[i]; }
    forall i | 0 <= i < |b| ensures b[i].Auto? { assert (a + b)[|a| + i] == b[i]; }
  }

  /** When all ids are automatic, the one asked for as number i refers to argument k + i. */
  lemma {:induction false} AskedInOrder(events: seq<Event>, k: nat)
    requires AllAuto(AllIds(events))
    ensures AllIds(NumberAll(events, k)) == Consecutive(k, |AllIds(events)|)
    decreases |events|
  {
    hide Ids, Number, Consecutive, AllAuto;
    if events == [] {
      assert Consecutive(k, 0) == [];
    } else {
      var a, b := Ids(events[0]), AllIds(events[1..]);
      AllAutoSplit(a, b);
      NumberedEvent(events[0], k);
      AskedInOrder(events[1..], k + |a|);
      assert NumberAll(events, k)[1..] == NumberAll(events[1..], k + |a|);
      ConsecutiveSplit(k, |a|, |b|);
    }
  }

  // What events without automatic ids print.

  /** The argument itself: by its index, or by the index of the first argument with the name. */
  function Argument(env: Env, id: ArgId): Option<Arg> {
    match id {
      case Auto => None
      case Index(i) => if i < |env.args| && env.args[i].kind != NoArg then Some(env.args[i]) else None
      case Name(x) =>
        var i := GetId(env.names, x);
        if i.Some? && i.value < |env.args| && env.args[i.value].kind != NoArg then Some(env.args[i.value]) else None
    }
  }

  /** The index that belongs to a name is the first one given with it. */
  lemma {:induction false} FirstOfName(names: seq<(string, nat)>, x: string)
    ensures GetId(names, x).None? <==> forall k :: 0 <= k < |names| ==> names[k].0 != x
    ensures GetId(names, x).Some? ==>
              exists k :: 0 <= k < |names| && names[k] == (x, GetId(names, x).value)
                          && forall j :: 0 <= j < k ==> names[j].0 != x
  {
    if names != [] && names[0].0 != x {
      FirstOfName(names[1..], x);
      assert forall k :: 0 < k < |names| ==> names[k] == names[1..][k - 1];
      if GetId(names, x).Some? {
        var k :| 0 <= k < |names[1..]| && names[1..][k] == (x, GetId(names, x).value)
                 && forall j :: 0 <= j < k ==> names[1..][j].0 != x;
        assert names[k + 1] == (x, GetId(names, x).value);
      }
    }
  }

  /** A width or precision: its number, or the low 64 bits of an integer argument, up to INT_MAX. */
  function CountValue(env: Env, c: Count): Option<Option<nat>> {
    match c {
      case Absent => Some(None)
      case Given(n) => Some(Some(n))
      case Dynamic(id) =>
        var arg := Argument(env, id);
        if arg.None? || arg.value.kind !in {Int, UInt, LongLong, ULongLong, Int128, UInt128} || arg.value.value < 0
        then None
        else
          var low := arg.value.value % 0x1_0000_0000_0000_0000;
          if low > INT_MAX then None else Some(Some(low))
    }
  }

  /** What a specification may ask of an argument of this type. */
  predicate Suits(x: Specs, kind: ArgType) {
    && (x.sign != NoSign ==> kind in {Int, LongLong, Char, Float, Double, LongDouble})
    && (x.alt || x.zero ==> kind !in {NoArg, CString, String, Address})
    && (!x.precision.Absent? ==> kind in {Float, Double, LongDouble, CString, String})
  }

  /** The fill character that is printed: a blank unless one is written, '0' in its place for numeric padding. */
  function Fill(x: Specs): string {
    var fill := if x.fill == "" then " " else x.fill;
    if x.zero then "0" + fill[1..] else fill
  }

  function PrintEvent(env: Env, e: Event): Option<string> {
    match e {
      case Text(t) => Some(t)
      case Field(id) =>
        var arg := Argument(env, id);
        if arg.None? then None else env.render(arg.value, None)
      case SpecField(id, x) =>
        var arg, w, p := Argument(env, id), CountValue(env, x.width), CountValue(env, x.precision);
        if arg.None? || w.None? || p.None? || |x.fill| > 4 || !Suits(x, arg.value.kind) then None
        else
          env.render(arg.value, Some(FormatSpecs(
            if w.value.Some? then w.value.value else 0, if p.value.Some? then p.value.value else -1, x.kind,
            if x.zero then Numeric else Aligned(x.align), x.sign, x.alt, Fill(x))))
    }
  }

  /** All texts and fields in order, or nothing when one fails. */
  function PrintAll(env: Env, events: seq<Event>): Option<string> {
    if events == [] then Some("")
    else
      var first, rest := PrintEvent(env, events[0]), PrintAll(env, events[1..]);
      if first.None? || rest.None? then None else Some(first.value + rest.value)
  }

  /** Automatic ids and indices in one format string. */
  predicate Mixes(ids: seq<ArgId>) {
    Autos(ids) > 0 && HasIndex(ids)
  }

  // The interpreter's numbering state n.

  /** The ids cannot follow in this state. */
  predicate Clash(n: int, ids: seq<ArgId>) {
    (n > 0 && HasIndex(ids)) || (n < 0 && Autos(ids) > 0) || Mixes(ids)
  }

  function After(n: int, ids: seq<ArgId>): int {
    if n < 0 || HasIndex(ids) then -1 else n + Autos(ids)
  }

  function From(n: int): nat {
    if n < 0 then 0 else n
  }

  lemma ClashConcat(n: int, a: seq<ArgId>, b: seq<ArgId>)
    requires n >= -1
    ensures Clash(n, a + b) <==> Clash(n, a) || Clash(After(n, a), b)
    ensures After(n, a + b) == After(After(n, a), b)
  {
    AutosConcat(a, b);
    IndexConcat(a, b);
  }

  lemma IndexConcat(a: seq<ArgId>, b: seq<ArgId>)
    ensures HasIndex(a + b) <==> HasIndex(a) || HasIndex(b)
  {
    if HasIndex(a) { var k :| 0 <= k < |a| && a[k].Index?; assert (a + b)[k].Index?; }
    if HasIndex(b) { var k :| 0 <= k < |b| && b[k].Index?; assert (a + b)[|a| + k].Index?; }
  }

  lemma NoIds(n: int)
    requires n >= -1
    ensures !Clash(n, []) && After(n, []) == n
  {
  }

  lemma OneId(n: int, id: ArgId)
    requires n >= -1
    ensures Clash(n, [id]) <==> (n > 0 && id.Index?) || (n < 0 && id.Auto?)
    ensures After(n, [id]) == if n < 0 || id.Index? then -1 else n + if id.Auto? then 1 else 0
  {
    AutosOne(id);
    assert HasIndex([id]) <==> id.Index? by { if id.Index? { assert [id][0].Index?; } }
  }

  /** Resolving an id and looking it up finds the argument that the numbered id stands for. */
  lemma ResolveFinds(env: Env, id: ArgId, n: int, k: nat)
    requires n >= -1 && (n >= 0 ==> k == n)
    ensures Resolve(id, n).None? <==> Clash(n, [id])
    ensures Resolve(id, n).Some? ==>
              && Resolve(id, n).value.1 == After(n, [id])
              && Lookup(env, Resolve(id, n).value.0) == Argument(env, NumberId(id, k))
  {
    OneId(n, id);
  }

  lemma CountFinds(env: Env, c: Count, n: int, k: nat)
    requires n >= -1 && (n >= 0 ==> k == n)
    ensures InterpretCount(env, c, n) ==
            var v := CountValue(env, NumberCount(c, k));
            if Clash(n, CountIds(c)) || v.None? then None else Some((v.value, After(n, CountIds(c))))
  {
    hide Clash, After, Resolve, Lookup, Argument;
    NoIds(n);
    if c.Dynamic? { ResolveFinds(env, c.id, n, k); }
  }

  lemma SpecsMean(x: Specs, kind: ArgType, w: Option<nat>, p: Option<nat>)
    requires kind != NoArg
    ensures SetFlags(x).Some? <==> |x.fill| <= 4
    ensures SetFlags(x).Some? ==>
              WithCounts(SetFlags(x).value, w, p)
              == FormatSpecs(if w.Some? then w.value else 0, if p.Some? then p.value else -1, x.kind,
                             if x.zero then Numeric else Aligned(x.align), x.sign, x.alt, Fill(x))
    ensures FlagsAllowed(kind, x) && (!x.precision.Absent? ==> AllowsPrecision(kind)) <==> Suits(x, kind)
  {
    if x.zero && |x.fill| <= 4 {
      var fill := if x.fill == "" then " " else x.fill;
      assert fill[0 := '0'] == "0" + fill[1..];
    }
  }

  /** The specification of a field, checked and resolved, is the one that the numbered field prints with. */
  lemma SpecsFind(env: Env, kind: ArgType, x: Specs, n: int, w: nat, p: nat)
    requires kind != NoArg && n >= -1 && (n >= 0 ==> w == n && p == w + Autos(CountIds(x.width)))
    ensures var ids := CountIds(x.width) + CountIds(x.precision);
            var width := CountValue(env, NumberCount(x.width, w));
            var precision := CountValue(env, NumberCount(x.precision, p));
            InterpretSpecs(env, kind, x, n) ==
            if Clash(n, ids) || width.None? || precision.None? || |x.fill| > 4 || !Suits(x, kind) then None
            else Some((FormatSpecs(
              if width.value.Some? then width.value.value else 0,
              if precision.value.Some? then precision.value.value else -1, x.kind,
              if x.zero then Numeric else Aligned(x.align), x.sign, x.alt, Fill(x)), After(n, ids)))
  {
    hide Clash, After, InterpretCount, SetFlags, FlagsAllowed, AllowsPrecision, Suits, CountValue, WithCounts, Fill;
    var a, b := CountIds(x.width), CountIds(x.precision);
    ClashConcat(n, a, b);
    CountFinds(env, x.width, n, w);
    AfterRange(n, a);
    if !Clash(n, a) {
      NumberLater(x.precision, n, a, p);
      CountFinds(env, x.precision, After(n, a), if After(n, a) < 0 then p else After(n, a));
    }
    var width, precision := CountValue(env, NumberCount(x.width, w)), CountValue(env, NumberCount(x.precision, p));
    SpecsMean(x, kind, if width.Some? then width.value else None, if precision.Some? then precision.value else None);
  }

  lemma AfterRange(n: int, ids: seq<ArgId>)
    requires n >= -1
    ensures After(n, ids) >= -1
    ensures After(n, ids) >= 0 ==> n >= 0 && After(n, ids) == n + Autos(ids)
  {
  }

  lemma NumberLater(c: Count, n: int, ids: seq<ArgId>, p: nat)
    requires n >= -1 && (n >= 0 ==> p == n + Autos(ids))
    ensures After(n, ids) >= 0 ==> After(n, ids) == p
  {
  }

  /** One event, interpreted in state n, prints what the numbered event prints. */
  lemma EventMeans(env: Env, st: State, e: Event)
    requires st.next >= -1
    ensures InterpretEvent(env, st, e) ==
            var text := PrintEvent(env, Number(e, From(st.next)));
            if Clash(st.next, Ids(e)) || text.None? then None
            else Some(State(st.out + text.value, After(st.next, Ids(e))))
  {
    hide Clash, After, Resolve, Lookup, InterpretSpecs, CountValue, Argument, Suits, Fill;
    var n, k := st.next, From(st.next);
    match e {
      case Text(t) => NoIds(n);
      case Field(id) => ResolveFinds(env, id, n, k);
      case SpecField(id, x) =>
        ResolveFinds(env, id, n, k);
        ClashConcat(n, [id], CountIds(x.width) + CountIds(x.precision));
        assert Ids(e) == [id] + (CountIds(x.width) + CountIds(x.precision));
        var w := k + Autos([id]);
        AfterRange(n, [id]);
        var arg := Argument(env, NumberId(id, k));
        if arg.Some? {
          ArgumentThere(env, NumberId(id, k));
          SameFlags(x, NumberCount(x.width, w), NumberCount(x.precision, w + Autos(CountIds(x.width))), arg.value.kind);
          SpecsFind(env, arg.value.kind, x, After(n, [id]), w, w + Autos(CountIds(x.width)));
        }
    }
  }

  lemma SameFlags(x: Specs, width: Count, precision: Count, kind: ArgType)
    requires precision.Absent? <==> x.precision.Absent?
    ensures var y := x.(width := width, precision := precision);
            Fill(y) == Fill(x) && (Suits(y, kind) <==> Suits(x, kind))
  {
  }

  lemma ArgumentThere(env: Env, id: ArgId)
    requires Argument(env, id).Some?
    ensures Argument(env, id).value.kind != NoArg
  {
  }

  /** All events, interpreted from a state on. */
  lemma {:induction false} EventsMean(env: Env, st: State, events: seq<Event>)
    requires st.next >= -1
    ensures var text := PrintAll(env, NumberAll(events, From(st.next)));
            InterpretEvents(env, Some(st), events) ==
            if Clash(st.next, AllIds(events)) || text.None? then None
            else Some(State(st.out + text.value, After(st.next, AllIds(events))))
    decreases |events|
  {
    hide Clash, After, InterpretEvent, PrintEvent, Ids, Number;
    if events == [] {
      NoIds(st.next);
      assert st.out + "" == st.out;
    } else {
      var e, k := events[0], From(st.next);
      var ids := Ids(e);
      EventMeans(env, st, e);
      ClashConcat(st.next, ids, AllIds(events[1..]));
      AfterRange(st.next, ids);
      var next := InterpretEvent(env, st, e);
      assert NumberAll(events, k)[1..] == NumberAll(events[1..], k + Autos(ids));
      var first, rest := PrintEvent(env, Number(e, k)), PrintAll(env, NumberAll(events[1..], k + Autos(ids)));
      assert PrintAll(env, NumberAll(events, k))
          == if first.None? || rest.None? then None else Some(first.value + rest.value);
      if next.Some? {
        if rest.Some? { Associative(st.out, first.value, rest.value); }
        EventsMean(env, next.value, events[1..]);
        SameNumbers(events[1..], After(st.next, ids), k + Autos(ids));
      }
    }
  }

  /** Without automatic ids it does not matter where numbering begins. */
  lemma {:induction false} NothingToNumber(events: seq<Event>, i: nat, j: nat)
    requires Autos(AllIds(events)) == 0
    ensures NumberAll(events, i) == NumberAll(events, j)
    decreases |events|
  {
    hide Ids, Number;
    if events != [] {
      AutosConcat(Ids(events[0]), AllIds(events[1..]));
      NothingToNumber(events[1..], i, j);
      NothingInEvent(events[0], i, j);
    }
  }

  lemma NothingInEvent(e: Event, i: nat, j: nat)
    requires Autos(Ids(e)) == 0
    ensures Number(e, i) == Number(e, j)
  {
    AutosOfEvent(e);
    if !e.Text? { AutosOne(e.id); }
    if e.SpecField? {
      if e.specs.width.Dynamic? { AutosOne(e.specs.width.id); }
      if e.specs.precision.Dynamic? { AutosOne(e.specs.precision.id); }
    }
  }

  lemma SameNumbers(events: seq<Event>, n: int, k: nat)
    requires n >= -1 && (n >= 0 ==> n == k)
    ensures !Clash(n, AllIds(events)) ==> NumberAll(events, From(n)) == NumberAll(events, k)
  {
    if n < 0 && !Clash(n, AllIds(events)) { NothingToNumber(events, 0, k); }
  }

  /**
   * A format string prints its texts and, for each field, the argument that its
   * numbered id stands for, in order; it is refused when it mixes automatic
   * ids and indices, in whatever order.
   */
  lemma InterpretMeans(env: Env, s: string)
    ensures var t := TraceFrom(s, 0);
            Interpret(env, s)
            == if !t.ok || Mixes(AllIds(t.events)) then None else PrintAll(env, NumberAll(t.events, 0))
  {
    hide TraceFrom, InterpretEvents, PrintAll, NumberAll;
    var events := TraceFrom(s, 0).events;
    EventsMean(env, State("", 0), events);
    var text := PrintAll(env, NumberAll(events, 0));
    assert text.Some? ==> "" + text.value == text.value;
  }
}
