/**
 * The queue between mining threads and the network: every interleaving of
 * submissions, the event loop's callback and the background work on GPU results.
 */
module JobQueue {
  import opened GpuResults
  import opened Sequences

  /** Where the event loop is: idle, in the callback before it takes the lists, or passing on what it took. */
  datatype Phase = Waiting | Called | Delivering(results: seq<JobResult>, bundles: seq<Bundle>)

  /** A bundle that was checked, and whether its dataset was there. */
  datatype Checked = Checked(bundle: Bundle, dataset: bool)

  /** Bundles handed to a worker thread, before and after its work. */
  datatype Baton = Queued(bundles: seq<Bundle>) | Worked(done: seq<Checked>, results: seq<JobResult>, errors: nat)

  /**
   * The two lists under the mutex, the wake-up flag, the loop, the work handed out, and what the
   * listener received: direct results, results of GPU nonces, and the bundles these were for.
   */
  datatype State = State(results: seq<JobResult>, bundles: seq<Bundle>, pending: bool, phase: Phase, batons: seq<Baton>,
                         direct: seq<JobResult>, gpu: seq<JobResult>, finished: seq<Checked>)

  const INITIAL := State([], [], false, Waiting, [], [], [], [])

  datatype Event =
    | Submit(result: JobResult)
    | SubmitBundle(bundle: Bundle)
    | Wake
    | Swap
    | Deliver
    | EndDelivery
    | Work(i: nat, datasets: seq<bool>)
    | Finish(i: nat)

  // What a worker computes.

  function Zip(bundles: seq<Bundle>, datasets: seq<bool>): (r: seq<Checked>)
    requires |bundles| == |datasets|
    ensures |r| == |bundles|
  {
    seq(|bundles|, k requires 0 <= k < |bundles| => Checked(bundles[k], datasets[k]))
  }

  function AllResults(h: Hasher, done: seq<Checked>): seq<JobResult> {
    if done == [] then []
    else
      var c := done[|done| - 1];
      AllResults(h, done[..|done| - 1]) + ResultsFor(h, c.bundle.job, Answered(h, c.bundle, c.dataset))
  }

  function AllErrors(h: Hasher, done: seq<Checked>): nat {
    if done == [] then 0
    else
      var c := done[|done| - 1];
      AllErrors(h, done[..|done| - 1]) + |Failed(h, c.bundle, c.dataset)|
  }

  function AllNonces(done: seq<Checked>): nat {
    if done == [] then 0 else AllNonces(done[..|done| - 1]) + |done[|done| - 1].bundle.nonces|
  }

  // The steps. An event that cannot happen in a state leaves it as it is.

  function Step(h: Hasher, st: State, e: Event): State {
    match e {
      case Submit(r) => st.(results := st.results + [r], pending := true)
      case SubmitBundle(b) => st.(bundles := st.bundles + [b], pending := true)
      case Wake => if st.pending && st.phase.Waiting? then st.(pending := false, phase := Called) else st
      case Swap =>
        if st.phase.Called? then st.(results := [], bundles := [], phase := Delivering(st.results, st.bundles)) else st
      case Deliver =>
        if st.phase.Delivering? && st.phase.results != [] then
          st.(direct := st.direct + [st.phase.results[0]], phase := Delivering(st.phase.results[1..], st.phase.bundles))
        else st
      case EndDelivery =>
        if st.phase.Delivering? && st.phase.results == [] then
          st.(phase := Waiting, batons := st.batons + if st.phase.bundles == [] then [] else [Queued(st.phase.bundles)])
        else st
      case Work(i, datasets) =>
        if i < |st.batons| && st.batons[i].Queued? && |datasets| == |st.batons[i].bundles| then
          st.(batons := st.batons[i := WorkedOn(h, Zip(st.batons[i].bundles, datasets))])
        else st
      case Finish(i) =>
        if st.phase.Waiting? && i < |st.batons| && st.batons[i].Worked? then
          st.(gpu := st.gpu + st.batons[i].results, finished := st.finished + st.batons[i].done,
              batons := st.batons[..i] + st.batons[i + 1..])
        else st
    }
  }

  function WorkedOn(h: Hasher, done: seq<Checked>): Baton {
    Worked(done, AllResults(h, done), AllErrors(h, done))
  }

  function Run(h: Hasher, st: State, events: seq<Event>): State {
    if events == [] then st else Step(h, Run(h, st, events[..|events| - 1]), events[|events| - 1])
  }

  /** What the events submit. */
  function Submitted(events: seq<Event>): seq<JobResult> {
    if events == [] then []
    else
      var e := events[|events| - 1];
      Submitted(events[..|events| - 1]) + if e.Submit? then [e.result] else []
  }

  function SubmittedBundles(events: seq<Event>): seq<Bundle> {
    if events == [] then []
    else
      var e := events[|events| - 1];
      SubmittedBundles(events[..|events| - 1]) + if e.SubmitBundle? then [e.bundle] else []
  }

  // Invariants.

  function InFlight(p: Phase): seq<JobResult> {
    if p.Delivering? then p.results else []
  }

  function Taken(p: Phase): seq<Bundle> {
    if p.Delivering? then p.bundles else []
  }

  function BundlesOf(done: seq<Checked>): (r: seq<Bundle>)
    ensures |r| == |done|
  {
    seq(|done|, k requires 0 <= k < |done| => done[k].bundle)
  }

  function Holds(b: Baton): seq<Bundle> {
    if b.Queued? then b.bundles else BundlesOf(b.done)
  }

  function HeldBy(batons: seq<Baton>): seq<Bundle> {
    if batons == [] then [] else Holds(batons[0]) + HeldBy(batons[1..])
  }

  /** Direct results are neither lost nor reordered. */
  predicate DirectConserved(st: State, submitted: seq<JobResult>) {
    st.direct + InFlight(st.phase) + st.results == submitted
  }

  /** A bundle is in exactly one place. */
  predicate BundlesConserved(st: State, submitted: seq<Bundle>) {
    Everywhere(st) == multiset(submitted)
  }

  /** The bundles wherever they are: in the list, in the loop, with workers, or finished. */
  function Everywhere(st: State): multiset<Bundle> {
    multiset(st.bundles) + multiset(Taken(st.phase)) + multiset(HeldBy(st.batons)) + multiset(BundlesOf(st.finished))
  }

  /** What is done was done right. */
  predicate WorkIsRight(h: Hasher, st: State) {
    && (forall k :: 0 <= k < |st.batons| && st.batons[k].Worked? ==> st.batons[k] == WorkedOn(h, st.batons[k].done))
    && st.gpu == AllResults(h, st.finished)
  }

  /** Whoever waits in a list will be taken: the loop was woken and has not yet taken the lists. */
  predicate NoLostWakeUp(st: State) {
    st.results != [] || st.bundles != [] ==> st.pending || st.phase.Called?
  }

  lemma StepKeepsDirect(h: Hasher, st: State, e: Event, submitted: seq<JobResult>)
    requires DirectConserved(st, submitted)
    ensures DirectConserved(Step(h, st, e), submitted + if e.Submit? then [e.result] else [])
  {
    hide WorkedOn;
    if e.Deliver? && InFlight(st.phase) != [] {
      var r := InFlight(st.phase);
      assert r == [r[0]] + r[1..];
    }
  }

  lemma StepKeepsWakeUp(h: Hasher, st: State, e: Event)
    requires NoLostWakeUp(st)
    ensures NoLostWakeUp(Step(h, st, e))
  {
    hide WorkedOn;
  }

  lemma {:induction false} HeldConcat(a: seq<Baton>, b: seq<Baton>)
    ensures HeldBy(a + b) == HeldBy(a) + HeldBy(b)
    decreases |a|
  {
    hide Holds;
    if a == [] {
      assert a + b == b;
    } else {
      assert (a + b)[1..] == a[1..] + b && (a + b)[0] == a[0];
      HeldConcat(a[1..], b);
      Associative(Holds(a[0]), HeldBy(a[1..]), HeldBy(b));
    }
  }

  lemma HeldOne(b: Baton)
    ensures HeldBy([b]) == Holds(b)
  {
    hide Holds;
    assert [b][1..] == [];
    assert Holds(b) + [] == Holds(b);
  }

  lemma SplitThree(batons: seq<Baton>, i: nat)
    requires i < |batons|
    ensures batons == batons[..i] + [batons[i]] + batons[i + 1..]
  {
  }

  lemma HeldThree(a: seq<Baton>, x: Baton, b: seq<Baton>)
    ensures HeldBy(a + [x] + b) == HeldBy(a) + Holds(x) + HeldBy(b)
  {
    hide Holds, HeldBy;
    HeldConcat(a + [x], b);
    HeldConcat(a, [x]);
    HeldOne(x);
  }

  /** The baton at i and the others. */
  lemma HeldSplit(batons: seq<Baton>, i: nat)
    requires i < |batons|
    ensures HeldBy(batons) == HeldBy(batons[..i]) + Holds(batons[i]) + HeldBy(batons[i + 1..])
  {
    hide Holds, HeldBy;
    HeldThree(batons[..i], batons[i], batons[i + 1..]);
    SplitThree(batons, i);
  }

  lemma BundlesOfZip(bundles: seq<Bundle>, datasets: seq<bool>)
    requires |bundles| == |datasets|
    ensures BundlesOf(Zip(bundles, datasets)) == bundles
  {
  }

  lemma StepKeepsBundles(h: Hasher, st: State, e: Event, submitted: seq<Bundle>)
    requires BundlesConserved(st, submitted)
    ensures BundlesConserved(Step(h, st, e), submitted + if e.SubmitBundle? then [e.bundle] else [])
  {
    hide Everywhere, Step;
    StepMoves(h, st, e);
    assert submitted + [] == submitted;
  }

  /** An event moves bundles from one place to another; only a submission adds one. */
  lemma StepMoves(h: Hasher, st: State, e: Event)
    ensures Everywhere(Step(h, st, e)) == Everywhere(st) + if e.SubmitBundle? then multiset{e.bundle} else multiset{}
  {
    hide WorkedOn, HeldBy, BundlesOf;
    match e {
      case SubmitBundle(b) => SubmitMoves(st, b);
      case Swap => SwapMoves(st);
      case EndDelivery => EndMoves(st);
      case Work(i, datasets) => WorkMoves(h, st, i, datasets);
      case Finish(i) => FinishMoves(h, st, i);
      case _ =>
    }
  }

  lemma SubmitMoves(st: State, b: Bundle)
    ensures Everywhere(st.(bundles := st.bundles + [b], pending := true)) == Everywhere(st) + multiset{b}
  {
    hide HeldBy, BundlesOf;
    assert multiset(st.bundles + [b]) == multiset(st.bundles) + multiset{b};
  }

  lemma SwapMoves(st: State)
    ensures st.phase.Called? ==>
              Everywhere(st.(results := [], bundles := [], phase := Delivering(st.results, st.bundles)))
              == Everywhere(st)
  {
    hide HeldBy, BundlesOf;
  }

  lemma EndMoves(st: State)
    ensures st.phase.Delivering? ==>
              Everywhere(st.(phase := Waiting,
                             batons := st.batons + if st.phase.bundles == [] then [] else [Queued(st.phase.bundles)]))
              == Everywhere(st)
  {
    hide HeldBy, BundlesOf;
    if st.phase.Delivering? {
      if st.phase.bundles == [] {
        assert st.batons + [] == st.batons;
      } else {
        HeldConcat(st.batons, [Queued(st.phase.bundles)]);
        HeldOne(Queued(st.phase.bundles));
        assert multiset(HeldBy(st.batons) + st.phase.bundles)
            == multiset(HeldBy(st.batons)) + multiset(st.phase.bundles);
      }
    }
  }

  lemma WorkMoves(h: Hasher, st: State, i: nat, datasets: seq<bool>)
    ensures Everywhere(Step(h, st, Work(i, datasets))) == Everywhere(st)
  {
    hide HeldBy, BundlesOf;
    if i < |st.batons| && st.batons[i].Queued? && |datasets| == |st.batons[i].bundles| {
      var b := WorkedOn(h, Zip(st.batons[i].bundles, datasets));
      var t := st.batons[i := b];
      BundlesOfZip(st.batons[i].bundles, datasets);
      HeldSplit(st.batons, i);
      HeldSplit(t, i);
      assert t[..i] == st.batons[..i] && t[i + 1..] == st.batons[i + 1..];
    }
  }

  lemma FinishMoves(h: Hasher, st: State, i: nat)
    ensures Everywhere(Step(h, st, Finish(i))) == Everywhere(st)
  {
    hide HeldBy, BundlesOf, Everywhere;
    if st.phase.Waiting? && i < |st.batons| && st.batons[i].Worked? {
      var a, b, done := st.batons[..i], st.batons[i + 1..], st.batons[i].done;
      HeldSplit(st.batons, i);
      HeldConcat(a, b);
      BundlesOfConcat(st.finished, done);
      MoveOut(st, Step(h, st, Finish(i)), HeldBy(a), BundlesOf(done), HeldBy(b));
    }
  }

  lemma MoveOut(st: State, t: State, a: seq<Bundle>, x: seq<Bundle>, b: seq<Bundle>)
    requires t.bundles == st.bundles && t.phase == st.phase
    requires HeldBy(st.batons) == a + x + b && HeldBy(t.batons) == a + b
    requires BundlesOf(t.finished) == BundlesOf(st.finished) + x
    ensures Everywhere(t) == Everywhere(st)
  {
    hide HeldBy, BundlesOf;
    assert multiset(a + x + b) == multiset(a) + multiset(x) + multiset(b);
    assert multiset(a + b) == multiset(a) + multiset(b);
  }

  lemma BundlesOfConcat(a: seq<Checked>, b: seq<Checked>)
    ensures BundlesOf(a + b) == BundlesOf(a) + BundlesOf(b)
  {
  }

  lemma {:induction false} ResultsConcat(h: Hasher, a: seq<Checked>, b: seq<Checked>)
    ensures AllResults(h, a + b) == AllResults(h, a) + AllResults(h, b)
    decreases |b|
  {
    hide Answered, ResultsFor;
    if b == [] {
      assert a + b == a;
    } else {
      var k := |b| - 1;
      assert (a + b)[..|a| + k] == a + b[..k] && (a + b)[|a| + k] == b[k];
      ResultsConcat(h, a, b[..k]);
      Associative(AllResults(h, a), AllResults(h, b[..k]),
                ResultsFor(h, b[k].bundle.job, Answered(h, b[k].bundle, b[k].dataset)));
    }
  }

  lemma StepKeepsWork(h: Hasher, st: State, e: Event)
    requires WorkIsRight(h, st)
    ensures WorkIsRight(h, Step(h, st, e))
  {
    hide WorkedOn, AllResults;
    match e {
      case Work(i, datasets) => WorkKeepsWork(h, st, i, datasets);
      case Finish(i) => FinishKeepsWork(h, st, i);
      case _ =>
    }
  }

  lemma WorkKeepsWork(h: Hasher, st: State, i: nat, datasets: seq<bool>)
    requires WorkIsRight(h, st)
    ensures WorkIsRight(h, Step(h, st, Work(i, datasets)))
  {
    hide AllResults, AllErrors;
    if i < |st.batons| && st.batons[i].Queued? && |datasets| == |st.batons[i].bundles| {
      var t := Step(h, st, Work(i, datasets));
      assert forall k :: 0 <= k < |st.batons| && k != i ==> t.batons[k] == st.batons[k];
    }
  }

  lemma FinishKeepsWork(h: Hasher, st: State, i: nat)
    requires WorkIsRight(h, st)
    ensures WorkIsRight(h, Step(h, st, Finish(i)))
  {
    hide WorkedOn, AllResults;
    if st.phase.Waiting? && i < |st.batons| && st.batons[i].Worked? {
      WorkedIs(h, st.batons[i].done);
      ResultsConcat(h, st.finished, st.batons[i].done);
    }
  }

  lemma WorkedIs(h: Hasher, done: seq<Checked>)
    ensures WorkedOn(h, done) == Worked(done, AllResults(h, done), AllErrors(h, done))
  {
  }

  /** For every run of the program. */
  lemma {:induction false} RunConserves(h: Hasher, events: seq<Event>)
    ensures DirectConserved(Run(h, INITIAL, events), Submitted(events))
    ensures BundlesConserved(Run(h, INITIAL, events), SubmittedBundles(events))
    ensures WorkIsRight(h, Run(h, INITIAL, events)) && NoLostWakeUp(Run(h, INITIAL, events))
  {
    hide Step, DirectConserved, BundlesConserved, WorkIsRight, NoLostWakeUp;
    if events == [] {
      InitialHolds(h);
    } else {
      var before, e := events[..|events| - 1], events[|events| - 1];
      RunConserves(h, before);
      var st := Run(h, INITIAL, before);
      StepKeepsDirect(h, st, e, Submitted(before));
      StepKeepsBundles(h, st, e, SubmittedBundles(before));
      StepKeepsWork(h, st, e);
      StepKeepsWakeUp(h, st, e);
    }
  }

  lemma InitialHolds(h: Hasher)
    ensures DirectConserved(INITIAL, []) && BundlesConserved(INITIAL, [])
    ensures WorkIsRight(h, INITIAL) && NoLostWakeUp(INITIAL)
  {
  }

  /** Nothing is left to do: the loop waits without a wake-up and all batons are finished. */
  predicate Quiet(st: State) {
    !st.pending && st.phase.Waiting? && st.batons == []
  }

  lemma {:induction false} ResultsPlusErrors(h: Hasher, done: seq<Checked>)
    ensures |AllResults(h, done)| + AllErrors(h, done) == AllNonces(done)
  {
    hide Answered, Failed, ResultsFor;
    if done != [] {
      var c := done[|done| - 1];
      ResultsPlusErrors(h, done[..|done| - 1]);
      EveryNonceOnce(h, c.bundle, c.dataset);
    }
  }

  /** All nonces of the bundles, as they would be reported, and those that failed. */
  function AllReports(h: Hasher, done: seq<Checked>): multiset<(Job, nat)> {
    if done == [] then multiset{}
    else
      var c := done[|done| - 1];
      AllReports(h, done[..|done| - 1]) + multiset(Reports(h, c.bundle.job, c.bundle.nonces))
  }

  function AllFailures(h: Hasher, done: seq<Checked>): multiset<(Job, nat)> {
    if done == [] then multiset{}
    else
      var c := done[|done| - 1];
      AllFailures(h, done[..|done| - 1]) + multiset(Reports(h, c.bundle.job, Failed(h, c.bundle, c.dataset)))
  }

  lemma {:induction false} ReportsConserved(h: Hasher, done: seq<Checked>)
    ensures multiset(ReportsOf(AllResults(h, done))) + AllFailures(h, done) == AllReports(h, done)
  {
    hide Answered, Failed, ResultsFor, Reports;
    if done != [] {
      var c := done[|done| - 1];
      ReportsConserved(h, done[..|done| - 1]);
      BundleReports(h, c.bundle, c.dataset);
      ReportsOfConcat(AllResults(h, done[..|done| - 1]),
                      ResultsFor(h, c.bundle.job, Answered(h, c.bundle, c.dataset)));
    } else {
      assert ReportsOf([]) == [];
    }
  }

  lemma ReportsOfConcat(a: seq<JobResult>, b: seq<JobResult>)
    ensures multiset(ReportsOf(a + b)) == multiset(ReportsOf(a)) + multiset(ReportsOf(b))
  {
    assert ReportsOf(a + b) == ReportsOf(a) + ReportsOf(b);
  }

  /** A checked bundle and a nonce of it that the result answers. */
  predicate AnsweredBy(h: Hasher, c: Checked, n: nat, r: JobResult) {
    n in c.bundle.nonces && !NotChecked(c.bundle.job, c.dataset) && Answers(h, c.bundle.job, n, r)
  }

  lemma {:induction false} ResultsAreAnswers(h: Hasher, done: seq<Checked>, r: JobResult)
    requires r in AllResults(h, done)
    ensures exists c, n :: c in done && AnsweredBy(h, c, n, r)
  {
    hide Answers, ResultsFor, NotChecked, Answered;
    var c := done[|done| - 1];
    var front := done[..|done| - 1];
    var ns := Answered(h, c.bundle, c.dataset);
    var rs := ResultsFor(h, c.bundle.job, ns);
    if r in rs {
      ResultsAnswer(h, c.bundle, c.dataset);
      var k :| 0 <= k < |rs| && rs[k] == r;
      AnsweredIsReported(h, c.bundle, c.dataset, ns[k]);
      assert c in done && AnsweredBy(h, c, ns[k], r);
    } else {
      ResultsAreAnswers(h, front, r);
      var c', n :| c' in front && AnsweredBy(h, c', n, r);
      assert c' in done && AnsweredBy(h, c', n, r);
    }
  }

  /**
   * Once nothing is left to do, everything submitted was delivered: results
   * in order, bundles each once, and of the bundles' nonces each either as a
   * result that answers it or as a failure.
   */
  lemma QuietMeansDelivered(h: Hasher, events: seq<Event>)
    requires Quiet(Run(h, INITIAL, events))
    ensures var st := Run(h, INITIAL, events);
            && st.direct == Submitted(events)
            && multiset(BundlesOf(st.finished)) == multiset(SubmittedBundles(events))
            && st.gpu == AllResults(h, st.finished)
            && |st.gpu| + AllErrors(h, st.finished) == AllNonces(st.finished)
            && multiset(ReportsOf(st.gpu)) + AllFailures(h, st.finished) == AllReports(h, st.finished)
            && forall r :: r in st.gpu ==> exists c, n :: c in st.finished && AnsweredBy(h, c, n, r)
  {
    hide Run, Submitted, SubmittedBundles, AllResults, AllErrors, AllNonces, BundlesOf, AllReports, AllFailures;
    hide ReportsOf, AnsweredBy;
    RunConserves(h, events);
    var st := Run(h, INITIAL, events);
    assert st.direct + [] + [] == st.direct;
    assert Everywhere(st) == multiset(BundlesOf(st.finished));
    ResultsPlusErrors(h, st.finished);
    ReportsConserved(h, st.finished);
    forall r | r in st.gpu ensures exists c, n :: c in st.finished && AnsweredBy(h, c, n, r) {
      ResultsAreAnswers(h, st.finished, r);
    }
  }

  // Without further submissions the queue becomes quiet, whatever happens in which order.

  predicate Internal(e: Event) {
    !e.Submit? && !e.SubmitBundle?
  }

  function Load(batons: seq<Baton>): nat {
    if batons == [] then 0 else (if batons[0].Queued? then 2 else 1) + Load(batons[1..])
  }

  /** A bound on the events that can still change something. */
  function Outstanding(st: State): nat {
    var phase := match st.phase { case Waiting => 0 case Called => 5 case Delivering(results, _) => 4 + |results| };
    (if st.pending then 6 else 0) + phase + |st.results| + Load(st.batons)
  }

  lemma {:induction false} LoadConcat(a: seq<Baton>, b: seq<Baton>)
    ensures Load(a + b) == Load(a) + Load(b)
    decreases |a|
  {
    if a == [] {
      assert a + b == b;
    } else {
      assert (a + b)[1..] == a[1..] + b && (a + b)[0] == a[0];
      LoadConcat(a[1..], b);
    }
  }

  lemma LoadOne(b: Baton)
    ensures Load([b]) == if b.Queued? then 2 else 1
  {
    assert [b][1..] == [];
  }

  lemma LoadSplit(batons: seq<Baton>, i: nat)
    requires i < |batons|
    ensures Load(batons) == Load(batons[..i]) + Load([batons[i]]) + Load(batons[i + 1..])
  {
    hide Load;
    SplitThree(batons, i);
    LoadConcat(batons[..i] + [batons[i]], batons[i + 1..]);
    LoadConcat(batons[..i], [batons[i]]);
  }

  /** Every event but a submission changes nothing or leaves less to do. */
  lemma StepWearsDown(h: Hasher, st: State, e: Event)
    requires Internal(e)
    ensures Step(h, st, e) == st || Outstanding(Step(h, st, e)) < Outstanding(st)
  {
    hide Load, WorkedOn;
    match e {
      case EndDelivery =>
        if InFlight(st.phase) == [] && st.phase.Delivering? {
          LoadConcat(st.batons, [Queued(st.phase.bundles)]);
          LoadOne(Queued(st.phase.bundles));
          assert st.batons + [] == st.batons;
        }
      case Work(i, datasets) => WorkWearsDown(h, st, i, datasets);
      case Finish(i) =>
        if i < |st.batons| {
          LoadSplit(st.batons, i);
          LoadOne(st.batons[i]);
          LoadConcat(st.batons[..i], st.batons[i + 1..]);
        }
      case _ =>
    }
  }

  lemma WorkWearsDown(h: Hasher, st: State, i: nat, datasets: seq<bool>)
    ensures var t := Step(h, st, Work(i, datasets)); t == st || Outstanding(t) < Outstanding(st)
  {
    hide Load, AllResults, AllErrors;
    if i < |st.batons| && st.batons[i].Queued? && |datasets| == |st.batons[i].bundles| {
      var b := WorkedOn(h, Zip(st.batons[i].bundles, datasets));
      var t := st.batons[i := b];
      LoadSplit(st.batons, i);
      LoadSplit(t, i);
      LoadOne(st.batons[i]);
      LoadOne(b);
      assert t[..i] == st.batons[..i] && t[i + 1..] == st.batons[i + 1..];
    }
  }

  /** An event other than a submission that can happen while something is left to do. */
  function Next(st: State): Event {
    match st.phase {
      case Called => Swap
      case Delivering(results, _) => if results == [] then EndDelivery else Deliver
      case Waiting =>
        if st.pending || st.batons == [] then Wake
        else match st.batons[0] {
          case Queued(bundles) => Work(0, seq(|bundles|, _ => true))
          case Worked(_, _, _) => Finish(0)
        }
    }
  }

  /** While something is left to do, something other than a submission can happen. */
  lemma CanGoOn(h: Hasher, st: State)
    requires !Quiet(st)
    ensures Internal(Next(st)) && Step(h, st, Next(st)) != st
  {
    hide AllResults, AllErrors;
    if st.phase.Waiting? && !st.pending {
      var t := Step(h, st, Next(st));
      assert if st.batons[0].Worked? then |t.batons| < |st.batons| else t.batons[0].Worked?;
    }
  }

  predicate AllInternal(events: seq<Event>) {
    forall e :: e in events ==> Internal(e)
  }

  /** Every event of the run changes something. */
  predicate Effective(h: Hasher, st: State, events: seq<Event>) {
    events == [] ||
    (var before := events[..|events| - 1];
     Effective(h, st, before) && Step(h, Run(h, st, before), events[|events| - 1]) != Run(h, st, before))
  }

  /** However the events are ordered, a run without submissions is short. */
  lemma {:induction false} RunsEnd(h: Hasher, st: State, events: seq<Event>)
    requires AllInternal(events) && Effective(h, st, events)
    ensures |events| + Outstanding(Run(h, st, events)) <= Outstanding(st)
  {
    hide Step, Outstanding, Internal;
    if events != [] {
      var before := events[..|events| - 1];
      RunsEnd(h, st, before);
      StepWearsDown(h, Run(h, st, before), events[|events| - 1]);
    }
  }

  lemma {:induction false} RunConcat(h: Hasher, st: State, a: seq<Event>, b: seq<Event>)
    ensures Run(h, st, a + b) == Run(h, Run(h, st, a), b)
    decreases |b|
  {
    hide Step;
    if b == [] {
      assert a + b == a;
    } else {
      assert (a + b)[..|a| + |b| - 1] == a + b[..|b| - 1];
      RunConcat(h, st, a, b[..|b| - 1]);
    }
  }

  /** What happens when nothing is submitted any more and each time the next event is taken. */
  function Continuation(h: Hasher, st: State): seq<Event>
    decreases Outstanding(st)
  {
    if Quiet(st) then []
    else
      CanGoOn(h, st);
      StepWearsDown(h, st, Next(st));
      [Next(st)] + Continuation(h, Step(h, st, Next(st)))
  }

  /** From every state on, and without a submission, the queue becomes quiet. */
  lemma {:induction false} BecomesQuiet(h: Hasher, st: State)
    ensures AllInternal(Continuation(h, st)) && Quiet(Run(h, st, Continuation(h, st)))
    decreases Outstanding(st)
  {
    hide Step, Outstanding, Internal, Quiet, Next;
    if !Quiet(st) {
      var e := Next(st);
      CanGoOn(h, st);
      StepWearsDown(h, st, e);
      var t := Step(h, st, e);
      BecomesQuiet(h, t);
      RunConcat(h, st, [e], Continuation(h, t));
      assert [e][..0] == [];
      assert Run(h, st, [e]) == Step(h, Run(h, st, []), e);
    }
  }

  lemma {:induction false} NothingSubmitted(events: seq<Event>, more: seq<Event>)
    requires AllInternal(more)
    ensures Submitted(events + more) == Submitted(events)
    ensures SubmittedBundles(events + more) == SubmittedBundles(events)
    decreases |more|
  {
    if more == [] {
      assert events + more == events;
    } else {
      var n := |more| - 1;
      assert (events + more)[..|events| + n] == events + more[..n] && more[n] in more;
      NothingSubmitted(events, more[..n]);
    }
  }

  /** After every run everything submitted can still be delivered, without another submission. */
  lemma EverythingCanBeDelivered(h: Hasher, events: seq<Event>)
    ensures var more := Continuation(h, Run(h, INITIAL, events));
            var st := Run(h, INITIAL, events + more);
            && AllInternal(more) && Quiet(st) && st.direct == Submitted(events)
            && multiset(BundlesOf(st.finished)) == multiset(SubmittedBundles(events))
  {
    hide Run, Submitted, SubmittedBundles, BundlesOf, AllInternal, Quiet, Continuation;
    var more := Continuation(h, Run(h, INITIAL, events));
    BecomesQuiet(h, Run(h, INITIAL, events));
    RunConcat(h, INITIAL, events, more);
    QuietMeansDelivered(h, events + more);
    NothingSubmitted(events, more);
  }
}
