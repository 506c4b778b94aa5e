/** The object that collects results from mining threads and passes them on to the network. */
module JobResults {
  import opened GpuResults
  import opened JobQueue

  /** The callback as a whole, when nothing is submitted while it runs. */
  function AfterCallback(st: State): State {
    st.(results := [], bundles := [], pending := false, phase := Waiting, direct := st.direct + st.results,
        batons := st.batons + if st.bundles == [] then [] else [Queued(st.bundles)])
  }

  function Repeat(e: Event, n: nat): (r: seq<Event>)
    ensures |r| == n
  {
    seq(n, _ => e)
  }

  function CallbackEvents(n: nat): seq<Event> {
    [Wake, Swap] + Repeat(Deliver, n) + [EndDelivery]
  }

  lemma {:induction false} RunDeliver(h: Hasher, st: State, n: nat)
    requires st.phase.Delivering? && n <= |st.phase.results|
    ensures Run(h, st, Repeat(Deliver, n)) ==
            st.(direct := st.direct + st.phase.results[..n],
                phase := Delivering(st.phase.results[n..], st.phase.bundles))
  {
    var r := st.phase.results;
    if n == 0 {
      assert r[..0] == [] && r[0..] == r && st.direct + [] == st.direct;
    } else {
      RunDeliver(h, st, n - 1);
      assert Repeat(Deliver, n)[..n - 1] == Repeat(Deliver, n - 1);
      assert r[n - 1..][0] == r[n - 1] && r[n - 1..][1..] == r[n..];
      assert r[..n] == r[..n - 1] + [r[n - 1]];
      assert st.direct + r[..n - 1] + [r[n - 1]] == st.direct + r[..n];
    }
  }

  lemma RunOne(h: Hasher, st: State, e: Event)
    ensures Run(h, st, [e]) == Step(h, st, e)
  {
    hide Step;
    assert [e][..0] == [];
  }

  /** The callback is the run of its steps. */
  lemma CallbackIsRun(h: Hasher, st: State)
    requires st.pending && st.phase.Waiting?
    ensures Run(h, st, CallbackEvents(|st.results|)) == AfterCallback(st)
  {
    hide Run;
    var n := |st.results|;
    var called := st.(pending := false, phase := Called);
    var taken := called.(results := [], bundles := [], phase := Delivering(st.results, st.bundles));
    RunOne(h, st, Wake);
    RunOne(h, called, Swap);
    assert [Wake, Swap] == [Wake] + [Swap];
    RunConcat(h, st, [Wake], [Swap]);
    RunConcat(h, st, [Wake, Swap], Repeat(Deliver, n));
    RunConcat(h, st, [Wake, Swap] + Repeat(Deliver, n), [EndDelivery]);
    RunDeliver(h, taken, n);
    assert st.results[..n] == st.results && st.results[n..] == [];
    RunOne(h, Run(h, taken, Repeat(Deliver, n)), EndDelivery);
  }

  class JobResultsPrivate {
    const h: Hasher
    var results: seq<JobResult>
    var bundles: seq<Bundle>
    /** A wake-up of the event loop is pending. */
    var pending: bool
    /** Work handed to the thread pool. */
    var batons: seq<Baton>
    /** What the listener was told. */
    var direct: seq<JobResult>
    var gpu: seq<JobResult>
    var finished: seq<Checked>

    constructor (h: Hasher)
      ensures this.h == h && View() == JobQueue.INITIAL
    {
      this.h := h;
      results, bundles, pending, batons := [], [], false, [];
      direct, gpu, finished := [], [], [];
    }

    ghost function View(): State
      reads this
    {
      State(results, bundles, pending, Waiting, batons, direct, gpu, finished)
    }

    method Submit(result: JobResult)
      modifies this
      ensures View() == Step(h, old(View()), Event.Submit(result))
    {
      results := results + [result];
      pending := true;
    }

    /** The first count nonces are copied. */
    method SubmitBundle(job: Job, nonces: array<nat>, count: nat, device: nat)
      requires count <= nonces.Length
      modifies this
      ensures View() == Step(h, old(View()), Event.SubmitBundle(Bundle(job, nonces[..count], device)))
    {
      bundles := bundles + [Bundle(job, nonces[..count], device)];
      pending := true;
    }

    /** Takes both lists, passes the results on one by one, and hands the bundles to a worker. */
    method OnAsync()
      requires pending
      modifies this
      ensures View() == Run(h, old(View()), CallbackEvents(|old(results)|))
    {
      hide Run;
      CallbackIsRun(h, View());
      pending := false;
      var takenBundles, takenResults := bundles, results;
      bundles, results := [], [];
      for i := 0 to |takenResults|
        invariant direct == old(direct) + takenResults[..i]
        invariant results == [] && bundles == [] && !pending
        invariant batons == old(batons) && gpu == old(gpu) && finished == old(finished)
      {
        direct := direct + [takenResults[i]];
      }
      assert takenResults[..|takenResults|] == takenResults;
      if takenBundles == [] {
        assert batons + [] == batons;
        return;
      }
      batons := batons + [Queued(takenBundles)];
    }

    /** The worker thread: checks every bundle of a baton; datasets says for which the dataset is there. */
    method RunWork(i: nat, datasets: seq<bool>)
      requires i < |batons| && batons[i].Queued? && |datasets| == |batons[i].bundles|
      modifies this`batons
      ensures View() == Step(h, old(View()), Work(i, datasets))
    {
      hide AllResults, AllErrors;
      var work := batons[i].bundles;
      ghost var done := Zip(work, datasets);
      var found: seq<JobResult>, errors: nat, checked: seq<Checked> := [], 0, [];
      NothingChecked(h);
      for k := 0 to |work|
        invariant checked == done[..k] && found == AllResults(h, done[..k]) && errors == AllErrors(h, done[..k])
        invariant batons == old(batons)
      {
        NextChecked(h, done, k);
        found, errors := GetResults(h, work[k], datasets[k], found, errors);
        checked := checked + [Checked(work[k], datasets[k])];
      }
      assert done[..|work|] == done;
      batons := batons[i := Worked(checked, found, errors)];
    }

    /** Back on the event loop: passes on what the worker found. */
    method AfterWork(i: nat)
      requires i < |batons| && batons[i].Worked?
      modifies this
      ensures View() == Step(h, old(View()), Finish(i))
    {
      var baton := batons[i];
      for k := 0 to |baton.results|
        invariant gpu == old(gpu) + baton.results[..k]
        invariant results == old(results) && bundles == old(bundles) && pending == old(pending)
        invariant batons == old(batons) && direct == old(direct) && finished == old(finished)
      {
        gpu := gpu + [baton.results[k]];
      }
      assert baton.results[..|baton.results|] == baton.results;
      finished := finished + baton.done;
      batons := batons[..i] + batons[i + 1..];
    }
  }

  lemma NothingChecked(h: Hasher)
    ensures AllResults(h, []) == [] && AllErrors(h, []) == 0
  {
  }

  lemma NextChecked(h: Hasher, done: seq<Checked>, k: nat)
    requires k < |done|
    ensures AllResults(h, done[..k + 1])
            == AllResults(h, done[..k])
               + ResultsFor(h, done[k].bundle.job, Answered(h, done[k].bundle, done[k].dataset))
    ensures AllErrors(h, done[..k + 1]) == AllErrors(h, done[..k]) + |Failed(h, done[k].bundle, done[k].dataset)|
  {
    assert done[..k + 1][..k] == done[..k];
  }
}
