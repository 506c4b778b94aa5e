/** The pausing and job-change machine of the miner, and the network events that drive it. */
module Mining {
  datatype Family = RandomX | OtherFamily

  datatype Job = Job(id: string, index: nat, height: nat, family: Family)

  /** The miner's fields together with the shared nonce state: its pause flag, sequence numbers and counters. */
  datatype State = State(enabled: bool, active: bool, reset: bool, autoPause: int, batteryPower: bool, userActive: bool,
                         job: Job, userJobId: string, ticks: nat,
                         paused: bool, sequence: nat, nonces: map<nat, nat>)

  /** Heights above this one are subject to the pause on every fourth block. */
  const V8_HEIGHT: nat := 820102

  const NO_JOB := Job("", 0, 0, OtherFamily)

  const INITIAL := State(true, false, true, 0, false, false, NO_JOB, "", 0, true, 1, map[0 := 0, 1 := 0])

  predicate Diardi(height: nat) {
    height > V8_HEIGHT && height % 4 == 0
  }

  /** What happens to the miner. Facts about the outside are part of the event. */
  datatype Event =
    | SetEnabled(on: bool)
    | PoolJob(job: Job, fromDonate: bool, donating: bool, datasetReady: bool, initReady: bool)
    | PoolPause(stillActive: bool)
    | Stop
    | Tick(checkBattery: bool, battery: bool, checkUser: bool, user: bool, stopMiner: bool)
    | DatasetReady(ready: bool)
    | NoncesTaken(index: nat, count: nat, exhausted: bool)

  // The steps.

  function AfterTouch(st: State): State {
    st.(sequence := st.sequence + 1)
  }

  function AfterStop(st: State): State {
    st.(paused := false, sequence := 0)
  }

  function AfterPause(st: State): State {
    AfterTouch(st.(active := false, paused := true))
  }

  function AfterSetEnabled(st: State, on: bool): State {
    if st.enabled == on || (st.batteryPower && on) then st
    else if !st.active then st.(enabled := on)
    else AfterTouch(st.(enabled := on, paused := !on))
  }

  function AfterJobChange(st: State): State {
    AfterTouch(st).(paused := !st.enabled || (st.paused && !st.active),
                    nonces := if st.reset then st.nonces[st.job.index := 0] else st.nonces,
                    ticks := if st.ticks == 0 then 1 else st.ticks)
  }

  function AfterSetJob(st: State, job: Job, donate: bool, datasetReady: bool, initReady: bool): State {
    var s := if job.family == RandomX && !datasetReady then AfterStop(st) else st;
    var index := if donate then 1 else 0;
    var t := s.(reset := !(s.job.index == 1 && index == 0 && s.userJobId == job.id), job := job.(index := index),
                userJobId := if index == 0 then job.id else s.userJobId, active := true);
    if initReady then AfterJobChange(t) else t
  }

  function AfterAutoPause(st: State, battery: bool, now: bool): State {
    if now == (if battery then st.batteryPower else st.userActive) then st
    else
      var t := ReasonChanged(st, battery, now);
      AfterSetEnabled(t, t.autoPause == 0)
  }

  function ReasonChanged(st: State, battery: bool, now: bool): State {
    var t := if battery then st.(batteryPower := now) else st.(userActive := now);
    t.(autoPause := st.autoPause + if now then 1 else -1)
  }

  function AfterTick(st: State, checkBattery: bool, battery: bool, checkUser: bool, user: bool): State {
    var t := st.(ticks := st.ticks + 1);
    var b := if checkBattery then AfterAutoPause(t, true, battery) else t;
    if checkUser then AfterAutoPause(b, false, user) else b
  }

  /** Nonces are taken from a counter; the last of them pauses the miner. */
  function AfterNext(st: State, index: nat, count: nat, exhausted: bool): State {
    st.(paused := st.paused || exhausted,
        nonces := st.nonces[index := (if index in st.nonces then st.nonces[index] else 0) + count])
  }

  /** Whether a pool's job reaches the miner: during donation the user's jobs are ignored, on a Diardi block all are. */
  predicate Passes(e: Event, hasDonate: bool) {
    e.PoolJob? && !Ignored(e, hasDonate) && !Diardi(e.job.height)
  }

  predicate Ignored(e: Event, hasDonate: bool)
    requires e.PoolJob?
  {
    hasDonate && e.donating && !e.fromDonate
  }

  function Step(st: State, e: Event, hasDonate: bool): State {
    match e {
      case SetEnabled(on) => AfterSetEnabled(st, on)
      case PoolJob(job, fromDonate, donating, datasetReady, initReady) =>
        if Ignored(e, hasDonate) then st
        else if Diardi(job.height) then AfterPause(st)
        else AfterSetJob(st, job, hasDonate && fromDonate, datasetReady, initReady)
      case PoolPause(stillActive) => if stillActive then st else AfterPause(st)
      case Stop => AfterStop(st)
      case Tick(checkBattery, battery, checkUser, user, stopMiner) =>
        var u := AfterTick(st, checkBattery, battery, checkUser, user);
        if stopMiner then AfterStop(u) else u
      case DatasetReady(ready) => if ready then AfterJobChange(st) else st
      case NoncesTaken(index, count, exhausted) => AfterNext(st, index, count, exhausted)
    }
  }

  function Run(st: State, events: seq<Event>, hasDonate: bool): State
    decreases |events|
  {
    if events == [] then st else Run(Step(st, events[0], hasDonate), events[1..], hasDonate)
  }

  // Invariants.

  function AsInt(b: bool): int {
    if b then 1 else 0
  }

  /** auto_pause counts the reasons to pause, and the miner is never enabled on battery power. */
  predicate CountsReasons(st: State) {
    st.autoPause == AsInt(st.batteryPower) + AsInt(st.userActive) && (st.batteryPower ==> !st.enabled)
  }

  /** Nonces are handed out only to an active and enabled miner. */
  predicate RunsOnlyEnabled(st: State) {
    !st.paused ==> st.active && st.enabled
  }

  /** The events that stop the miner: it is unpaused so that its workers can end. */
  predicate Stops(e: Event, hasDonate: bool) {
    || e.Stop?
    || (e.Tick? && e.stopMiner)
    || (Passes(e, hasDonate) && e.job.family == RandomX && !e.datasetReady)
  }

  /** The miner has no job to work on and hands out no nonces. */
  predicate Idle(st: State) {
    st.paused && !st.active
  }

  /** With stops: unpaused means running, or that the workers were told to end. */
  predicate RunsOrEnds(st: State) {
    !st.paused ==> (st.active && st.enabled) || st.sequence == 0
  }

  /** The dataset becomes ready when the miner is stopped and without a job. */
  predicate Revives(st: State, e: Event) {
    e.DatasetReady? && e.ready && st.enabled && !st.active && !st.paused
  }

  lemma SetEnabledKeeps(st: State, on: bool)
    ensures var t := AfterSetEnabled(st, on);
            && (CountsReasons(st) ==> CountsReasons(t)) && (RunsOnlyEnabled(st) ==> RunsOnlyEnabled(t))
            && (RunsOrEnds(st) ==> RunsOrEnds(t)) && (Idle(st) ==> Idle(t))
  {
  }

  lemma AutoPauseKeeps(st: State, battery: bool, now: bool)
    ensures var t := AfterAutoPause(st, battery, now);
            && (CountsReasons(st) ==> CountsReasons(t)) && (RunsOnlyEnabled(st) ==> RunsOnlyEnabled(t))
            && (RunsOrEnds(st) ==> RunsOrEnds(t)) && (Idle(st) ==> Idle(t))
  {
    hide AfterSetEnabled;
    var change := now != if battery then st.batteryPower else st.userActive;
    if change {
      var t := ReasonChanged(st, battery, now);
      var on := t.autoPause == 0;
      SetEnabledKeeps(t, on);
      if CountsReasons(st) {
        ReasonCounted(st, battery, now);
        EnabledAsAsked(t, on);
      }
    }
  }

  lemma ReasonCounted(st: State, battery: bool, now: bool)
    requires CountsReasons(st) && now != if battery then st.batteryPower else st.userActive
    ensures var t := ReasonChanged(st, battery, now);
            t.autoPause == AsInt(t.batteryPower) + AsInt(t.userActive) && (t.batteryPower ==> t.autoPause != 0)
  {
  }

  lemma EnabledAsAsked(st: State, on: bool)
    requires st.batteryPower ==> !on
    ensures AfterSetEnabled(st, on).enabled == on
    ensures AfterSetEnabled(st, on).autoPause == st.autoPause && AfterSetEnabled(st, on).batteryPower == st.batteryPower
            && AfterSetEnabled(st, on).userActive == st.userActive
  {
  }

  lemma TickKeeps(st: State, checkBattery: bool, battery: bool, checkUser: bool, user: bool)
    ensures var t := AfterTick(st, checkBattery, battery, checkUser, user);
            && (CountsReasons(st) ==> CountsReasons(t)) && (RunsOnlyEnabled(st) ==> RunsOnlyEnabled(t))
            && (RunsOrEnds(st) ==> RunsOrEnds(t)) && (Idle(st) ==> Idle(t))
  {
    hide AfterAutoPause;
    var t := st.(ticks := st.ticks + 1);
    AutoPauseKeeps(t, true, battery);
    AutoPauseKeeps(if checkBattery then AfterAutoPause(t, true, battery) else t, false, user);
  }

  lemma SetJobKeeps(st: State, job: Job, donate: bool, datasetReady: bool, initReady: bool)
    ensures var t := AfterSetJob(st, job, donate, datasetReady, initReady);
            && (CountsReasons(st) ==> CountsReasons(t)) && (RunsOrEnds(st) ==> RunsOrEnds(t))
            && (RunsOnlyEnabled(st) && (job.family == RandomX ==> datasetReady) ==> RunsOnlyEnabled(t))
  {
  }

  lemma OtherStepsKeep(st: State, index: nat, count: nat, exhausted: bool)
    ensures CountsReasons(AfterPause(st)) <==> CountsReasons(st)
    ensures RunsOnlyEnabled(AfterPause(st)) && RunsOrEnds(AfterPause(st)) && Idle(AfterPause(st))
    ensures (CountsReasons(AfterStop(st)) <==> CountsReasons(st)) && RunsOrEnds(AfterStop(st))
    ensures var t := AfterNext(st, index, count, exhausted);
            && (CountsReasons(st) ==> CountsReasons(t)) && (RunsOnlyEnabled(st) ==> RunsOnlyEnabled(t))
            && (RunsOrEnds(st) ==> RunsOrEnds(t)) && (Idle(st) ==> Idle(t))
  {
  }

  lemma JobChangeKeeps(st: State)
    ensures var t := AfterJobChange(st);
            && (CountsReasons(st) ==> CountsReasons(t)) && (RunsOnlyEnabled(st) ==> RunsOnlyEnabled(t))
            && (Idle(st) ==> Idle(t))
            && (RunsOrEnds(st) ==> (RunsOrEnds(t) <==> !(st.enabled && !st.active && !st.paused)))
  {
  }

  /** What one event keeps. */
  lemma StepKeeps(st: State, e: Event, hasDonate: bool)
    ensures var t := Step(st, e, hasDonate);
            && (CountsReasons(st) ==> CountsReasons(t))
            && (RunsOnlyEnabled(st) && !Stops(e, hasDonate) ==> RunsOnlyEnabled(t))
            && (Idle(st) && !Stops(e, hasDonate) && !Passes(e, hasDonate) ==> Idle(t))
            && (RunsOrEnds(st) ==>
                  (RunsOrEnds(t) <==> !Revives(st, e)))
  {
    hide AfterSetEnabled, AfterSetJob, AfterPause, AfterStop, AfterTick, AfterJobChange, AfterNext;
    hide CountsReasons, RunsOnlyEnabled, RunsOrEnds, Idle;
    OtherStepsKeep(st, 0, 0, false);
    match e {
      case SetEnabled(on) => SetEnabledKeeps(st, on);
      case PoolJob(job, fromDonate, donating, datasetReady, initReady) =>
        SetJobKeeps(st, job, hasDonate && fromDonate, datasetReady, initReady);
      case PoolPause(stillActive) =>
      case Stop =>
      case Tick(checkBattery, battery, checkUser, user, stopMiner) =>
        TickKeeps(st, checkBattery, battery, checkUser, user);
        OtherStepsKeep(AfterTick(st, checkBattery, battery, checkUser, user), 0, 0, false);
      case DatasetReady(ready) => JobChangeKeeps(st);
      case NoncesTaken(index, count, exhausted) => OtherStepsKeep(st, index, count, exhausted);
    }
  }

  /** In every run auto_pause counts the reasons to pause. */
  lemma {:induction false} ReasonsCounted(st: State, events: seq<Event>, hasDonate: bool)
    requires CountsReasons(st)
    ensures CountsReasons(Run(st, events, hasDonate))
    decreases |events|
  {
    hide Step, CountsReasons;
    if events != [] {
      StepKeeps(st, events[0], hasDonate);
      ReasonsCounted(Step(st, events[0], hasDonate), events[1..], hasDonate);
    }
  }

  /** In every run without a stop the miner is unpaused only while it is active and enabled. */
  lemma {:induction false} UnpausedMeansRunning(st: State, events: seq<Event>, hasDonate: bool)
    requires RunsOnlyEnabled(st) && forall e :: e in events ==> !Stops(e, hasDonate)
    ensures RunsOnlyEnabled(Run(st, events, hasDonate))
    decreases |events|
  {
    hide Step, RunsOnlyEnabled, Stops;
    if events != [] {
      StepKeeps(st, events[0], hasDonate);
      UnpausedMeansRunning(Step(st, events[0], hasDonate), events[1..], hasDonate);
    }
  }

  /** Nothing unpauses an idle miner until a job is passed on to it. */
  lemma {:induction false} IdleUntilJob(st: State, events: seq<Event>, hasDonate: bool)
    requires Idle(st) && forall e :: e in events ==> !Stops(e, hasDonate) && !Passes(e, hasDonate)
    ensures Idle(Run(st, events, hasDonate))
    decreases |events|
  {
    hide Step, Idle, Stops, Passes;
    if events != [] {
      StepKeeps(st, events[0], hasDonate);
      IdleUntilJob(Step(st, events[0], hasDonate), events[1..], hasDonate);
    }
  }

  /** A job on a Diardi block that the network does not ignore. */
  predicate IsDiardi(e: Event, hasDonate: bool) {
    e.PoolJob? && !Ignored(e, hasDonate) && Diardi(e.job.height)
  }

  /** From the start of the program, in every run without a stop. */
  lemma Safety(events: seq<Event>, hasDonate: bool)
    requires forall e :: e in events ==> !Stops(e, hasDonate)
    ensures CountsReasons(Run(INITIAL, events, hasDonate)) && RunsOnlyEnabled(Run(INITIAL, events, hasDonate))
  {
    hide Run, Stops, CountsReasons, RunsOnlyEnabled;
    InitialHolds();
    ReasonsCounted(INITIAL, events, hasDonate);
    UnpausedMeansRunning(INITIAL, events, hasDonate);
  }

  lemma InitialHolds()
    ensures CountsReasons(INITIAL) && RunsOnlyEnabled(INITIAL)
  {
  }

  /** After a Diardi block the miner stays paused until a job is passed on to it, whatever else happens. */
  lemma DiardiPauses(st: State, job: Event, after: seq<Event>, hasDonate: bool)
    requires IsDiardi(job, hasDonate)
    requires forall e :: e in after ==> !Stops(e, hasDonate) && !Passes(e, hasDonate)
    ensures Run(st, [job] + after, hasDonate).paused
  {
    hide Step, Stops, Passes, IsDiardi;
    assert ([job] + after)[1..] == after;
    DiardiStep(st, job, hasDonate);
    IdleUntilJob(Step(st, job, hasDonate), after, hasDonate);
  }

  lemma DiardiStep(st: State, job: Event, hasDonate: bool)
    requires IsDiardi(job, hasDonate)
    ensures Idle(Step(st, job, hasDonate))
  {
    hide AfterSetJob;
  }

  // What starts the miner, and what the events leave behind.

  /** A job that is passed on and can be worked on starts the miner, unless it is disabled, whatever came before. */
  lemma JobStarts(st: State, e: Event, hasDonate: bool)
    requires e.PoolJob? && e.initReady && !(hasDonate && e.donating && !e.fromDonate)
    requires e.job.height <= 820102 || e.job.height % 4 != 0
    ensures var t, index := Step(st, e, hasDonate), if hasDonate && e.fromDonate then 1 else 0;
            && t.active && t.enabled == st.enabled && (t.paused <==> !st.enabled)
            && t.sequence == 1 + (if e.job.family == RandomX && !e.datasetReady then 0 else st.sequence)
            && t.job == e.job.(index := index) && t.userJobId == (if index == 0 then e.job.id else st.userJobId)
            && (t.reset <==> !(st.job.index == 1 && index == 0 && st.userJobId == e.job.id)) && t.ticks > 0
            && t.batteryPower == st.batteryPower && t.userActive == st.userActive && t.autoPause == st.autoPause
  {
  }

  /** A job whose dataset has to be made first only makes the miner active; the ready dataset then starts it. */
  lemma JobWaits(st: State, e: Event, hasDonate: bool)
    requires e.PoolJob? && !e.initReady && !(hasDonate && e.donating && !e.fromDonate)
    requires e.job.height <= 820102 || e.job.height % 4 != 0
    ensures var t, index := Step(st, e, hasDonate), if hasDonate && e.fromDonate then 1 else 0;
            && t.active && t.enabled == st.enabled && t.nonces == st.nonces
            && (t.paused <==> st.paused && (e.job.family == RandomX ==> e.datasetReady))
            && (t.reset <==> !(st.job.index == 1 && index == 0 && st.userJobId == e.job.id))
            && t.batteryPower == st.batteryPower && t.userActive == st.userActive && t.autoPause == st.autoPause
            && t.job == e.job.(index := index) && t.userJobId == (if index == 0 then e.job.id else st.userJobId)
  {
    hide AfterJobChange;
  }

  lemma DatasetStarts(st: State, hasDonate: bool)
    requires st.active
    ensures var t := Step(st, DatasetReady(true), hasDonate);
            && t.active && t.enabled == st.enabled && (t.paused <==> !st.enabled) && t.sequence == st.sequence + 1
            && t.job == st.job
            && t.nonces == (if st.reset then st.nonces[st.job.index := 0] else st.nonces)
    ensures Step(st, DatasetReady(false), hasDonate) == st
  {
  }

  /** Enabling is refused on battery power; what takes effect on an active miner starts or pauses it. */
  lemma EnablingStarts(st: State, on: bool, hasDonate: bool)
    ensures var t := Step(st, SetEnabled(on), hasDonate);
            && t.enabled == (if st.batteryPower && on then st.enabled else on)
            && (st.active && t.enabled != st.enabled ==>
                  t == st.(enabled := on, paused := !on, sequence := st.sequence + 1))
            && (!st.active || t.enabled == st.enabled ==> t == st.(enabled := t.enabled))
  {
  }

  /**
   * Without pools, and on every fourth block of the height in question, the
   * miner is idle; a stop lets its workers end; a user's job during donation
   * changes nothing.
   */
  lemma PausesAndStops(st: State, e: Event, hasDonate: bool)
    ensures e == PoolPause(false)
            || (e.PoolJob? && !(hasDonate && e.donating && !e.fromDonate)
                && e.job.height > 820102 && e.job.height % 4 == 0) ==>
              Step(st, e, hasDonate) == st.(active := false, paused := true, sequence := st.sequence + 1)
    ensures e.Stop? ==> Step(st, e, hasDonate) == st.(paused := false, sequence := 0)
    ensures e == PoolPause(true) || (e.PoolJob? && hasDonate && e.donating && !e.fromDonate) ==>
              Step(st, e, hasDonate) == st
  {
    hide AfterSetJob;
  }

  /** Taken nonces are counted, and the last of them pauses the miner. */
  lemma NoncesAreCounted(st: State, index: nat, count: nat, exhausted: bool, hasDonate: bool)
    ensures var t := Step(st, NoncesTaken(index, count, exhausted), hasDonate);
            && (t.paused <==> st.paused || exhausted)
            && index in t.nonces && t.nonces[index] == count + (if index in st.nonces then st.nonces[index] else 0)
            && (forall i :: i != index ==> (i in t.nonces <==> i in st.nonces))
            && (forall i :: i in st.nonces && i != index ==> t.nonces[i] == st.nonces[i])
  {
  }

  /** The timer reads what it checks, and a change enables the miner exactly when no reason to pause is left. */
  lemma TickReads(st: State, checkBattery: bool, battery: bool, checkUser: bool, user: bool, hasDonate: bool)
    requires CountsReasons(st)
    ensures var t := Step(st, Tick(checkBattery, battery, checkUser, user, false), hasDonate);
            && t.batteryPower == (if checkBattery then battery else st.batteryPower)
            && t.userActive == (if checkUser then user else st.userActive)
            && t.active == st.active && t.ticks == st.ticks + 1
            && Decided(st, t)
            && Step(st, Tick(checkBattery, battery, checkUser, user, true), hasDonate)
               == t.(paused := false, sequence := 0)
  {
    hide AfterTick, CountsReasons, Decided;
    var t0 := st.(ticks := st.ticks + 1);
    SameReasons(st);
    TickDecides(st, t0, checkBattery, battery, checkUser, user);
    LaterTick(st, AfterTick(st, checkBattery, battery, checkUser, user));
  }

  lemma TickDecides(st: State, t0: State, checkBattery: bool, battery: bool, checkUser: bool, user: bool)
    requires t0 == st.(ticks := st.ticks + 1) && CountsReasons(t0) && (st.batteryPower ==> !st.enabled)
    ensures var t := AfterTick(st, checkBattery, battery, checkUser, user);
            && t.batteryPower == (if checkBattery then battery else t0.batteryPower)
            && t.userActive == (if checkUser then user else t0.userActive)
            && t.active == t0.active && t.ticks == t0.ticks && Decided(t0, t)
  {
    hide AfterAutoPause, CountsReasons, Decided;
    ReasonDecides(t0, true, battery);
    var b := if checkBattery then AfterAutoPause(t0, true, battery) else t0;
    AutoPauseKeeps(t0, true, battery);
    ReasonDecides(b, false, user);
    NothingDecided(t0);
    NothingDecided(b);
    DecidedTwice(t0, b, if checkUser then AfterAutoPause(b, false, user) else b);
  }

  /** The battery is read before the user: between the two the miner is enabled for a moment. */
  lemma BatteryIsReadFirst(st: State, hasDonate: bool)
    requires CountsReasons(st) && st.active && st.batteryPower && !st.userActive
    ensures Step(st, Tick(true, false, true, true, false), hasDonate).sequence == st.sequence + 2
  {
    var t0 := st.(ticks := st.ticks + 1);
    var t1 := AfterAutoPause(t0, true, false);
    assert t1 == t0.(batteryPower := false, autoPause := 0, enabled := true, paused := false,
                     sequence := st.sequence + 1);
    assert AfterAutoPause(t1, false, true).sequence == st.sequence + 2;
  }

  lemma NothingDecided(st: State)
    ensures Decided(st, st)
  {
  }

  lemma LaterTick(st: State, t: State)
    ensures Decided(st.(ticks := st.ticks + 1), t) <==> Decided(st, t)
  {
  }

  lemma SameReasons(st: State)
    requires CountsReasons(st)
    ensures CountsReasons(st.(ticks := st.ticks + 1)) && (st.batteryPower ==> !st.enabled)
  {
  }

  /** A changed reason enables the miner exactly when none is left; an active miner starts or pauses with it. */
  lemma ReasonDecides(st: State, battery: bool, now: bool)
    requires CountsReasons(st)
    ensures var t := AfterAutoPause(st, battery, now);
            && t.batteryPower == (if battery then now else st.batteryPower)
            && t.userActive == (if battery then st.userActive else now)
            && t.active == st.active && t.ticks == st.ticks
            && Decided(st, t)
  {
    hide AfterSetEnabled;
    var changed := now != if battery then st.batteryPower else st.userActive;
    if changed {
      var r := ReasonChanged(st, battery, now);
      SetEnabledDecides(r, r.autoPause == 0);
    }
  }

  /** How reasons that change from st to t decide. */
  predicate Decided(st: State, t: State) {
    && t.enabled == (if t.batteryPower != st.batteryPower || t.userActive != st.userActive
                     then !t.batteryPower && !t.userActive else st.enabled)
    && (st.active && t.enabled != st.enabled ==> (t.paused <==> !t.enabled))
    && (!st.active || (t.enabled && st.enabled) ==> t.paused == st.paused)
    && (st.paused && !t.enabled ==> t.paused)
    && (t.batteryPower == st.batteryPower && t.userActive == st.userActive ==> t.paused == st.paused)
  }

  /** Battery first, then the user. */
  lemma DecidedTwice(st: State, b: State, t: State)
    requires Decided(st, b) && Decided(b, t) && t.active == b.active == st.active
    requires b.userActive == st.userActive && t.batteryPower == b.batteryPower && (st.batteryPower ==> !st.enabled)
    ensures Decided(st, t)
  {
  }

  lemma SetEnabledDecides(st: State, on: bool)
    ensures var t := AfterSetEnabled(st, on);
            && t.enabled == (if st.batteryPower && on then st.enabled else on)
            && t.batteryPower == st.batteryPower && t.userActive == st.userActive
            && t.active == st.active && t.ticks == st.ticks
            && (st.active && t.enabled != st.enabled ==> (t.paused <==> !t.enabled))
            && (!st.active || t.enabled == st.enabled ==> t.paused == st.paused)
  {
  }

  /** A job change, a ready dataset, or a change between enabled and disabled, on an active miner. */
  predicate Starts(st: State, e: Event, hasDonate: bool) {
    || (Passes(e, hasDonate) && e.initReady)
    || (st.active && e.DatasetReady? && e.ready)
    || (st.active && Step(st, e, hasDonate).enabled != st.enabled)
  }

  /** Since the last start the nonces were exhausted or the miner was inactive; held says so of the time before. */
  predicate Held(st: State, events: seq<Event>, hasDonate: bool, held: bool)
    decreases |events|
  {
    if events == [] then held
    else
      var e, t := events[0], Step(st, events[0], hasDonate);
      var exhausted := e.NoncesTaken? && e.exhausted;
      Held(t, events[1..], hasDonate, !Starts(st, e, hasDonate) && (held || exhausted || !t.active))
  }

  /** An active and enabled miner is paused exactly when it is held. */
  predicate PausedWhenHeld(st: State, held: bool) {
    (st.active && st.enabled ==> (st.paused <==> held)) && (!st.active ==> held)
  }

  lemma StepHeld(st: State, e: Event, hasDonate: bool, held: bool)
    requires CountsReasons(st) && RunsOnlyEnabled(st) && PausedWhenHeld(st, held) && !Stops(e, hasDonate)
    ensures var t := Step(st, e, hasDonate);
            PausedWhenHeld(t, !Starts(st, e, hasDonate) && (held || (e.NoncesTaken? && e.exhausted) || !t.active))
  {
    hide Step, CountsReasons;
    match e {
      case SetEnabled(on) => EnablingStarts(st, on, hasDonate);
      case PoolJob(job, fromDonate, donating, datasetReady, initReady) =>
        if Passes(e, hasDonate) {
          if initReady { JobStarts(st, e, hasDonate); } else { JobWaits(st, e, hasDonate); }
        } else {
          PausesAndStops(st, e, hasDonate);
        }
      case PoolPause(stillActive) => PausesAndStops(st, e, hasDonate);
      case Stop =>
      case Tick(checkBattery, battery, checkUser, user, stopMiner) =>
        TickReads(st, checkBattery, battery, checkUser, user, hasDonate);
      case DatasetReady(ready) => DatasetHeld(st, ready, hasDonate);
      case NoncesTaken(index, count, exhausted) => TakenHeld(st, e, hasDonate);
    }
  }

  lemma DatasetHeld(st: State, ready: bool, hasDonate: bool)
    ensures var t := Step(st, DatasetReady(ready), hasDonate);
            && t.active == st.active && t.enabled == st.enabled
            && (ready && st.active ==> (t.paused <==> !st.enabled)) && (!ready ==> t == st)
  {
  }

  lemma TakenHeld(st: State, e: Event, hasDonate: bool)
    requires e.NoncesTaken?
    ensures var t := Step(st, e, hasDonate);
            t.active == st.active && t.enabled == st.enabled && (t.paused <==> st.paused || e.exhausted)
  {
  }

  /**
   * In every run without a stop an active and enabled miner is paused exactly
   * when its nonces are exhausted or it was inactive, and no job change, ready
   * dataset or enabling has come since.
   */
  lemma {:induction false} PausedExactlyWhenHeld(st: State, events: seq<Event>, hasDonate: bool, held: bool)
    requires CountsReasons(st) && RunsOnlyEnabled(st) && PausedWhenHeld(st, held)
    requires forall e :: e in events ==> !Stops(e, hasDonate)
    ensures var t := Run(st, events, hasDonate);
            t.paused <==> !t.active || !t.enabled || Held(st, events, hasDonate, held)
    decreases |events|
  {
    hide Step, Starts, CountsReasons, Stops;
    if events != [] {
      var e, t := events[0], Step(st, events[0], hasDonate);
      StepKeeps(st, e, hasDonate);
      StepHeld(st, e, hasDonate, held);
      PausedExactlyWhenHeld(t, events[1..], hasDonate,
                            !Starts(st, e, hasDonate) && (held || (e.NoncesTaken? && e.exhausted) || !t.active));
    }
  }

  /** From the start of the program, which is inactive and so held. */
  lemma PausedFromTheStart(events: seq<Event>, hasDonate: bool)
    requires forall e :: e in events ==> !Stops(e, hasDonate)
    ensures var t := Run(INITIAL, events, hasDonate);
            t.paused <==> !t.active || !t.enabled || Held(INITIAL, events, hasDonate, true)
  {
    hide Run, Stops, CountsReasons, RunsOnlyEnabled, Held;
    InitialHolds();
    PausedExactlyWhenHeld(INITIAL, events, hasDonate, true);
  }

  // With stops.

  /** The one step that revives a stopped miner: a dataset becomes ready while it is enabled but not active. */
  lemma OnlyReadyDatasetRevives(st: State, e: Event, hasDonate: bool)
    requires RunsOrEnds(st)
    ensures RunsOrEnds(Step(st, e, hasDonate))
            <==> !Revives(st, e)
  {
    hide Step, RunsOrEnds;
    StepKeeps(st, e, hasDonate);
  }

  /** A run in which it happens: the pools are lost, the miner is stopped, and then the dataset is ready. */
  lemma RevivedRun(job: Job)
    requires job.family == RandomX && !Diardi(job.height)
    ensures var events := [PoolJob(job, false, false, false, false), PoolPause(false), Stop, DatasetReady(true)];
            var st := Run(INITIAL, events, false);
            !st.paused && !st.active && st.sequence != 0
  {
    var e0, e1, e2, e3 := PoolJob(job, false, false, false, false), PoolPause(false), Stop, DatasetReady(true);
    var s1 := Step(INITIAL, e0, false);
    var s2 := Step(s1, e1, false);
    var s3 := Step(s2, e2, false);
    var s4 := Step(s3, e3, false);
    assert Run(s4, [], false) == s4;
    assert [e3][1..] == [] && [e2, e3][1..] == [e3] && [e1, e2, e3][1..] == [e2, e3];
    assert [e0, e1, e2, e3][1..] == [e1, e2, e3];
    assert Run(s3, [e3], false) == s4;
    assert Run(s2, [e2, e3], false) == s4;
    assert Run(s1, [e1, e2, e3], false) == s4;
  }

  /** No step of the run revives a stopped miner. */
  predicate NeverRevived(st: State, events: seq<Event>, hasDonate: bool)
    decreases |events|
  {
    events != [] ==> !Revives(st, events[0]) && NeverRevived(Step(st, events[0], hasDonate), events[1..], hasDonate)
  }

  /** The invariant with stops, in every state of the run. */
  predicate RunsOrEndsThroughout(st: State, events: seq<Event>, hasDonate: bool)
    decreases |events|
  {
    && RunsOrEnds(st)
    && (events != [] ==> RunsOrEndsThroughout(Step(st, events[0], hasDonate), events[1..], hasDonate))
  }

  /** Whatever stops the miner, it is unpaused only to run or to end, exactly in the runs that never revive it. */
  lemma {:induction false} EveryRunWithStops(st: State, events: seq<Event>, hasDonate: bool)
    requires RunsOrEnds(st)
    ensures RunsOrEndsThroughout(st, events, hasDonate) <==> NeverRevived(st, events, hasDonate)
    decreases |events|
  {
    hide Step, RunsOrEnds;
    if events != [] {
      OnlyReadyDatasetRevives(st, events[0], hasDonate);
      var next := Step(st, events[0], hasDonate);
      if RunsOrEnds(next) { EveryRunWithStops(next, events[1..], hasDonate); }
    }
  }

  /** From the start of the program, in every run in which no dataset becomes ready later. */
  lemma SafetyWithStops(events: seq<Event>, hasDonate: bool)
    requires forall e :: e in events ==> !(e.DatasetReady? && e.ready)
    ensures RunsOrEndsThroughout(INITIAL, events, hasDonate)
  {
    hide RunsOrEndsThroughout, NeverRevived, RunsOrEnds;
    InitialRunsOrEnds();
    NoneRevives(INITIAL, events, hasDonate);
    EveryRunWithStops(INITIAL, events, hasDonate);
  }

  lemma InitialRunsOrEnds()
    ensures RunsOrEnds(INITIAL)
  {
  }

  lemma {:induction false} NoneRevives(st: State, events: seq<Event>, hasDonate: bool)
    requires forall e :: e in events ==> !(e.DatasetReady? && e.ready)
    ensures NeverRevived(st, events, hasDonate)
    decreases |events|
  {
    hide Step;
    if events != [] { NoneRevives(Step(st, events[0], hasDonate), events[1..], hasDonate); }
  }

  // Donation.

  /** The counter of the user's nonces. */
  function UserNonces(st: State): nat {
    if 0 in st.nonces then st.nonces[0] else 0
  }

  /** The nonces that the events take from this counter. */
  function UserTaken(events: seq<Event>): nat {
    if events == [] then 0
    else
      (if events[0].NoncesTaken? && events[0].index == 0 then events[0].count else 0) + UserTaken(events[1..])
  }

  /** A donation job is being worked on, after the user's job of that id. */
  predicate Donates(st: State, id: string) {
    st.job.index == 1 && st.userJobId == id
  }

  /** Going back from a donation job to the same user job does not start its nonces again; every other change does. */
  lemma NoncesAtJob(st: State, job: Job, donate: bool, datasetReady: bool)
    ensures var index := if donate then 1 else 0;
            var after := AfterSetJob(st, job, donate, datasetReady, true);
            after.nonces
            == if st.job.index == 1 && !donate && st.userJobId == job.id then st.nonces else st.nonces[index := 0]
  {
    hide AfterJobChange;
    var s := if job.family == RandomX && !datasetReady then AfterStop(st) else st;
    var index := if donate then 1 else 0;
    var t := s.(reset := !(s.job.index == 1 && index == 0 && s.userJobId == job.id), job := job.(index := index),
                userJobId := if index == 0 then job.id else s.userJobId, active := true);
    JobChangeNonces(t);
  }

  lemma JobChangeNonces(st: State)
    ensures AfterJobChange(st).nonces == if st.reset then st.nonces[st.job.index := 0] else st.nonces
  {
  }

  /** Neither job nor nonces differ. */
  predicate SameWork(st: State, t: State) {
    t.job == st.job && t.userJobId == st.userJobId && t.nonces == st.nonces
  }

  lemma SetEnabledWork(st: State, on: bool)
    ensures SameWork(st, AfterSetEnabled(st, on))
  {
  }

  lemma AutoPauseWork(st: State, battery: bool, now: bool)
    ensures SameWork(st, AfterAutoPause(st, battery, now))
  {
    hide AfterSetEnabled;
    var t := ReasonChanged(st, battery, now);
    SetEnabledWork(t, t.autoPause == 0);
  }

  lemma TickWork(st: State, checkBattery: bool, battery: bool, checkUser: bool, user: bool)
    ensures SameWork(st, AfterTick(st, checkBattery, battery, checkUser, user))
  {
    hide AfterAutoPause;
    var t := st.(ticks := st.ticks + 1);
    AutoPauseWork(t, true, battery);
    AutoPauseWork(if checkBattery then AfterAutoPause(t, true, battery) else t, false, user);
  }

  lemma JobWork(st: State, job: Job, datasetReady: bool, initReady: bool)
    ensures var t := AfterSetJob(st, job, true, datasetReady, initReady);
            t.job.index == 1 && t.userJobId == st.userJobId && UserNonces(t) == UserNonces(st)
  {
  }

  lemma JobChangeWork(st: State)
    requires st.job.index == 1
    ensures var t := AfterJobChange(st);
            t.job == st.job && t.userJobId == st.userJobId && UserNonces(t) == UserNonces(st)
  {
  }

  lemma TakenWork(st: State, index: nat, count: nat, exhausted: bool)
    ensures var t := AfterNext(st, index, count, exhausted);
            && t.job == st.job && t.userJobId == st.userJobId
            && UserNonces(t) == UserNonces(st) + if index == 0 then count else 0
  {
  }

  lemma PauseWork(st: State)
    ensures SameWork(st, AfterPause(st)) && SameWork(st, AfterStop(st))
  {
  }

  lemma DonationStep(st: State, e: Event, id: string)
    requires Donates(st, id) && (Passes(e, true) ==> e.fromDonate)
    ensures var t := Step(st, e, true); Donates(t, id) && UserNonces(t) == UserNonces(st) + UserTaken([e])
  {
    hide AfterTick, AfterSetEnabled, AfterSetJob, AfterJobChange, AfterNext, AfterPause, AfterStop, Diardi;
    assert [e][1..] == [] && UserTaken([]) == 0;
    PauseWork(st);
    match e {
      case SetEnabled(on) => SetEnabledWork(st, on);
      case Tick(checkBattery, battery, checkUser, user, stopMiner) =>
        TickWork(st, checkBattery, battery, checkUser, user);
        PauseWork(AfterTick(st, checkBattery, battery, checkUser, user));
      case PoolJob(job, fromDonate, donating, datasetReady, initReady) => JobWork(st, job, datasetReady, initReady);
      case DatasetReady(ready) => JobChangeWork(st);
      case NoncesTaken(index, count, exhausted) => TakenWork(st, index, count, exhausted);
      case _ =>
    }
  }

  lemma {:induction false} DonationRun(st: State, events: seq<Event>, id: string)
    requires Donates(st, id) && forall e :: e in events && Passes(e, true) ==> e.fromDonate
    ensures var t := Run(st, events, true); Donates(t, id) && UserNonces(t) == UserNonces(st) + UserTaken(events)
    decreases |events|
  {
    hide Step, Donates, Passes, UserNonces;
    if events != [] {
      assert [events[0]][1..] == [];
      DonationStep(st, events[0], id);
      DonationRun(Step(st, events[0], true), events[1..], id);
    }
  }

  lemma {:induction false} RunConcat(st: State, a: seq<Event>, b: seq<Event>, hasDonate: bool)
    ensures Run(st, a + b, hasDonate) == Run(Run(st, a, hasDonate), b, hasDonate)
    decreases |a|
  {
    hide Step;
    if a == [] {
      assert a + b == b;
    } else {
      assert (a + b)[1..] == a[1..] + b;
      RunConcat(Step(st, a[0], hasDonate), a[1..], b, hasDonate);
    }
  }

  /**
   * The user's nonces over a whole donation, from any state on: a donation
   * job, then anything but user jobs, and a user job again. With the job that
   * the user had they go on where they were; with another one they start again.
   */
  lemma NoncesAcrossDonation(st: State, donation: Event, during: seq<Event>, back: Event)
    requires Passes(donation, true) && donation.fromDonate
    requires forall e :: e in during && Passes(e, true) ==> e.fromDonate
    requires Passes(back, true) && !back.fromDonate
    ensures var after := UserNonces(Run(st, [donation] + during + [back], true));
            && (back.job.id == st.userJobId ==> after == UserNonces(st) + UserTaken(during))
            && (back.job.id != st.userJobId && back.initReady ==> after == 0)
  {
    hide Step, Donates, UserNonces, UserTaken, Run, Ignored, Diardi;
    var s1 := Step(st, donation, true);
    var s2 := Run(s1, during, true);
    DonationBegins(st, donation);
    DonationRun(s1, during, st.userJobId);
    BackToUser(s2, back, st.userJobId);
    RunOne(st, donation);
    RunOne(s2, back);
    RunConcat(st, [donation] + during, [back], true);
    RunConcat(st, [donation], during, true);
  }

  lemma RunOne(st: State, e: Event)
    ensures Run(st, [e], true) == Step(st, e, true)
  {
    hide Step;
    assert [e][1..] == [];
    assert Run(Step(st, e, true), [], true) == Step(st, e, true);
  }

  lemma DonationBegins(st: State, donation: Event)
    requires Passes(donation, true) && donation.fromDonate
    ensures var t := Step(st, donation, true); Donates(t, st.userJobId) && UserNonces(t) == UserNonces(st)
  {
    hide AfterSetJob;
    JobWork(st, donation.job, donation.datasetReady, donation.initReady);
  }

  lemma BackToUser(st: State, back: Event, id: string)
    requires Donates(st, id) && Passes(back, true) && !back.fromDonate
    ensures var t := Step(st, back, true);
            && (back.job.id == id ==> UserNonces(t) == UserNonces(st))
            && (back.job.id != id && back.initReady ==> UserNonces(t) == 0)
  {
  }
}
