/** Checking the nonces that a GPU reports: each becomes one result below the target or one error. */
module GpuResults {
  import opened Arith

  datatype Family = RandomX | Argon2 | KawPow | CryptoNight

  datatype Job = Job(id: string, index: nat, family: Family, target: nat)

  datatype Bundle = Bundle(job: Job, nonces: seq<nat>, device: nat)

  /** The nonce of a result is, for KawPow, the 64-bit one that the blob holds after the nonce was put there. */
  datatype JobResult = JobResult(job: Job, nonce: nat, digest: nat)

  /** The hash functions: a digest as a 256-bit number, least significant byte first, and the blob's 64-bit nonce. */
  datatype Hasher = Hasher(digest: (Job, nat) -> nat, fullNonce: (Job, nat) -> nat)

  /** The last eight bytes of a digest. */
  function TopWord(digest: nat): nat {
    digest / Pow(2, 192)
  }

  predicate Meets(h: Hasher, job: Job, nonce: nat) {
    TopWord(h.digest(job, nonce)) < job.target
  }

  function ResultOf(h: Hasher, job: Job, nonce: nat): JobResult {
    JobResult(job, if job.family == KawPow then h.fullNonce(job, nonce) else nonce, h.digest(job, nonce))
  }

  /** The hash can be computed: there is a dataset for RandomX, and it is not Argon2. */
  predicate CanHash(job: Job, dataset: bool) {
    (job.family == RandomX ==> dataset) && job.family != Argon2
  }

  /** The nonces that meet the target, in order. */
  function Good(h: Hasher, job: Job, nonces: seq<nat>): seq<nat> {
    if nonces == [] then []
    else
      var n := nonces[|nonces| - 1];
      Good(h, job, nonces[..|nonces| - 1]) + if Meets(h, job, n) then [n] else []
  }

  function Bad(h: Hasher, job: Job, nonces: seq<nat>): seq<nat> {
    if nonces == [] then []
    else
      var n := nonces[|nonces| - 1];
      Bad(h, job, nonces[..|nonces| - 1]) + if Meets(h, job, n) then [] else [n]
  }

  function ResultsFor(h: Hasher, job: Job, nonces: seq<nat>): (r: seq<JobResult>)
    ensures |r| == |nonces|
  {
    seq(|nonces|, k requires 0 <= k < |nonces| => ResultOf(h, job, nonces[k]))
  }

  /** The nonces of a bundle that are answered with results. */
  function Answered(h: Hasher, b: Bundle, dataset: bool): seq<nat> {
    if CanHash(b.job, dataset) then Good(h, b.job, b.nonces) else []
  }

  /** The nonces of a bundle that count as errors. */
  function Failed(h: Hasher, b: Bundle, dataset: bool): seq<nat> {
    if CanHash(b.job, dataset) then Bad(h, b.job, b.nonces) else b.nonces
  }

  lemma {:induction false} GoodOrBad(h: Hasher, job: Job, nonces: seq<nat>)
    ensures multiset(Good(h, job, nonces)) + multiset(Bad(h, job, nonces)) == multiset(nonces)
  {
    hide Meets;
    if nonces != [] {
      var k := |nonces| - 1;
      GoodOrBad(h, job, nonces[..k]);
      assert nonces == nonces[..k] + [nonces[k]];
    }
  }

  lemma {:induction false} GoodMeets(h: Hasher, job: Job, nonces: seq<nat>)
    ensures forall n :: n in Good(h, job, nonces) ==> Meets(h, job, n)
    ensures forall n :: n in Bad(h, job, nonces) ==> !Meets(h, job, n)
  {
    hide Meets;
    if nonces != [] { GoodMeets(h, job, nonces[..|nonces| - 1]); }
  }

  /** No dataset for RandomX, or a family that is not checked: all nonces fail. */
  predicate NotChecked(job: Job, dataset: bool) {
    (job.family == RandomX && !dataset) || job.family == Argon2
  }

  /** Every nonce is answered or failed, as often as it was reported, and the answers are those below the target. */
  lemma EveryNonceOnce(h: Hasher, b: Bundle, dataset: bool)
    ensures multiset(Answered(h, b, dataset)) + multiset(Failed(h, b, dataset)) == multiset(b.nonces)
    ensures NotChecked(b.job, dataset) ==> Answered(h, b, dataset) == []
    ensures forall n :: n in Answered(h, b, dataset) ==> h.digest(b.job, n) / Pow(2, 192) < b.job.target
    ensures !NotChecked(b.job, dataset) ==>
              forall n :: n in Failed(h, b, dataset) ==> h.digest(b.job, n) / Pow(2, 192) >= b.job.target
    ensures |Answered(h, b, dataset)| + |Failed(h, b, dataset)| == |b.nonces|
  {
    GoodOrBad(h, b.job, b.nonces);
    GoodMeets(h, b.job, b.nonces);
    assert |multiset(b.nonces)| == |multiset(Answered(h, b, dataset))| + |multiset(Failed(h, b, dataset))|;
  }

  /** The nonces that meet the target keep their order. */
  lemma {:induction false} GoodInOrder(h: Hasher, job: Job, a: seq<nat>, b: seq<nat>)
    ensures Good(h, job, a + b) == Good(h, job, a) + Good(h, job, b)
    decreases |b|
  {
    hide Meets;
    if b == [] {
      assert a + b == a;
    } else {
      var k := |b| - 1;
      assert (a + b)[..|a| + k] == a + b[..k] && (a + b)[|a| + k] == b[k];
      GoodInOrder(h, job, a, b[..k]);
    }
  }

  /** The result is for this nonce of the job: its hash, below the target, and the nonce itself or the full one. */
  predicate Answers(h: Hasher, job: Job, nonce: nat, r: JobResult) {
    && r.job == job && r.digest == h.digest(job, nonce) && r.digest / Pow(2, 192) < job.target
    && (job.family == KawPow ==> r.nonce == h.fullNonce(job, nonce))
    && (job.family != KawPow ==> r.nonce == nonce)
  }

  /** The results of a bundle answer the answered nonces one by one. */
  lemma ResultsAnswer(h: Hasher, b: Bundle, dataset: bool)
    ensures var ns := Answered(h, b, dataset);
            var rs := ResultsFor(h, b.job, ns);
            |rs| == |ns| && forall k :: 0 <= k < |rs| ==> Answers(h, b.job, ns[k], rs[k])
  {
    EveryNonceOnce(h, b, dataset);
  }

  /** Only nonces of the bundle are answered, and only when it is checked. */
  lemma AnsweredIsReported(h: Hasher, b: Bundle, dataset: bool, n: nat)
    requires n in Answered(h, b, dataset)
    ensures n in b.nonces && !NotChecked(b.job, dataset)
  {
    EveryNonceOnce(h, b, dataset);
    assert n in multiset(Answered(h, b, dataset)) + multiset(Failed(h, b, dataset));
    assert n in multiset(b.nonces);
  }

  /** The nonces of results; for KawPow these are the full ones. */
  function NoncesOf(rs: seq<JobResult>): (ns: seq<nat>)
    ensures |ns| == |rs|
  {
    seq(|rs|, k requires 0 <= k < |rs| => rs[k].nonce)
  }

  /** Outside KawPow the nonces of the results and those that failed are the ones reported. */
  lemma ResultsAndFailures(h: Hasher, b: Bundle, dataset: bool)
    requires b.job.family != KawPow
    ensures multiset(NoncesOf(ResultsFor(h, b.job, Answered(h, b, dataset)))) + multiset(Failed(h, b, dataset))
            == multiset(b.nonces)
  {
    hide Answered, Failed;
    EveryNonceOnce(h, b, dataset);
    ResultsAnswer(h, b, dataset);
    assert NoncesOf(ResultsFor(h, b.job, Answered(h, b, dataset))) == Answered(h, b, dataset);
  }

  function ReportOf(h: Hasher, job: Job, nonce: nat): (Job, nat) {
    (job, if job.family == KawPow then h.fullNonce(job, nonce) else nonce)
  }

  /** Nonces as they are reported to a pool, with their job. */
  function Reports(h: Hasher, job: Job, nonces: seq<nat>): (r: seq<(Job, nat)>)
    ensures |r| == |nonces|
  {
    seq(|nonces|, k requires 0 <= k < |nonces| => ReportOf(h, job, nonces[k]))
  }

  function ReportsOf(rs: seq<JobResult>): (r: seq<(Job, nat)>)
    ensures |r| == |rs|
  {
    seq(|rs|, k requires 0 <= k < |rs| => (rs[k].job, rs[k].nonce))
  }

  lemma {:induction false} ReportsSplit(h: Hasher, job: Job, nonces: seq<nat>)
    ensures multiset(Reports(h, job, Good(h, job, nonces))) + multiset(Reports(h, job, Bad(h, job, nonces)))
            == multiset(Reports(h, job, nonces))
  {
    hide Meets;
    if nonces != [] {
      var k := |nonces| - 1;
      ReportsSplit(h, job, nonces[..k]);
      assert nonces == nonces[..k] + [nonces[k]];
      ReportsSnoc(h, job, nonces[..k], nonces[k]);
      ReportsSnoc(h, job, Good(h, job, nonces[..k]), nonces[k]);
      ReportsSnoc(h, job, Bad(h, job, nonces[..k]), nonces[k]);
    }
  }

  lemma ReportsSnoc(h: Hasher, job: Job, nonces: seq<nat>, n: nat)
    ensures Reports(h, job, nonces + [n]) == Reports(h, job, nonces) + Reports(h, job, [n])
    ensures Reports(h, job, nonces + []) == Reports(h, job, nonces)
    ensures multiset(Reports(h, job, nonces + [n]))
            == multiset(Reports(h, job, nonces)) + multiset(Reports(h, job, [n]))
  {
    assert nonces + [] == nonces;
  }

  /** What is reported of a bundle and what failed are all its nonces. */
  lemma BundleReports(h: Hasher, b: Bundle, dataset: bool)
    ensures multiset(ReportsOf(ResultsFor(h, b.job, Answered(h, b, dataset))))
            + multiset(Reports(h, b.job, Failed(h, b, dataset)))
            == multiset(Reports(h, b.job, b.nonces))
  {
    ReportsSplit(h, b.job, b.nonces);
    ResultsAnswer(h, b, dataset);
    assert ReportsOf(ResultsFor(h, b.job, Answered(h, b, dataset))) == Reports(h, b.job, Answered(h, b, dataset));
    assert multiset(Reports(h, b.job, [])) == multiset{};
  }

  /** Appends a result, or counts an error. */
  method CheckHash(h: Hasher, job: Job, nonce: nat, results: seq<JobResult>, errors: nat)
    returns (results': seq<JobResult>, errors': nat)
    ensures results' == if Meets(h, job, nonce) then results + [ResultOf(h, job, nonce)] else results
    ensures errors' == if Meets(h, job, nonce) then errors else errors + 1
  {
    results', errors' := results, errors;
    var hash := h.digest(job, nonce);
    if hash / Pow(2, 192) < job.target {
      results' := results + [JobResult(job, if job.family == KawPow then h.fullNonce(job, nonce) else nonce, hash)];
    } else {
      errors' := errors + 1;
    }
  }

  method GetResults(h: Hasher, b: Bundle, dataset: bool, results: seq<JobResult>, errors: nat)
    returns (results': seq<JobResult>, errors': nat)
    ensures results' == results + ResultsFor(h, b.job, Answered(h, b, dataset))
    ensures errors' == errors + |Failed(h, b, dataset)|
    ensures |results'| - |results| == |Answered(h, b, dataset)|
    ensures forall k :: 0 <= k < |Answered(h, b, dataset)| ==>
              Answers(h, b.job, Answered(h, b, dataset)[k], results'[|results| + k])
  {
    hide Meets, ResultOf, Answers, ResultsFor;
    ResultsAnswer(h, b, dataset);
    results', errors' := results, errors;
    if b.job.family == RandomX && !dataset {
      errors' := errors' + |b.nonces|;
    } else if b.job.family == Argon2 {
      errors' := errors' + |b.nonces|;
    } else {
      for i := 0 to |b.nonces|
        invariant results' == results + ResultsFor(h, b.job, Good(h, b.job, b.nonces[..i]))
        invariant errors' == errors + |Bad(h, b.job, b.nonces[..i])|
      {
        NextNonce(h, b.job, b.nonces, i);
        results', errors' := CheckHash(h, b.job, b.nonces[i], results', errors');
      }
      assert b.nonces[..|b.nonces|] == b.nonces;
    }
  }

  lemma NextNonce(h: Hasher, job: Job, nonces: seq<nat>, i: nat)
    requires i < |nonces|
    ensures Good(h, job, nonces[..i + 1])
            == Good(h, job, nonces[..i]) + if Meets(h, job, nonces[i]) then [nonces[i]] else []
    ensures Bad(h, job, nonces[..i + 1])
            == Bad(h, job, nonces[..i]) + if Meets(h, job, nonces[i]) then [] else [nonces[i]]
    ensures ResultsFor(h, job, Good(h, job, nonces[..i + 1]))
            == ResultsFor(h, job, Good(h, job, nonces[..i]))
               + if Meets(h, job, nonces[i]) then [ResultOf(h, job, nonces[i])] else []
  {
    hide Meets, ResultOf;
    assert nonces[..i + 1][..i] == nonces[..i];
  }
}
