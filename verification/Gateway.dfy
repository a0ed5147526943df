/** The prover gateway's job table, shared by HTTP threads and one fallback thread. */
module Gateway {
  import opened Outcomes

  type Id = nat
  type Text = seq<char>

  datatype Status = Queued | Claimed | ProvingLocal | Done | Error

  datatype Job = Job(
    inputs: Option<Text>, status: Status, created: int, claimed: Option<int>,
    bundle: Option<Text>, error: Option<Text>, doneAt: Option<int>, serial: nat)

  /** The fallback thread: idle, about to read the inputs of the job it marked, or proving what it read. */
  datatype Fallback =
    | Resting
    | Marked(id: Id)
    | Proving(id: Id, input: Option<Text>)

  /**
   * `jobs` is the shared table, a job's `serial` its place in insertion order, and `submitted` the next one;
   * `toWorker` and `toFallback` record every job handed out; `spent` are the ids ever used.
   */
  datatype State = State(
    jobs: map<Id, Job>, submitted: nat, fallback: Fallback,
    toWorker: seq<Id>, toFallback: seq<Id>, spent: set<Id>)

  const FALLBACK_SECS := 30
  const CLAIM_TIMEOUT := 1800
  const JOB_TTL := 900

  /** One lock-protected section each, except that the fallback reads its inputs outside the lock. */
  datatype Event =
    | Prove(id: Id, inputs: Text, now: int)
    | NextJob(id: Id, now: int)
    | Result(id: Id, bundle: Option<Text>, error: Text, now: int)
    | Purge(now: int)
    | PickFallback(id: Id, now: int)
    | ReadInputs
    | FinishFallback(outcome: Option<Text>, error: Text, now: int)

  function Rank(s: Status): nat {
    match s
    case Queued => 0
    case Claimed => 1
    case ProvingLocal => 2
    case Done => 3
    case Error => 3
  }

  predicate Finished(j: Job) {
    j.status == Done || j.status == Error
  }

  /** The stable sort by creation time puts `a` before `b`: ties stay in insertion order. */
  predicate Earlier(a: Job, b: Job) {
    a.created < b.created || (a.created == b.created && a.serial < b.serial)
  }

  /** The job the sorted scan meets first: every other eligible job comes later. */
  predicate Oldest(jobs: map<Id, Job>, id: Id, eligible: Job -> bool) {
    && id in jobs && eligible(jobs[id])
    && forall k :: k in jobs && k != id && eligible(jobs[k]) ==> Earlier(jobs[id], jobs[k])
  }

  predicate Offerable(j: Job) {
    j.status == Queued
  }

  predicate NeedsFallback(j: Job, now: int) {
    || (j.status == Queued && now - j.created > FALLBACK_SECS)
    || (j.status == Claimed && j.claimed.Some? && now - j.claimed.value > CLAIM_TIMEOUT)
  }

  predicate Purgeable(j: Job, now: int) {
    Finished(j) && j.doneAt.Some? && now - j.doneAt.value > JOB_TTL
  }

  predicate Enabled(s: State, e: Event) {
    match e
    case Prove(id, _, _) => id !in s.spent
    case NextJob(id, _) => Oldest(s.jobs, id, Offerable)
    case Result(id, _, _, _) => id in s.jobs
    case Purge(_) => s.fallback.Resting?
    case PickFallback(id, now) => s.fallback.Resting? && Oldest(s.jobs, id, j => NeedsFallback(j, now))
    case ReadInputs => s.fallback.Marked? && s.fallback.id in s.jobs
    case FinishFallback(outcome, _, _) =>
      s.fallback.Proving? && s.fallback.id in s.jobs && (s.fallback.input.None? ==> outcome.None?)
  }

  function NewJob(inputs: Text, now: int, serial: nat): Job {
    Job(Some(inputs), Queued, now, None, None, None, None, serial)
  }

  /** A worker's result: a non-empty bundle wins, anything else is an error; the witness is scrubbed either way. */
  function WithResult(j: Job, bundle: Option<Text>, error: Text, now: int): Job {
    var k := if bundle.Some? then j.(bundle := bundle, status := Done) else j.(status := Error, error := Some(error));
    k.(inputs := None, doneAt := Some(now))
  }

  function Step(s: State, e: Event): State
    requires Enabled(s, e)
  {
    match e
    case Prove(id, inputs, now) =>
      s.(jobs := s.jobs[id := NewJob(inputs, now, s.submitted)], submitted := s.submitted + 1, spent := s.spent + {id})
    case NextJob(id, now) =>
      s.(jobs := s.jobs[id := s.jobs[id].(status := Claimed, claimed := Some(now))], toWorker := s.toWorker + [id])
    case Result(id, bundle, error, now) =>
      s.(jobs := s.jobs[id := WithResult(s.jobs[id], bundle, error, now)])
    case Purge(now) =>
      s.(jobs := map k | k in s.jobs && !Purgeable(s.jobs[k], now) :: s.jobs[k])
    case PickFallback(id, now) =>
      s.(jobs := s.jobs[id := s.jobs[id].(status := ProvingLocal)], fallback := Marked(id),
          toFallback := s.toFallback + [id])
    case ReadInputs =>
      s.(fallback := Proving(s.fallback.id, s.jobs[s.fallback.id].inputs))
    case FinishFallback(outcome, error, now) =>
      s.(jobs := s.jobs[s.fallback.id := WithResult(s.jobs[s.fallback.id], outcome, error, now)], fallback := Resting)
  }

  ghost predicate JobValid(j: Job) {
    && (Finished(j) <==> j.inputs.None?)
    && (Finished(j) <==> j.doneAt.Some?)
    && (j.status == Done ==> j.bundle.Some?)
    && (j.status == Error ==> j.error.Some?)
    && (j.bundle.Some? ==> Finished(j))
  }

  predicate Distinct(ids: seq<Id>) {
    forall i, j :: 0 <= i < j < |ids| ==> ids[i] != ids[j]
  }

  /** No two jobs share a place in insertion order. */
  predicate Serials(jobs: map<Id, Job>, submitted: nat) {
    && (forall k :: k in jobs ==> jobs[k].serial < submitted)
    && forall k, l :: k in jobs && l in jobs && k != l ==> jobs[k].serial != jobs[l].serial
  }

  ghost predicate Valid(s: State) {
    Consistent(s) && Serials(s.jobs, s.submitted)
  }

  ghost predicate Consistent(s: State) {
    && (forall k :: k in s.jobs ==> k in s.spent && JobValid(s.jobs[k]))
    && Distinct(s.toWorker) && Distinct(s.toFallback)
    && (forall k :: k in s.toWorker ==> k in s.spent && (k in s.jobs ==> Rank(s.jobs[k].status) >= 1))
    && (forall k :: k in s.toFallback ==> k in s.spent && (k in s.jobs ==> Rank(s.jobs[k].status) >= 2))
    && (!s.fallback.Resting? ==> s.fallback.id in s.jobs && Rank(s.jobs[s.fallback.id].status) >= 2)
  }

  lemma StepSerials(s: State, e: Event)
    requires Serials(s.jobs, s.submitted) && Enabled(s, e)
    ensures Serials(Step(s, e).jobs, Step(s, e).submitted)
  {}

  lemma StepValid(s: State, e: Event)
    requires Valid(s) && Enabled(s, e)
    ensures Valid(Step(s, e))
  {
    hide Consistent, Enabled, Step, Serials;
    StepSerials(s, e);
    match e
    case NextJob(_, _) => NextJobValid(s, e);
    case PickFallback(_, _) => PickFallbackValid(s, e);
    case Purge(_) => PurgeValid(s, e);
    case Prove(_, _, _) => ProveValid(s, e);
    case Result(_, _, _, _) => ResultValid(s, e);
    case ReadInputs => ReadValid(s, e);
    case FinishFallback(_, _, _) => FinishValid(s, e);
  }

  lemma NextJobValid(s: State, e: Event)
    requires Consistent(s) && Enabled(s, e) && e.NextJob?
    ensures Consistent(Step(s, e))
  {
    var s' := Step(s, e);
    assert Offerable(s.jobs[e.id]);
    assert e.id !in s.toWorker && e.id !in s.toFallback;
    assert JobValid(s'.jobs[e.id]) && Rank(s'.jobs[e.id].status) == 1;
    hide JobValid, Rank, Oldest;
    assert forall k :: k in s'.toWorker <==> k in s.toWorker || k == e.id;
  }

  lemma PickFallbackValid(s: State, e: Event)
    requires Consistent(s) && Enabled(s, e) && e.PickFallback?
    ensures Consistent(Step(s, e))
  {
    var s' := Step(s, e);
    assert NeedsFallback(s.jobs[e.id], e.now);
    assert e.id !in s.toFallback;
    assert JobValid(s'.jobs[e.id]) && Rank(s'.jobs[e.id].status) == 2 && Rank(s.jobs[e.id].status) < 2;
    hide JobValid, Rank, Oldest, NeedsFallback;
    assert forall k :: k in s'.toFallback <==> k in s.toFallback || k == e.id;
  }

  lemma PurgeValid(s: State, e: Event)
    requires Consistent(s) && Enabled(s, e) && e.Purge?
    ensures Consistent(Step(s, e))
  {}

  lemma ProveValid(s: State, e: Event)
    requires Consistent(s) && Enabled(s, e) && e.Prove?
    ensures Consistent(Step(s, e))
  {}

  lemma ResultValid(s: State, e: Event)
    requires Consistent(s) && Enabled(s, e) && e.Result?
    ensures Consistent(Step(s, e))
  {
    var s' := Step(s, e);
    assert JobValid(s'.jobs[e.id]) && Rank(s'.jobs[e.id].status) == 3;
    hide JobValid, WithResult, Rank;
  }

  lemma FinishValid(s: State, e: Event)
    requires Consistent(s) && Enabled(s, e) && e.FinishFallback?
    ensures Consistent(Step(s, e))
  {
    var s' := Step(s, e);
    assert JobValid(s'.jobs[s.fallback.id]) && Rank(s'.jobs[s.fallback.id].status) == 3;
    hide JobValid, WithResult, Rank;
  }

  lemma ReadValid(s: State, e: Event)
    requires Consistent(s) && Enabled(s, e) && e.ReadInputs?
    ensures Consistent(Step(s, e))
  {}

  /** The events that report a failure for a job, whatever its state. */
  predicate ReportsFailure(s: State, e: Event, id: Id) {
    || (e.Result? && e.id == id && e.bundle.None?)
    || (e.FinishFallback? && s.fallback.Proving? && s.fallback.id == id && e.outcome.None?)
  }

  /** One step never lowers a job's rank and never drops a stored bundle; a done job stays done exactly when the step
      reports no failure for it. */
  lemma StepMonotone(s: State, e: Event, id: Id)
    requires Valid(s) && Enabled(s, e) && id in s.jobs && id in Step(s, e).jobs
    ensures Rank(Step(s, e).jobs[id].status) >= Rank(s.jobs[id].status)
    ensures s.jobs[id].bundle.Some? ==> Step(s, e).jobs[id].bundle.Some?
    ensures s.jobs[id].status == Done ==> (Step(s, e).jobs[id].status == Done <==> !ReportsFailure(s, e, id))
  {}

  /** Only the purge removes a job, and only one finished more than JOB_TTL ago. */
  lemma OnlyPurgeRemoves(s: State, e: Event, id: Id)
    requires Valid(s) && Enabled(s, e) && id in s.jobs && id !in Step(s, e).jobs
    ensures e.Purge? && Finished(s.jobs[id]) && e.now - s.jobs[id].doneAt.value > JOB_TTL
  {}

  /** And it removes all of those. */
  lemma PurgedExactlyWhen(s: State, now: int, id: Id)
    requires Valid(s) && Enabled(s, Purge(now)) && id in s.jobs
    ensures var (j, s') := (s.jobs[id], Step(s, Purge(now)));
            && (id !in s'.jobs <==> (j.status == Done || j.status == Error) && now - j.doneAt.value > JOB_TTL)
            && (id in s'.jobs ==> s'.jobs[id] == j)
  {}

  /** What a step reports for a job: nothing, a proof, or a failure. */
  function Reported(s: State, e: Event, id: Id): Option<Option<Text>> {
    match e
    case Result(k, bundle, _, _) => if k == id then Some(bundle) else None
    case FinishFallback(outcome, _, _) =>
      if s.fallback.Proving? && s.fallback.id == id then Some(outcome) else None
    case _ => None
  }

  /** A report is recorded as it is: a proof becomes the bundle of a done job, a failure leaves the bundle alone and
      makes the job an error. Nothing but a report touches the bundle or finishes a job. */
  lemma ReportRecorded(s: State, e: Event, id: Id)
    requires Valid(s) && Enabled(s, e) && id in s.jobs && id in Step(s, e).jobs
    ensures
      var (j, k) := (s.jobs[id], Step(s, e).jobs[id]);
      && k.created == j.created && k.serial == j.serial
      && match Reported(s, e, id)
         case Some(Some(b)) =>
           && k.status == Done && k.bundle == Some(b) && k.error == j.error && k.inputs == None
           && k.doneAt == Some(e.now)
         case Some(None) =>
           && k.status == Error && k.error == Some(e.error) && k.bundle == j.bundle && k.inputs == None
           && k.doneAt == Some(e.now)
         case None =>
           && k.bundle == j.bundle && k.error == j.error && k.inputs == j.inputs && k.doneAt == j.doneAt
           && (k.status == j.status || e == NextJob(id, e.now) || e == PickFallback(id, e.now))
  {}

  ghost predicate Run(s: State, events: seq<Event>, s': State)
    decreases |events|
  {
    if events == [] then s' == s
    else Enabled(s, events[0]) && Run(Step(s, events[0]), events[1..], s')
  }

  function Empty(): State {
    State(map[], 0, Resting, [], [], {})
  }

  lemma {:induction false} RunValid(s: State, events: seq<Event>, s': State)
    requires Valid(s) && Run(s, events, s')
    ensures Valid(s')
    decreases |events|
  {
    hide Valid;
    if events != [] {
      StepValid(s, events[0]);
      RunValid(Step(s, events[0]), events[1..], s');
    }
  }

  /** Over every interleaving: a job goes to a worker at most once and to the fallback at most once, finished means
      scrubbed and stamped, unfinished means the inputs are still there. */
  lemma HandedOutOnce(events: seq<Event>, s: State)
    requires Run(Empty(), events, s)
    ensures Distinct(s.toWorker) && Distinct(s.toFallback)
    ensures forall k :: k in s.jobs ==>
              (Finished(s.jobs[k]) <==> s.jobs[k].inputs.None?) && (Finished(s.jobs[k]) <==> s.jobs[k].doneAt.Some?)
  {
    RunValid(Empty(), events, s);
  }

  /** Over whole runs too: while a job is in the table its rank only rises and its bundle, once stored, remains. */
  lemma {:induction false} RunMonotone(s: State, events: seq<Event>, s': State, id: Id)
    requires Valid(s) && Run(s, events, s') && id in s.jobs && id in s'.jobs
    ensures Rank(s'.jobs[id].status) >= Rank(s.jobs[id].status)
    ensures s.jobs[id].bundle.Some? ==> s'.jobs[id].bundle.Some?
    decreases |events|
  {
    hide Valid;
    if events != [] {
      var s1 := Step(s, events[0]);
      StepValid(s, events[0]);
      if id in s1.jobs {
        StepMonotone(s, events[0], id);
        RunMonotone(s1, events[1..], s', id);
      } else {
        SpentStays(s, s1, events[0], id);
        GoneStaysGone(s1, events[1..], s', id);
      }
    }
  }

  lemma SpentStays(s: State, s1: State, e: Event, id: Id)
    requires Valid(s) && Enabled(s, e) && s1 == Step(s, e) && id in s.jobs
    ensures id in s1.spent
  {}

  lemma {:induction false} GoneStaysGone(s: State, events: seq<Event>, s': State, id: Id)
    requires Run(s, events, s') && id in s.spent && id !in s.jobs && (!s.fallback.Resting? ==> s.fallback.id != id)
    ensures id !in s'.jobs
    decreases |events|
  {
    if events != [] {
      GoneStaysGone(Step(s, events[0]), events[1..], s', id);
    }
  }

  lemma RunCons(s: State, e: Event, events: seq<Event>, s': State)
    requires Enabled(s, e) && Run(Step(s, e), events, s')
    ensures Run(s, [e] + events, s')
  {
    assert ([e] + events)[0] == e && ([e] + events)[1..] == events;
  }

  /** A worker's result can be lost: landing after the fallback marked the job and before it reads the inputs, it makes
      the job done; the fallback then reads nothing, can only fail, and overwrites done with error. The bundle stays. */
  lemma LateResultOverwritten(s: State, bundle: Text, now: int, error: Text, later: int)
    requires Valid(s) && s.fallback.Marked?
    ensures var id := s.fallback.id;
            var result := Result(id, Some(bundle), error, now);
            Enabled(s, result) && Step(s, result).jobs[id].status == Done
            && Enabled(Step(s, result), ReadInputs)
            && var read := Step(Step(s, result), ReadInputs);
               && (forall outcome :: Enabled(read, FinishFallback(outcome, error, later)) <==> outcome.None?)
               && Step(read, FinishFallback(None, error, later)).jobs[id].status == Error
               && Step(read, FinishFallback(None, error, later)).jobs[id].bundle == Some(bundle)
  {}

  /** Such a state is reached by a worker that claims a job and answers only after CLAIM_TIMEOUT. */
  lemma StaleClaimIsMarked(id: Id, inputs: Text) returns (events: seq<Event>, s: State)
    ensures Run(Empty(), events, s) && s.fallback == Marked(id) && s.toWorker == [id]
  {
    var s0 := Empty();
    var e1 := Prove(id, inputs, 0);
    var s1 := Step(s0, e1);
    var e2 := NextJob(id, 1);
    assert Oldest(s1.jobs, id, Offerable);
    var s2 := Step(s1, e2);
    var e3 := PickFallback(id, CLAIM_TIMEOUT + 2);
    assert Oldest(s2.jobs, id, j => NeedsFallback(j, CLAIM_TIMEOUT + 2));
    s := Step(s2, e3);
    RunCons(s2, e3, [], s);
    RunCons(s1, e2, [e3] + [], s);
    RunCons(s0, e1, [e2] + ([e3] + []), s);
    events := [e1] + ([e2] + ([e3] + []));
  }

  /** Some event reported this very proof for the job, or, by the fallback thread, for whatever it was proving. */
  ghost predicate WasReported(events: seq<Event>, id: Id, b: Text) {
    exists e :: e in events && ((e.Result? && e.id == id && e.bundle == Some(b))
                                || (e.FinishFallback? && e.outcome == Some(b)))
  }

  /** Over every run, a bundle a client can fetch was reported as a proof, by a worker for that job or by the
      fallback. */
  lemma {:induction false} BundleWasReported(s: State, events: seq<Event>, s': State, id: Id, b: Text)
    requires Valid(s) && Run(s, events, s') && id in s'.jobs && s'.jobs[id].bundle == Some(b)
    ensures (id in s.jobs && s.jobs[id].bundle == Some(b)) || WasReported(events, id, b)
    decreases |events|
  {
    hide Valid;
    if events != [] {
      var (e, rest, s1) := (events[0], events[1..], Step(s, events[0]));
      StepValid(s, e);
      BundleWasReported(s1, rest, s', id, b);
      if WasReported(rest, id, b) {
        var r :| r in rest && ((r.Result? && r.id == id && r.bundle == Some(b))
                               || (r.FinishFallback? && r.outcome == Some(b)));
        assert r in events;
      } else if id in s.jobs {
        ReportRecorded(s, e, id);
      }
    }
  }

  // ---- the fallback's part ----

  lemma {:induction false} OldestExists(jobs: map<Id, Job>, submitted: nat, ids: set<Id>, eligible: Job -> bool)
    returns (id: Id)
    requires Serials(jobs, submitted) && ids <= jobs.Keys && exists k :: k in ids && eligible(jobs[k])
    ensures id in ids && eligible(jobs[id])
    ensures forall k :: k in ids && k != id && eligible(jobs[k]) ==> Earlier(jobs[id], jobs[k])
    decreases |ids|
  {
    var k :| k in ids && eligible(jobs[k]);
    id := k;
    if exists l :: l in ids - {k} && eligible(jobs[l]) {
      var first := OldestExists(jobs, submitted, ids - {k}, eligible);
      if Earlier(jobs[first], jobs[k]) {
        id := first;
      }
    }
  }

  /** Nobody waits for a worker for ever: from FALLBACK_SECS after a submission on, and from CLAIM_TIMEOUT after a claim
      that was not answered, the resting fallback thread picks a job. */
  lemma FallbackSteps(s: State, id: Id, now: int) returns (picked: Id)
    requires Valid(s) && s.fallback.Resting? && id in s.jobs
    requires (s.jobs[id].status == Queued && now - s.jobs[id].created > FALLBACK_SECS)
             || (s.jobs[id].status == Claimed && s.jobs[id].claimed.Some?
                 && now - s.jobs[id].claimed.value > CLAIM_TIMEOUT)
    ensures picked in s.jobs && Enabled(s, PickFallback(picked, now))
    ensures s.jobs[picked].created <= s.jobs[id].created
  {
    var eligible := j => NeedsFallback(j, now);
    assert eligible(s.jobs[id]);
    picked := OldestExists(s.jobs, s.submitted, s.jobs.Keys, eligible);
    assert Oldest(s.jobs, picked, j => NeedsFallback(j, now));
  }

  /** What a step leaves of the job's time of submission, and of the time of a claim. */
  lemma {:induction false} CreatedKept(s: State, events: seq<Event>, s': State, id: Id)
    requires Valid(s) && Run(s, events, s') && id in s.jobs && id in s'.jobs
    ensures s'.jobs[id].created == s.jobs[id].created
    decreases |events|
  {
    hide Valid;
    if events != [] {
      var s1 := Step(s, events[0]);
      StepValid(s, events[0]);
      if id in s1.jobs {
        ReportRecorded(s, events[0], id);
        CreatedKept(s1, events[1..], s', id);
      } else {
        SpentStays(s, s1, events[0], id);
        GoneStaysGone(s1, events[1..], s', id);
      }
    }
  }

  /** Over every run from its submission: a job no worker took in FALLBACK_SECS makes the resting fallback pick it or an
      older one. */
  lemma UnclaimedIsPicked(s: State, id: Id, inputs: Text, now: int, events: seq<Event>, s': State, later: int)
    returns (picked: Id)
    requires Valid(s) && Run(s, [Prove(id, inputs, now)] + events, s') && s'.fallback.Resting?
    requires id in s'.jobs && s'.jobs[id].status == Queued && later - now > FALLBACK_SECS
    ensures picked in s'.jobs && Enabled(s', PickFallback(picked, later)) && s'.jobs[picked].created <= now
  {
    hide Valid;
    var e := Prove(id, inputs, now);
    assert ([e] + events)[0] == e && ([e] + events)[1..] == events;
    StepValid(s, e);
    RunValid(Step(s, e), events, s');
    CreatedKept(Step(s, e), events, s', id);
    picked := FallbackSteps(s', id, later);
  }

  /** From submission to the fallback's read: what it proves is what was submitted, unless the job was finished in
      between, when it reads nothing. */
  lemma FallbackReadsSubmitted(s: State, id: Id, inputs: Text, now: int, events: seq<Event>, s': State)
    requires Valid(s) && Run(s, [Prove(id, inputs, now)] + events, s') && s'.fallback == Marked(id)
    ensures Valid(s') && id in s'.jobs && Enabled(s', ReadInputs)
    ensures Step(s', ReadInputs).fallback == Proving(id, if Finished(s'.jobs[id]) then None else Some(inputs))
  {
    hide Valid;
    var e := Prove(id, inputs, now);
    assert ([e] + events)[0] == e && ([e] + events)[1..] == events;
    StepValid(s, e);
    RunValid(Step(s, e), events, s');
    MarkedInTable(s');
    if !Finished(s'.jobs[id]) {
      InputsKept(Step(s, e), events, s', id);
    } else {
      FinishedHasNone(s', id);
    }
  }

  lemma FinishedHasNone(s: State, id: Id)
    requires Valid(s) && id in s.jobs && Finished(s.jobs[id])
    ensures s.jobs[id].inputs == None
  {}

  /** What a client submits is what a worker is handed, however late, and what the fallback reads if nobody answers. */
  lemma {:induction false} InputsKept(s: State, events: seq<Event>, s': State, id: Id)
    requires Valid(s) && Run(s, events, s') && id in s.jobs && id in s'.jobs && !Finished(s'.jobs[id])
    ensures s'.jobs[id].inputs == s.jobs[id].inputs
    decreases |events|
  {
    hide Valid;
    if events != [] {
      var s1 := Step(s, events[0]);
      StepValid(s, events[0]);
      if id in s1.jobs {
        RunMonotone(s1, events[1..], s', id);
        StepKeepsInputs(s, events[0], id);
        InputsKept(s1, events[1..], s', id);
      } else {
        SpentStays(s, s1, events[0], id);
        GoneStaysGone(s1, events[1..], s', id);
      }
    }
  }

  lemma StepKeepsInputs(s: State, e: Event, id: Id)
    requires Valid(s) && Enabled(s, e) && id in s.jobs && id in Step(s, e).jobs && !Finished(Step(s, e).jobs[id])
    ensures Step(s, e).jobs[id].inputs == s.jobs[id].inputs
  {}

  /** From submission to hand-out, over every run in between: the worker that claims the job gets exactly the submitted
      inputs, and no worker did before. */
  lemma SubmittedIsHandedOut(s: State, id: Id, inputs: Text, now: int, events: seq<Event>, s': State, later: int)
    requires Valid(s) && Run(s, [Prove(id, inputs, now)] + events, s') && Enabled(s', NextJob(id, later))
    ensures s'.jobs[id].inputs == Some(inputs)
    ensures id !in s'.toWorker && Step(s', NextJob(id, later)).toWorker == s'.toWorker + [id]
  {
    hide Valid;
    var e := Prove(id, inputs, now);
    assert ([e] + events)[0] == e && ([e] + events)[1..] == events;
    StepValid(s, e);
    RunValid(Step(s, e), events, s');
    InputsKept(Step(s, e), events, s', id);
    QueuedNotHandedOut(s', id);
  }

  lemma QueuedNotHandedOut(s: State, id: Id)
    requires Valid(s) && id in s.jobs && s.jobs[id].status == Queued
    ensures id !in s.toWorker
  {}

  /** The scan has one answer. */
  lemma OldestUnique(s: State, id: Id, other: Id, eligible: Job -> bool)
    requires Oldest(s.jobs, id, eligible) && Oldest(s.jobs, other, eligible)
    ensures id == other
  {}

  // ---- the table object ----

  /** The shared dict; each method is one section under the lock. `state` is the machine state the table is in. */
  class JobTable {
    var jobs: map<Id, Job>
    var submitted: nat
    ghost var state: State

    /** The fields are those of a valid machine state. */
    ghost predicate Linked()
      reads this
    {
      Valid(state) && state.jobs == jobs && state.submitted == submitted
    }

    constructor ()
      ensures Linked() && state == Empty()
    {
      jobs := map[];
      submitted := 0;
      state := Empty();
    }

    /** POST /prove, after validation: the uuid was never used before. */
    method Submit(id: Id, inputs: Text, now: int)
      requires Linked() && id !in state.spent
      modifies this
      ensures Linked() && state == Step(old(state), Prove(id, inputs, now))
    {
      hide Valid;
      StepValid(state, Prove(id, inputs, now));
      state := Step(state, Prove(id, inputs, now));
      jobs := jobs[id := Job(Some(inputs), Queued, now, None, None, None, None, submitted)];
      submitted := submitted + 1;
    }

    /** The scan of the jobs sorted by creation: the first one that is eligible. */
    method FirstEligible(eligible: Job -> bool) returns (r: Option<Id>)
      requires Serials(jobs, submitted)
      ensures r.Some? ==> Oldest(jobs, r.value, eligible)
      ensures r.None? ==> forall k :: k in jobs ==> !eligible(jobs[k])
    {
      var todo := jobs.Keys;
      r := None;
      while todo != {}
        invariant todo <= jobs.Keys
        invariant r.Some? ==> r.value in jobs && r.value !in todo && eligible(jobs[r.value])
        invariant forall k :: k in jobs && k !in todo && eligible(jobs[k]) ==>
                    r.Some? && (k == r.value || Earlier(jobs[r.value], jobs[k]))
        decreases |todo|
      {
        var k :| k in todo;
        todo := todo - {k};
        if eligible(jobs[k]) && (r.None? || Earlier(jobs[k], jobs[r.value])) {
          r := Some(k);
        }
      }
    }

    /** GET /jobs/next: claims the oldest queued job and returns its inputs, or nothing is queued. */
    method NextJob(now: int) returns (r: Option<(Id, Text)>)
      requires Linked()
      modifies this
      ensures Linked()
      ensures r.None? ==> state == old(state) && forall k :: k in jobs ==> jobs[k].status != Queued
      ensures r.Some? ==>
        var e := Event.NextJob(r.value.0, now);
        Enabled(old(state), e) && state == Step(old(state), e) && old(jobs)[r.value.0].inputs == Some(r.value.1)
      ensures r.Some? ==>
        var id := r.value.0;
        && old(jobs)[id].status == Queued && jobs[id].status == Claimed && jobs[id].claimed == Some(now)
        && forall k :: k in old(jobs) && old(jobs)[k].status == Queued ==> old(jobs)[id].created <= old(jobs)[k].created
    {
      hide Valid;
      LinkedSerials(state);
      var first := FirstEligible(Offerable);
      if first.None? {
        return None;
      }
      var id := first.value;
      UnfinishedHasInputs(state, id);
      StepValid(state, Event.NextJob(id, now));
      state := Step(state, Event.NextJob(id, now));
      jobs := jobs[id := jobs[id].(status := Claimed, claimed := Some(now))];
      r := Some((id, jobs[id].inputs.value));
    }

    /** POST /jobs/<id>/result. */
    method PostResult(id: Id, bundle: Option<Text>, error: Text, now: int) returns (known: bool)
      requires Linked()
      modifies this
      ensures Linked() && known == (id in old(jobs))
      ensures state == if known then Step(old(state), Result(id, bundle, error, now)) else old(state)
    {
      hide Valid;
      if id !in jobs {
        return false;
      }
      StepValid(state, Result(id, bundle, error, now));
      state := Step(state, Result(id, bundle, error, now));
      var j := jobs[id];
      if bundle.Some? {
        j := j.(bundle := bundle, status := Done);
      } else {
        j := j.(status := Error, error := Some(error));
      }
      jobs := jobs[id := j.(inputs := None, doneAt := Some(now))];
      return true;
    }

    /** The fallback thread's purge of finished jobs. */
    method PurgeFinished(now: int)
      requires Linked() && state.fallback.Resting?
      modifies this
      ensures Linked() && state == Step(old(state), Purge(now))
    {
      hide Valid;
      StepValid(state, Purge(now));
      state := Step(state, Purge(now));
      DeletePurgeable(now);
    }

    method DeletePurgeable(now: int)
      modifies this`jobs
      ensures jobs == map k | k in old(jobs) && !Purgeable(old(jobs)[k], now) :: old(jobs)[k]
    {
      var todo := set k | k in jobs && Purgeable(jobs[k], now);
      ghost var doomed := todo;
      assert forall k :: k in doomed <==> k in old(jobs) && Purgeable(old(jobs)[k], now);
      while todo != {}
        invariant todo <= doomed
        invariant jobs.Keys == old(jobs).Keys - (doomed - todo)
        invariant forall k :: k in jobs ==> jobs[k] == old(jobs)[k]
        decreases |todo|
      {
        var k :| k in todo;
        jobs := jobs - {k};
        todo := todo - {k};
      }
      assert jobs.Keys == set k | k in old(jobs) && !Purgeable(old(jobs)[k], now);
    }

    /** The fallback thread's pick: a job nobody claimed in time, or a claim gone stale. */
    method PickForFallback(now: int) returns (r: Option<Id>)
      requires Linked() && state.fallback.Resting?
      modifies this
      ensures Linked()
      ensures r.None? ==> state == old(state) && forall k :: k in jobs ==> !NeedsFallback(jobs[k], now)
      ensures r.Some? ==>
        Enabled(old(state), PickFallback(r.value, now)) && state == Step(old(state), PickFallback(r.value, now))
      ensures r.None? ==> forall k :: k in jobs ==>
                && !(jobs[k].status == Queued && now - jobs[k].created > FALLBACK_SECS)
                && !(jobs[k].status == Claimed && jobs[k].claimed.Some?
                     && now - jobs[k].claimed.value > CLAIM_TIMEOUT)
      ensures r.Some? ==>
                var j := old(jobs)[r.value];
                || (j.status == Queued && now - j.created > FALLBACK_SECS)
                || (j.status == Claimed && j.claimed.Some? && now - j.claimed.value > CLAIM_TIMEOUT)
    {
      hide Valid;
      LinkedSerials(state);
      r := FirstEligible(j => NeedsFallback(j, now));
      if r.Some? {
        StepValid(state, PickFallback(r.value, now));
        state := Step(state, PickFallback(r.value, now));
        jobs := jobs[r.value := jobs[r.value].(status := ProvingLocal)];
      }
    }

    /** The fallback thread's read of the record it marked, outside the lock. */
    method TakeInputs(id: Id) returns (inputs: Option<Text>)
      requires Linked() && state.fallback == Marked(id)
      modifies this`state
      ensures Linked() && state == Step(old(state), ReadInputs) && inputs == state.fallback.input
    {
      MarkedInTable(state);
      hide Valid;
      StepValid(state, ReadInputs);
      state := Step(state, ReadInputs);
      inputs := jobs[id].inputs;
    }

    /** The end of a local proof, in either outcome: the record the thread holds is finished whatever became of it. */
    method FinishFallback(id: Id, outcome: Option<Text>, error: Text, now: int)
      requires Linked() && state.fallback.Proving? && state.fallback.id == id
      requires state.fallback.input.None? ==> outcome.None?
      modifies this
      ensures Linked() && state == Step(old(state), Event.FinishFallback(outcome, error, now))
    {
      MarkedInTable(state);
      hide Valid;
      StepValid(state, Event.FinishFallback(outcome, error, now));
      state := Step(state, Event.FinishFallback(outcome, error, now));
      var j := jobs[id];
      match outcome {
        case Some(_) => j := j.(status := Done, bundle := outcome);
        case None => j := j.(status := Error, error := Some(error));
      }
      jobs := jobs[id := j.(inputs := None, doneAt := Some(now))];
    }
  }

  lemma LinkedSerials(s: State)
    requires Valid(s)
    ensures Serials(s.jobs, s.submitted)
  {}

  lemma UnfinishedHasInputs(s: State, id: Id)
    requires Valid(s) && id in s.jobs && !Finished(s.jobs[id])
    ensures s.jobs[id].inputs.Some?
  {}

  lemma MarkedInTable(s: State)
    requires Valid(s) && !s.fallback.Resting?
    ensures s.fallback.id in s.jobs
  {}
}
