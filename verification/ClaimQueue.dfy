/** The promise-chain queue of the faucet: claims run one at a time, in arrival order, and a failure blocks nobody. */
module ClaimQueue {
  import opened Outcomes

  type Address = nat

  /** The promise `run` of one claim: not started, inside its body since the re-check at `checkedAt`, or settled. */
  datatype Run =
    | Waiting
    | Running(checkedAt: int)
    | Fulfilled(checkedAt: int, recordedAt: Option<int>)
    | RateLimited
    | Rejected

  datatype Claim = Claim(address: Address, run: Run)

  /** `claims` in arrival order; `ledger` is the persistent last-claim record; `clock` never goes back. */
  datatype State = State(claims: seq<Claim>, ledger: map<Address, int>, clock: int)

  datatype Event =
    | Arrive(address: Address)
    | Start(i: nat, now: int)
    | PaidSome(i: nat, now: int)
    | PaidNone(i: nat)
    | Throw(i: nat)

  predicate Settled(r: Run) {
    r.Fulfilled? || r.RateLimited? || r.Rejected?
  }

  /** `chain = run.catch(() => {})`: the link a claim waits on resolves when the run before it settles either way. */
  predicate LinkResolved(s: State, i: nat)
    requires i < |s.claims|
  {
    i == 0 || Settled(s.claims[i - 1].run)
  }

  function LastClaim(s: State, a: Address): int {
    if a in s.ledger then s.ledger[a] else 0
  }

  predicate Enabled(s: State, e: Event) {
    match e
    case Arrive(_) => true
    case Start(i, now) => i < |s.claims| && s.claims[i].run == Waiting && LinkResolved(s, i) && now >= s.clock
    case PaidSome(i, now) => i < |s.claims| && s.claims[i].run.Running? && now >= s.clock
    case PaidNone(i) => i < |s.claims| && s.claims[i].run.Running?
    case Throw(i) => i < |s.claims| && s.claims[i].run.Running?
  }

  function WithRun(s: State, i: nat, r: Run): State
    requires i < |s.claims|
  {
    s.(claims := s.claims[i := s.claims[i].(run := r)])
  }

  /** The claim body re-checks the window first; only a claim that paid something is recorded. */
  function Step(s: State, e: Event, windowMs: int): State
    requires Enabled(s, e)
  {
    match e
    case Arrive(a) => s.(claims := s.claims + [Claim(a, Waiting)])
    case Start(i, now) =>
      var tooSoon := now - LastClaim(s, s.claims[i].address) < windowMs;
      WithRun(s, i, if tooSoon then RateLimited else Running(now)).(clock := now)
    case PaidSome(i, now) =>
      WithRun(s, i, Fulfilled(s.claims[i].run.checkedAt, Some(now)))
        .(ledger := s.ledger[s.claims[i].address := now], clock := now)
    case PaidNone(i) => WithRun(s, i, Fulfilled(s.claims[i].run.checkedAt, None))
    case Throw(i) => WithRun(s, i, Rejected)
  }

  predicate Recorded(c: Claim) {
    c.run.Fulfilled? && c.run.recordedAt.Some?
  }

  predicate Checked(c: Claim) {
    c.run.Running? || c.run.Fulfilled?
  }

  /** Everything before a started claim has settled. */
  predicate InOrder(s: State) {
    forall i, j :: 0 <= i < j < |s.claims| && s.claims[j].run != Waiting ==> Settled(s.claims[i].run)
  }

  /** Two claims of one wallet that were let through are a whole window apart. */
  predicate Spaced(s: State, windowMs: int) {
    forall i, j ::
      0 <= i < j < |s.claims| && s.claims[i].address == s.claims[j].address && Recorded(s.claims[i])
          && Checked(s.claims[j])
      ==> s.claims[j].run.checkedAt - s.claims[i].run.recordedAt.value >= windowMs
  }

  ghost predicate Valid(s: State, windowMs: int) {
    && InOrder(s) && Spaced(s, windowMs)
    && forall i :: 0 <= i < |s.claims| && Recorded(s.claims[i]) ==>
         var (a, t) := (s.claims[i].address, s.claims[i].run.recordedAt.value);
         t <= s.clock && a in s.ledger && t <= s.ledger[a]
  }

  lemma StepValid(s: State, e: Event, windowMs: int)
    requires Valid(s, windowMs) && Enabled(s, e)
    ensures Valid(Step(s, e, windowMs), windowMs)
  {
    match e
    case Start(i, now) => StartValid(s, e, windowMs);
    case PaidSome(i, now) => PaidSomeValid(s, e, windowMs);
    case _ => OtherValid(s, e, windowMs);
  }

  lemma StartValid(s: State, e: Event, windowMs: int)
    requires Valid(s, windowMs) && Enabled(s, e) && e.Start?
    ensures Valid(Step(s, e, windowMs), windowMs)
  {
    var (i, s') := (e.i, Step(s, e, windowMs));
    forall a, b | 0 <= a < b < |s'.claims| && s'.claims[b].run != Waiting ensures Settled(s'.claims[a].run) {
      if b == i {
        assert Settled(s.claims[i - 1].run);
        if a < i - 1 { assert s.claims[i - 1].run != Waiting; }
      } else {
        assert s.claims[b].run != Waiting;
      }
    }
  }

  lemma PaidSomeValid(s: State, e: Event, windowMs: int)
    requires Valid(s, windowMs) && Enabled(s, e) && e.PaidSome?
    ensures Valid(Step(s, e, windowMs), windowMs)
  {
    var (i, s') := (e.i, Step(s, e, windowMs));
    assert forall b :: i < b < |s.claims| ==> s.claims[b].run == Waiting;
    assert forall b :: 0 <= b < |s.claims| && b != i ==> s'.claims[b] == s.claims[b];
  }

  lemma OtherValid(s: State, e: Event, windowMs: int)
    requires Valid(s, windowMs) && Enabled(s, e) && (e.Arrive? || e.PaidNone? || e.Throw?)
    ensures Valid(Step(s, e, windowMs), windowMs)
  {
    var s' := Step(s, e, windowMs);
    assert forall b :: 0 <= b < |s.claims| && !(!e.Arrive? && b == e.i) ==> s'.claims[b] == s.claims[b];
  }

  ghost predicate RunOf(s: State, events: seq<Event>, s': State, windowMs: int)
    decreases |events|
  {
    if events == [] then s' == s
    else Enabled(s, events[0]) && RunOf(Step(s, events[0], windowMs), events[1..], s', windowMs)
  }

  function Empty(ledger: map<Address, int>, clock: int): State {
    State([], ledger, clock)
  }

  lemma {:induction false} RunValid(s: State, events: seq<Event>, s': State, windowMs: int)
    requires Valid(s, windowMs) && RunOf(s, events, s', windowMs)
    ensures Valid(s', windowMs)
    decreases |events|
  {
    hide Valid;
    if events != [] {
      StepValid(s, events[0], windowMs);
      RunValid(Step(s, events[0], windowMs), events[1..], s', windowMs);
    }
  }

  /** Over every interleaving of arrivals and bodies: one claim runs at a time, in arrival order, and two claims that
      each paid the same wallet have the later check a full window after the earlier record. */
  lemma OncePerWindow(ledger: map<Address, int>, clock: int, events: seq<Event>, s: State, windowMs: int)
    requires RunOf(Empty(ledger, clock), events, s, windowMs)
    ensures InOrder(s) && Spaced(s, windowMs)
    ensures forall i, j :: 0 <= i < j < |s.claims| ==> !(s.claims[i].run.Running? && s.claims[j].run.Running?)
  {
    RunValid(Empty(ledger, clock), events, s, windowMs);
  }

  function Addresses(claims: seq<Claim>): (a: seq<Address>)
    ensures |a| == |claims|
  {
    seq(|claims|, i requires 0 <= i < |claims| => claims[i].address)
  }

  /** Who arrived during a run, in order. */
  function Arrivals(events: seq<Event>): seq<Address> {
    if events == [] then []
    else (if events[0].Arrive? then [events[0].address] else []) + Arrivals(events[1..])
  }

  lemma StepAddresses(s: State, e: Event, windowMs: int)
    requires Enabled(s, e)
    ensures Addresses(Step(s, e, windowMs).claims)
            == Addresses(s.claims) + if e.Arrive? then [e.address] else []
  {}

  /** Over every run, the queue holds exactly the claims that arrived, in arrival order. */
  lemma {:induction false} ArrivalOrder(s: State, events: seq<Event>, s': State, windowMs: int)
    requires RunOf(s, events, s', windowMs)
    ensures Addresses(s'.claims) == Addresses(s.claims) + Arrivals(events)
    decreases |events|
  {
    hide Enabled, Step, Addresses;
    if events == [] {
      assert Addresses(s.claims) + [] == Addresses(s.claims);
    } else {
      var here := if events[0].Arrive? then [events[0].address] else [];
      StepAddresses(s, events[0], windowMs);
      ArrivalOrder(Step(s, events[0], windowMs), events[1..], s', windowMs);
      assert (Addresses(s.claims) + here) + Arrivals(events[1..])
          == Addresses(s.claims) + (here + Arrivals(events[1..]));
    }
  }

  /** Whatever becomes of a running claim, it settles, and the next one's link resolves. */
  lemma RunningSettles(s: State, i: nat, now: int, windowMs: int)
    requires i < |s.claims| && s.claims[i].run.Running? && now >= s.clock
    ensures forall e :: e in [PaidSome(i, now), PaidNone(i), Throw(i)] ==>
              && Enabled(s, e) && |Step(s, e, windowMs).claims| == |s.claims|
              && Settled(Step(s, e, windowMs).claims[i].run)
              && (i + 1 < |s.claims| ==> LinkResolved(Step(s, e, windowMs), i + 1))
  {}

  // ---- who is refused ----

  /** Some claim of `a` was paid and recorded at `t`. */
  predicate PaidAt(s: State, a: Address, t: int) {
    exists j :: 0 <= j < |s.claims| && s.claims[j].address == a && s.claims[j].run.Fulfilled?
      && s.claims[j].run.recordedAt == Some(t)
  }

  /** A wallet's record is its last payment, or what it was before the run. */
  ghost predicate LedgerIsLast(s: State, ledger: map<Address, int>, a: Address) {
    if exists t :: PaidAt(s, a, t) then
      && a in s.ledger && PaidAt(s, a, s.ledger[a]) && s.ledger[a] <= s.clock
      && forall t :: PaidAt(s, a, t) ==> t <= s.ledger[a]
    else
      LastClaim(s, a) == if a in ledger then ledger[a] else 0
  }

  /** Only a step that pays records anything. */
  lemma StepPaid(s: State, e: Event, windowMs: int, a: Address, t: int)
    requires Enabled(s, e)
    ensures PaidAt(Step(s, e, windowMs), a, t) <==>
              PaidAt(s, a, t) || (e.PaidSome? && s.claims[e.i].address == a && e.now == t)
  {
    var s' := Step(s, e, windowMs);
    if PaidAt(s, a, t) {
      var j :| 0 <= j < |s.claims| && s.claims[j].address == a && s.claims[j].run.Fulfilled?
        && s.claims[j].run.recordedAt == Some(t);
      assert s'.claims[j] == s.claims[j];
    }
    if e.PaidSome? && s.claims[e.i].address == a && e.now == t {
      assert s'.claims[e.i].run.recordedAt == Some(t);
    }
    if PaidAt(s', a, t) {
      var j :| 0 <= j < |s'.claims| && s'.claims[j].address == a && s'.claims[j].run.Fulfilled?
        && s'.claims[j].run.recordedAt == Some(t);
      assert (e.PaidSome? && j == e.i) || s'.claims[j] == s.claims[j];
    }
  }

  lemma StepLedger(s: State, e: Event, windowMs: int, ledger: map<Address, int>, a: Address)
    requires Enabled(s, e) && LedgerIsLast(s, ledger, a)
    ensures LedgerIsLast(Step(s, e, windowMs), ledger, a)
  {
    hide PaidAt;
    forall t
      ensures PaidAt(Step(s, e, windowMs), a, t) <==>
                PaidAt(s, a, t) || (e.PaidSome? && s.claims[e.i].address == a && e.now == t)
    {
      StepPaid(s, e, windowMs, a, t);
    }
    var s' := Step(s, e, windowMs);
    if e.PaidSome? && s.claims[e.i].address == a {
      assert PaidAt(s', a, e.now);
    } else {
      assert s'.clock >= s.clock && LastClaim(s', a) == LastClaim(s, a) && (a in s'.ledger <==> a in s.ledger);
      assert forall t :: PaidAt(s', a, t) <==> PaidAt(s, a, t);
    }
  }

  lemma {:induction false} RunLedger(s: State, events: seq<Event>, s': State, windowMs: int,
                                     ledger: map<Address, int>, a: Address)
    requires LedgerIsLast(s, ledger, a) && RunOf(s, events, s', windowMs)
    ensures LedgerIsLast(s', ledger, a)
    decreases |events|
  {
    hide LedgerIsLast, Step, Enabled;
    if events != [] {
      StepLedger(s, events[0], windowMs, ledger, a);
      RunLedger(Step(s, events[0], windowMs), events[1..], s', windowMs, ledger, a);
    }
  }

  /** Over every run, exactly which claims are refused when their turn comes: those of a wallet paid less than a window
      ago. Claims that failed, or sent nothing, do not burn the cooldown. */
  lemma RefusedExactlyWhen(ledger: map<Address, int>, clock: int, events: seq<Event>, s: State, windowMs: int, i: nat,
                           now: int)
    requires RunOf(Empty(ledger, clock), events, s, windowMs) && Enabled(s, Start(i, now))
    ensures
      var a := s.claims[i].address;
      var run := Step(s, Start(i, now), windowMs).claims[i].run;
      && (run == RateLimited || run == Running(now))
      && (run == RateLimited <==>
            if exists t :: PaidAt(s, a, t) then exists t :: PaidAt(s, a, t) && now - t < windowMs
            else now - (if a in ledger then ledger[a] else 0) < windowMs)
  {
    hide PaidAt;
    var a := s.claims[i].address;
    forall t ensures !PaidAt(Empty(ledger, clock), a, t) {
      NothingPaid(ledger, clock, a, t);
    }
    RunLedger(Empty(ledger, clock), events, s, windowMs, ledger, a);
  }

  lemma NothingPaid(ledger: map<Address, int>, clock: int, a: Address, t: int)
    ensures !PaidAt(Empty(ledger, clock), a, t)
  {}

  /** A failure never blocks: while anything waits and nothing runs, the first waiting claim can start. */
  lemma NeverBlocked(ledger: map<Address, int>, clock: int, events: seq<Event>, s: State, windowMs: int, j: nat)
    requires RunOf(Empty(ledger, clock), events, s, windowMs)
    requires j < |s.claims| && s.claims[j].run == Waiting
    requires forall i :: 0 <= i < |s.claims| ==> !s.claims[i].run.Running?
    ensures exists i: nat :: i <= j && Enabled(s, Start(i, s.clock))
              && forall k :: 0 <= k < i ==> s.claims[k].run != Waiting
  {
    var i := 0;
    while s.claims[i].run != Waiting
      invariant 0 <= i <= j
      invariant forall k :: 0 <= k < i ==> s.claims[k].run != Waiting
      decreases j - i
    {
      i := i + 1;
    }
    assert Enabled(s, Start(i, s.clock));
  }
}
