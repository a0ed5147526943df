/** Dealing, anchoring and rotating one committee document, as interleaved steps of the dealer and its keepers. */
module CommitteeRotation {
  import opened Outcomes
  import opened Gf256
  import opened Polynomials
  import opened Shamir
  import opened ShamirTheorems
  import opened ShareSealing
  import opened KeyRecovery

  /** One seal or rotate request: a fresh key and the one random vector of its 2-of-n split. */
  datatype Attempt = Attempt(key: Bytes, coeffs: seq<Bytes>)

  predicate ValidAttempt(a: Attempt) {
    |a.key| == 32 && |a.coeffs| == 1 && AllOfLength(a.coeffs, 32)
  }

  /** A /deal request on the wire: attempt `attempt`'s share for keeper `keeper`. */
  datatype Message = Message(attempt: nat, keeper: nat)

  /**
   * `stores[i]` is what keeper i (share point i + 1) holds for the document; `acks` are the deals answered ok in
   * time; `pending` are the requests not yet finished; `anchored` is the attempt whose commitment the chain carries.
   */
  datatype State = State(
    n: nat,
    attempts: seq<Attempt>,
    inFlight: set<Message>,
    stores: seq<Option<Bytes>>,
    acks: set<Message>,
    pending: set<nat>,
    anchored: Option<nat>
  )

  datatype Event =
    | BeginSeal(a: Attempt)
    | BeginRotate(a: Attempt)
    | Deliver(m: Message, answered: bool)
    | Lose(m: Message)
    | Anchor(attempt: nat)
    | GiveUp(attempt: nat)

  /** The bytes of the share of (key, coeffs) at point `x`. */
  function ShareBytesAt(a: Attempt, x: int): (y: Bytes)
    requires ValidAttempt(a) && 1 <= x <= 255
    ensures |y| == 32 && IsShare(Share(x, y), a.key, a.coeffs, x)
  {
    seq(32, j requires 0 <= j < 32 => Eval(Column(a.key, a.coeffs, j), ByteOf(x)))
  }

  function Messages(attempt: nat, n: nat): (ms: set<Message>)
    ensures forall m :: m in ms <==> m.attempt == attempt && m.keeper < n
  {
    set i | 0 <= i < n :: Message(attempt, i)
  }

  /** All n keepers answered ok: only then does the dealer go to the chain. */
  predicate FullyDealt(s: State, attempt: nat) {
    forall i :: 0 <= i < s.n ==> Message(attempt, i) in s.acks
  }

  predicate Enabled(s: State, e: Event) {
    match e
    case BeginSeal(a) => ValidAttempt(a)
    case BeginRotate(a) => ValidAttempt(a) && s.anchored.Some?
    case Deliver(m, _) => m in s.inFlight
    case Lose(m) => m in s.inFlight
    case Anchor(t) => t in s.pending && FullyDealt(s, t)
    case GiveUp(t) => t in s.pending
  }

  ghost predicate Valid(s: State) {
    && 2 <= s.n <= 255 && |s.stores| == s.n
    && (forall t :: 0 <= t < |s.attempts| ==> ValidAttempt(s.attempts[t]))
    && (forall m :: m in s.inFlight || m in s.acks ==> m.attempt < |s.attempts| && m.keeper < s.n)
    && (forall t :: t in s.pending ==> t < |s.attempts|)
    && (s.anchored.Some? ==> s.anchored.value < |s.attempts|)
    && forall i :: 0 <= i < s.n && s.stores[i].Some? ==> exists t :: Holds(s, i, t)
  }

  /** Before anything is sealed. */
  function Initial(n: nat): (s: State)
    requires 2 <= n <= 255
    ensures Valid(s)
  {
    State(n, [], {}, seq(n, _ => None), {}, {}, None)
  }

  /** Keeper i stores attempt t's share. */
  predicate Holds(s: State, i: nat, t: nat) {
    && i < s.n <= 255 && i < |s.stores|
    && t < |s.attempts| && ValidAttempt(s.attempts[t])
    && s.stores[i] == Some(ShareBytesAt(s.attempts[t], i + 1))
  }

  function Step(s: State, e: Event): State
    requires Valid(s) && Enabled(s, e)
  {
    match e
    case BeginSeal(a) => Begin(s, a)
    case BeginRotate(a) => Begin(s, a)
    case Deliver(m, answered) =>
      s.(inFlight := s.inFlight - {m},
         stores := s.stores[m.keeper := Some(ShareBytesAt(s.attempts[m.attempt], m.keeper + 1))],
         acks := if answered then s.acks + {m} else s.acks)
    case Lose(m) => s.(inFlight := s.inFlight - {m})
    case Anchor(t) => s.(anchored := Some(t), pending := s.pending - {t})
    case GiveUp(t) => s.(pending := s.pending - {t})
  }

  function Begin(s: State, a: Attempt): State {
    s.(attempts := s.attempts + [a], inFlight := s.inFlight + Messages(|s.attempts|, s.n),
       pending := s.pending + {|s.attempts|})
  }

  /** Every step keeps the invariant: each keeper holds a share of some attempt, anchors are real attempts. */
  lemma StepValid(s: State, e: Event)
    requires Valid(s) && Enabled(s, e)
    ensures Valid(Step(s, e)) && Step(s, e).n == s.n
  {
    hide ShareBytesAt;
    var s' := Step(s, e);
    forall i | 0 <= i < s'.n && s'.stores[i].Some? ensures exists t :: Holds(s', i, t) {
      if e.Deliver? && i == e.m.keeper {
        assert Holds(s', i, e.m.attempt);
      } else {
        var t :| Holds(s, i, t);
        assert Holds(s', i, t);
      }
    }
  }

  /** `s'` comes from `s` by some run of enabled steps. */
  ghost predicate Run(s: State, events: seq<Event>, s': State)
    requires Valid(s)
    decreases |events|
  {
    if events == [] then s' == s
    else
      Enabled(s, events[0])
      && (StepValid(s, events[0]); Run(Step(s, events[0]), events[1..], s'))
  }

  lemma {:induction false} RunValid(s: State, events: seq<Event>, s': State)
    requires Valid(s) && Run(s, events, s')
    ensures Valid(s') && s'.n == s.n
    decreases |events|
  {
    hide ShareBytesAt;
    if events != [] {
      StepValid(s, events[0]);
      RunValid(Step(s, events[0]), events[1..], s');
    }
  }

  // ---- opening the document ----

  /** What a granted reader collects from the keepers `ks`, in the order they answer. */
  function Collected(s: State, ks: seq<nat>): seq<Share>
    requires forall p :: 0 <= p < |ks| ==> ks[p] < |s.stores|
  {
    if ks == [] then []
    else (if s.stores[ks[0]].Some? then [Share(ks[0] + 1, s.stores[ks[0]].value)] else []) + Collected(s, ks[1..])
  }

  /** Opening with the answers of `ks` against the anchored commitment. */
  ghost function Open(c: Crypto, s: State, ks: seq<nat>): Result<Recovery, RecoveryError>
    requires Valid(s) && s.anchored.Some? && Picks(ks, s.n)
  {
    SearchAll(c, Collected(s, ks), c.sha256(s.attempts[s.anchored.value].key))
  }

  lemma {:induction false} CollectedPoints(s: State, ks: seq<nat>, a: nat)
    requires Valid(s) && Picks(ks, s.n) && a < |Collected(s, ks)|
    ensures exists p ::
              0 <= p < |ks| && s.stores[ks[p]].Some? && Collected(s, ks)[a] == Share(ks[p] + 1, s.stores[ks[p]].value)
    decreases |ks|
  {
    hide ShareBytesAt;
    var here := if s.stores[ks[0]].Some? then 1 else 0;
    if a < here {
      assert Collected(s, ks)[0] == Share(ks[0] + 1, s.stores[ks[0]].value);
    } else {
      CollectedPoints(s, ks[1..], a - here);
      var p :| 0 <= p < |ks[1..]| && s.stores[ks[1..][p]].Some?
        && Collected(s, ks[1..])[a - here] == Share(ks[1..][p] + 1, s.stores[ks[1..][p]].value);
      assert ks[1..][p] == ks[p + 1];
      assert Collected(s, ks)[a] == Collected(s, ks[1..])[a - here];
    }
  }

  lemma {:induction false} CollectedHas(s: State, ks: seq<nat>, p: nat) returns (a: nat)
    requires Valid(s) && Picks(ks, s.n) && p < |ks| && s.stores[ks[p]].Some?
    ensures a < |Collected(s, ks)| && Collected(s, ks)[a] == Share(ks[p] + 1, s.stores[ks[p]].value)
    decreases |ks|
  {
    hide ShareBytesAt;
    var here := if s.stores[ks[0]].Some? then 1 else 0;
    if p == 0 {
      a := 0;
    } else {
      assert ks[1..][p - 1] == ks[p];
      a := CollectedHas(s, ks[1..], p - 1);
      assert Collected(s, ks)[a + here] == Collected(s, ks[1..])[a];
      a := a + here;
    }
  }

  lemma CollectedShare(s: State, ks: seq<nat>, a: nat)
    requires Valid(s) && Picks(ks, s.n) && a < |Collected(s, ks)|
    ensures |Collected(s, ks)[a].y| == 32 && 1 <= Collected(s, ks)[a].x <= 255
    ensures exists p :: 0 <= p < |ks| && Collected(s, ks)[a].x == ks[p] + 1
  {
    hide ShareBytesAt, Collected;
    CollectedPoints(s, ks, a);
    var p :| 0 <= p < |ks| && s.stores[ks[p]].Some? && Collected(s, ks)[a] == Share(ks[p] + 1, s.stores[ks[p]].value);
    var t :| Holds(s, ks[p], t);
  }

  lemma {:induction false} CollectedDistinct(s: State, ks: seq<nat>, a: nat, b: nat)
    requires Valid(s) && Picks(ks, s.n) && a < b < |Collected(s, ks)|
    ensures Collected(s, ks)[a].x != Collected(s, ks)[b].x
    decreases |ks|
  {
    assert |s.stores| == s.n;
    hide ShareBytesAt, Valid;
    var (shares, rest) := (Collected(s, ks), Collected(s, ks[1..]));
    var here := if s.stores[ks[0]].Some? then 1 else 0;
    assert shares[b] == rest[b - here];
    if a < here {
      CollectedShare(s, ks[1..], b - here);
      var p :| 0 <= p < |ks[1..]| && rest[b - here].x == ks[1..][p] + 1;
      assert ks[1..][p] == ks[p + 1];
    } else {
      assert shares[a] == rest[a - here];
      CollectedDistinct(s, ks[1..], a - here, b - here);
    }
  }

  lemma CollectedUsual(s: State, ks: seq<nat>)
    requires Valid(s) && Picks(ks, s.n)
    ensures Usual(Collected(s, ks))
  {
    assert |s.stores| == s.n;
    hide ShareBytesAt, Collected, Valid;
    var shares := Collected(s, ks);
    forall a | 0 <= a < |shares| ensures |shares[a].y| == 32 && 1 <= Xs(shares)[a] <= 255 {
      CollectedShare(s, ks, a);
    }
    forall a, b | 0 <= a < b < |shares| ensures Xs(shares)[a] != Xs(shares)[b] {
      CollectedDistinct(s, ks, a, b);
    }
  }

  /** Safety over every run: opening never yields a key other than the anchored one. */
  lemma OpensOnlyTheAnchoredKey(c: Crypto, start: State, events: seq<Event>, s: State, ks: seq<nat>)
    requires CollisionFree(c) && Valid(start) && Run(start, events, s)
    ensures Valid(s)
    ensures s.anchored.Some? && Picks(ks, s.n) && Open(c, s, ks).Ok? ==>
              Open(c, s, ks).value.k == s.attempts[s.anchored.value].key
  {
    hide ShareBytesAt, SearchAll;
    RunValid(start, events, s);
    if s.anchored.Some? && Picks(ks, s.n) && Open(c, s, ks).Ok? {
      CollectedUsual(s, ks);
      OnlyTheCommittedKey(c, Collected(s, ks), s.attempts[s.anchored.value].key);
    }
  }

  /** Availability: any answers that include two keepers holding the anchored attempt's shares are enough. */
  lemma TwoHoldersOpen(c: Crypto, s: State, ks: seq<nat>, p: nat, q: nat)
    requires Lawful(c) && CollisionFree(c) && Valid(s) && s.anchored.Some? && Picks(ks, s.n)
    requires p < q < |ks| && Holds(s, ks[p], s.anchored.value) && Holds(s, ks[q], s.anchored.value)
    ensures Open(c, s, ks).Ok? && Open(c, s, ks).value.k == s.attempts[s.anchored.value].key
  {
    hide SearchAll, IsShare, Lawful;
    var t := s.attempts[s.anchored.value];
    var shares := Collected(s, ks);
    CollectedUsual(s, ks);
    var a := CollectedHas(s, ks, p);
    var b := CollectedHas(s, ks, q);
    assert shares[a].x != shares[b].x;
    if a < b {
      RobustRecovery(c, shares, t.key, t.coeffs, a, b);
    } else {
      RobustRecovery(c, shares, t.key, t.coeffs, b, a);
    }
  }

  // ---- what the deliveries leave behind ----

  /** The attempt whose deal reached keeper `i` last. */
  function LastDelivered(events: seq<Event>, i: nat): Option<nat> {
    if events == [] then None
    else
      var later := LastDelivered(events[1..], i);
      if later.Some? then later
      else if events[0].Deliver? && events[0].m.keeper == i then Some(events[0].m.attempt)
      else None
  }

  /** A run leaves every keeper with the share of the attempt whose deal reached it last. */
  lemma {:induction false} LastDeliveryHeld(s: State, events: seq<Event>, s': State, i: nat)
    requires Valid(s) && Run(s, events, s') && i < s.n
    ensures Valid(s') && s'.n == s.n
    ensures match LastDelivered(events, i)
            case Some(t) => Holds(s', i, t)
            case None => s'.stores[i] == s.stores[i]
    decreases |events|
  {
    hide ShareBytesAt;
    if events != [] {
      var (e, s1) := (events[0], Step(s, events[0]));
      StepValid(s, e);
      LastDeliveryHeld(s1, events[1..], s', i);
      if e.Deliver? && e.m.keeper == i {
        AttemptsKept(s1, events[1..], s', e.m.attempt);
      }
    }
  }

  /** A deal counts as acknowledged only if its delivery was answered in time. */
  lemma {:induction false} AckedWasAnswered(s: State, events: seq<Event>, s': State, m: Message)
    requires Valid(s) && Run(s, events, s')
    ensures m in s'.acks <==> m in s.acks || Deliver(m, true) in events
    decreases |events|
  {
    hide ShareBytesAt, Valid;
    if events != [] {
      StepValid(s, events[0]);
      AckedWasAnswered(Step(s, events[0]), events[1..], s', m);
      assert Deliver(m, true) in events <==> events[0] == Deliver(m, true) || Deliver(m, true) in events[1..];
    }
  }

  /** Over every run from nothing, a commitment goes to the chain only after all n keepers answered its deal in time. */
  lemma AnchorWaitsForAll(n: nat, events: seq<Event>, s: State, t: nat)
    requires 2 <= n <= 255 && Run(Initial(n), events, s) && Enabled(s, Anchor(t))
    ensures forall i :: 0 <= i < n ==> Deliver(Message(t, i), true) in events
  {
    hide ShareBytesAt, Run;
    RunValid(Initial(n), events, s);
    forall i | 0 <= i < n ensures Deliver(Message(t, i), true) in events {
      AckedWasAnswered(Initial(n), events, s, Message(t, i));
    }
  }

  /** Nobody acknowledges a deal that did not arrive. */
  lemma {:induction false} AckedWasDelivered(s: State, events: seq<Event>, s': State, i: nat, t: nat)
    requires Valid(s) && Run(s, events, s') && Message(t, i) !in s.acks && Message(t, i) in s'.acks
    ensures LastDelivered(events, i).Some?
    decreases |events|
  {
    hide ShareBytesAt;
    if events != [] {
      StepValid(s, events[0]);
      if Message(t, i) !in Step(s, events[0]).acks {
        AckedWasDelivered(Step(s, events[0]), events[1..], s', i, t);
      }
    }
  }

  function BeginOf(a: Attempt, rotate: bool): Event {
    if rotate then BeginRotate(a) else BeginSeal(a)
  }

  /** Request `a` begins in `s`, `events` follow, and its commitment is anchored in `s'`. */
  ghost predicate Completes(s: State, a: Attempt, rotate: bool, events: seq<Event>, s': State)
    requires Valid(s)
  {
    Run(s, [BeginOf(a, rotate)] + events + [Anchor(|s.attempts|)], s')
  }

  /** What a completed attempt leaves: its key anchored, and at every keeper the share that was delivered last. */
  lemma CompletedLeaves(s: State, a: Attempt, rotate: bool, events: seq<Event>, s': State)
    requires Valid(s) && Completes(s, a, rotate, events, s')
    ensures Valid(s') && s'.n == s.n && s'.anchored == Some(|s.attempts|)
    ensures |s.attempts| < |s'.attempts| && s'.attempts[|s.attempts|] == a
    ensures forall i :: 0 <= i < s.n ==> LastDelivered(events, i).Some? && Holds(s', i, LastDelivered(events, i).value)
  {
    hide ShareBytesAt;
    var (t, begin) := (|s.attempts|, BeginOf(a, rotate));
    var all := [begin] + events + [Anchor(t)];
    assert all[0] == begin && all[1..] == events + [Anchor(t)];
    var s1 := Step(s, begin);
    StepValid(s, begin);
    var s2 := RunSplit(s1, events, [Anchor(t)], s');
    RunValid(s1, events, s2);
    AttemptsKept(s1, events, s2, t);
    assert [Anchor(t)][0] == Anchor(t) && [Anchor(t)][1..] == [];
    assert s' == Step(s2, Anchor(t));
    StepValid(s2, Anchor(t));
    forall i | 0 <= i < s.n ensures LastDelivered(events, i).Some? && Holds(s', i, LastDelivered(events, i).value) {
      assert Message(t, i) in s2.acks;
      AckedWasDelivered(s1, events, s2, i, t);
      LastDeliveryHeld(s1, events, s2, i);
      assert Holds(s2, i, LastDelivered(events, i).value);
    }
  }

  /** Right after an attempt completes whose own deal was the last to reach every keeper, any two or more of them open
      the document. Deals of other attempts that arrive earlier do no harm. */
  lemma CompletedAttemptOpens(c: Crypto, s: State, a: Attempt, rotate: bool, events: seq<Event>, s': State,
                              ks: seq<nat>)
    requires Lawful(c) && CollisionFree(c) && Valid(s) && Completes(s, a, rotate, events, s')
    requires forall i :: 0 <= i < s.n ==> LastDelivered(events, i) == Some(|s.attempts|)
    requires Picks(ks, s.n) && |ks| >= 2
    ensures Valid(s') && s'.n == s.n && s'.anchored == Some(|s.attempts|)
    ensures Open(c, s', ks).Ok? && Open(c, s', ks).value.k == a.key
  {
    hide ShareBytesAt, Open, Lawful, CollisionFree, Completes;
    CompletedLeaves(s, a, rotate, events, s');
    assert LastDelivered(events, ks[0]) == LastDelivered(events, ks[1]) == Some(|s.attempts|);
    TwoHoldersOpen(c, s', ks, 0, 1);
  }

  /** The only deliveries among `events` are those of attempt `t`. */
  predicate OnlyDelivers(events: seq<Event>, t: nat) {
    forall e :: e in events && e.Deliver? ==> e.m.attempt == t
  }

  lemma {:induction false} OnlyDeliversLast(events: seq<Event>, t: nat, i: nat)
    requires OnlyDelivers(events, t)
    ensures LastDelivered(events, i).Some? ==> LastDelivered(events, i) == Some(t)
    decreases |events|
  {
    if events != [] {
      OnlyDeliversLast(events[1..], t, i);
    }
  }

  /** In particular when no other attempt's deal arrives in between. */
  lemma UninterruptedAttemptOpens(c: Crypto, s: State, a: Attempt, rotate: bool, events: seq<Event>, s': State,
                                  ks: seq<nat>)
    requires Lawful(c) && CollisionFree(c) && Valid(s) && Completes(s, a, rotate, events, s')
    requires OnlyDelivers(events, |s.attempts|) && Picks(ks, s.n) && |ks| >= 2
    ensures Valid(s') && s'.n == s.n && s'.anchored == Some(|s.attempts|)
    ensures Open(c, s', ks).Ok? && Open(c, s', ks).value.k == a.key
  {
    hide ShareBytesAt, Open, Lawful, CollisionFree, Completes, OnlyDelivers;
    CompletedLeaves(s, a, rotate, events, s');
    forall i | 0 <= i < s.n ensures LastDelivered(events, i) == Some(|s.attempts|) {
      OnlyDeliversLast(events, |s.attempts|, i);
    }
    CompletedAttemptOpens(c, s, a, rotate, events, s', ks);
  }

  lemma {:induction false} RunSplit(s: State, first: seq<Event>, second: seq<Event>, s': State) returns (mid: State)
    requires Valid(s) && Run(s, first + second, s')
    ensures Run(s, first, mid) && Valid(mid) && Run(mid, second, s')
    decreases |first|
  {
    hide ShareBytesAt;
    if first == [] {
      assert first + second == second;
      mid := s;
    } else {
      assert (first + second)[0] == first[0] && (first + second)[1..] == first[1..] + second;
      StepValid(s, first[0]);
      mid := RunSplit(Step(s, first[0]), first[1..], second, s');
    }
  }

  lemma {:induction false} AttemptsKept(s: State, events: seq<Event>, s': State, t: nat)
    requires Valid(s) && Run(s, events, s') && t < |s.attempts|
    ensures t < |s'.attempts| && s'.attempts[t] == s.attempts[t]
    decreases |events|
  {
    hide ShareBytesAt;
    if events != [] {
      StepValid(s, events[0]);
      AttemptsKept(Step(s, events[0]), events[1..], s', t);
    }
  }

  // ---- re-deals that do not complete ----

  /** No deal reaches keeper `i`, and nothing is anchored. */
  predicate Untouched(events: seq<Event>, i: nat) {
    forall e :: e in events ==> !e.Anchor? && (e.Deliver? ==> e.m.keeper != i)
  }

  lemma {:induction false} UntouchedKeeps(s: State, events: seq<Event>, s': State, i: nat, t: nat)
    requires Valid(s) && Run(s, events, s') && Untouched(events, i) && Holds(s, i, t)
    ensures Holds(s', i, t) && s'.anchored == s.anchored
    decreases |events|
  {
    hide ShareBytesAt;
    if events != [] {
      StepValid(s, events[0]);
      UntouchedKeeps(Step(s, events[0]), events[1..], s', i, t);
    }
  }

  /** However many re-deals fail, answers from two holders that none of them reached still open the document. */
  lemma PartialRedealsTolerated(c: Crypto, s: State, events: seq<Event>, s': State, ks: seq<nat>, p: nat, q: nat)
    requires Lawful(c) && CollisionFree(c) && Valid(s) && s.anchored.Some? && Run(s, events, s')
    requires Picks(ks, s.n) && p < q < |ks|
    requires Holds(s, ks[p], s.anchored.value) && Holds(s, ks[q], s.anchored.value)
    requires Untouched(events, ks[p]) && Untouched(events, ks[q])
    ensures Valid(s') && s'.n == s.n && s'.anchored == s.anchored
    ensures Open(c, s', ks).Ok? && Open(c, s', ks).value.k == s.attempts[s.anchored.value].key
  {
    hide ShareBytesAt, Open, Lawful, CollisionFree;
    var t := s.anchored.value;
    RunValid(s, events, s');
    UntouchedKeeps(s, events, s', ks[p], t);
    UntouchedKeeps(s, events, s', ks[q], t);
    AttemptsKept(s, events, s', t);
    TwoHoldersOpen(c, s', ks, p, q);
  }

  // ---- exactly when every pair opens ----

  /** All keepers hold shares of one and the same dealing of `key`. */
  ghost predicate OneDealing(s: State, key: Bytes, coeffs: seq<Bytes>)
    requires Valid(s) && |key| == 32
  {
    && |coeffs| == 1 && AllOfLength(coeffs, 32)
    && forall i :: 0 <= i < s.n ==> s.stores[i].Some? && IsShare(Share(i + 1, s.stores[i].value), key, coeffs, i + 1)
  }

  ghost predicate EveryPairOpens(c: Crypto, s: State)
    requires Valid(s) && s.anchored.Some?
  {
    forall i, j :: 0 <= i < j < s.n ==> Open(c, s, [i, j]).Ok?
  }

  /** Two 32-byte shares whose line meets `key` at zero lie on the one line through `key` and the first of them. */
  lemma OnTheLine(p: seq<Share>, key: Bytes)
    requires |p| == 2 && WellFormed(p) && |p[0].y| == 32 && |key| == 32 && Recovered(p) == key
    ensures WellFormed([p[0]]) && IsShare(p[1], key, FittedCoefficients([p[0]], key), p[1].x)
  {
    hide Eval, Interpolate, ByteOf;
    assert Xs(p)[0] == p[0].x && Xs(p)[1] == p[1].x;
    assert WellFormed([p[0]]) by { assert Xs([p[0]]) == [p[0].x]; }
    PointsDistinct(Xs(p));
    var d := [seq(32, j requires 0 <= j < 32 => Through(p, j)[1])];
    forall j | 0 <= j < 32
      ensures forall i :: 0 <= i < 2 ==> p[i].y[j] == Eval(Column(key, d, j), ByteOf(p[i].x))
    {
      ConstantTerm(Through(p, j));
      assert Recovered(p)[j] == Through(p, j)[0];
      assert Column(key, d, j) == Through(p, j);
      InterpolateMeets(Points(Xs(p)), Values(p, j), 0);
      InterpolateMeets(Points(Xs(p)), Values(p, j), 1);
    }
    assert IsShare(p[0], key, d, p[0].x) && IsShare(p[1], key, d, p[1].x);
    FitIsUnique([p[0]], key, d);
  }

  lemma PairCollected(s: State, i: nat, j: nat)
    requires Valid(s) && i < s.n && j < s.n
    ensures Collected(s, [i, j]) ==
              (if s.stores[i].Some? then [Share(i + 1, s.stores[i].value)] else [])
              + (if s.stores[j].Some? then [Share(j + 1, s.stores[j].value)] else [])
  {
    assert [i, j][1..] == [j] && [j][1..] == [];
    assert Collected(s, []) == [];
    assert Collected(s, [j]) == (if s.stores[j].Some? then [Share(j + 1, s.stores[j].value)] else []) + [];
  }

  lemma PairOpens(c: Crypto, s: State, i: nat, j: nat)
    requires CollisionFree(c) && Valid(s) && s.anchored.Some? && i < s.n && j < s.n && i != j && Open(c, s, [i, j]).Ok?
    ensures s.stores[i].Some? && s.stores[j].Some?
    ensures var p := [Share(i + 1, s.stores[i].value), Share(j + 1, s.stores[j].value)];
            WellFormed(p) && |p[0].y| == 32 && Recovered(p) == s.attempts[s.anchored.value].key
  {
    hide ShareBytesAt, WellFormed, Recovered;
    var shares := Collected(s, [i, j]);
    PairCollected(s, i, j);
    CollectedUsual(s, [i, j]);
    assert |shares| == 2;
    assert shares[0].x == i + 1 && shares[1].x == j + 1;
    var key := s.attempts[s.anchored.value].key;
    var a, b := SearchSound(c, shares, c.sha256(key), 0, 1);
    UsualPair(shares, a, b);
    assert PairOf(shares, a, b) == shares;
  }

  /** The document opens through every pair of keepers exactly when all of them hold one dealing of its key. */
  lemma EveryPairOpensExactlyWhen(c: Crypto, s: State)
    requires Lawful(c) && CollisionFree(c) && Valid(s) && s.anchored.Some?
    ensures EveryPairOpens(c, s) <==> exists coeffs :: OneDealing(s, s.attempts[s.anchored.value].key, coeffs)
  {
    hide OneDealing, EveryPairOpens, Lawful, CollisionFree;
    var key := s.attempts[s.anchored.value].key;
    if EveryPairOpens(c, s) {
      var coeffs := AllOnTheLine(c, s);
    }
    if exists coeffs :: OneDealing(s, key, coeffs) {
      var coeffs :| OneDealing(s, key, coeffs);
      OneDealingOpens(c, s, coeffs);
    }
  }

  lemma OneDealingOpens(c: Crypto, s: State, coeffs: seq<Bytes>)
    requires Lawful(c) && CollisionFree(c) && Valid(s) && s.anchored.Some?
    requires OneDealing(s, s.attempts[s.anchored.value].key, coeffs)
    ensures EveryPairOpens(c, s)
  {
    hide ShareBytesAt, IsShare, Lawful, SearchAll;
    forall i, j | 0 <= i < j < s.n ensures Open(c, s, [i, j]).Ok? {
      PairCollected(s, i, j);
      CollectedUsual(s, [i, j]);
      RobustRecovery(c, Collected(s, [i, j]), s.attempts[s.anchored.value].key, coeffs, 0, 1);
    }
  }

  lemma AllOnTheLine(c: Crypto, s: State) returns (coeffs: seq<Bytes>)
    requires CollisionFree(c) && Valid(s) && s.anchored.Some? && EveryPairOpens(c, s)
    ensures OneDealing(s, s.attempts[s.anchored.value].key, coeffs)
  {
    hide ShareBytesAt, IsShare, WellFormed, Recovered, FittedCoefficients, Open;
    var key := s.attempts[s.anchored.value].key;
    PairOpens(c, s, 0, 1);
    var first := Share(1, s.stores[0].value);
    var other := Share(2, s.stores[1].value);
    OnTheLine([first, other], key);
    LoneShare(first, key);
    coeffs := FittedCoefficients([first], key);
    EverySecretFits([first], key);
    assert IsShare([first][0], key, coeffs, 1);
    forall i | 0 <= i < s.n
      ensures s.stores[i].Some? && IsShare(Share(i + 1, s.stores[i].value), key, coeffs, i + 1)
    {
      if i > 0 {
        PairOpens(c, s, 0, i);
        OnTheLine([first, Share(i + 1, s.stores[i].value)], key);
      }
    }
  }

  lemma LoneShare(first: Share, key: Bytes)
    requires WellFormed([first]) && |first.y| == |key| == 32
    ensures |FittedCoefficients([first], key)| == 1 && AllOfLength(FittedCoefficients([first], key), 32)
  {}

  // ---- the pair law ----

  lemma PairParts(p: seq<Share>)
    requires |p| == 2 && WellFormed(p)
    ensures |p[1].y| == |p[0].y| && NoDuplicates(Xs(p)) && WellFormed([p[0]]) && WellFormed([p[1]])
  {
    assert Xs(p)[0] == p[0].x && Xs(p)[1] == p[1].x;
    assert Xs([p[0]]) == [p[0].x] && Xs([p[1]]) == [p[1].x];
  }

  /** Next to one share of a dealing, another share gives the key at zero exactly when it is of that dealing too. */
  lemma LineThrough(p: seq<Share>, key: Bytes, coeffs: seq<Bytes>, k: nat)
    requires |p| == 2 && WellFormed(p) && |p[0].y| == 32 && |key| == 32 && |coeffs| == 1 && AllOfLength(coeffs, 32)
    requires k < 2 && IsShare(p[k], key, coeffs, p[k].x)
    ensures Recovered(p) == key <==> IsShare(p[1 - k], key, coeffs, p[1 - k].x)
  {
    hide IsShare, Recovered, FittedCoefficients, WellFormed;
    PairParts(p);
    if IsShare(p[1 - k], key, coeffs, p[1 - k].x) {
      ThresholdRecovers(p, key, coeffs);
    }
    if Recovered(p) == key {
      var line := FittedCoefficients([p[0]], key);
      OnTheLine(p, key);
      EverySecretFits([p[0]], key);
      LoneShare(p[0], key);
      assert IsShare([p[0]][0], key, line, p[0].x);
      FitIsUnique([p[k]], key, line);
      FitIsUnique([p[k]], key, coeffs);
    }
  }

  lemma HeldShare(s: State, i: nat, t: nat)
    requires Valid(s) && i < s.n && t < |s.attempts| && s.stores[i].Some? && |s.stores[i].value| == 32
    ensures Holds(s, i, t)
            <==> IsShare(Share(i + 1, s.stores[i].value), s.attempts[t].key, s.attempts[t].coeffs, i + 1)
  {
    hide Eval, Column, ByteOf;
    var (a, y) := (s.attempts[t], s.stores[i].value);
    if IsShare(Share(i + 1, y), a.key, a.coeffs, i + 1) {
      forall j | 0 <= j < 32 ensures y[j] == ShareBytesAt(a, i + 1)[j] {}
      assert y == ShareBytesAt(a, i + 1);
    }
  }

  /** Once one of two keepers holds the anchored attempt's share, the pair opens exactly when the other does too. */
  lemma PairOpensExactlyWhen(c: Crypto, s: State, i: nat, j: nat)
    requires Lawful(c) && CollisionFree(c) && Valid(s) && s.anchored.Some? && i < s.n && j < s.n && i != j
    requires Holds(s, i, s.anchored.value) || Holds(s, j, s.anchored.value)
    ensures Open(c, s, [i, j]).Ok? <==> Holds(s, i, s.anchored.value) && Holds(s, j, s.anchored.value)
  {
    hide ShareBytesAt, Open, Lawful, CollisionFree, IsShare, WellFormed, Recovered;
    var t := s.anchored.value;
    if Holds(s, i, t) && Holds(s, j, t) {
      TwoHoldersOpen(c, s, [i, j], 0, 1);
    }
    if Open(c, s, [i, j]).Ok? {
      PairOpens(c, s, i, j);
      var p := [Share(i + 1, s.stores[i].value), Share(j + 1, s.stores[j].value)];
      PairParts(p);
      HeldShare(s, i, t);
      HeldShare(s, j, t);
      LineThrough(p, s.attempts[t].key, s.attempts[t].coeffs, if Holds(s, i, t) then 0 else 1);
    }
  }

  /** Next to one holder of the anchored attempt's share, every pair opens exactly when everybody holds one. */
  lemma EveryPairOpensBesideHolder(c: Crypto, s: State, h: nat)
    requires Lawful(c) && CollisionFree(c) && Valid(s) && s.anchored.Some? && h < s.n && Holds(s, h, s.anchored.value)
    ensures EveryPairOpens(c, s) <==> forall i :: 0 <= i < s.n ==> Holds(s, i, s.anchored.value)
  {
    hide Holds, Open, Lawful, CollisionFree, Valid;
    var t := s.anchored.value;
    if EveryPairOpens(c, s) {
      forall i | 0 <= i < s.n ensures Holds(s, i, t) {
        if i < h { PairOpensExactlyWhen(c, s, i, h); }
        if h < i { PairOpensExactlyWhen(c, s, h, i); }
      }
    }
    if forall i :: 0 <= i < s.n ==> Holds(s, i, t) {
      forall i, j | 0 <= i < j < s.n ensures Open(c, s, [i, j]).Ok? {
        PairOpensExactlyWhen(c, s, i, j);
      }
    }
  }

  /** Attempt u's deal to keeper `i` carries the very share that attempt t's does. */
  predicate SameShare(s: State, u: nat, t: nat, i: nat) {
    && u < |s.attempts| && t < |s.attempts| && i < 255
    && ValidAttempt(s.attempts[u]) && ValidAttempt(s.attempts[t])
    && ShareBytesAt(s.attempts[u], i + 1) == ShareBytesAt(s.attempts[t], i + 1)
  }

  /** In terms of the deliveries: after a completed attempt that was the last to reach keeper h, a pair with h opens
      exactly when the other keeper's last deal carried the attempt's share, and every pair exactly when all did. */
  lemma DeliveriesDecide(c: Crypto, s: State, a: Attempt, rotate: bool, events: seq<Event>, s': State, h: nat)
    requires Lawful(c) && CollisionFree(c) && Valid(s) && Completes(s, a, rotate, events, s')
    requires h < s.n && LastDelivered(events, h) == Some(|s.attempts|)
    ensures Valid(s') && s'.n == s.n && s'.anchored == Some(|s.attempts|)
    ensures forall i :: 0 <= i < s.n ==> LastDelivered(events, i).Some?
    ensures forall i :: 0 <= i < s.n && i != h ==>
              (Open(c, s', [h, i]).Ok? <==> SameShare(s', LastDelivered(events, i).value, |s.attempts|, i))
    ensures EveryPairOpens(c, s')
            <==> forall i :: 0 <= i < s.n ==> SameShare(s', LastDelivered(events, i).value, |s.attempts|, i)
  {
    hide ShareBytesAt, Open, Lawful, CollisionFree, Completes, EveryPairOpens;
    var t := |s.attempts|;
    CompletedLeaves(s, a, rotate, events, s');
    assert Holds(s', h, t);
    forall i | 0 <= i < s.n ensures Holds(s', i, t) <==> SameShare(s', LastDelivered(events, i).value, t, i) {
      assert Holds(s', i, LastDelivered(events, i).value);
    }
    forall i | 0 <= i < s.n && i != h
      ensures Open(c, s', [h, i]).Ok? <==> SameShare(s', LastDelivered(events, i).value, t, i)
    {
      PairOpensExactlyWhen(c, s', h, i);
    }
    EveryPairOpensBesideHolder(c, s', h);
  }

  // ---- overlapping rotations ----

  lemma CollectedFrom(s: State, u: nat, ks: seq<nat>, a: nat)
    requires Valid(s) && Picks(ks, s.n) && a < |Collected(s, ks)| && u < |s.attempts|
    requires forall i :: 0 <= i < s.n ==> Holds(s, i, u)
    ensures IsShare(Collected(s, ks)[a], s.attempts[u].key, s.attempts[u].coeffs, Collected(s, ks)[a].x)
  {
    hide ShareBytesAt, IsShare;
    CollectedPoints(s, ks, a);
    var p :| 0 <= p < |ks| && s.stores[ks[p]].Some? && Collected(s, ks)[a] == Share(ks[p] + 1, s.stores[ks[p]].value);
    assert Holds(s, ks[p], u);
  }

  /** When every keeper holds another attempt's shares, no answers whatsoever open the document. */
  lemma OverwrittenIsLost(c: Crypto, s: State, u: nat, ks: seq<nat>)
    requires CollisionFree(c) && Valid(s) && s.anchored.Some? && Picks(ks, s.n)
    requires u < |s.attempts| && forall i :: 0 <= i < s.n ==> Holds(s, i, u)
    requires s.attempts[u].key != s.attempts[s.anchored.value].key
    ensures Open(c, s, ks).Err?
  {
    hide ShareBytesAt, IsShare, WellFormed, Recovered, Holds;
    if Open(c, s, ks).Ok? {
      var (key, other) := (s.attempts[s.anchored.value].key, s.attempts[u]);
      var shares := Collected(s, ks);
      CollectedUsual(s, ks);
      assert ValidAttempt(other);
      var a, b := SearchSound(c, shares, c.sha256(key), 0, 1);
      UsualPair(shares, a, b);
      var p := PairOf(shares, a, b);
      CollectedFrom(s, u, ks, a);
      CollectedFrom(s, u, ks, b);
      assert Xs(p)[0] == Xs(shares)[a] && Xs(p)[1] == Xs(shares)[b];
      ThresholdRecovers(p, other.key, other.coeffs);
    }
  }

  lemma {:induction false} RunConcat(s: State, first: seq<Event>, mid: State, second: seq<Event>, s': State)
    requires Valid(s) && Run(s, first, mid) && Valid(mid) && Run(mid, second, s')
    ensures Run(s, first + second, s')
    decreases |first|
  {
    hide ShareBytesAt;
    if first == [] {
      assert first + second == second;
    } else {
      assert (first + second)[0] == first[0] && (first + second)[1..] == first[1..] + second;
      StepValid(s, first[0]);
      RunConcat(Step(s, first[0]), first[1..], mid, second, s');
    }
  }

  lemma RunOne(s: State, e: Event)
    requires Valid(s) && Enabled(s, e)
    ensures Valid(Step(s, e)) && Run(s, [e], Step(s, e))
  {
    hide ShareBytesAt;
    StepValid(s, e);
    assert [e][0] == e && [e][1..] == [];
    assert Run(Step(s, e), [], Step(s, e));
  }

  /** All of attempt t's deals from keeper `from` on arrive and are answered. */
  lemma {:induction false} DeliverRest(s: State, t: nat, from: nat) returns (events: seq<Event>, s': State)
    requires Valid(s) && from <= s.n && t < |s.attempts|
    requires forall i :: from <= i < s.n ==> Message(t, i) in s.inFlight
    requires forall i :: 0 <= i < from ==> Message(t, i) in s.acks && Holds(s, i, t)
    ensures Valid(s') && Run(s, events, s')
    ensures forall i :: 0 <= i < s.n ==> Message(t, i) in s'.acks && Holds(s', i, t)
    ensures s'.n == s.n && s'.attempts == s.attempts && s'.pending == s.pending && s'.anchored == s.anchored
    ensures s.acks <= s'.acks && forall m :: m in s.inFlight && m.attempt != t ==> m in s'.inFlight
    ensures OnlyDelivers(events, t)
    decreases s.n - from
  {
    hide ShareBytesAt;
    if from == s.n {
      events, s' := [], s;
    } else {
      var e := Deliver(Message(t, from), true);
      var s1 := Step(s, e);
      RunOne(s, e);
      forall i | 0 <= i < from + 1 ensures Message(t, i) in s1.acks && Holds(s1, i, t) {
        if i < from { assert Holds(s, i, t); }
      }
      var rest;
      rest, s' := DeliverRest(s1, t, from + 1);
      events := [e] + rest;
      RunConcat(s, [e], s1, rest, s');
    }
  }

  /** From a sealed document, two overlapping rotations that both complete can anchor one key over the other's
      shares. */
  lemma OverlappingRotationsLose(c: Crypto, s: State, a: Attempt, b: Attempt) returns (events: seq<Event>, s': State)
    requires CollisionFree(c) && Valid(s) && s.anchored.Some?
    requires ValidAttempt(a) && ValidAttempt(b) && a.key != b.key
    ensures Run(s, events, s') && Valid(s') && s'.anchored == Some(|s.attempts|) && s'.n == s.n
    ensures s'.attempts == s.attempts + [a, b]
    ensures forall ks :: Picks(ks, s.n) ==> Open(c, s', ks).Err?
  {
    hide ShareBytesAt, Open;
    var t := |s.attempts|;
    var s1 := Step(s, BeginRotate(a));
    RunOne(s, BeginRotate(a));
    var s2 := Step(s1, BeginRotate(b));
    RunOne(s1, BeginRotate(b));
    RunConcat(s, [BeginRotate(a)], s1, [BeginRotate(b)], s2);
    var e3, s3 := DeliverRest(s2, t, 0);
    RunConcat(s, [BeginRotate(a)] + [BeginRotate(b)], s2, e3, s3);
    var e4, s4 := DeliverRest(s3, t + 1, 0);
    RunConcat(s, [BeginRotate(a)] + [BeginRotate(b)] + e3, s3, e4, s4);
    var s5 := Step(s4, Anchor(t + 1));
    RunOne(s4, Anchor(t + 1));
    RunConcat(s, [BeginRotate(a)] + [BeginRotate(b)] + e3 + e4, s4, [Anchor(t + 1)], s5);
    s' := Step(s5, Anchor(t));
    RunOne(s5, Anchor(t));
    events := [BeginRotate(a)] + [BeginRotate(b)] + e3 + e4 + [Anchor(t + 1)] + [Anchor(t)];
    RunConcat(s, [BeginRotate(a)] + [BeginRotate(b)] + e3 + e4 + [Anchor(t + 1)], s5, [Anchor(t)], s');
    assert s2.attempts == s.attempts + [a, b];
    var u := t + 1;
    forall i | 0 <= i < s'.n ensures Holds(s', i, u) {
      assert Holds(s4, i, u);
    }
    forall ks | Picks(ks, s.n) ensures Open(c, s', ks).Err? {
      OverwrittenIsLost(c, s', u, ks);
    }
  }

  /** One request alone loses it too: all its deals arrive and are answered, and the chain call after them fails. The
      anchor stays, and no answers whatsoever meet it. */
  lemma FailedAnchorLoses(c: Crypto, s: State, a: Attempt, rotate: bool) returns (events: seq<Event>, s': State)
    requires CollisionFree(c) && Valid(s) && s.anchored.Some? && ValidAttempt(a)
    requires a.key != s.attempts[s.anchored.value].key
    ensures Run(s, [BeginOf(a, rotate)] + events + [GiveUp(|s.attempts|)], s') && Valid(s')
    ensures OnlyDelivers(events, |s.attempts|) && s'.n == s.n && s'.anchored == s.anchored
    ensures s'.attempts == s.attempts + [a] && FullyDealt(s', |s.attempts|)
    ensures forall ks :: Picks(ks, s.n) ==> Open(c, s', ks).Err?
  {
    hide ShareBytesAt, Open;
    var t := |s.attempts|;
    var begin := BeginOf(a, rotate);
    var s1 := Step(s, begin);
    RunOne(s, begin);
    var s2;
    events, s2 := DeliverRest(s1, t, 0);
    RunConcat(s, [begin], s1, events, s2);
    s' := Step(s2, GiveUp(t));
    RunOne(s2, GiveUp(t));
    RunConcat(s, [begin] + events, s2, [GiveUp(t)], s');
    forall i | 0 <= i < s'.n ensures Holds(s', i, t) {
      assert Holds(s2, i, t);
    }
    forall ks | Picks(ks, s.n) ensures Open(c, s', ks).Err? {
      OverwrittenIsLost(c, s', t, ks);
    }
  }

  /** Such a run from nothing: seal, then two overlapping rotations, and nobody can open what is anchored. */
  lemma LostFromScratch(c: Crypto, n: nat, first: Attempt, a: Attempt, b: Attempt)
    returns (events: seq<Event>, s': State)
    requires CollisionFree(c) && 2 <= n <= 255
    requires ValidAttempt(first) && ValidAttempt(a) && ValidAttempt(b) && a.key != b.key
    ensures Run(Initial(n), events, s') && Valid(s') && s'.n == n
    ensures s'.attempts == [first, a, b] && s'.anchored == Some(1)
    ensures forall ks :: Picks(ks, n) ==> Open(c, s', ks).Err?
  {
    hide ShareBytesAt, Open;
    var s0 := Initial(n);
    var s1 := Step(s0, BeginSeal(first));
    RunOne(s0, BeginSeal(first));
    var dealt, s2 := DeliverRest(s1, 0, 0);
    RunConcat(s0, [BeginSeal(first)], s1, dealt, s2);
    var s3 := Step(s2, Anchor(0));
    RunOne(s2, Anchor(0));
    RunConcat(s0, [BeginSeal(first)] + dealt, s2, [Anchor(0)], s3);
    var lost;
    lost, s' := OverlappingRotationsLose(c, s3, a, b);
    events := [BeginSeal(first)] + dealt + [Anchor(0)] + lost;
    RunConcat(s0, [BeginSeal(first)] + dealt + [Anchor(0)], s3, lost, s');
  }
}
