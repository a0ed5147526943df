/** Opening a document while the committee goes on: the commitment and each answer are read at their own time. */
module DocumentOpening {
  import opened Outcomes
  import opened Shamir
  import opened ShamirTheorems
  import opened ShareSealing
  import opened KeyRecovery
  import opened CommitteeRotation

  /** `expected` is the attempt whose commitment was read from the chain; `answers` are the shares received so far. */
  datatype Opening = Opening(doc: State, expected: Option<nat>, answers: seq<Share>)

  /** A step of the dealer or a keeper, the reader's chain read, or one keeper's answer. */
  datatype Move = Background(e: Event) | ReadCommitment | Answer(keeper: nat)

  predicate Possible(o: Opening, e: Move) {
    match e
    case Background(b) => Enabled(o.doc, b)
    case ReadCommitment => o.expected.None? && o.doc.anchored.Some?
    case Answer(i) =>
      && i < o.doc.n && i < |o.doc.stores| && o.doc.stores[i].Some?
      && forall a :: 0 <= a < |o.answers| ==> o.answers[a].x != i + 1
  }

  ghost predicate ValidOpening(o: Opening) {
    && Valid(o.doc) && Usual(o.answers)
    && (o.expected.Some? ==> o.expected.value < |o.doc.attempts|)
  }

  function Next(o: Opening, e: Move): Opening
    requires ValidOpening(o) && Possible(o, e)
  {
    match e
    case Background(b) => o.(doc := Step(o.doc, b))
    case ReadCommitment => o.(expected := o.doc.anchored)
    case Answer(i) => o.(answers := o.answers + [Share(i + 1, o.doc.stores[i].value)])
  }

  lemma UsualAppend(shares: seq<Share>, s: Share)
    requires Usual(shares) && |s.y| == 32 && 1 <= s.x <= 255
    requires forall a :: 0 <= a < |shares| ==> shares[a].x != s.x
    ensures Usual(shares + [s])
  {
    var all := shares + [s];
    forall a | 0 <= a < |shares| ensures Xs(all)[a] == Xs(shares)[a] && Xs(all)[a] != s.x {}
    assert Xs(all) == Xs(shares) + [s.x];
  }

  /** Attempts are never forgotten or changed. */
  lemma NextValid(o: Opening, e: Move)
    requires ValidOpening(o) && Possible(o, e)
    ensures ValidOpening(Next(o, e)) && o.answers <= Next(o, e).answers
    ensures Next(o, e).doc.n == o.doc.n && o.doc.attempts <= Next(o, e).doc.attempts
    ensures o.expected.Some? ==> Next(o, e).expected == o.expected
  {
    hide Usual, ShareBytesAt;
    match e
    case Background(b) => StepValid(o.doc, b);
    case ReadCommitment =>
    case Answer(i) =>
      var t :| Holds(o.doc, i, t);
      assert |o.doc.stores[i].value| == 32 by { HeldLength(o.doc, i, t); }
      UsualAppend(o.answers, Share(i + 1, o.doc.stores[i].value));
  }

  lemma HeldLength(s: State, i: nat, t: nat)
    requires Holds(s, i, t)
    ensures |s.stores[i].value| == 32
    ensures IsShare(Share(i + 1, s.stores[i].value), s.attempts[t].key, s.attempts[t].coeffs, i + 1)
  {}

  ghost predicate Proceeds(o: Opening, events: seq<Move>, o': Opening)
    requires ValidOpening(o)
    decreases |events|
  {
    if events == [] then o' == o
    else Possible(o, events[0]) && (NextValid(o, events[0]); Proceeds(Next(o, events[0]), events[1..], o'))
  }

  lemma {:induction false} ProceedsValid(o: Opening, events: seq<Move>, o': Opening)
    requires ValidOpening(o) && Proceeds(o, events, o')
    ensures ValidOpening(o') && o.answers <= o'.answers
    ensures o'.doc.n == o.doc.n && o.doc.attempts <= o'.doc.attempts
    ensures o.expected.Some? ==> o'.expected == o.expected
    decreases |events|
  {
    hide ValidOpening, Possible;
    if events != [] {
      NextValid(o, events[0]);
      ProceedsValid(Next(o, events[0]), events[1..], o');
    }
  }

  lemma ProceedsUncons(o: Opening, e: Move, events: seq<Move>, o': Opening)
    requires ValidOpening(o) && Proceeds(o, [e] + events, o')
    ensures Possible(o, e) && ValidOpening(Next(o, e)) && Proceeds(Next(o, e), events, o')
  {
    hide ValidOpening, Possible;
    assert ([e] + events)[0] == e && ([e] + events)[1..] == events;
    NextValid(o, e);
  }

  function ExpectedKey(o: Opening): (key: Bytes)
    requires ValidOpening(o) && o.expected.Some?
    ensures |key| == 32
  {
    o.doc.attempts[o.expected.value].key
  }

  /** What the reader gets from the answers so far. */
  ghost function Finish(c: Crypto, o: Opening): Result<Recovery, RecoveryError>
    requires ValidOpening(o) && o.expected.Some?
  {
    SearchAll(c, o.answers, c.sha256(ExpectedKey(o)))
  }

  /** Whatever happens between the reads, only the key that was anchored when the commitment was read can come out. */
  lemma OnlyTheKeyRead(c: Crypto, o: Opening, events: seq<Move>, o': Opening)
    requires CollisionFree(c) && ValidOpening(o)
    requires Proceeds(o, [ReadCommitment] + events, o')
    ensures ValidOpening(o') && o.doc.anchored.Some? && o'.expected == o.doc.anchored
    ensures Finish(c, o').Ok? ==> Finish(c, o').value.k == o.doc.attempts[o.doc.anchored.value].key
  {
    hide SearchAll, CollisionFree;
    ProceedsUncons(o, ReadCommitment, events, o');
    ProceedsValid(Next(o, ReadCommitment), events, o');
    assert ExpectedKey(o') == o.doc.attempts[o.doc.anchored.value].key;
    if Finish(c, o').Ok? {
      OnlyTheCommittedKey(c, o'.answers, ExpectedKey(o'));
    }
  }

  /** Both shares are of one 2-of-n dealing of `key`. */
  ghost predicate OneLine(s: Share, t: Share, key: Bytes, coeffs: seq<Bytes>) {
    && |coeffs| == 1 && |key| == 32 && AllOfLength(coeffs, 32)
    && IsShare(s, key, coeffs, s.x) && IsShare(t, key, coeffs, t.x)
  }

  /** Opening succeeds exactly when some two answers, whenever they were given, are of one dealing of the key read. */
  lemma FinishesExactlyWhen(c: Crypto, o: Opening)
    requires Lawful(c) && CollisionFree(c) && ValidOpening(o) && o.expected.Some?
    ensures Finish(c, o).Ok? <==>
              exists a, b, coeffs ::
                0 <= a < b < |o.answers| && OneLine(o.answers[a], o.answers[b], ExpectedKey(o), coeffs)
  {
    var (shares, key) := (o.answers, ExpectedKey(o));
    assert |c.sha256(key)| == 32;
    hide SearchAll, IsShare, WellFormed, Recovered, Lawful, CollisionFree, Valid;
    if Finish(c, o).Ok? {
      UsualRecoversWhen(c, shares, c.sha256(key));
      var a, b :| 0 <= a < b < |shares| && Matches(c, shares, c.sha256(key), a, b);
      var coeffs := MatchingPairLine(c, shares, key, a, b);
    }
    if exists a, b, coeffs :: 0 <= a < b < |shares| && OneLine(shares[a], shares[b], key, coeffs) {
      var a, b, coeffs :| 0 <= a < b < |shares| && OneLine(shares[a], shares[b], key, coeffs);
      RobustRecovery(c, shares, key, coeffs, a, b);
    }
  }

  lemma MatchingPairLine(c: Crypto, shares: seq<Share>, key: Bytes, a: nat, b: nat) returns (coeffs: seq<Bytes>)
    requires CollisionFree(c) && Usual(shares) && |key| == 32 && a < b < |shares|
    requires Matches(c, shares, c.sha256(key), a, b)
    ensures OneLine(shares[a], shares[b], key, coeffs)
  {
    hide IsShare, Recovered, FittedCoefficients;
    var p := PairOf(shares, a, b);
    UsualPair(shares, a, b);
    OnTheLine(p, key);
    LoneShare(p[0], key);
    coeffs := FittedCoefficients([p[0]], key);
    EverySecretFits([p[0]], key);
    assert IsShare([p[0]][0], key, coeffs, p[0].x);
  }

  /** Two keepers that held the read attempt's shares when they answered are enough, however long it took and whatever
      was dealt, lost or anchored in between. */
  lemma HoldersAtAnswerOpen(c: Crypto, o1: Opening, i: nat, between: seq<Move>,
                            o2: Opening, j: nat, after: seq<Move>, o3: Opening, t: nat)
    requires Lawful(c) && CollisionFree(c)
    requires ValidOpening(o1) && Proceeds(o1, [Answer(i)] + between, o2) && Holds(o1.doc, i, t)
    requires ValidOpening(o2) && Proceeds(o2, [Answer(j)] + after, o3) && Holds(o2.doc, j, t)
    requires o3.expected == Some(t)
    ensures ValidOpening(o3) && Finish(c, o3).Ok? && Finish(c, o3).value.k == ExpectedKey(o3)
  {
    hide SearchAll, IsShare, ShareBytesAt, Lawful, CollisionFree, Usual, Valid;
    ProceedsUncons(o1, Answer(i), between, o2);
    ProceedsUncons(o2, Answer(j), after, o3);
    var (n1, n2) := (Next(o1, Answer(i)), Next(o2, Answer(j)));
    ProceedsValid(n1, between, o2);
    ProceedsValid(n2, after, o3);
    var (a, b) := (|o1.answers|, |o2.answers|);
    assert o3.answers[a] == n1.answers[a] == Share(i + 1, o1.doc.stores[i].value);
    assert o3.answers[b] == n2.answers[b] == Share(j + 1, o2.doc.stores[j].value);
    var attempt := o3.doc.attempts[t];
    assert o1.doc.attempts[t] == attempt && o2.doc.attempts[t] == attempt;
    HeldLength(o1.doc, i, t);
    HeldLength(o2.doc, j, t);
    RobustRecovery(c, o3.answers, attempt.key, attempt.coeffs, a, b);
  }

  /** Beside one answer of the read attempt, a pair of answers gives the key exactly when the other is of it too. */
  lemma AnswersMatchExactlyWhen(c: Crypto, o: Opening, a: nat, b: nat, k: nat)
    requires Lawful(c) && CollisionFree(c) && ValidOpening(o) && o.expected.Some?
    requires a < b < |o.answers| && (k == a || k == b)
    requires var t := o.doc.attempts[o.expected.value]; IsShare(o.answers[k], t.key, t.coeffs, o.answers[k].x)
    ensures var (t, other) := (o.doc.attempts[o.expected.value], o.answers[a + b - k]);
            Matches(c, o.answers, c.sha256(ExpectedKey(o)), a, b) <==> IsShare(other, t.key, t.coeffs, other.x)
  {
    hide IsShare, WellFormed, Recovered, Lawful;
    var t := o.doc.attempts[o.expected.value];
    var p := PairOf(o.answers, a, b);
    UsualPair(o.answers, a, b);
    assert |o.answers[a].y| == 32;
    LineThrough(p, t.key, t.coeffs, if k == a then 0 else 1);
  }

  /** Two answers and no more, of which at least one keeper held the read attempt's share when it answered: the opening
      succeeds exactly when both did. */
  lemma TwoAnswersOpenExactlyWhen(c: Crypto, o1: Opening, i: nat, between: seq<Move>, o2: Opening, j: nat,
                                  after: seq<Move>, o3: Opening, t: nat)
    requires Lawful(c) && CollisionFree(c)
    requires ValidOpening(o1) && Proceeds(o1, [Answer(i)] + between, o2) && o1.answers == [] && |o2.answers| == 1
    requires ValidOpening(o2) && Proceeds(o2, [Answer(j)] + after, o3) && |o3.answers| == 2
    requires o3.expected == Some(t) && t < |o1.doc.attempts|
    requires Holds(o1.doc, i, t) || Holds(o2.doc, j, t)
    ensures ValidOpening(o3) && (Finish(c, o3).Ok? <==> Holds(o1.doc, i, t) && Holds(o2.doc, j, t))
  {
    hide *;
    var first := AnswerKept(o1, i, between, o2, t);
    var second := AnswerKept(o2, j, after, o3, t);
    KeptLonger(o2, j, after, o3);
    assert o3.answers[0] == first && o3.answers[1] == second;
    BesideOneAnswer(c, o3, t, Holds(o1.doc, i, t), Holds(o2.doc, j, t));
  }

  lemma KeptLonger(o: Opening, i: nat, events: seq<Move>, o': Opening)
    requires ValidOpening(o) && Proceeds(o, [Answer(i)] + events, o')
    ensures o.answers <= o'.answers
  {
    hide ValidOpening, Possible;
    ProceedsUncons(o, Answer(i), events, o');
    ProceedsValid(Next(o, Answer(i)), events, o');
  }

  lemma BesideOneAnswer(c: Crypto, o: Opening, t: nat, first: bool, second: bool)
    requires Lawful(c) && CollisionFree(c) && ValidOpening(o) && o.expected == Some(t) && |o.answers| == 2
    requires t < |o.doc.attempts| && (first || second)
    requires first <==> IsShare(o.answers[0], o.doc.attempts[t].key, o.doc.attempts[t].coeffs, o.answers[0].x)
    requires second <==> IsShare(o.answers[1], o.doc.attempts[t].key, o.doc.attempts[t].coeffs, o.answers[1].x)
    ensures Finish(c, o).Ok? <==> first && second
  {
    hide SearchAll, IsShare, ShareBytesAt, CollisionFree, Matches, Valid;
    assert |c.sha256(ExpectedKey(o))| == 32;
    hide Lawful;
    TwoMatch(c, o.answers, c.sha256(ExpectedKey(o)));
    AnswersMatchExactlyWhen(c, o, 0, 1, if first then 0 else 1);
  }

  /** The answer given now is still there later, and is of attempt t exactly when the keeper holds t's share now. */
  lemma AnswerKept(o: Opening, i: nat, events: seq<Move>, o': Opening, t: nat) returns (s: Share)
    requires ValidOpening(o) && Proceeds(o, [Answer(i)] + events, o') && t < |o.doc.attempts|
    ensures ValidOpening(o') && |o.answers| < |o'.answers| && o'.answers[|o.answers|] == s
    ensures t < |o'.doc.attempts| && o'.doc.attempts[t] == o.doc.attempts[t] && o.doc.attempts <= o'.doc.attempts
    ensures s.x == i + 1
    ensures Holds(o.doc, i, t) <==> IsShare(s, o'.doc.attempts[t].key, o'.doc.attempts[t].coeffs, s.x)
  {
    hide IsShare, ShareBytesAt, Usual;
    ProceedsUncons(o, Answer(i), events, o');
    ProceedsValid(Next(o, Answer(i)), events, o');
    s := Share(i + 1, o.doc.stores[i].value);
    assert Next(o, Answer(i)).answers[|o.answers|] == s;
    var u :| Holds(o.doc, i, u);
    HeldLength(o.doc, i, u);
    HeldShare(o.doc, i, t);
  }

  lemma TwoMatch(c: Crypto, shares: seq<Share>, commitment: Bytes)
    requires Usual(shares) && |shares| == 2 && |commitment| == 32
    ensures SearchAll(c, shares, commitment).Ok? <==> Matches(c, shares, commitment, 0, 1)
  {
    hide SearchAll, Matches, Usual;
    UsualRecoversWhen(c, shares, commitment);
  }

  // ---- a rotation in the middle of an opening ----

  lemma {:induction false} ProceedsConcat(o: Opening, first: seq<Move>, mid: Opening, second: seq<Move>, o': Opening)
    requires ValidOpening(o) && Proceeds(o, first, mid) && ValidOpening(mid) && Proceeds(mid, second, o')
    ensures Proceeds(o, first + second, o')
    decreases |first|
  {
    hide ValidOpening, Possible;
    if first == [] {
      assert first + second == second;
    } else {
      assert (first + second)[0] == first[0] && (first + second)[1..] == first[1..] + second;
      NextValid(o, first[0]);
      ProceedsConcat(Next(o, first[0]), first[1..], mid, second, o');
    }
  }

  lemma ProceedsOne(o: Opening, e: Move)
    requires ValidOpening(o) && Possible(o, e)
    ensures ValidOpening(Next(o, e)) && Proceeds(o, [e], Next(o, e))
  {
    hide ValidOpening, Possible;
    NextValid(o, e);
    assert [e][0] == e && [e][1..] == [];
    assert Proceeds(Next(o, e), [], Next(o, e));
  }

  function InBackground(events: seq<Event>): seq<Move> {
    seq(|events|, k requires 0 <= k < |events| => Background(events[k]))
  }

  lemma {:induction false} BackgroundRun(o: Opening, events: seq<Event>, s': State)
    requires ValidOpening(o) && Run(o.doc, events, s')
    ensures ValidOpening(o.(doc := s')) && Proceeds(o, InBackground(events), o.(doc := s'))
    decreases |events|
  {
    hide Valid, Usual, Enabled, Step;
    if events != [] {
      var b := InBackground(events);
      StepValid(o.doc, events[0]);
      NextValid(o, Background(events[0]));
      assert b[0] == Background(events[0]) && b[1..] == InBackground(events[1..]);
      BackgroundRun(o.(doc := Step(o.doc, events[0])), events[1..], s');
    }
  }

  /** All keepers from `from` on answer, each holding attempt u's share. */
  lemma {:induction false} AnswerRest(o: Opening, u: nat, from: nat) returns (events: seq<Move>, o': Opening)
    requires ValidOpening(o) && from <= o.doc.n && u < |o.doc.attempts|
    requires forall i :: 0 <= i < o.doc.n ==> Holds(o.doc, i, u)
    requires |o.answers| == from && forall a :: 0 <= a < from ==> o.answers[a].x == a + 1
    requires FromDealing(o.answers, o.doc.attempts[u].key, o.doc.attempts[u].coeffs)
    ensures Proceeds(o, events, o') && ValidOpening(o')
    ensures o'.doc == o.doc && o'.expected == o.expected && |o'.answers| == o.doc.n
    ensures FromDealing(o'.answers, o.doc.attempts[u].key, o.doc.attempts[u].coeffs)
    decreases o.doc.n - from
  {
    hide ShareBytesAt, IsShare, Usual;
    if from == o.doc.n {
      events, o' := [], o;
    } else {
      var e := Answer(from);
      assert Holds(o.doc, from, u);
      HeldLength(o.doc, from, u);
      ProceedsOne(o, e);
      var rest;
      rest, o' := AnswerRest(Next(o, e), u, from + 1);
      events := [e] + rest;
      ProceedsConcat(o, [e], Next(o, e), rest, o');
    }
  }

  lemma OtherDealingFails(c: Crypto, shares: seq<Share>, key: Bytes, other: Attempt)
    requires CollisionFree(c) && Usual(shares) && |key| == 32 && ValidAttempt(other) && other.key != key
    requires FromDealing(shares, other.key, other.coeffs)
    ensures SearchAll(c, shares, c.sha256(key)).Err?
  {
    hide IsShare, WellFormed, Recovered;
    if SearchAll(c, shares, c.sha256(key)).Ok? {
      var a, b := SearchSound(c, shares, c.sha256(key), 0, 1);
      var p := PairOf(shares, a, b);
      UsualPair(shares, a, b);
      assert Xs(p)[0] == Xs(shares)[a] && Xs(p)[1] == Xs(shares)[b];
      ThresholdRecovers(p, other.key, other.coeffs);
    }
  }

  /** An opening can fail although the document opens through every pair before it and after it: the commitment is read,
      a rotation completes, and then all keepers answer. */
  lemma RotationDuringOpeningFails(c: Crypto, s: State, t: nat, b: Attempt)
    returns (before: Opening, events: seq<Move>, after: Opening)
    requires Lawful(c) && CollisionFree(c) && Valid(s) && s.anchored == Some(t)
    requires ValidAttempt(b) && b.key != s.attempts[t].key
    requires forall i :: 0 <= i < s.n ==> Holds(s, i, t)
    ensures before == Opening(s, None, []) && ValidOpening(before)
    ensures Proceeds(before, events, after) && ValidOpening(after)
    ensures after.expected == Some(t) && |after.answers| == s.n && Finish(c, after).Err?
    ensures EveryPairOpens(c, s) && after.doc.anchored.Some? && EveryPairOpens(c, after.doc)
  {
    hide ShareBytesAt, SearchAll, EveryPairOpens, Lawful, CollisionFree, IsShare;
    before := Opening(s, None, []);
    ProceedsOne(before, ReadCommitment);
    var read := Next(before, ReadCommitment);
    var rotation, s' := FullRotation(s, b);
    BackgroundRun(read, rotation, s');
    var rotated := read.(doc := s');
    ProceedsConcat(before, [ReadCommitment], read, InBackground(rotation), rotated);
    var answers;
    answers, after := AnswerRest(rotated, |s.attempts|, 0);
    events := [ReadCommitment] + InBackground(rotation) + answers;
    ProceedsConcat(before, [ReadCommitment] + InBackground(rotation), rotated, answers, after);
    OtherDealingFails(c, after.answers, s.attempts[t].key, b);
    EveryPairOpensBesideHolder(c, s, 0);
    EveryPairOpensBesideHolder(c, s', 0);
  }

  /** A rotation all of whose deals arrive and are answered. */
  lemma FullRotation(s: State, b: Attempt) returns (events: seq<Event>, s': State)
    requires Valid(s) && ValidAttempt(b) && s.anchored.Some?
    ensures Run(s, events, s') && Valid(s') && s'.n == s.n && s'.attempts == s.attempts + [b]
    ensures s'.anchored == Some(|s.attempts|) && forall i :: 0 <= i < s.n ==> Holds(s', i, |s.attempts|)
  {
    hide ShareBytesAt;
    var t := |s.attempts|;
    var s1 := Step(s, BeginRotate(b));
    RunOne(s, BeginRotate(b));
    var dealt, s2 := DeliverRest(s1, t, 0);
    RunConcat(s, [BeginRotate(b)], s1, dealt, s2);
    s' := Step(s2, Anchor(t));
    RunOne(s2, Anchor(t));
    events := [BeginRotate(b)] + dealt + [Anchor(t)];
    RunConcat(s, [BeginRotate(b)] + dealt, s2, [Anchor(t)], s');
    forall i | 0 <= i < s.n ensures Holds(s', i, t) { assert Holds(s2, i, t); }
  }
}
