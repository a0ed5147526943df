/** The access-batching queue: the store operations, and every interleaving of them with a guarded flush. */
module BatchQueue {
  import opened Outcomes
  import opened Shuffle

  type Id = seq<char>

  datatype Status = Queued | Submitted | Failed

  datatype Entry = Entry(
    ticket: nat, room: Id, accessor: Id, nullifier: Id, bundle: Id,
    enqueuedAt: int, status: Status, flushAt: int,
    txHash: Option<Id>, error: Option<Id>, submittedAt: Option<int>)

  /** What a member hands in; room and nullifier already lower-cased. */
  datatype Request = Request(room: Id, accessor: Id, nullifier: Id, bundle: Id)

  datatype Outcome = Landed(txHash: Id) | Rejected(error: Id)

  type Store = seq<Entry>

  // ---- the flush boundary ----

  /** The next epoch-aligned boundary strictly after `now`. */
  function NextFlushAt(now: int, windowMs: int): (r: int)
    requires windowMs > 0
    ensures now < r <= now + windowMs
  {
    assert now == (now / windowMs) * windowMs + now % windowMs;
    assert (now / windowMs + 1) * windowMs == (now / windowMs) * windowMs + windowMs;
    (now / windowMs + 1) * windowMs
  }

  /** Arrival-independent: all of window k, whose boundary is (k + 1) * w, get that one boundary. */
  lemma WindowSharesBoundary(now: int, windowMs: int, k: int)
    requires windowMs > 0
    ensures NextFlushAt(now, windowMs) == (k + 1) * windowMs <==> k * windowMs <= now < (k + 1) * windowMs
  {
    var q := now / windowMs;
    assert now == q * windowMs + now % windowMs;
    assert (q + 1) * windowMs == q * windowMs + windowMs && (k + 1) * windowMs == k * windowMs + windowMs;
    if k < q {
      MulMono(k + 1, q, windowMs); MulMono(k + 1, q + 1, windowMs);
      assert (q + 1) * windowMs > (k + 1) * windowMs;
    } else if k > q {
      MulMono(q + 1, k, windowMs);
    }
  }

  lemma MulMono(a: int, b: int, w: int)
    requires a <= b && w > 0
    ensures a * w <= b * w
  {}

  // ---- the store operations, as functions of the stored record ----

  function Find(s: Store, ticket: nat): (i: int)
    ensures i == -1 ==> forall k :: 0 <= k < |s| ==> s[k].ticket != ticket
    ensures i != -1 ==> 0 <= i < |s| && s[i].ticket == ticket
    decreases |s|
  {
    if s == [] then -1
    else if s[|s| - 1].ticket == ticket then |s| - 1
    else Find(s[..|s| - 1], ticket)
  }

  predicate IsQueuedFor(e: Entry, room: Id, nullifier: Id) {
    e.status == Queued && e.room == room && e.nullifier == nullifier
  }

  /** The first still-queued entry of (room, nullifier). */
  function FindQueued(s: Store, room: Id, nullifier: Id): (r: Option<Entry>)
    ensures r.Some? ==> r.value in s && IsQueuedFor(r.value, room, nullifier)
    ensures r.None? ==> forall i :: 0 <= i < |s| ==> !IsQueuedFor(s[i], room, nullifier)
    decreases |s|
  {
    if s == [] then None
    else
      var r := FindQueued(s[..|s| - 1], room, nullifier);
      if r.Some? then r
      else if IsQueuedFor(s[|s| - 1], room, nullifier) then Some(s[|s| - 1])
      else None
  }

  function NewEntry(q: Request, ticket: nat, now: int, windowMs: int): Entry
    requires windowMs > 0
  {
    Entry(ticket, q.room, q.accessor, q.nullifier, q.bundle, now, Queued, NextFlushAt(now, windowMs), None, None, None)
  }

  function Enqueued(s: Store, q: Request, ticket: nat, now: int, windowMs: int): Store
    requires windowMs > 0
  {
    if FindQueued(s, q.room, q.nullifier).Some? then s else s + [NewEntry(q, ticket, now, windowMs)]
  }

  function Settled(e: Entry, o: Outcome, at: int): Entry {
    match o
    case Landed(tx) => e.(status := Submitted, txHash := Some(tx), error := None, submittedAt := Some(at))
    case Rejected(m) => e.(status := Failed, txHash := None, error := Some(m), submittedAt := Some(at))
  }

  function Marked(s: Store, ticket: nat, o: Outcome, at: int): Store {
    var i := Find(s, ticket);
    if i == -1 then s else s[i := Settled(s[i], o, at)]
  }

  predicate Aged(e: Entry, olderThanMs: int, now: int) {
    e.status != Queued && now - (if e.submittedAt.Some? then e.submittedAt.value else e.enqueuedAt) > olderThanMs
  }

  function Purged(s: Store, olderThanMs: int, now: int): Store {
    if s == [] then []
    else if Aged(s[0], olderThanMs, now) then Purged(s[1..], olderThanMs, now)
    else [s[0]] + Purged(s[1..], olderThanMs, now)
  }

  /** The results of a whole batch, recorded ticket by ticket. */
  function MarkedAll(s: Store, batch: seq<nat>, outcomes: seq<Outcome>, at: int): Store
    requires |outcomes| == |batch|
  {
    if batch == [] then s
    else
      var n := |batch| - 1;
      Marked(MarkedAll(s, batch[..n], outcomes[..n], at), batch[n], outcomes[n], at)
  }

  function LandedCount(outcomes: seq<Outcome>): nat {
    if outcomes == [] then 0
    else
      var n := |outcomes| - 1;
      LandedCount(outcomes[..n]) + (if outcomes[n].Landed? then 1 else 0)
  }

  function QueuedTickets(s: Store): seq<nat> {
    if s == [] then []
    else if s[0].status == Queued then [s[0].ticket] + QueuedTickets(s[1..])
    else QueuedTickets(s[1..])
  }

  // ---- the snapshot a flush takes ----

  /** Stable: `e`, which stood before all of `sorted`, goes before what was enqueued at the same time or later. */
  function InsertByAge(e: Entry, sorted: Store): Store {
    if sorted == [] || e.enqueuedAt <= sorted[0].enqueuedAt then [e] + sorted
    else [sorted[0]] + InsertByAge(e, sorted[1..])
  }

  /** listQueued: the queued entries, oldest first, ties in store order. */
  function QueuedByAge(s: Store): Store {
    if s == [] then []
    else if s[0].status == Queued then InsertByAge(s[0], QueuedByAge(s[1..]))
    else QueuedByAge(s[1..])
  }

  function Tickets(s: Store): (ts: seq<nat>)
    ensures |ts| == |s|
  {
    seq(|s|, i requires 0 <= i < |s| => s[i].ticket)
  }

  predicate ByAge(s: Store) {
    forall i, j :: 0 <= i < j < |s| ==> s[i].enqueuedAt <= s[j].enqueuedAt
  }

  lemma {:induction false} InsertByAgeMeans(e: Entry, sorted: Store)
    requires ByAge(sorted)
    ensures ByAge(InsertByAge(e, sorted))
    ensures multiset(Tickets(InsertByAge(e, sorted))) == multiset{e.ticket} + multiset(Tickets(sorted))
    ensures forall x :: x in InsertByAge(e, sorted) ==> x == e || x in sorted
    decreases |sorted|
  {
    var r := InsertByAge(e, sorted);
    if sorted == [] || e.enqueuedAt <= sorted[0].enqueuedAt {
      assert Tickets(r) == [e.ticket] + Tickets(sorted);
    } else {
      var rest := InsertByAge(e, sorted[1..]);
      InsertByAgeMeans(e, sorted[1..]);
      forall j | 0 <= j < |rest| ensures sorted[0].enqueuedAt <= rest[j].enqueuedAt {
        assert rest[j] in rest;
      }
      assert Tickets(r) == [sorted[0].ticket] + Tickets(rest);
      assert Tickets(sorted) == [sorted[0].ticket] + Tickets(sorted[1..]);
    }
  }

  /** The snapshot has exactly the queued tickets, oldest first. */
  lemma {:induction false} QueuedByAgeMeans(s: Store)
    ensures ByAge(QueuedByAge(s)) && Rearranges(Tickets(QueuedByAge(s)), QueuedTickets(s))
    decreases |s|
  {
    if s != [] {
      QueuedByAgeMeans(s[1..]);
      if s[0].status == Queued {
        InsertByAgeMeans(s[0], QueuedByAge(s[1..]));
        assert QueuedTickets(s) == [s[0].ticket] + QueuedTickets(s[1..]);
      }
    }
  }

  /** The store object: each operation is one load, mutate, save. */
  class QueueStore {
    var store: Store

    constructor ()
      ensures store == []
    {
      store := [];
    }

    /** enqueue: the queued entry of (room, nullifier) if there is one, else a new one under a fresh ticket. */
    method Enqueue(q: Request, ticket: nat, now: int, windowMs: int) returns (e: Entry)
      requires windowMs > 0
      modifies this
      ensures store == Enqueued(old(store), q, ticket, now, windowMs)
      ensures e in store && e.status == Queued && e.room == q.room && e.nullifier == q.nullifier
      ensures if exists i :: 0 <= i < |old(store)| && old(store)[i].status == Queued
                        && old(store)[i].room == q.room && old(store)[i].nullifier == q.nullifier
              then store == old(store)
              else store == old(store) + [e] && e.ticket == ticket && e.accessor == q.accessor && e.bundle == q.bundle
                   && e.enqueuedAt == now && e.flushAt == NextFlushAt(now, windowMs)
                   && e.txHash == None && e.error == None && e.submittedAt == None
    {
      var dup := FindQueued(store, q.room, q.nullifier);
      if dup.Some? {
        return dup.value;
      }
      e := NewEntry(q, ticket, now, windowMs);
      store := store + [e];
    }

    /** markResult: the ticket's entry shows exactly this outcome, and nothing else changes. */
    method MarkResult(ticket: nat, o: Outcome, at: int)
      modifies this
      ensures store == Marked(old(store), ticket, o, at)
      ensures |store| == |old(store)|
      ensures forall i :: 0 <= i < |store| && old(store)[i].ticket != ticket ==> store[i] == old(store)[i]
      ensures UniqueTickets(old(store)) ==>
                forall i :: 0 <= i < |store| && old(store)[i].ticket == ticket ==>
                  && store[i] == old(store)[i].(status := store[i].status, txHash := store[i].txHash,
                                                error := store[i].error, submittedAt := Some(at))
                  && match o
                     case Landed(tx) =>
                       store[i].status == Submitted && store[i].txHash == Some(tx) && store[i].error == None
                     case Rejected(m) =>
                       store[i].status == Failed && store[i].txHash == None && store[i].error == Some(m)
    {
      if UniqueTickets(store) {
        forall k | 0 <= k < |store| && store[k].ticket == ticket { MarkedRecords(store, ticket, o, at, k); }
      }
      var i := Find(store, ticket);
      if i == -1 {
        return;
      }
      store := store[i := Settled(store[i], o, at)];
    }

    method QueuedCount() returns (n: nat)
      ensures n == |QueuedTickets(store)|
    {
      n := 0;
      for i := 0 to |store|
        invariant n + |QueuedTickets(store[i..])| == |QueuedTickets(store)|
      {
        assert store[i..][1..] == store[i + 1..];
        if store[i].status == Queued {
          n := n + 1;
        }
      }
      assert store[|store|..] == [];
    }

    /** The loop of a flush: one submission after another, each outcome recorded before the next. */
    method SubmitInOrder(batch: seq<nat>, outcomes: seq<Outcome>, at: int) returns (submitted: nat, failed: nat)
      requires |outcomes| == |batch|
      modifies this
      ensures store == MarkedAll(old(store), batch, outcomes, at)
      ensures submitted == LandedCount(outcomes) && submitted + failed == |batch|
    {
      hide Marked, UniqueTickets;
      submitted, failed := 0, 0;
      for i := 0 to |batch|
        invariant store == MarkedAll(old(store), batch[..i], outcomes[..i], at)
        invariant submitted == LandedCount(outcomes[..i]) && submitted + failed == i
      {
        assert batch[..i + 1][..i] == batch[..i] && outcomes[..i + 1][..i] == outcomes[..i];
        MarkResult(batch[i], outcomes[i], at);
        if outcomes[i].Landed? {
          submitted := submitted + 1;
        } else {
          failed := failed + 1;
        }
      }
      assert batch[..|batch|] == batch && outcomes[..|outcomes|] == outcomes;
    }

    /**
     * flush, when nothing else touches the store meanwhile, with the shuffle's draws and the relay's answers as inputs:
     * everything queued is submitted once, in shuffled order, its own outcome recorded, and nothing is left queued.
     */
    method Flush(draws: seq<nat>, outcomes: seq<Outcome>, at: int)
      returns (order: seq<nat>, submitted: nat, failed: nat)
      requires UniqueTickets(store)
      requires |draws| == |outcomes| == |QueuedByAge(store)| && Choices(draws)
      modifies this
      ensures order == Shuffled(Tickets(QueuedByAge(old(store))), draws)
      ensures store == MarkedAll(old(store), order, outcomes, at)
      ensures |store| == |old(store)|
      ensures forall i :: 0 <= i < |store| && old(store)[i].ticket !in order ==> store[i] == old(store)[i]
      ensures forall i, k :: 0 <= i < |store| && 0 <= k < |order| && old(store)[i].ticket == order[k] ==>
                && store[i] == old(store)[i].(status := store[i].status, txHash := store[i].txHash,
                                              error := store[i].error, submittedAt := Some(at))
                && match outcomes[k]
                   case Landed(tx) =>
                     store[i].status == Submitted && store[i].txHash == Some(tx) && store[i].error == None
                   case Rejected(m) =>
                     store[i].status == Failed && store[i].txHash == None && store[i].error == Some(m)
      ensures submitted == |set k | 0 <= k < |order| && SubmittedIn(store, order[k])| && submitted + failed == |order|
      ensures QueuedTickets(store) == []
    {
      hide *;
      var queued := Tickets(QueuedByAge(store));
      var batch := new nat[|queued|](i requires 0 <= i < |queued| => queued[i]);
      assert batch[..] == queued;
      FisherYates(batch, draws);
      order := batch[..];
      submitted, failed := SubmitInOrder(order, outcomes, at);
      FlushedFacts(old(store), draws, order, outcomes, at);
    }

    /** purgeTerminal: drops aged terminal entries, keeps everything else in place. */
    method PurgeTerminal(olderThanMs: int, now: int) returns (removed: nat)
      modifies this
      ensures store == Purged(old(store), olderThanMs, now)
      ensures removed == |old(store)| - |store|
    {
      removed := 0;
      var kept: Store := [];
      for i := 0 to |store|
        invariant store == old(store)
        invariant kept + Purged(store[i..], olderThanMs, now) == Purged(store, olderThanMs, now)
        invariant removed + |kept| == i
      {
        assert store[i..][1..] == store[i + 1..];
        if Aged(store[i], olderThanMs, now) {
          removed := removed + 1;
        } else {
          kept := kept + [store[i]];
          assert kept == kept[..|kept| - 1] + [store[i]];
        }
      }
      assert store[|store|..] == [];
      store := kept;
    }
  }

  // ---- the interleavings ----

  /** A flush holds its snapshot; `waiting` while the entry at `next` is with the relay. */
  datatype Flush = Idle | Flushing(batch: seq<nat>, next: nat, waiting: bool)

  /** `issued` are all tickets ever given out, `handed` every ticket given to `submit`, in order. */
  datatype State = State(store: Store, flush: Flush, issued: set<nat>, handed: seq<nat>)

  datatype Event =
    | Enqueue(q: Request, ticket: nat, now: int, windowMs: int)
    | BeginFlush(order: seq<nat>)
    | Submit
    | Settle(o: Outcome, at: int)
    | EndFlush(olderThanMs: int, now: int)

  /** `batchFlushing` refuses a second flush; an empty queue never starts one. */
  predicate Enabled(s: State, e: Event) {
    match e
    case Enqueue(_, ticket, _, windowMs) => ticket !in s.issued && windowMs > 0
    case BeginFlush(order) => s.flush.Idle? && order != [] && Rearranges(order, QueuedTickets(s.store))
    case Submit => s.flush.Flushing? && !s.flush.waiting && s.flush.next < |s.flush.batch|
    case Settle(_, _) => s.flush.Flushing? && s.flush.waiting && s.flush.next < |s.flush.batch|
    case EndFlush(_, _) => s.flush.Flushing? && !s.flush.waiting && s.flush.next == |s.flush.batch|
  }

  function Step(s: State, e: Event): State
    requires Enabled(s, e)
  {
    match e
    case Enqueue(q, ticket, now, windowMs) =>
      if FindQueued(s.store, q.room, q.nullifier).Some? then s
      else s.(store := Enqueued(s.store, q, ticket, now, windowMs), issued := s.issued + {ticket})
    case BeginFlush(order) => s.(flush := Flushing(order, 0, false))
    case Submit => s.(flush := s.flush.(waiting := true), handed := s.handed + [s.flush.batch[s.flush.next]])
    case Settle(o, at) =>
      s.(store := Marked(s.store, s.flush.batch[s.flush.next], o, at),
         flush := s.flush.(next := s.flush.next + 1, waiting := false))
    case EndFlush(olderThanMs, now) => s.(store := Purged(s.store, olderThanMs, now), flush := Idle)
  }

  predicate UniqueTickets(s: Store) {
    forall i, j :: 0 <= i < j < |s| ==> s[i].ticket != s[j].ticket
  }

  /** At most one queued entry per (room, nullifier). */
  predicate OneQueuedEach(s: Store) {
    forall i, j :: 0 <= i < j < |s| && s[i].status == Queued && s[j].status == Queued ==>
      s[i].room != s[j].room || s[i].nullifier != s[j].nullifier
  }

  predicate HasTicket(s: Store, ticket: nat) {
    exists i :: 0 <= i < |s| && s[i].ticket == ticket
  }

  predicate QueuedIn(s: Store, ticket: nat) {
    exists i :: 0 <= i < |s| && s[i].ticket == ticket && s[i].status == Queued
  }

  /** The ticket that is with the relay right now. */
  predicate InFlight(s: State, ticket: nat) {
    s.flush.Flushing? && s.flush.waiting && s.flush.next < |s.flush.batch| && s.flush.batch[s.flush.next] == ticket
  }

  ghost predicate FlushValid(s: State) {
    s.flush.Flushing? ==>
      var f := s.flush;
      && f.next <= |f.batch| && (f.waiting ==> f.next < |f.batch| && f.batch[f.next] in s.handed)
      && Distinct(f.batch)
      && (forall k :: 0 <= k < f.next ==>
            HasTicket(s.store, f.batch[k]) && !QueuedIn(s.store, f.batch[k]) && f.batch[k] in s.handed)
      && (forall k :: f.next <= k < |f.batch| ==> QueuedIn(s.store, f.batch[k]))
  }

  ghost predicate Valid(s: State) {
    && UniqueTickets(s.store) && OneQueuedEach(s.store)
    && (forall i :: 0 <= i < |s.store| ==> s.store[i].ticket in s.issued)
    && Distinct(s.handed)
    && (forall t :: t in s.handed ==> t in s.issued && (QueuedIn(s.store, t) ==> InFlight(s, t)))
    && FlushValid(s)
  }

  // ---- facts about the store functions ----

  lemma {:induction false} QueuedTicketsMean(s: Store, t: nat)
    ensures t in QueuedTickets(s) <==> QueuedIn(s, t)
    decreases |s|
  {
    if s != [] {
      QueuedTicketsMean(s[1..], t);
      assert s == [s[0]] + s[1..];
      if QueuedIn(s[1..], t) {
        var i :| 0 <= i < |s[1..]| && s[1..][i].ticket == t && s[1..][i].status == Queued;
        assert s[i + 1].ticket == t && s[i + 1].status == Queued;
      }
      if QueuedIn(s, t) {
        var i :| 0 <= i < |s| && s[i].ticket == t && s[i].status == Queued;
        if i > 0 { assert s[1..][i - 1] == s[i]; }
      }
    }
  }

  lemma {:induction false} QueuedTicketsDistinct(s: Store)
    requires UniqueTickets(s)
    ensures Distinct(QueuedTickets(s))
    decreases |s|
  {
    if s != [] {
      QueuedTicketsDistinct(s[1..]);
      if s[0].status == Queued && s[0].ticket in QueuedTickets(s[1..]) {
        QueuedTicketsMean(s[1..], s[0].ticket);
      }
    }
  }

  lemma FindHit(s: Store, ticket: nat)
    requires UniqueTickets(s) && HasTicket(s, ticket)
    ensures Find(s, ticket) != -1
    ensures forall i :: 0 <= i < |s| && s[i].ticket == ticket ==> i == Find(s, ticket)
  {}

  /** Settling rewrites one entry, whose ticket, room and nullifier stay. */
  lemma MarkedShape(s: Store, ticket: nat, o: Outcome, at: int) returns (i: nat)
    requires UniqueTickets(s) && HasTicket(s, ticket)
    ensures i < |s| && s[i].ticket == ticket && forall k :: 0 <= k < |s| && s[k].ticket == ticket ==> k == i
    ensures var s' := Marked(s, ticket, o, at);
            && |s'| == |s| && s'[i].ticket == ticket && s'[i].status != Queued
            && forall k :: 0 <= k < |s| && k != i ==> s'[k] == s[k]
  {
    FindHit(s, ticket);
    i := Find(s, ticket);
  }

  /** The settled entry shows exactly the outcome; its other fields, and every other entry, are as before. */
  lemma MarkedRecords(s: Store, ticket: nat, o: Outcome, at: int, i: nat)
    requires UniqueTickets(s) && i < |s|
    ensures |Marked(s, ticket, o, at)| == |s|
    ensures var e := Marked(s, ticket, o, at)[i];
            if s[i].ticket != ticket then e == s[i]
            else
              && e == s[i].(status := e.status, txHash := e.txHash, error := e.error, submittedAt := Some(at))
              && match o
                 case Landed(tx) => e.status == Submitted && e.txHash == Some(tx) && e.error == None
                 case Rejected(m) => e.status == Failed && e.txHash == None && e.error == Some(m)
  {
    if s[i].ticket == ticket { FindHit(s, ticket); }
  }

  /** Over a whole batch each entry shows the outcome of its own ticket. */
  lemma {:induction false} MarkedAllRecords(s: Store, batch: seq<nat>, outcomes: seq<Outcome>, at: int, i: nat)
    requires UniqueTickets(s) && |outcomes| == |batch| && Distinct(batch) && i < |s|
    ensures |MarkedAll(s, batch, outcomes, at)| == |s| && UniqueTickets(MarkedAll(s, batch, outcomes, at))
    ensures MarkedAll(s, batch, outcomes, at)[i].ticket == s[i].ticket
    ensures s[i].ticket !in batch ==> MarkedAll(s, batch, outcomes, at)[i] == s[i]
    ensures
      var e := MarkedAll(s, batch, outcomes, at)[i];
      forall k :: 0 <= k < |batch| && batch[k] == s[i].ticket ==>
        && e == s[i].(status := e.status, txHash := e.txHash, error := e.error, submittedAt := Some(at))
        && match outcomes[k]
           case Landed(tx) => e.status == Submitted && e.txHash == Some(tx) && e.error == None
           case Rejected(m) => e.status == Failed && e.txHash == None && e.error == Some(m)
    decreases |batch|
  {
    hide Marked;
    if batch != [] {
      var n := |batch| - 1;
      var before := MarkedAll(s, batch[..n], outcomes[..n], at);
      forall j | 0 <= j < |s| ensures |before| == |s| && UniqueTickets(before) && before[j].ticket == s[j].ticket {
        MarkedAllRecords(s, batch[..n], outcomes[..n], at, j);
      }
      MarkedAllRecords(s, batch[..n], outcomes[..n], at, i);
      forall j | 0 <= j < |s|
        ensures |Marked(before, batch[n], outcomes[n], at)| == |s|
        ensures Marked(before, batch[n], outcomes[n], at)[j].ticket == s[j].ticket
      {
        MarkedRecords(before, batch[n], outcomes[n], at, j);
      }
      MarkedRecords(before, batch[n], outcomes[n], at, i);
      assert batch == batch[..n] + [batch[n]];
    }
  }

  predicate SubmittedIn(s: Store, ticket: nat) {
    exists i :: 0 <= i < |s| && s[i].ticket == ticket && s[i].status == Submitted
  }

  lemma {:induction false} LandedPositions(outcomes: seq<Outcome>)
    ensures |set k | 0 <= k < |outcomes| && outcomes[k].Landed?| == LandedCount(outcomes)
    decreases |outcomes|
  {
    var landed := set k | 0 <= k < |outcomes| && outcomes[k].Landed?;
    if outcomes == [] {
      assert landed == {};
    } else {
      var n := |outcomes| - 1;
      LandedPositions(outcomes[..n]);
      var before := set k | 0 <= k < |outcomes[..n]| && outcomes[..n][k].Landed?;
      assert n !in before;
      assert landed == if outcomes[n].Landed? then before + {n} else before;
    }
  }

  /** The count of landed outcomes is the number of the batch's tickets left submitted. */
  lemma SubmittedTickets(s: Store, batch: seq<nat>, outcomes: seq<Outcome>, at: int)
    requires UniqueTickets(s) && |outcomes| == |batch| && Distinct(batch)
    requires forall k :: 0 <= k < |batch| ==> HasTicket(s, batch[k])
    ensures LandedCount(outcomes)
            == |set k | 0 <= k < |batch| && SubmittedIn(MarkedAll(s, batch, outcomes, at), batch[k])|
  {
    hide MarkedAll, LandedCount;
    LandedPositions(outcomes);
    var after := MarkedAll(s, batch, outcomes, at);
    forall k | 0 <= k < |batch| ensures SubmittedIn(after, batch[k]) <==> outcomes[k].Landed? {
      var i :| 0 <= i < |s| && s[i].ticket == batch[k];
      MarkedAllRecords(s, batch, outcomes, at, i);
      forall j | 0 <= j < |after| && after[j].ticket == batch[k] ensures j == i {
        MarkedAllRecords(s, batch, outcomes, at, j);
      }
    }
    assert (set k | 0 <= k < |batch| && SubmittedIn(after, batch[k]))
        == set k | 0 <= k < |outcomes| && outcomes[k].Landed?;
  }

  /** Settling one ticket ends its queueing and touches nothing else. */
  lemma MarkedMeans(s: Store, ticket: nat, o: Outcome, at: int, t: nat)
    requires UniqueTickets(s) && HasTicket(s, ticket)
    ensures QueuedIn(Marked(s, ticket, o, at), t) <==> QueuedIn(s, t) && t != ticket
    ensures HasTicket(Marked(s, ticket, o, at), t) <==> HasTicket(s, t)
    ensures UniqueTickets(Marked(s, ticket, o, at))
    ensures OneQueuedEach(s) ==> OneQueuedEach(Marked(s, ticket, o, at))
  {
    var i := MarkedShape(s, ticket, o, at);
    hide Marked;
    var s' := Marked(s, ticket, o, at);
    assert forall k :: 0 <= k < |s| ==> s'[k].ticket == s[k].ticket;
    if QueuedIn(s, t) && t != ticket {
      var k :| 0 <= k < |s| && s[k].ticket == t && s[k].status == Queued;
      assert s'[k] == s[k];
    }
    if HasTicket(s, t) {
      var k :| 0 <= k < |s| && s[k].ticket == t;
      assert s'[k].ticket == t;
    }
  }

  lemma {:induction false} MarkedAllMeans(s: Store, batch: seq<nat>, outcomes: seq<Outcome>, at: int, t: nat)
    requires UniqueTickets(s) && |outcomes| == |batch| && forall k :: 0 <= k < |batch| ==> HasTicket(s, batch[k])
    ensures UniqueTickets(MarkedAll(s, batch, outcomes, at))
    ensures QueuedIn(MarkedAll(s, batch, outcomes, at), t) <==> QueuedIn(s, t) && t !in batch
    ensures HasTicket(MarkedAll(s, batch, outcomes, at), t) <==> HasTicket(s, t)
    decreases |batch|
  {
    hide QueuedIn, HasTicket, UniqueTickets, Marked;
    if batch != [] {
      var n := |batch| - 1;
      var before := MarkedAll(s, batch[..n], outcomes[..n], at);
      MarkedAllMeans(s, batch[..n], outcomes[..n], at, t);
      MarkedAllMeans(s, batch[..n], outcomes[..n], at, batch[n]);
      MarkedMeans(before, batch[n], outcomes[n], at, t);
      assert batch == batch[..n] + [batch[n]];
    }
  }

  lemma FlushedLeavesNothing(s: Store, batch: seq<nat>, outcomes: seq<Outcome>, at: int)
    requires UniqueTickets(s) && Rearranges(batch, QueuedTickets(s)) && |outcomes| == |batch|
    ensures QueuedTickets(MarkedAll(s, batch, outcomes, at)) == []
  {
    hide QueuedTickets, MarkedAll;
    QueuedTicketsDistinct(s);
    RearrangedDistinct(batch, QueuedTickets(s));
    forall k | 0 <= k < |batch| ensures HasTicket(s, batch[k]) {
      QueuedTicketsMean(s, batch[k]);
    }
    var left := QueuedTickets(MarkedAll(s, batch, outcomes, at));
    if left != [] {
      QueuedTicketsMean(MarkedAll(s, batch, outcomes, at), left[0]);
      MarkedAllMeans(s, batch, outcomes, at, left[0]);
      QueuedTicketsMean(s, left[0]);
    }
  }

  /** What a whole flush leaves behind. */
  lemma FlushedFacts(s: Store, draws: seq<nat>, order: seq<nat>, outcomes: seq<Outcome>, at: int)
    requires UniqueTickets(s) && |draws| == |outcomes| == |QueuedByAge(s)| && Choices(draws)
    requires order == Shuffled(Tickets(QueuedByAge(s)), draws)
    ensures var after := MarkedAll(s, order, outcomes, at);
            && |after| == |s|
            && (forall i :: 0 <= i < |s| && s[i].ticket !in order ==> after[i] == s[i])
            && (forall i, k :: 0 <= i < |s| && 0 <= k < |order| && s[i].ticket == order[k] ==>
                  && after[i] == s[i].(status := after[i].status, txHash := after[i].txHash, error := after[i].error,
                                       submittedAt := Some(at))
                  && match outcomes[k]
                     case Landed(tx) =>
                       after[i].status == Submitted && after[i].txHash == Some(tx) && after[i].error == None
                     case Rejected(m) =>
                       after[i].status == Failed && after[i].txHash == None && after[i].error == Some(m))
            && LandedCount(outcomes) == |set k | 0 <= k < |order| && SubmittedIn(after, order[k])|
            && QueuedTickets(after) == []
  {
    QueuedByAgeMeans(s);
    ShuffledPermutes(Tickets(QueuedByAge(s)), draws);
    QueuedTicketsDistinct(s);
    RearrangedDistinct(order, QueuedTickets(s));
    hide MarkedAll, QueuedByAge, QueuedTickets, LandedCount, SubmittedIn, UniqueTickets, Shuffled;
    forall k | 0 <= k < |order| ensures HasTicket(s, order[k]) {
      QueuedTicketsMean(s, order[k]);
    }
    forall i | 0 <= i < |s| {
      MarkedAllRecords(s, order, outcomes, at, i);
    }
    MarkedAllLength(s, order, outcomes, at);
    SubmittedTickets(s, order, outcomes, at);
    FlushedLeavesNothing(s, order, outcomes, at);
  }

  lemma {:induction false} MarkedAllLength(s: Store, batch: seq<nat>, outcomes: seq<Outcome>, at: int)
    requires |outcomes| == |batch|
    ensures |MarkedAll(s, batch, outcomes, at)| == |s|
    decreases |batch|
  {
    if batch != [] {
      MarkedAllLength(s, batch[..|batch| - 1], outcomes[..|batch| - 1], at);
    }
  }

  /** Where the surviving entries came from. */
  lemma {:induction false} PurgedFrom(s: Store, olderThanMs: int, now: int, j: nat) returns (i: nat)
    requires j < |Purged(s, olderThanMs, now)|
    ensures i < |s| && s[i] == Purged(s, olderThanMs, now)[j] && !Aged(s[i], olderThanMs, now)
    decreases |s|
  {
    if Aged(s[0], olderThanMs, now) {
      i := PurgedFrom(s[1..], olderThanMs, now, j);
      i := i + 1;
    } else if j == 0 {
      i := 0;
    } else {
      i := PurgedFrom(s[1..], olderThanMs, now, j - 1);
      i := i + 1;
    }
  }

  /** Only aged terminal entries go. */
  lemma {:induction false} PurgedKeeps(s: Store, olderThanMs: int, now: int, i: nat)
    requires i < |s| && !Aged(s[i], olderThanMs, now)
    ensures s[i] in Purged(s, olderThanMs, now)
    decreases |s|
  {
    if i > 0 { PurgedKeeps(s[1..], olderThanMs, now, i - 1); }
  }

  /** Exactly what a purge leaves, by the entries' own fields. */
  lemma {:induction false} PurgedExactlyWhen(s: Store, olderThanMs: int, now: int, e: Entry)
    ensures e in Purged(s, olderThanMs, now) <==>
              e in s && (e.status == Queued
                         || now - (match e.submittedAt case Some(t) => t case None => e.enqueuedAt) <= olderThanMs)
    decreases |s|
  {
    if s != [] {
      PurgedExactlyWhen(s[1..], olderThanMs, now, e);
      assert s == [s[0]] + s[1..];
    }
  }

  lemma {:induction false} PurgedValid(s: Store, olderThanMs: int, now: int)
    requires UniqueTickets(s) && OneQueuedEach(s)
    ensures UniqueTickets(Purged(s, olderThanMs, now)) && OneQueuedEach(Purged(s, olderThanMs, now))
    decreases |s|
  {
    if s != [] {
      PurgedValid(s[1..], olderThanMs, now);
      var rest := Purged(s[1..], olderThanMs, now);
      forall j | 0 <= j < |rest|
        ensures rest[j].ticket != s[0].ticket
        ensures rest[j].status == Queued && s[0].status == Queued
                ==> rest[j].room != s[0].room || rest[j].nullifier != s[0].nullifier
      {
        var i := PurgedFrom(s[1..], olderThanMs, now, j);
        assert s[1..][i] == s[i + 1];
      }
    }
  }

  lemma PurgedQueued(s: Store, olderThanMs: int, now: int, t: nat)
    ensures QueuedIn(Purged(s, olderThanMs, now), t) <==> QueuedIn(s, t)
  {
    var p := Purged(s, olderThanMs, now);
    if QueuedIn(p, t) {
      var j :| 0 <= j < |p| && p[j].ticket == t && p[j].status == Queued;
      var i := PurgedFrom(s, olderThanMs, now, j);
    }
    if QueuedIn(s, t) {
      var i :| 0 <= i < |s| && s[i].ticket == t && s[i].status == Queued;
      PurgedKeeps(s, olderThanMs, now, i);
      var j :| 0 <= j < |p| && p[j] == s[i];
    }
  }

  // ---- every step keeps the invariant ----

  lemma EnqueueValid(s: State, e: Event)
    requires Valid(s) && Enabled(s, e) && e.Enqueue?
    ensures Valid(Step(s, e))
    ensures forall t :: t != e.ticket ==> (QueuedIn(Step(s, e).store, t) <==> QueuedIn(s.store, t))
  {
    var s' := Step(s, e);
    if s' != s {
      var (older, newer) := (s.store, s'.store);
      assert newer == older + [NewEntry(e.q, e.ticket, e.now, e.windowMs)];
      forall t | t != e.ticket
        ensures (QueuedIn(newer, t) <==> QueuedIn(older, t)) && (HasTicket(newer, t) <==> HasTicket(older, t))
      {
        if QueuedIn(older, t) {
          var i :| 0 <= i < |older| && older[i].ticket == t && older[i].status == Queued;
          assert newer[i] == older[i];
        }
        if HasTicket(older, t) { var i :| 0 <= i < |older| && older[i].ticket == t; assert newer[i] == older[i]; }
      }
      forall t | HasTicket(older, t) ensures t in s.issued {}
    }
  }

  lemma BeginValid(s: State, e: Event)
    requires Valid(s) && Enabled(s, e) && e.BeginFlush?
    ensures Valid(Step(s, e))
  {
    QueuedTicketsDistinct(s.store);
    RearrangedDistinct(e.order, QueuedTickets(s.store));
    forall k | 0 <= k < |e.order| ensures QueuedIn(s.store, e.order[k]) {
      QueuedTicketsMean(s.store, e.order[k]);
    }
  }

  lemma SettleValid(s: State, e: Event)
    requires Valid(s) && Enabled(s, e) && e.Settle?
    ensures Valid(Step(s, e))
    ensures forall t :: QueuedIn(Step(s, e).store, t) <==> QueuedIn(s.store, t) && t != s.flush.batch[s.flush.next]
  {
    var f := s.flush;
    var ticket := f.batch[f.next];
    assert QueuedIn(s.store, ticket);
    assert HasTicket(s.store, ticket);
    FindHit(s.store, ticket);
    forall t
      ensures QueuedIn(Step(s, e).store, t) <==> QueuedIn(s.store, t) && t != ticket
      ensures HasTicket(Step(s, e).store, t) <==> HasTicket(s.store, t)
    {
      MarkedMeans(s.store, ticket, e.o, e.at, t);
    }
    MarkedMeans(s.store, ticket, e.o, e.at, ticket);
    assert ticket in s.handed;
  }

  lemma EndValid(s: State, e: Event)
    requires Valid(s) && Enabled(s, e) && e.EndFlush?
    ensures Valid(Step(s, e))
    ensures forall t :: QueuedIn(Step(s, e).store, t) <==> QueuedIn(s.store, t)
  {
    var p := Purged(s.store, e.olderThanMs, e.now);
    PurgedValid(s.store, e.olderThanMs, e.now);
    forall j | 0 <= j < |p| ensures p[j].ticket in s.issued {
      var i := PurgedFrom(s.store, e.olderThanMs, e.now, j);
    }
    forall t ensures QueuedIn(p, t) <==> QueuedIn(s.store, t) {
      PurgedQueued(s.store, e.olderThanMs, e.now, t);
    }
  }

  lemma SubmitValid(s: State, e: Event)
    requires Valid(s) && Enabled(s, e) && e.Submit?
    ensures Valid(Step(s, e))
  {
    var ticket := s.flush.batch[s.flush.next];
    assert QueuedIn(s.store, ticket);
    assert ticket !in s.handed;
    var s' := Step(s, e);
    assert forall t :: t in s'.handed <==> t in s.handed || t == ticket;
  }

  lemma StepValid(s: State, e: Event)
    requires Valid(s) && Enabled(s, e)
    ensures Valid(Step(s, e))
  {
    match e
    case Enqueue(_, _, _, _) => EnqueueValid(s, e);
    case BeginFlush(_) => BeginValid(s, e);
    case Submit => SubmitValid(s, e);
    case Settle(_, _) => SettleValid(s, e);
    case EndFlush(_, _) => EndValid(s, e);
  }

  // ---- what the events mean for an entry ----

  /** Recording an answer: the entry at the relay shows exactly it, and nothing else changes. */
  lemma SettleRecords(s: State, e: Event, i: nat)
    requires Valid(s) && Enabled(s, e) && e.Settle? && i < |s.store|
    ensures var s' := Step(s, e);
            && |s'.store| == |s.store| && s'.issued == s.issued && s'.handed == s.handed
            && var entry := s'.store[i];
               if s.store[i].ticket != s.flush.batch[s.flush.next] then entry == s.store[i]
               else
                 && entry == s.store[i].(status := entry.status, txHash := entry.txHash, error := entry.error,
                                         submittedAt := Some(e.at))
                 && match e.o
                    case Landed(tx) => entry.status == Submitted && entry.txHash == Some(tx) && entry.error == None
                    case Rejected(m) => entry.status == Failed && entry.txHash == None && entry.error == Some(m)
  {
    MarkedRecords(s.store, s.flush.batch[s.flush.next], e.o, e.at, i);
  }

  /** A request is always taken, and queued after that; unless its room and nullifier were queued before, under its
      ticket and with just what the member handed in. */
  lemma EnqueueMeans(s: State, e: Event)
    requires Valid(s) && e.Enqueue? && e.ticket !in s.issued && e.windowMs > 0
    ensures Enabled(s, e)
    ensures var s' := Step(s, e);
            && s'.flush == s.flush && s'.handed == s.handed
            && if exists i :: 0 <= i < |s.store| && s.store[i].status == Queued && s.store[i].room == e.q.room
                         && s.store[i].nullifier == e.q.nullifier
               then s' == s
               else
                 && |s'.store| == |s.store| + 1 && s'.store[..|s.store|] == s.store
                 && s'.issued == s.issued + {e.ticket}
                 && s'.store[|s.store|] == Entry(e.ticket, e.q.room, e.q.accessor, e.q.nullifier, e.q.bundle, e.now,
                                                 Queued, NextFlushAt(e.now, e.windowMs), None, None, None)
  {}

  /** One step leaves an entry's request as it was. */
  lemma StepKeepsRequest(s: State, e: Event, i: nat, j: nat)
    requires Valid(s) && Enabled(s, e) && i < |s.store| && j < |Step(s, e).store|
    requires Step(s, e).store[j].ticket == s.store[i].ticket
    ensures SameRequest(Step(s, e).store[j], s.store[i])
  {
    if e.Settle? {
      SettleRecords(s, e, j);
    } else if e.EndFlush? {
      var k := PurgedFrom(s.store, e.olderThanMs, e.now, j);
    }
  }

  predicate SameRequest(a: Entry, b: Entry) {
    && a.ticket == b.ticket && a.room == b.room && a.accessor == b.accessor && a.nullifier == b.nullifier
    && a.bundle == b.bundle && a.enqueuedAt == b.enqueuedAt && a.flushAt == b.flushAt
  }

  /** A ticket once given out never comes back for another entry. */
  lemma StepTicketFrom(s: State, e: Event, t: nat)
    requires Valid(s) && Enabled(s, e) && t in s.issued && HasTicket(Step(s, e).store, t)
    ensures HasTicket(s.store, t) && t in Step(s, e).issued
  {
    var j :| 0 <= j < |Step(s, e).store| && Step(s, e).store[j].ticket == t;
    if e.Settle? {
      SettleRecords(s, e, j);
    } else if e.EndFlush? {
      var k := PurgedFrom(s.store, e.olderThanMs, e.now, j);
    } else {
      assert s.store[j].ticket == t;
    }
  }

  // ---- over whole runs ----

  ghost predicate Run(s: State, events: seq<Event>, s': State)
    decreases |events|
  {
    if events == [] then s' == s
    else Enabled(s, events[0]) && Run(Step(s, events[0]), events[1..], s')
  }

  function Empty(): State {
    State([], Idle, {}, [])
  }

  lemma {:induction false} RunValid(s: State, events: seq<Event>, s': State)
    requires Valid(s) && Run(s, events, s')
    ensures Valid(s')
    decreases |events|
  {
    hide Valid;
    if events != [] {
      StepValid(s, events[0]);
      RunValid(Step(s, events[0]), events[1..], s');
    }
  }

  /** Over every interleaving: no ticket reaches the relay twice, no (room, nullifier) is queued twice. */
  lemma NothingTwice(events: seq<Event>, s: State)
    requires Run(Empty(), events, s)
    ensures Distinct(s.handed) && OneQueuedEach(s.store) && UniqueTickets(s.store)
  {
    RunValid(Empty(), events, s);
  }

  /** A flush that can end has handed over its whole snapshot, and every entry of it is terminal. */
  lemma FlushCompletes(events: seq<Event>, s: State, olderThanMs: int, now: int)
    requires Run(Empty(), events, s) && Enabled(s, EndFlush(olderThanMs, now))
    ensures forall t :: t in s.flush.batch ==> t in s.handed && HasTicket(s.store, t) && !QueuedIn(s.store, t)
  {
    RunValid(Empty(), events, s);
    forall t | t in s.flush.batch ensures t in s.handed && HasTicket(s.store, t) && !QueuedIn(s.store, t) {
      var k :| 0 <= k < |s.flush.batch| && s.flush.batch[k] == t;
    }
  }

  lemma IssuedStays(s: State, e: Event, t: nat)
    requires Enabled(s, e) && t in s.issued
    ensures t in Step(s, e).issued
  {}

  lemma {:induction false} RunTicketFrom(s: State, events: seq<Event>, s': State, t: nat)
    requires Valid(s) && Run(s, events, s') && t in s.issued && HasTicket(s'.store, t)
    ensures HasTicket(s.store, t)
    decreases |events|
  {
    hide Valid, HasTicket, Enabled, Step;
    if events != [] {
      StepValid(s, events[0]);
      IssuedStays(s, events[0], t);
      RunTicketFrom(Step(s, events[0]), events[1..], s', t);
      StepTicketFrom(s, events[0], t);
    }
  }

  lemma {:induction false} RunKeepsRequest(s: State, events: seq<Event>, s': State, i: nat, j: nat)
    requires Valid(s) && Run(s, events, s') && i < |s.store| && j < |s'.store|
    requires s'.store[j].ticket == s.store[i].ticket
    ensures SameRequest(s'.store[j], s.store[i])
    decreases |events|
  {
    if events == [] {
      assert i == j;
    } else {
      var (s1, t) := (Step(s, events[0]), s.store[i].ticket);
      assert t in s.issued && HasTicket(s'.store, t);
      hide Valid, Enabled, Step;
      StepValid(s, events[0]);
      IssuedStays(s, events[0], t);
      RunTicketFrom(s1, events[1..], s', t);
      var k :| 0 <= k < |s1.store| && s1.store[k].ticket == t;
      StepKeepsRequest(s, events[0], i, k);
      RunKeepsRequest(s1, events[1..], s', k, j);
    }
  }

  /** Over every run from its enqueueing, whatever happens to it, the entry under a ticket is the request handed in. */
  lemma EnqueuedIsKept(s: State, q: Request, ticket: nat, now: int, windowMs: int, events: seq<Event>, s': State,
                       j: nat)
    requires Valid(s) && Run(s, [Enqueue(q, ticket, now, windowMs)] + events, s')
    requires forall i :: 0 <= i < |s.store| && s.store[i].status == Queued && s.store[i].room == q.room ==>
               s.store[i].nullifier != q.nullifier
    requires j < |s'.store| && s'.store[j].ticket == ticket
    ensures windowMs > 0
    ensures var e := s'.store[j];
            && e.room == q.room && e.accessor == q.accessor && e.nullifier == q.nullifier && e.bundle == q.bundle
            && e.enqueuedAt == now && e.flushAt == NextFlushAt(now, windowMs)
  {
    var e := Enqueue(q, ticket, now, windowMs);
    assert ([e] + events)[0] == e && ([e] + events)[1..] == events;
    EnqueueMeans(s, e);
    StepValid(s, e);
    hide Valid, Step;
    RunKeepsRequest(Step(s, e), events, s', |s.store|, j);
  }

  /** The rest of a batch submitted one by one, and settled by `outcomes`. */
  function FlushSteps(outcomes: seq<Outcome>, at: int): seq<Event> {
    if outcomes == [] then [] else [Submit, Settle(outcomes[0], at)] + FlushSteps(outcomes[1..], at)
  }

  lemma {:induction false} RunConcat(s: State, first: seq<Event>, mid: State, second: seq<Event>, s': State)
    requires Run(s, first, mid) && Run(mid, second, s')
    ensures Run(s, first + second, s')
    decreases |first|
  {
    hide Enabled, Step;
    if first == [] {
      assert first + second == second;
    } else {
      assert (first + second)[0] == first[0] && (first + second)[1..] == first[1..] + second;
      RunConcat(Step(s, first[0]), first[1..], mid, second, s');
    }
  }

  lemma RunOne(s: State, e: Event)
    requires Enabled(s, e)
    ensures Run(s, [e], Step(s, e))
  {
    hide Enabled, Step;
    assert [e][1..] == [];
    assert Run(Step(s, e), [], Step(s, e));
  }

  /** One entry submitted and settled. */
  lemma SubmitAndSettle(s: State, o: Outcome, at: int) returns (s': State)
    requires Valid(s) && s.flush.Flushing? && !s.flush.waiting && s.flush.next < |s.flush.batch|
    ensures Valid(s') && Run(s, [Submit, Settle(o, at)], s')
    ensures s'.flush == Flushing(s.flush.batch, s.flush.next + 1, false)
    ensures s'.store == Marked(s.store, s.flush.batch[s.flush.next], o, at)
    ensures s'.handed == s.handed + [s.flush.batch[s.flush.next]]
  {
    hide Valid, Marked;
    var e := Settle(o, at);
    StepValid(s, Submit);
    var s1 := Step(s, Submit);
    StepValid(s1, e);
    s' := Step(s1, e);
    RunOne(s, Submit);
    RunOne(s1, e);
    RunConcat(s, [Submit], s1, [e], s');
    assert [Submit] + [e] == [Submit, e];
  }

  /** Recording a batch from its first entry on. */
  lemma {:induction false} MarkedAllFirst(s: Store, batch: seq<nat>, outcomes: seq<Outcome>, at: int)
    requires |outcomes| == |batch| > 0
    ensures MarkedAll(s, batch, outcomes, at)
            == MarkedAll(Marked(s, batch[0], outcomes[0], at), batch[1..], outcomes[1..], at)
    decreases |batch|
  {
    hide Marked;
    var n := |batch| - 1;
    if n == 0 {
      assert batch[..0] == [] && batch[1..] == [];
      assert MarkedAll(s, batch[..0], outcomes[..0], at) == s;
    } else {
      MarkedAllFirst(s, batch[..n], outcomes[..n], at);
      assert batch[..n][1..] == batch[1..][..n - 1] && outcomes[..n][1..] == outcomes[1..][..n - 1];
    }
  }

  /** One turn of the loop and the rest of it make the whole loop. */
  lemma LoopTurn(s: State, s1: State, s': State, left: seq<nat>, outcomes: seq<Outcome>, at: int)
    requires |left| == |outcomes| > 0
    requires Run(s, [Submit, Settle(outcomes[0], at)], s1) && Run(s1, FlushSteps(outcomes[1..], at), s')
    requires s1.store == Marked(s.store, left[0], outcomes[0], at) && s1.handed == s.handed + [left[0]]
    requires s'.store == MarkedAll(s1.store, left[1..], outcomes[1..], at) && s'.handed == s1.handed + left[1..]
    ensures Run(s, FlushSteps(outcomes, at), s')
    ensures s'.store == MarkedAll(s.store, left, outcomes, at) && s'.handed == s.handed + left
  {
    assert Run(s, FlushSteps(outcomes, at), s') by {
      hide Run, MarkedAll, Marked;
      RunConcat(s, [Submit, Settle(outcomes[0], at)], s1, FlushSteps(outcomes[1..], at), s');
    }
    hide *;
    MarkedAllFirst(s.store, left, outcomes, at);
    AppendRest(s.handed, left);
  }

  lemma AppendRest(done: seq<nat>, left: seq<nat>)
    requires left != []
    ensures (done + [left[0]]) + left[1..] == done + left
  {}

  /** A flush is never stuck: whatever the relay answers to the entries left, submitting and recording them one by one
      leads to its end, with just those outcomes recorded and just those entries handed over, in order. */
  lemma {:induction false} FlushCanFinish(s: State, outcomes: seq<Outcome>, at: int, olderThanMs: int, now: int)
    returns (s': State)
    requires Valid(s) && s.flush.Flushing? && !s.flush.waiting && |outcomes| == |s.flush.batch| - s.flush.next
    ensures Run(s, FlushSteps(outcomes, at), s') && Valid(s') && Enabled(s', EndFlush(olderThanMs, now))
    ensures s'.flush.batch == s.flush.batch
    ensures s.flush.next <= |s.flush.batch|
    ensures s'.store == MarkedAll(s.store, s.flush.batch[s.flush.next..], outcomes, at)
    ensures s'.handed == s.handed + s.flush.batch[s.flush.next..]
    decreases |outcomes|
  {
    assert s.flush.next <= |s.flush.batch|;
    hide Valid, Marked;
    var left := s.flush.batch[s.flush.next..];
    if outcomes == [] {
      s' := s;
      assert left == [];
    } else {
      hide *;
      var s1 := SubmitAndSettle(s, outcomes[0], at);
      s' := FlushCanFinish(s1, outcomes[1..], at, olderThanMs, now);
      assert s1.flush.batch[s1.flush.next..] == left[1..];
      LoopTurn(s, s1, s', left, outcomes, at);
    }
  }

  /** A flush can begin whenever something is queued and none is running; undisturbed, the machine's flush ends with the
      very store that the method's loop computes, and has handed over the batch in its order. */
  lemma UndisturbedFlush(s: State, order: seq<nat>, outcomes: seq<Outcome>, at: int, olderThanMs: int, now: int)
    returns (s': State)
    requires Valid(s) && s.flush.Idle? && order != [] && Rearranges(order, QueuedTickets(s.store))
    requires |outcomes| == |order|
    ensures Run(s, [BeginFlush(order)] + FlushSteps(outcomes, at) + [EndFlush(olderThanMs, now)], s')
    ensures s'.store == Purged(MarkedAll(s.store, order, outcomes, at), olderThanMs, now)
    ensures s'.handed == s.handed + order && s'.flush.Idle?
  {
    var (first, last) := (BeginFlush(order), EndFlush(olderThanMs, now));
    StepValid(s, first);
    var s1 := Step(s, first);
    RunOne(s, first);
    hide Valid, Purged, MarkedAll;
    var s2 := FlushCanFinish(s1, outcomes, at, olderThanMs, now);
    assert s1.flush.batch[0..] == order;
    s' := Step(s2, last);
    RunOne(s2, last);
    RunConcat(s, [first], s1, FlushSteps(outcomes, at), s2);
    RunConcat(s, [first] + FlushSteps(outcomes, at), s2, [last], s');
  }

  /** The same for a flush caught while an entry is with the relay. */
  lemma WaitingFlushCanFinish(s: State, first: Outcome, rest: seq<Outcome>, at: int, olderThanMs: int, now: int)
    returns (s': State)
    requires Valid(s) && s.flush.Flushing? && s.flush.waiting && |rest| + 1 == |s.flush.batch| - s.flush.next
    ensures Run(s, [Settle(first, at)] + FlushSteps(rest, at), s') && Valid(s')
    ensures Enabled(s', EndFlush(olderThanMs, now))
  {
    var e := Settle(first, at);
    StepValid(s, e);
    s' := FlushCanFinish(Step(s, e), rest, at, olderThanMs, now);
    assert ([e] + FlushSteps(rest, at))[0] == e && ([e] + FlushSteps(rest, at))[1..] == FlushSteps(rest, at);
  }

  predicate NoBegin(events: seq<Event>) {
    forall i :: 0 <= i < |events| ==> !events[i].BeginFlush?
  }

  /** An entry outside the running flush's snapshot stays queued until the next flush begins. */
  lemma {:induction false} MidFlushEntriesStay(s: State, events: seq<Event>, s': State, t: nat)
    requires Valid(s) && Run(s, events, s') && NoBegin(events)
    requires QueuedIn(s.store, t) && (s.flush.Flushing? ==> t !in s.flush.batch)
    ensures QueuedIn(s'.store, t)
    decreases |events|
  {
    hide Valid;
    if events != [] {
      var e := events[0];
      StepValid(s, e);
      QueuedStep(s, e, t);
      MidFlushEntriesStay(Step(s, e), events[1..], s', t);
    }
  }

  /** The only step that ends an entry's queueing is the settling of its own ticket. */
  lemma QueuedStep(s: State, e: Event, t: nat)
    requires Valid(s) && Enabled(s, e) && QueuedIn(s.store, t)
    ensures QueuedIn(Step(s, e).store, t) <==> !(e.Settle? && t == s.flush.batch[s.flush.next])
  {
    match e
    case Enqueue(_, ticket, _, _) =>
      var i :| 0 <= i < |s.store| && s.store[i].ticket == t && s.store[i].status == Queued;
      assert t in s.issued;
      EnqueueValid(s, e);
    case BeginFlush(_) =>
    case Submit =>
    case Settle(_, _) => SettleValid(s, e);
    case EndFlush(_, _) => EndValid(s, e);
  }
}
