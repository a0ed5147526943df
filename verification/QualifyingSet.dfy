/** The qualifying-set indexer: a batched, early-stopping, de-duplicating scan of the escrow's locks. */
module QualifyingSet {
  import opened Outcomes
  import opened Merkle
  import opened SparseTree

  /** A token's 32-byte contract id. */
  type Token = seq<bv8>

  datatype Lock = Lock(
    commitment: Digest, released: bool, revocable: bool,
    token: Token, amount: int, unlockTime: int, depositor: nat)

  /** One ledger read: a lock, no such lock (or a contract error), or a failed network read. */
  datatype Read = Found(lock: Lock) | Missing | Transient

  type Ledger = nat -> Read

  /** What a lock must satisfy, and the time the scan began. */
  datatype Requirement = Requirement(token: Token, minAmount: int, deadline: int, now: int)

  datatype QualLock = QualLock(id: nat, commitment: Digest, amount: int, unlockTime: int, depositor: nat)

  datatype QualSet = QualSet(locks: seq<QualLock>, root: Digest)

  datatype Error = NetworkUnreachable | CommitmentNot32Bytes

  predicate Qualifies(l: Lock, q: Requirement) {
    && !l.released && q.now < l.unlockTime
    && !l.revocable
    && l.token == q.token
    && l.amount >= q.minAmount
    && l.unlockTime >= q.deadline
    && l.commitment != Raw(Zeros())
  }

  predicate QualifiesAt(ledger: Ledger, q: Requirement, id: nat) {
    ledger(id).Found? && Qualifies(ledger(id).lock, q)
  }

  function Entry(id: nat, l: Lock): QualLock {
    QualLock(id, l.commitment, l.amount, l.unlockTime, l.depositor)
  }

  function Commitments(locks: seq<QualLock>): (cs: seq<Digest>)
    ensures |cs| == |locks|
  {
    seq(|locks|, i requires 0 <= i < |locks| => locks[i].commitment)
  }

  // ---- the specification: filter the ledger, keep first occurrences ----

  /** The qualifying locks of ids 1..n in id order, each commitment kept once. */
  function Filtered(ledger: Ledger, q: Requirement, n: nat): seq<QualLock> {
    if n == 0 then []
    else
      var before := Filtered(ledger, q, n - 1);
      if QualifiesAt(ledger, q, n) && ledger(n).lock.commitment !in Commitments(before)
      then before + [Entry(n, ledger(n).lock)]
      else before
  }

  /** No qualifying lock below `id` carries its commitment. */
  predicate First(ledger: Ledger, q: Requirement, id: nat)
    requires ledger(id).Found?
  {
    forall k :: 1 <= k < id && QualifiesAt(ledger, q, k) ==> ledger(k).lock.commitment != ledger(id).lock.commitment
  }

  /** `e` records the first qualifying id of its commitment. */
  predicate IsFirstEntry(ledger: Ledger, q: Requirement, n: nat, e: QualLock) {
    1 <= e.id <= n && QualifiesAt(ledger, q, e.id) && First(ledger, q, e.id) && e == Entry(e.id, ledger(e.id).lock)
  }

  /** Id-ordered, one entry per qualifying commitment of ids 1..n, the first id of each. */
  ghost predicate FirstOccurrences(ledger: Ledger, q: Requirement, n: nat, f: seq<QualLock>) {
    && (forall i :: 0 <= i < |f| ==> IsFirstEntry(ledger, q, n, f[i]))
    && (forall i, j :: 0 <= i < j < |f| ==> f[i].id < f[j].id && f[i].commitment != f[j].commitment)
    && (forall id :: 1 <= id <= n && QualifiesAt(ledger, q, id) ==> ledger(id).lock.commitment in Commitments(f))
  }

  /** The filter, said without recursion. */
  lemma {:induction false} FilteredMeans(ledger: Ledger, q: Requirement, n: nat)
    ensures FirstOccurrences(ledger, q, n, Filtered(ledger, q, n))
  {
    if n > 0 {
      FilteredMeans(ledger, q, n - 1);
      var (f, g) := (Filtered(ledger, q, n), Filtered(ledger, q, n - 1));
      assert FirstOccurrences(ledger, q, n - 1, g);
      if |f| > |g| {
        assert Commitments(f) == Commitments(g) + [ledger(n).lock.commitment];
        forall i | 0 <= i < |g| ensures f[i].commitment in Commitments(g) {
          assert f[i].commitment == Commitments(g)[i];
        }
        forall k | 1 <= k < n && QualifiesAt(ledger, q, k)
          ensures ledger(k).lock.commitment != ledger(n).lock.commitment
        {
          assert ledger(k).lock.commitment in Commitments(g);
        }
      }
      forall i | 0 <= i < |f| ensures IsFirstEntry(ledger, q, n, f[i]) {
        if i < |g| { assert IsFirstEntry(ledger, q, n - 1, g[i]); }
      }
    }
  }

  /** In the locks' own fields: every entry records a bond that is locked beyond now, cannot be withdrawn and meets the
      requirement, and every such bond of ids 1..n has its commitment in the set. */
  lemma FilteredFields(ledger: Ledger, q: Requirement, n: nat)
    ensures
      forall e :: e in Filtered(ledger, q, n) ==>
        1 <= e.id <= n && ledger(e.id).Found? &&
        var l := ledger(e.id).lock;
        && !l.released && !l.revocable && l.unlockTime > q.now && l.unlockTime >= q.deadline
        && l.token == q.token && l.amount >= q.minAmount && l.commitment != Raw(Zeros())
        && e.commitment == l.commitment && e.amount == l.amount && e.unlockTime == l.unlockTime
        && e.depositor == l.depositor
    ensures
      forall id ::
        1 <= id <= n && ledger(id).Found? && !ledger(id).lock.released && !ledger(id).lock.revocable
        && ledger(id).lock.unlockTime > q.now && ledger(id).lock.unlockTime >= q.deadline
        && ledger(id).lock.token == q.token && ledger(id).lock.amount >= q.minAmount
        && ledger(id).lock.commitment != Raw(Zeros()) ==>
          exists e :: e in Filtered(ledger, q, n) && e.commitment == ledger(id).lock.commitment
  {
    FilteredMeans(ledger, q, n);
    hide Filtered;
    var f := Filtered(ledger, q, n);
    forall e | e in f ensures IsFirstEntry(ledger, q, n, e) {
      var i :| 0 <= i < |f| && f[i] == e;
    }
    forall id | 1 <= id <= n && QualifiesAt(ledger, q, id)
      ensures exists e :: e in f && e.commitment == ledger(id).lock.commitment
    {
      var i :| 0 <= i < |f| && Commitments(f)[i] == ledger(id).lock.commitment;
      assert f[i] in f;
    }
  }

  // ---- the scan ----

  predicate AnyFound(ledger: Ledger, from: nat, to: nat) {
    exists id :: from <= id <= to && ledger(id).Found?
  }

  /** The last id the scan reads: it stops after the first batch with no lock in it, or at the cap. */
  function LastRead(ledger: Ledger, batch: nat, cap: nat, start: nat): nat
    requires batch > 0
    decreases cap + 1 - start
  {
    if start > cap then cap
    else
      var end := if start + batch - 1 <= cap then start + batch - 1 else cap;
      if AnyFound(ledger, start, end) then LastRead(ledger, batch, cap, start + batch) else end
  }

  predicate AnyTransient(ledger: Ledger, to: nat) {
    exists id :: 1 <= id <= to && ledger(id).Transient?
  }

  datatype BatchResult = BatchResult(qualifying: seq<QualLock>, anyFound: bool, transient: bool)

  /** One batch: every settled read is inspected, even after a transient failure. */
  method ScanBatch(ledger: Ledger, q: Requirement, start: nat, end: nat, sofar: seq<QualLock>)
    returns (b: BatchResult)
    requires 1 <= start <= end + 1 && sofar == Filtered(ledger, q, start - 1)
    ensures b.qualifying == Filtered(ledger, q, end)
    ensures b.anyFound == AnyFound(ledger, start, end)
    ensures b.transient == exists id :: start <= id <= end && ledger(id).Transient?
  {
    var (qualifying, anyFound, transient) := (sofar, false, false);
    for id := start to end + 1
      invariant qualifying == Filtered(ledger, q, id - 1)
      invariant anyFound == AnyFound(ledger, start, id - 1)
      invariant transient == exists k :: start <= k <= id - 1 && ledger(k).Transient?
    {
      match ledger(id) {
        case Found(l) =>
          anyFound := true;
          if Qualifies(l, q) && l.commitment !in Commitments(qualifying) {
            qualifying := qualifying + [Entry(id, l)];
          }
        case Missing =>
        case Transient =>
          transient := true;
      }
    }
    b := BatchResult(qualifying, anyFound, transient);
  }

  /** buildQualSet and buildBondQualSet. */
  method BuildQualSet(ledger: Ledger, q: Requirement, batch: nat, cap: nat,
                      depth: nat) returns (r: Result<QualSet, Error>)
    requires batch > 0
    ensures AnyTransient(ledger, LastRead(ledger, batch, cap, 1)) ==> r == Err(NetworkUnreachable)
    ensures !AnyTransient(ledger, LastRead(ledger, batch, cap, 1)) ==>
              var f := Filtered(ledger, q, LastRead(ledger, batch, cap, 1));
              if forall i :: 0 <= i < |f| ==> Is32(f[i].commitment)
              then r == Ok(QualSet(f, Root(Commitments(f), Raw(Zeros()), depth)))
              else r == Err(CommitmentNot32Bytes)
    ensures
      r.Ok? ==>
        var last := LastRead(ledger, batch, cap, 1);
        && (forall id :: 1 <= id <= last ==> !ledger(id).Transient?)
        && (forall e :: e in r.value.locks ==>
              1 <= e.id <= last && ledger(e.id).Found? &&
              var l := ledger(e.id).lock;
              && !l.released && !l.revocable && l.unlockTime > q.now && l.unlockTime >= q.deadline
              && l.token == q.token && l.amount >= q.minAmount && l.commitment != Raw(Zeros())
              && e.commitment == l.commitment)
        && (forall id ::
              1 <= id <= last && ledger(id).Found? && !ledger(id).lock.released && !ledger(id).lock.revocable
              && ledger(id).lock.unlockTime > q.now && ledger(id).lock.unlockTime >= q.deadline
              && ledger(id).lock.token == q.token && ledger(id).lock.amount >= q.minAmount
              && ledger(id).lock.commitment != Raw(Zeros()) ==>
                exists e :: e in r.value.locks && e.commitment == ledger(id).lock.commitment)
  {
    ghost var last := LastRead(ledger, batch, cap, 1);
    var qualifying: seq<QualLock> := [];
    var (start, done) := (1, false);
    ghost var read := 0;
    while start <= cap && !done
      invariant start >= 1 && read == (if done then last else if start > cap then cap else start - 1)
      invariant read <= last && !done ==> LastRead(ledger, batch, cap, start) == last
      invariant done || read <= last
      invariant qualifying == Filtered(ledger, q, read)
      invariant !AnyTransient(ledger, read)
      decreases !done, cap + 1 - start
    {
      var end := if start + batch - 1 <= cap then start + batch - 1 else cap;
      LastReadReaches(ledger, batch, cap, start);
      var b := ScanBatch(ledger, q, start, end, qualifying);
      if b.transient {
        return Err(NetworkUnreachable);
      }
      qualifying := b.qualifying;
      read := end;
      if !b.anyFound {
        done := true;
      } else {
        start := start + batch;
      }
    }
    assert read == last;
    var cs := Commitments(qualifying);
    var tree := BuildSparseTree(cs, Raw(Zeros()), depth);
    if tree.Err? {
      assert exists i :: 0 <= i < |cs| && !Is32(cs[i]);
      return Err(CommitmentNot32Bytes);
    }
    forall i | 0 <= i < |qualifying| ensures Is32(qualifying[i].commitment) { assert Is32(cs[i]); }
    FilteredFields(ledger, q, last);
    r := Ok(QualSet(qualifying, tree.value.root));
  }

  lemma {:induction false} LastReadReaches(ledger: Ledger, batch: nat, cap: nat, start: nat)
    requires batch > 0 && start <= cap
    ensures LastRead(ledger, batch, cap, start) >= (if start + batch - 1 <= cap then start + batch - 1 else cap)
    ensures LastRead(ledger, batch, cap, start) <= cap
    decreases cap + 1 - start
  {
    if start + batch <= cap && AnyFound(ledger, start, start + batch - 1) {
      LastReadReaches(ledger, batch, cap, start + batch);
    }
  }

  // ---- what a published set promises ----

  /** Lock ids are 1..m, released ones included. */
  ghost predicate Contiguous(ledger: Ledger, m: nat) {
    forall id :: id >= 1 ==> (ledger(id).Found? <==> id <= m)
  }

  lemma {:induction false} LastReadCovers(ledger: Ledger, batch: nat, cap: nat, start: nat, m: nat)
    requires batch > 0 && Contiguous(ledger, m) && start >= 1
    ensures LastRead(ledger, batch, cap, start) >= (if m <= cap then m else cap) || start > m
    decreases cap + 1 - start
  {
    if start <= cap {
      var end := if start + batch - 1 <= cap then start + batch - 1 else cap;
      if AnyFound(ledger, start, end) {
        LastReadCovers(ledger, batch, cap, start + batch, m);
        if start + batch <= cap { LastReadReaches(ledger, batch, cap, start + batch); }
      } else {
        assert start <= m ==> ledger(start).Found?;
      }
    }
  }

  lemma {:induction false} FilteredPast(ledger: Ledger, q: Requirement, m: nat, n: nat)
    requires Contiguous(ledger, m) && n >= m
    ensures Filtered(ledger, q, n) == Filtered(ledger, q, m)
    decreases n
  {
    if n > m { FilteredPast(ledger, q, m, n - 1); }
  }

  /** On a gap-free ledger the batched scan is the one-line filter of ids 1..min(m, cap), whatever the batch size. */
  lemma ScanIsFilter(ledger: Ledger, q: Requirement, batch: nat, cap: nat, m: nat)
    requires batch > 0 && Contiguous(ledger, m)
    ensures Filtered(ledger, q, LastRead(ledger, batch, cap, 1)) == Filtered(ledger, q, if m <= cap then m else cap)
  {
    var last := LastRead(ledger, batch, cap, 1);
    LastReadCovers(ledger, batch, cap, 1, m);
    if cap >= 1 { LastReadReaches(ledger, batch, cap, 1); }
    if m <= cap {
      if m == 0 { FilteredPast(ledger, q, 0, last); } else { FilteredPast(ledger, q, m, last); }
    }
  }

  // ---- exactly what the early stop loses ----

  /** No whole batch window before `id`, counted from `start`, is without a lock: the scan gets as far as `id`. */
  predicate Reaches(ledger: Ledger, batch: nat, start: nat, id: nat)
    requires batch > 0
    decreases id - start
  {
    start + batch > id || (AnyFound(ledger, start, start + batch - 1) && Reaches(ledger, batch, start + batch, id))
  }

  /** Window k holds the ids k * batch + 1 to (k + 1) * batch. */
  predicate WindowFound(ledger: Ledger, batch: nat, k: nat) {
    AnyFound(ledger, k * batch + 1, k * batch + batch)
  }

  /** No window that ends before `id` is without a lock. */
  ghost predicate NoEmptyWindowBefore(ledger: Ledger, batch: nat, id: nat) {
    forall k: nat :: k * batch + batch < id ==> WindowFound(ledger, batch, k)
  }

  lemma {:induction false} ReachesMeans(ledger: Ledger, batch: nat, k0: nat, id: nat)
    requires batch > 0
    ensures Reaches(ledger, batch, k0 * batch + 1, id)
            <==> forall k: nat :: k >= k0 && k * batch + batch < id ==> WindowFound(ledger, batch, k)
    decreases id - k0 * batch
  {
    NextWindow(k0, batch);
    if k0 * batch + batch < id {
      if WindowFound(ledger, batch, k0) {
        ReachesMeans(ledger, batch, k0 + 1, id);
      }
    } else {
      forall k: nat | k >= k0 ensures k * batch + batch >= id {
        LaterWindow(k0, k, batch);
      }
    }
  }

  lemma NextWindow(k: nat, batch: nat)
    ensures (k + 1) * batch == k * batch + batch
  {}

  lemma LaterWindow(k0: nat, k: nat, batch: nat)
    requires k >= k0
    ensures k * batch >= k0 * batch
  {}

  lemma ReachesFromStart(ledger: Ledger, batch: nat, id: nat)
    requires batch > 0
    ensures Reaches(ledger, batch, 1, id) <==> NoEmptyWindowBefore(ledger, batch, id)
  {
    ReachesMeans(ledger, batch, 0, id);
  }

  lemma {:induction false} ReachedExactlyWhen(ledger: Ledger, batch: nat, cap: nat, start: nat, id: nat)
    requires batch > 0 && start <= id <= cap
    ensures id <= LastRead(ledger, batch, cap, start) <==> Reaches(ledger, batch, start, id)
    decreases cap + 1 - start
  {
    if start + batch <= id {
      if AnyFound(ledger, start, start + batch - 1) {
        ReachedExactlyWhen(ledger, batch, cap, start + batch, id);
      }
    } else {
      LastReadReaches(ledger, batch, cap, start);
    }
  }

  /** Filtering further only appends. */
  lemma {:induction false} FilteredExtends(ledger: Ledger, q: Requirement, n: nat, m: nat)
    requires n <= m
    ensures Filtered(ledger, q, n) <= Filtered(ledger, q, m)
    decreases m
  {
    if n < m {
      FilteredExtends(ledger, q, n, m - 1);
    }
  }

  /** The first qualifying id of some commitment. */
  predicate Counts(ledger: Ledger, q: Requirement, id: nat) {
    QualifiesAt(ledger, q, id) && First(ledger, q, id)
  }

  lemma CountedExactlyWhen(ledger: Ledger, q: Requirement, n: nat, id: nat)
    requires id >= 1 && Counts(ledger, q, id)
    ensures ledger(id).lock.commitment in Commitments(Filtered(ledger, q, n)) <==> id <= n
  {
    FilteredMeans(ledger, q, n);
    var (f, c) := (Filtered(ledger, q, n), ledger(id).lock.commitment);
    if c in Commitments(f) {
      var i :| 0 <= i < |f| && Commitments(f)[i] == c;
      assert IsFirstEntry(ledger, q, n, f[i]);
    }
  }

  /** One commitment is missed exactly when a whole empty batch window lies before the first lock that carries it. */
  lemma FoundExactlyWhenReached(ledger: Ledger, q: Requirement, batch: nat, cap: nat, id: nat)
    requires batch > 0 && 1 <= id <= cap && Counts(ledger, q, id)
    ensures ledger(id).lock.commitment in Commitments(Filtered(ledger, q, LastRead(ledger, batch, cap, 1)))
            <==> NoEmptyWindowBefore(ledger, batch, id)
  {
    ReachesFromStart(ledger, batch, id);
    ReachedExactlyWhen(ledger, batch, cap, 1, id);
    CountedExactlyWhen(ledger, q, LastRead(ledger, batch, cap, 1), id);
  }

  /** The scan equals the one-line filter up to the cap if and only if no lock that counts has an empty window before
      it. */
  lemma ScanIsFilterExactlyWhen(ledger: Ledger, q: Requirement, batch: nat, cap: nat)
    requires batch > 0
    ensures Filtered(ledger, q, LastRead(ledger, batch, cap, 1)) == Filtered(ledger, q, cap)
            <==> forall id :: 1 <= id <= cap && Counts(ledger, q, id) ==> NoEmptyWindowBefore(ledger, batch, id)
  {
    var last := LastRead(ledger, batch, cap, 1);
    var (scanned, full) := (Filtered(ledger, q, last), Filtered(ledger, q, cap));
    if cap >= 1 { LastReadReaches(ledger, batch, cap, 1); }
    FilteredExtends(ledger, q, last, cap);
    forall id | 1 <= id <= cap && Counts(ledger, q, id)
      ensures NoEmptyWindowBefore(ledger, batch, id) <==> ledger(id).lock.commitment in Commitments(scanned)
      ensures ledger(id).lock.commitment in Commitments(full)
    {
      FoundExactlyWhenReached(ledger, q, batch, cap, id);
      CountedExactlyWhen(ledger, q, cap, id);
    }
    if scanned != full {
      FilteredMeans(ledger, q, cap);
      var e := full[|scanned|];
      assert IsFirstEntry(ledger, q, cap, e);
      assert Counts(ledger, q, e.id);
      FilteredMeans(ledger, q, last);
    }
  }

  /** A lock that meets `q`. */
  function Qualified(q: Requirement, commitment: Digest): Lock {
    Lock(commitment, false, false, q.token, q.minAmount, if q.deadline > q.now then q.deadline else q.now + 1, 0)
  }

  /** Ids 1 and 17 are locks, and the second window of eight, 9..16, is empty. */
  function SecondWindowEmpty(first: Lock, last: Lock): Ledger {
    id => if id == 1 then Found(first) else if id == 17 then Found(last) else Missing
  }

  /** Ids 5..12 are missing, as many as a batch, and no window of eight is empty. */
  function StraddlingGap(locks: nat -> Lock): Ledger {
    id => if 1 <= id <= 17 && !(5 <= id <= 12) then Found(locks(id)) else Missing
  }

  /** At the source's batch and cap a ledger with an empty window loses a qualifying lock ... */
  lemma EmptyWindowLoses(q: Requirement)
    ensures var ledger := SecondWindowEmpty(Qualified(q, Qualifying([1])), Qualified(q, Qualifying([2])));
            && Qualifying([2]) in Commitments(Filtered(ledger, q, 200))
            && Qualifying([2]) !in Commitments(Filtered(ledger, q, LastRead(ledger, 8, 200, 1)))
  {
    var ledger := SecondWindowEmpty(Qualified(q, Qualifying([1])), Qualified(q, Qualifying([2])));
    hide Filtered, LastRead;
    assert Counts(ledger, q, 17);
    assert !WindowFound(ledger, 8, 1);
    FoundExactlyWhenReached(ledger, q, 8, 200, 17);
    CountedExactlyWhen(ledger, q, 200, 17);
  }

  /** ... and one with a gap just as long that straddles two windows does not. */
  lemma StraddlingGapHarmless(q: Requirement, locks: nat -> Lock)
    ensures var ledger := StraddlingGap(locks);
            Filtered(ledger, q, LastRead(ledger, 8, 200, 1)) == Filtered(ledger, q, 200)
  {
    var ledger := StraddlingGap(locks);
    hide Filtered, LastRead;
    assert ledger(1).Found? && ledger(13).Found?;
    forall id | 1 <= id <= 200 && Counts(ledger, q, id) ensures NoEmptyWindowBefore(ledger, 8, id) {
      assert id <= 17;
      assert WindowFound(ledger, 8, 0) && WindowFound(ledger, 8, 1);
    }
    ScanIsFilterExactlyWhen(ledger, q, 8, 200);
  }

  predicate Weaker(q': Requirement, q: Requirement) {
    q'.token == q.token && q'.now == q.now && q'.minAmount <= q.minAmount && q'.deadline <= q.deadline
  }

  /** Weakening a requirement never loses a commitment. */
  lemma WeakerKeeps(ledger: Ledger, q: Requirement, q': Requirement, n: nat, c: Digest)
    requires Weaker(q', q) && c in Commitments(Filtered(ledger, q, n))
    ensures c in Commitments(Filtered(ledger, q', n))
  {
    FilteredMeans(ledger, q, n);
    FilteredMeans(ledger, q', n);
    var f := Filtered(ledger, q, n);
    var i :| 0 <= i < |f| && Commitments(f)[i] == c;
    assert IsFirstEntry(ledger, q, n, f[i]);
    assert QualifiesAt(ledger, q', f[i].id);
  }
}
