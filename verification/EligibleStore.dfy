/** The per-room eligible lists: append-only enrolment, one commitment or a shuffled batch at a time. */
module EligibleStore {
  import opened Outcomes
  import opened Merkle
  import opened SparseTree
  import opened Shuffle

  type Room = seq<char>

  datatype Error = Full

  /** JavaScript's indexOf. */
  function IndexOf(cs: seq<Digest>, c: Digest): (r: int)
    ensures r == -1 ==> c !in cs
    ensures r != -1 ==> 0 <= r < |cs| && cs[r] == c && c !in cs[..r]
  {
    if cs == [] then -1
    else if cs[0] == c then 0
    else
      var r := IndexOf(cs[1..], c);
      assert cs == [cs[0]] + cs[1..];
      if r == -1 then -1
      else
        assert cs[..r + 1] == [cs[0]] + cs[1..][..r];
        r + 1
  }

  lemma IndexOfAt(cs: seq<Digest>, i: nat)
    requires Distinct(cs) && i < |cs|
    ensures IndexOf(cs, cs[i]) == i
  {}

  type Store = map<Room, seq<Digest>>

  function ListOf(s: Store, room: Room): seq<Digest> {
    if room in s then s[room] else []
  }

  /** The commitments of a batch that are new, first occurrences only, in input order. */
  function Fresh(list: seq<Digest>, cs: seq<Digest>): (f: seq<Digest>)
    ensures Distinct(f)
    ensures forall c :: c in f <==> c in cs && c !in list
    decreases |cs|
  {
    if cs == [] then []
    else
      var (front, c) := (cs[..|cs| - 1], cs[|cs| - 1]);
      var f := Fresh(list, front);
      assert cs == front + [c];
      if c in list || c in f then f else f + [c]
  }

  function Skipped(list: seq<Digest>, cs: seq<Digest>): seq<Digest> {
    if cs == [] then []
    else
      var (front, c) := (cs[..|cs| - 1], cs[|cs| - 1]);
      if c in list || c in Fresh(list, front) then Skipped(list, front) + [c] else Skipped(list, front)
  }

  /** Every commitment handed in is either new or skipped, as often as it occurs. */
  lemma {:induction false} FreshAndSkipped(list: seq<Digest>, cs: seq<Digest>)
    ensures multiset(Fresh(list, cs)) + multiset(Skipped(list, cs)) == multiset(cs)
    decreases |cs|
  {
    if cs != [] {
      var front := cs[..|cs| - 1];
      assert cs == front + [cs[|cs| - 1]];
      FreshAndSkipped(list, front);
    }
  }

  /** How many commitments are new. */
  lemma FreshCount(list: seq<Digest>, cs: seq<Digest>)
    ensures |Fresh(list, cs)| == |set c | c in cs && c !in list|
  {
    var f := Fresh(list, cs);
    DistinctSize(f);
    assert (set c | c in f) == set c | c in cs && c !in list;
  }

  lemma {:induction false} DistinctSize(f: seq<Digest>)
    requires Distinct(f)
    ensures |set c | c in f| == |f|
    decreases |f|
  {
    var all := set c | c in f;
    if f == [] {
      assert all == {};
    } else {
      var (front, last) := (f[..|f| - 1], f[|f| - 1]);
      DistinctSize(front);
      assert f == front + [last] && last !in front;
      assert all == (set c | c in front) + {last};
    }
  }

  /** How a batch is ordered: any rearrangement, the shuffle being one. */
  ghost predicate IsOrder(order: seq<Digest> -> seq<Digest>) {
    forall s :: Rearranges(order(s), s)
  }

  lemma ShuffleIsOrder(draws: seq<Digest> -> seq<nat>)
    requires forall s :: |draws(s)| == |s| && Choices(draws(s))
    ensures IsOrder(s requires |draws(s)| == |s| && Choices(draws(s)) => Shuffled(s, draws(s)))
  {
    forall s: seq<Digest> ensures Rearranges(Shuffled(s, draws(s)), s) {
      ShuffledPermutes(s, draws(s));
    }
  }

  lemma RearrangedMember(p: seq<Digest>, f: seq<Digest>, c: Digest)
    requires Rearranges(p, f)
    ensures c in p <==> c in f
  {
    assert c in p <==> c in multiset(p);
    assert c in f <==> c in multiset(f);
  }

  lemma BatchMembers(list: seq<Digest>, cs: seq<Digest>, p: seq<Digest>)
    requires Rearranges(p, Fresh(list, cs))
    ensures forall c :: c in list + p <==> c in list || c in cs
    ensures multiset(p) + multiset(Skipped(list, cs)) == multiset(cs)
  {
    FreshAndSkipped(list, cs);
    forall c ensures c in list + p <==> c in list || c in cs {
      RearrangedMember(p, Fresh(list, cs), c);
    }
  }

  datatype AddReply = AddReply(index: nat, added: bool, total: nat)

  datatype BatchReply = BatchReply(added: seq<Digest>, firstIndex: nat, skipped: seq<Digest>, total: nat)

  function AddedTo(list: seq<Digest>, c: Digest, cap: nat): Result<seq<Digest>, Error> {
    if c in list then Ok(list) else if |list| >= cap then Err(Full) else Ok(list + [c])
  }

  function BatchAddedTo(list: seq<Digest>, cs: seq<Digest>, order: seq<Digest> -> seq<Digest>,
                        cap: nat): (r: Result<seq<Digest>, Error>)
    ensures r.Ok? ==> list <= r.value
  {
    var f := Fresh(list, cs);
    if |list| + |f| > cap then Err(Full) else Ok(list + order(f))
  }

  class Eligible {
    const depth: nat
    var store: Store

    constructor (depth: nat)
      ensures this.depth == depth && store == map[]
    {
      this.depth := depth;
      this.store := map[];
    }

    /** addEligible: idempotent on a commitment already there, refused when the tree is full. */
    method AddEligible(room: Room, c: Digest) returns (r: Result<AddReply, Error>)
      modifies this
      ensures var list := ListOf(old(store), room);
              match AddedTo(list, c, Pow2(depth))
              case Err(e) => r == Err(e) && store == old(store)
              case Ok(next) =>
                && ListOf(store, room) == next && (forall q :: q != room ==> ListOf(store, q) == ListOf(old(store), q))
                && r.Ok? && r.value.added == (c !in list) && r.value.total == |next|
                && r.value.index < |next| && next[r.value.index] == c && c !in next[..r.value.index]
    {
      var list := ListOf(store, room);
      var existing := IndexOf(list, c);
      if existing >= 0 {
        return Ok(AddReply(existing, false, |list|));
      }
      if |list| >= Pow2(depth) {
        return Err(Full);
      }
      store := store[room := list + [c]];
      r := Ok(AddReply(|list|, true, |list| + 1));
    }

    /** addEligibleBatch: duplicates are skipped, the fresh commitments are ordered and appended in one go. After it
        everybody handed in is in the list, and what the list grew by is what the reply says was added. */
    method AddEligibleBatch(room: Room, cs: seq<Digest>,
                            order: seq<Digest> -> seq<Digest>) returns (r: Result<BatchReply, Error>)
      requires IsOrder(order)
      modifies this
      ensures var list := ListOf(old(store), room);
              match BatchAddedTo(list, cs, order, Pow2(depth))
              case Err(e) => r == Err(e) && store == old(store)
              case Ok(next) =>
                && ListOf(store, room) == next && (forall q :: q != room ==> ListOf(store, q) == ListOf(old(store), q))
                && r == Ok(BatchReply(order(Fresh(list, cs)), |list|, Skipped(list, cs), |next|))
      ensures var (list, next) := (ListOf(old(store), room), ListOf(store, room));
              && (r.Ok? <==> |list| + |set c | c in cs && c !in list| <= Pow2(depth))
              && (r.Ok? ==>
                    && r.value.firstIndex == |list| && r.value.total == |next|
                    && next == list + r.value.added
                    && (forall c :: c in next <==> c in list || c in cs)
                    && multiset(r.value.added) + multiset(r.value.skipped) == multiset(cs))
    {
      hide Skipped, Fresh, Pow2;
      var list := ListOf(store, room);
      var added, skipped := Separate(list, cs);
      FreshCount(list, cs);
      if |list| + |added| > Pow2(depth) {
        return Err(Full);
      }
      var shuffled := order(added);
      assert Rearranges(shuffled, added);
      hide IsOrder;
      BatchMembers(list, cs, shuffled);
      var grown := AppendAll(list, shuffled);
      store := store[room := grown];
      r := Ok(BatchReply(shuffled, |list|, skipped, |grown|));
    }

    /** The batch's last loop: one push after another. */
    static method AppendAll(list: seq<Digest>, shuffled: seq<Digest>) returns (grown: seq<Digest>)
      ensures grown == list + shuffled
    {
      grown := list;
      for i := 0 to |shuffled|
        invariant grown == list + shuffled[..i]
      {
        grown := grown + [shuffled[i]];
      }
      assert shuffled[..|shuffled|] == shuffled;
    }

    /** The batch's first loop. */
    static method Separate(list: seq<Digest>, cs: seq<Digest>) returns (added: seq<Digest>, skipped: seq<Digest>)
      ensures added == Fresh(list, cs) && skipped == Skipped(list, cs)
    {
      added, skipped := [], [];
      for i := 0 to |cs|
        invariant added == Fresh(list, cs[..i]) && skipped == Skipped(list, cs[..i])
      {
        assert cs[..i + 1][..i] == cs[..i] && cs[..i + 1][i] == cs[i];
        if cs[i] in list || cs[i] in added {
          skipped := skipped + [cs[i]];
        } else {
          added := added + [cs[i]];
        }
      }
      assert cs[..|cs|] == cs;
    }
  }

  // ---- histories ----

  datatype Op = AddOne(room: Room, c: Digest) | AddMany(room: Room, cs: seq<Digest>, order: seq<Digest> -> seq<Digest>)

  ghost predicate ValidOp(o: Op) {
    o.AddMany? ==> IsOrder(o.order)
  }

  /** A refused approval leaves the store as it was. */
  ghost function Apply(s: Store, o: Op, cap: nat): Store {
    var list := ListOf(s, o.room);
    var next := match o
      case AddOne(_, c) => AddedTo(list, c, cap)
      case AddMany(_, cs, order) => BatchAddedTo(list, cs, order, cap);
    if next.Ok? then s[o.room := next.value] else s
  }

  ghost function History(s: Store, ops: seq<Op>, cap: nat): Store
    decreases |ops|
  {
    if ops == [] then s else History(Apply(s, ops[0], cap), ops[1..], cap)
  }

  ghost predicate Valid(s: Store, cap: nat) {
    forall room :: room in s ==> Distinct(s[room]) && |s[room]| <= cap
  }

  lemma OrderedDistinct(list: seq<Digest>, f: seq<Digest>, p: seq<Digest>)
    requires Distinct(list) && Distinct(f) && Rearranges(p, f) && forall c :: c in f ==> c !in list
    ensures Distinct(list + p) && |p| == |f|
  {
    SameLength(f, p);
    RearrangedDistinct(p, f);
    forall i, j | 0 <= i < j < |list + p| ensures (list + p)[i] != (list + p)[j] {
      if j >= |list| { assert p[j - |list|] in f; }
    }
  }

  lemma ApplyExtends(s: Store, o: Op, cap: nat, room: Room)
    requires Valid(s, cap) && ValidOp(o)
    ensures Valid(Apply(s, o, cap), cap)
    ensures ListOf(s, room) <= ListOf(Apply(s, o, cap), room)
  {
    var list := ListOf(s, o.room);
    if o.AddMany? {
      var f := Fresh(list, o.cs);
      assert Rearranges(o.order(f), f);
      OrderedDistinct(list, f, o.order(f));
    }
  }

  /** Over every history of approvals, each room's list stays duplicate-free and within capacity, and only grows at
      its end. */
  lemma {:induction false} HistoryExtends(s: Store, ops: seq<Op>, cap: nat, room: Room)
    requires Valid(s, cap) && forall i :: 0 <= i < |ops| ==> ValidOp(ops[i])
    ensures Valid(History(s, ops, cap), cap)
    ensures ListOf(s, room) <= ListOf(History(s, ops, cap), room)
    decreases |ops|
  {
    hide Valid;
    if ops != [] {
      ApplyExtends(s, ops[0], cap, room);
      HistoryExtends(Apply(s, ops[0], cap), ops[1..], cap, room);
    }
  }

  lemma ListValid(s: Store, cap: nat, room: Room)
    requires Valid(s, cap)
    ensures Distinct(ListOf(s, room)) && |ListOf(s, room)| <= cap
  {}

  /** The commitments an operation hands in. */
  function Handed(o: Op): seq<Digest> {
    if o.AddOne? then [o.c] else o.cs
  }

  /** The room has a place for everybody new; otherwise the operation is refused as a whole. */
  predicate Fits(s: Store, o: Op, cap: nat) {
    var list := ListOf(s, o.room);
    |list| + |set c | c in Handed(o) && c !in list| <= cap
  }

  /** Exactly who is in a list after one operation. */
  lemma ApplyAdmits(s: Store, o: Op, cap: nat, room: Room, c: Digest)
    requires ValidOp(o)
    ensures c in ListOf(Apply(s, o, cap), room)
            <==> c in ListOf(s, room) || (o.room == room && c in Handed(o) && Fits(s, o, cap))
  {
    var list := ListOf(s, o.room);
    if o.AddMany? {
      FreshCount(list, o.cs);
      var f := Fresh(list, o.cs);
      assert Rearranges(o.order(f), f);
      RearrangedMember(o.order(f), f, c);
    } else if o.c !in list {
      assert (set d | d in Handed(o) && d !in list) == {o.c};
    }
  }

  /** Operation i handed `c` in for the room when the room had a place for all of its new commitments. */
  ghost predicate Admits(s: Store, ops: seq<Op>, cap: nat, i: nat, room: Room, c: Digest)
    requires i < |ops|
  {
    ops[i].room == room && c in Handed(ops[i]) && Fits(History(s, ops[..i], cap), ops[i], cap)
  }

  /** Over every history, exactly who is in a list: who was before, or was handed in when there was room. */
  lemma {:induction false} HistoryAdmits(s: Store, ops: seq<Op>, cap: nat, room: Room, c: Digest)
    requires forall i :: 0 <= i < |ops| ==> ValidOp(ops[i])
    ensures c in ListOf(History(s, ops, cap), room)
            <==> c in ListOf(s, room) || exists i :: 0 <= i < |ops| && Admits(s, ops, cap, i, room, c)
    decreases |ops|
  {
    hide Apply, Fits, ValidOp;
    if ops != [] {
      var (s1, rest) := (Apply(s, ops[0], cap), ops[1..]);
      ApplyAdmits(s, ops[0], cap, room, c);
      HistoryAdmits(s1, rest, cap, room, c);
      assert Admits(s, ops, cap, 0, room, c)
          <==> ops[0].room == room && c in Handed(ops[0]) && Fits(s, ops[0], cap) by {
        assert ops[..0] == [];
      }
      forall i | 0 <= i < |rest| ensures Admits(s1, rest, cap, i, room, c) <==> Admits(s, ops, cap, i + 1, room, c) {
        assert ops[..i + 1][0] == ops[0] && ops[..i + 1][1..] == rest[..i];
      }
      if exists i :: 0 <= i < |ops| && Admits(s, ops, cap, i, room, c) {
        var i :| 0 <= i < |ops| && Admits(s, ops, cap, i, room, c);
        assert i > 0 ==> Admits(s1, rest, cap, i - 1, room, c);
      }
    }
  }

  /** Who has been approved into a room. */
  ghost predicate Approved(ops: seq<Op>, room: Room, c: Digest) {
    exists i :: 0 <= i < |ops| && ops[i].room == room && c in Handed(ops[i])
  }

  /** Nobody appears in a room's list without an approval. */
  lemma OnlyApproved(s: Store, ops: seq<Op>, cap: nat, room: Room, c: Digest)
    requires (forall i :: 0 <= i < |ops| ==> ValidOp(ops[i])) && c in ListOf(History(s, ops, cap), room)
    ensures c in ListOf(s, room) || Approved(ops, room, c)
  {
    HistoryAdmits(s, ops, cap, room, c);
  }

  /** A member's index is permanent, and the witness rebuilt for it at any later time folds to the then-current root. */
  lemma MembershipIsPermanent(s: Store, ops: seq<Op>, depth: nat, room: Room, i: nat)
    requires Valid(s, Pow2(depth)) && (forall k :: 0 <= k < |ops| ==> ValidOp(ops[k])) && i < |ListOf(s, room)|
    ensures var (c, later) := (ListOf(s, room)[i], ListOf(History(s, ops, Pow2(depth)), room));
            && i < |later| && later[i] == c && IndexOf(later, c) == i
            && Fold(c, i, Path(later, EmptyLeaf(), i, 0, depth)) == Root(later, EmptyLeaf(), depth)
  {
    var cap := Pow2(depth);
    HistoryExtends(s, ops, cap, room);
    var later := ListOf(History(s, ops, cap), room);
    ListValid(History(s, ops, cap), cap, room);
    IndexOfAt(later, i);
    WitnessFolds(later, EmptyLeaf(), i, depth);
  }
}
