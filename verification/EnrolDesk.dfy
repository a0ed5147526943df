/** The handlers around the eligible lists: join requests, direct registration, approvals and rejections. */
module EnrolDesk {
  import opened Outcomes
  import opened Merkle
  import opened Shuffle
  import opened EligibleStore

  /** The lists, and per room the join requests nobody has decided yet. */
  datatype Desk = Desk(lists: Store, pending: Store)

  /** `Register` is direct registration, as in the handlers that enrol in the tier's and the bond's own lists: it takes
      no request and no owner. */
  datatype Action =
    | Ask(room: Room, c: Digest)
    | Register(room: Room, c: Digest)
    | Approve(room: Room, c: Digest)
    | Reject(room: Room, c: Digest)
    | ApproveBatch(room: Room, requested: Option<seq<Digest>>, order: seq<Digest> -> seq<Digest>)

  /** How many members a room takes, and how many undecided requests. */
  datatype Caps = Caps(members: nat, pending: nat)

  ghost predicate ValidAction(a: Action) {
    a.ApproveBatch? ==> IsOrder(a.order)
  }

  /** `cs.filter((c) => of.has(c))`. */
  function Among(cs: seq<Digest>, of: seq<Digest>): (f: seq<Digest>)
    ensures forall c :: c in f <==> c in cs && c in of
    decreases |cs|
  {
    if cs == [] then []
    else
      var (front, c) := (cs[..|cs| - 1], cs[|cs| - 1]);
      assert cs == front + [c];
      if c in of then Among(front, of) + [c] else Among(front, of)
  }

  function Without(cs: seq<Digest>, gone: seq<Digest>): (f: seq<Digest>)
    ensures forall c :: c in f <==> c in cs && c !in gone
    decreases |cs|
  {
    if cs == [] then []
    else
      var (front, c) := (cs[..|cs| - 1], cs[|cs| - 1]);
      assert cs == front + [c];
      if c in gone then Without(front, gone) else Without(front, gone) + [c]
  }

  /** Whom a batch approval admits: the requested ones, or all, but only if they are pending. */
  function ToAdmit(d: Desk, a: Action): seq<Digest>
    requires a.ApproveBatch?
  {
    var pending := ListOf(d.pending, a.room);
    Among(if a.requested.Some? then a.requested.value else pending, pending)
  }

  /** The new list and the new pending requests of the action's room. A batch that admits nobody pending, or does not
      fit, changes nothing; nor does adding to a full list. */
  ghost function Acts(list: seq<Digest>, pending: seq<Digest>, admit: seq<Digest>, a: Action, caps: Caps)
    : (seq<Digest>, seq<Digest>)
  {
    match a
    case Ask(_, c) =>
      if c in list || c in pending || |pending| >= caps.pending then (list, pending) else (list, pending + [c])
    case Register(_, c) =>
      var added := AddedTo(list, c, caps.members);
      (if added.Ok? then added.value else list, pending)
    case Approve(_, c) =>
      if AddedTo(list, c, caps.members).Err? then (list, pending)
      else (AddedTo(list, c, caps.members).value, Without(pending, [c]))
    case Reject(_, c) => (list, Without(pending, [c]))
    case ApproveBatch(_, _, order) =>
      var grown := BatchAddedTo(list, admit, order, caps.members);
      if admit == [] || grown.Err? then (list, pending)
      else (grown.value, Without(pending, grown.value[|list|..]))
  }

  ghost function Act(d: Desk, a: Action, caps: Caps): Desk {
    var admit := if a.ApproveBatch? then ToAdmit(d, a) else [];
    var next := Acts(ListOf(d.lists, a.room), ListOf(d.pending, a.room), admit, a, caps);
    Desk(d.lists[a.room := next.0], d.pending[a.room := next.1])
  }

  ghost function Acted(d: Desk, actions: seq<Action>, caps: Caps): Desk
    decreases |actions|
  {
    if actions == [] then d else Acted(Act(d, actions[0], caps), actions[1..], caps)
  }

  /** Lists and pending requests are duplicate-free and within their capacities. */
  ghost predicate DeskValid(d: Desk, caps: Caps) {
    Valid(d.lists, caps.members) && Valid(d.pending, caps.pending)
  }

  function Empty(): Desk {
    Desk(map[], map[])
  }

  // ---- filters ----

  lemma {:induction false} WithoutDistinct(cs: seq<Digest>, gone: seq<Digest>)
    requires Distinct(cs)
    ensures Distinct(Without(cs, gone)) && |Without(cs, gone)| <= |cs|
    decreases |cs|
  {
    if cs != [] {
      var front := cs[..|cs| - 1];
      WithoutDistinct(front, gone);
      assert cs[|cs| - 1] !in front;
    }
  }

  lemma {:induction false} AmongSelf(cs: seq<Digest>, of: seq<Digest>)
    requires forall c :: c in cs ==> c in of
    ensures Among(cs, of) == cs
    decreases |cs|
  {
    if cs != [] {
      var (front, c) := (cs[..|cs| - 1], cs[|cs| - 1]);
      assert cs == front + [c];
      AmongSelf(front, of);
    }
  }

  lemma {:induction false} WithoutNone(cs: seq<Digest>, gone: seq<Digest>)
    requires forall c :: c in cs ==> c !in gone
    ensures Without(cs, gone) == cs
    decreases |cs|
  {
    if cs != [] {
      var (front, c) := (cs[..|cs| - 1], cs[|cs| - 1]);
      assert cs == front + [c];
      WithoutNone(front, gone);
    }
  }

  lemma {:induction false} FreshIsWithout(list: seq<Digest>, cs: seq<Digest>)
    requires Distinct(cs)
    ensures Fresh(list, cs) == Without(cs, list)
    decreases |cs|
  {
    if cs != [] {
      var (front, c) := (cs[..|cs| - 1], cs[|cs| - 1]);
      assert cs == front + [c] && c !in front;
      FreshIsWithout(list, front);
    }
  }

  lemma {:induction false} WithoutIsAmong(cs: seq<Digest>, gone: seq<Digest>, of: seq<Digest>)
    requires forall c :: c in cs ==> (c in gone <==> c !in of)
    ensures Without(cs, gone) == Among(cs, of)
    decreases |cs|
  {
    if cs != [] {
      var (front, c) := (cs[..|cs| - 1], cs[|cs| - 1]);
      assert cs == front + [c] && c in cs;
      WithoutIsAmong(front, gone, of);
    }
  }

  lemma InOrder(order: seq<Digest> -> seq<Digest>, f: seq<Digest>, c: Digest)
    requires IsOrder(order)
    ensures c in order(f) <==> c in f
  {
    assert Rearranges(order(f), f);
    RearrangedMember(order(f), f, c);
  }

  // ---- what every sequence of actions keeps ----

  /** One room's share of an action. */
  lemma ActsKeep(list: seq<Digest>, pending: seq<Digest>, admit: seq<Digest>, a: Action, caps: Caps)
    requires ValidAction(a) && Distinct(list) && |list| <= caps.members
    requires Distinct(pending) && |pending| <= caps.pending
    ensures var next := Acts(list, pending, admit, a, caps);
            && Distinct(next.0) && |next.0| <= caps.members && list <= next.0
            && Distinct(next.1) && |next.1| <= caps.pending
  {
    match a
    case Ask(_, c) =>
    case Register(_, c) =>
    case Approve(_, c) => WithoutDistinct(pending, [c]);
    case Reject(_, c) => WithoutDistinct(pending, [c]);
    case ApproveBatch(_, _, order) =>
      hide Without;
      var f := Fresh(list, admit);
      assert Rearranges(order(f), f);
      OrderedDistinct(list, f, order(f));
      WithoutDistinct(pending, order(f));
  }

  /** An action leaves every other room alone. */
  lemma ActInRoom(d: Desk, a: Action, caps: Caps, room: Room)
    ensures var admit := if a.ApproveBatch? then ToAdmit(d, a) else [];
            (ListOf(Act(d, a, caps).lists, room), ListOf(Act(d, a, caps).pending, room))
            == if a.room == room then Acts(ListOf(d.lists, room), ListOf(d.pending, room), admit, a, caps)
               else (ListOf(d.lists, room), ListOf(d.pending, room))
  {
    hide Acts, ToAdmit;
  }

  lemma ActValid(d: Desk, a: Action, caps: Caps)
    requires DeskValid(d, caps) && ValidAction(a)
    ensures DeskValid(Act(d, a, caps), caps)
    ensures forall q :: ListOf(d.lists, q) <= ListOf(Act(d, a, caps).lists, q)
  {
    var admit := if a.ApproveBatch? then ToAdmit(d, a) else [];
    ActsKeep(ListOf(d.lists, a.room), ListOf(d.pending, a.room), admit, a, caps);
    hide Acts, Distinct;
  }

  /** Over every sequence of requests, registrations, approvals and rejections: lists and pending requests stay
      duplicate-free and within capacity, and lists only grow at their end. */
  lemma {:induction false} ActedValid(d: Desk, actions: seq<Action>, caps: Caps, room: Room)
    requires DeskValid(d, caps) && forall i :: 0 <= i < |actions| ==> ValidAction(actions[i])
    ensures DeskValid(Acted(d, actions, caps), caps)
    ensures ListOf(d.lists, room) <= ListOf(Acted(d, actions, caps).lists, room)
    decreases |actions|
  {
    hide DeskValid, Act;
    if actions != [] {
      ActValid(d, actions[0], caps);
      ActedValid(Act(d, actions[0], caps), actions[1..], caps, room);
    }
  }

  // ---- how anybody gets in ----

  predicate Listed(d: Desk, room: Room, c: Digest) {
    c in ListOf(d.lists, room)
  }

  predicate Waiting(d: Desk, room: Room, c: Digest) {
    c in ListOf(d.pending, room)
  }

  ghost predicate Asked(actions: seq<Action>, room: Room, c: Digest) {
    Ask(room, c) in actions
  }

  /** The owner approved `c` by name, or somebody registered it directly. */
  ghost predicate NamedOrRegistered(actions: seq<Action>, room: Room, c: Digest) {
    Approve(room, c) in actions || Register(room, c) in actions
  }

  ghost predicate BatchApproved(actions: seq<Action>, room: Room) {
    exists a :: a in actions && a.ApproveBatch? && a.room == room
  }

  /** The pending commitments a batch approval asks for that are not enrolled yet. */
  function BatchNew(d: Desk, room: Room, requested: Option<seq<Digest>>): set<Digest> {
    set c | c in ListOf(d.pending, room) && (requested.None? || c in requested.value) && c !in ListOf(d.lists, room)
  }

  /** Exactly whom an action enrols: whom it names, or in a batch everybody asked for who is pending, as long as the
      list has room for all of them. */
  lemma ListedExactlyWhen(d: Desk, a: Action, caps: Caps, room: Room, c: Digest)
    requires ValidAction(a)
    ensures
      var size := |ListOf(d.lists, room)|;
      Listed(Act(d, a, caps), room, c) <==>
        || Listed(d, room, c)
        || ((a == Approve(room, c) || a == Register(room, c)) && size < caps.members)
        || (a.ApproveBatch? && a.room == room && c in BatchNew(d, room, a.requested)
            && size + |BatchNew(d, room, a.requested)| <= caps.members)
  {
    hide Act, Acts, ToAdmit;
    ActInRoom(d, a, caps, room);
    if a.room == room {
      var admit := if a.ApproveBatch? then ToAdmit(d, a) else [];
      ActsListed(ListOf(d.lists, room), ListOf(d.pending, room), admit, a, caps, c);
      if a.ApproveBatch? {
        AdmitNew(d, a);
      }
    }
  }

  lemma ActsListed(list: seq<Digest>, pending: seq<Digest>, admit: seq<Digest>, a: Action, caps: Caps, c: Digest)
    requires ValidAction(a)
    ensures c in Acts(list, pending, admit, a, caps).0 <==>
              || c in list
              || ((a.Approve? || a.Register?) && a.c == c && |list| < caps.members)
              || (a.ApproveBatch? && c in admit && |list| + |set x | x in admit && x !in list| <= caps.members)
  {
    if a.ApproveBatch? {
      FreshCount(list, admit);
      InOrder(a.order, Fresh(list, admit), c);
    }
  }

  lemma AdmitNew(d: Desk, a: Action)
    requires a.ApproveBatch?
    ensures (set x | x in ToAdmit(d, a) && x !in ListOf(d.lists, a.room)) == BatchNew(d, a.room, a.requested)
    ensures forall c :: c in BatchNew(d, a.room, a.requested) <==> c in ToAdmit(d, a) && !Listed(d, a.room, c)
  {
    hide ListOf;
  }

  /** Exactly who is pending after an action: who asked, until approved by name, rejected, or newly enrolled by a
      batch. */
  lemma WaitingExactlyWhen(d: Desk, a: Action, caps: Caps, room: Room, c: Digest)
    requires ValidAction(a)
    ensures
      Waiting(Act(d, a, caps), room, c) <==>
        || (Waiting(d, room, c) && a != Reject(room, c)
            && (a == Approve(room, c) ==> !Listed(d, room, c) && |ListOf(d.lists, room)| >= caps.members)
            && (a.ApproveBatch? && a.room == room ==> Listed(d, room, c) || !Listed(Act(d, a, caps), room, c)))
        || (a == Ask(room, c) && !Listed(d, room, c) && |ListOf(d.pending, room)| < caps.pending)
  {
    hide Act, Acts, ToAdmit;
    ActInRoom(d, a, caps, room);
    if a.room == room {
      var admit := if a.ApproveBatch? then ToAdmit(d, a) else [];
      ActsWaiting(ListOf(d.lists, room), ListOf(d.pending, room), admit, a, caps, c);
    }
  }

  lemma ActsWaiting(list: seq<Digest>, pending: seq<Digest>, admit: seq<Digest>, a: Action, caps: Caps, c: Digest)
    requires ValidAction(a)
    ensures var next := Acts(list, pending, admit, a, caps);
            c in next.1 <==>
              || (c in pending && !(a.Reject? && a.c == c)
                  && (a.Approve? && a.c == c ==> c !in list && |list| >= caps.members)
                  && (a.ApproveBatch? ==> c in list || c !in next.0))
              || (a.Ask? && a.c == c && c !in list && |pending| < caps.pending)
  {
    if a.ApproveBatch? {
      InOrder(a.order, Fresh(list, admit), c);
    }
  }

  /** One action adds nobody to a list but whom it names, or, in a batch, who is pending; and nobody to the pending
      requests but who asks. */
  lemma ActAdds(d: Desk, a: Action, caps: Caps, room: Room, c: Digest)
    requires ValidAction(a)
    ensures Listed(Act(d, a, caps), room, c) ==>
              || Listed(d, room, c) || a == Approve(room, c) || a == Register(room, c)
              || (a.ApproveBatch? && a.room == room && Waiting(d, room, c))
    ensures Waiting(Act(d, a, caps), room, c) ==> Waiting(d, room, c) || a == Ask(room, c)
  {
    hide Act, Listed, Waiting;
    ListedExactlyWhen(d, a, caps, room, c);
    WaitingExactlyWhen(d, a, caps, room, c);
    assert c in BatchNew(d, room, if a.ApproveBatch? then a.requested else None) ==> Waiting(d, room, c) by {
      InBatchNew(d, room, if a.ApproveBatch? then a.requested else None, c);
    }
  }

  lemma InBatchNew(d: Desk, room: Room, requested: Option<seq<Digest>>, c: Digest)
    ensures c in BatchNew(d, room, requested) ==> Waiting(d, room, c)
  {}

  /** Whoever is enrolled after a run was before, or was named or registered, or was pending or asked and a batch of
      that room was approved; whoever is pending was before or asked. */
  lemma {:induction false} WhoGetsIn(d: Desk, actions: seq<Action>, caps: Caps, room: Room, c: Digest)
    requires forall i :: 0 <= i < |actions| ==> ValidAction(actions[i])
    ensures Listed(Acted(d, actions, caps), room, c) ==>
              || Listed(d, room, c) || NamedOrRegistered(actions, room, c)
              || ((Waiting(d, room, c) || Asked(actions, room, c)) && BatchApproved(actions, room))
    ensures Waiting(Acted(d, actions, caps), room, c) ==> Waiting(d, room, c) || Asked(actions, room, c)
    decreases |actions|
  {
    hide Act, Listed, Waiting, ValidAction;
    if actions != [] {
      var (a, rest) := (actions[0], actions[1..]);
      assert forall e :: e in actions <==> e == a || e in rest;
      ActAdds(d, a, caps, room, c);
      WhoGetsIn(Act(d, a, caps), rest, caps, room, c);
    }
  }

  // ---- enrolled and pending at once ----

  /** `c` is enrolled, and its request still waits. */
  predicate Both(d: Desk, room: Room, c: Digest) {
    Listed(d, room, c) && Waiting(d, room, c)
  }

  /** A direct registration of a pending commitment into a list that has room for it. */
  predicate Collides(d: Desk, a: Action, caps: Caps) {
    a.Register? && Waiting(d, a.room, a.c) && !Listed(d, a.room, a.c) && |ListOf(d.lists, a.room)| < caps.members
  }

  /** The actions that take `c` out of the pending requests although it is enrolled already. */
  predicate Clears(a: Action, room: Room, c: Digest) {
    a == Approve(room, c) || a == Reject(room, c)
  }

  /** Exactly how anybody comes to be both, and stops being both: only a colliding registration does it, and only an
      approval by name or a rejection undoes it. A batch approval never does. */
  lemma BothExactlyWhen(d: Desk, a: Action, caps: Caps, room: Room, c: Digest)
    requires ValidAction(a)
    ensures Both(Act(d, a, caps), room, c) <==>
              (Both(d, room, c) && !Clears(a, room, c)) || (a == Register(room, c) && Collides(d, a, caps))
  {
    hide Act, Listed, Waiting, ValidAction, BatchNew;
    ListedExactlyWhen(d, a, caps, room, c);
    WaitingExactlyWhen(d, a, caps, room, c);
  }

  ghost predicate Disjoint(d: Desk) {
    forall room, c :: !Both(d, room, c)
  }

  /** From a desk where nobody is both, an action leads to one if and only if it is not a colliding registration. */
  lemma DisjointExactlyWhen(d: Desk, a: Action, caps: Caps)
    requires DeskValid(d, caps) && ValidAction(a) && Disjoint(d)
    ensures Disjoint(Act(d, a, caps)) <==> !Collides(d, a, caps)
  {
    hide Both, Collides, Act, DeskValid;
    forall room, c ensures Both(Act(d, a, caps), room, c) <==> a == Register(room, c) && Collides(d, a, caps) {
      BothExactlyWhen(d, a, caps, room, c);
    }
    if Collides(d, a, caps) {
      CollidesRegister(d, a, caps);
      assert Both(Act(d, a, caps), a.room, a.c);
    }
  }

  lemma CollidesRegister(d: Desk, a: Action, caps: Caps)
    requires Collides(d, a, caps)
    ensures a == Register(a.room, a.c)
  {}

  ghost predicate AlwaysDisjoint(d: Desk, actions: seq<Action>, caps: Caps)
    decreases |actions|
  {
    Disjoint(d) && (actions == [] || AlwaysDisjoint(Act(d, actions[0], caps), actions[1..], caps))
  }

  ghost predicate NeverCollides(d: Desk, actions: seq<Action>, caps: Caps)
    decreases |actions|
  {
    actions == [] || (!Collides(d, actions[0], caps) && NeverCollides(Act(d, actions[0], caps), actions[1..], caps))
  }

  /** Over a whole run: nobody is ever enrolled and pending at once if and only if no registration collides. */
  lemma {:induction false} AlwaysDisjointExactlyWhen(d: Desk, actions: seq<Action>, caps: Caps)
    requires DeskValid(d, caps) && Disjoint(d) && forall i :: 0 <= i < |actions| ==> ValidAction(actions[i])
    ensures AlwaysDisjoint(d, actions, caps) <==> NeverCollides(d, actions, caps)
    decreases |actions|
  {
    hide DeskValid, Disjoint, Act, Collides, ValidAction;
    if actions != [] {
      ActValid(d, actions[0], caps);
      DisjointExactlyWhen(d, actions[0], caps);
      if !Collides(d, actions[0], caps) {
        AlwaysDisjointExactlyWhen(Act(d, actions[0], caps), actions[1..], caps);
      } else {
        NotDisjointNow(Act(d, actions[0], caps), actions[1..], caps);
      }
    }
  }

  lemma NotDisjointNow(d: Desk, actions: seq<Action>, caps: Caps)
    requires !Disjoint(d)
    ensures !AlwaysDisjoint(d, actions, caps)
  {}

  /** A request left behind by a registration waits through every run that neither approves it by name nor rejects it,
      however many batches the owner approves. */
  lemma {:induction false} StuckUntilCleared(d: Desk, actions: seq<Action>, caps: Caps, room: Room, c: Digest)
    requires DeskValid(d, caps) && Both(d, room, c)
    requires forall i :: 0 <= i < |actions| ==> ValidAction(actions[i]) && !Clears(actions[i], room, c)
    ensures Both(Acted(d, actions, caps), room, c)
    decreases |actions|
  {
    hide DeskValid, Both, Act, Clears, ValidAction;
    if actions != [] {
      ActValid(d, actions[0], caps);
      BothExactlyWhen(d, actions[0], caps, room, c);
      StuckUntilCleared(Act(d, actions[0], caps), actions[1..], caps, room, c);
    }
  }

  // ---- approving all ----

  /** Approving all enrols exactly the pending commitments that are not enrolled yet, in the chosen order, and leaves
      pending exactly those that already were; with nobody pending, or no room for all of them, it changes nothing. */
  lemma ApproveAllMeans(d: Desk, room: Room, order: seq<Digest> -> seq<Digest>, caps: Caps)
    requires DeskValid(d, caps) && IsOrder(order)
    ensures
      var (list, pending) := (ListOf(d.lists, room), ListOf(d.pending, room));
      var after := Act(d, ApproveBatch(room, None, order), caps);
      if pending != [] && |list| + |Without(pending, list)| <= caps.members then
        && ListOf(after.lists, room) == list + order(Without(pending, list))
        && ListOf(after.pending, room) == Among(pending, list)
      else
        ListOf(after.lists, room) == list && ListOf(after.pending, room) == pending
  {
    var (list, pending) := (ListOf(d.lists, room), ListOf(d.pending, room));
    assert Distinct(pending);
    AmongSelf(pending, pending);
    FreshIsWithout(list, pending);
    var f := Without(pending, list);
    forall c | c in pending ensures c in order(f) <==> c !in list {
      InOrder(order, f, c);
    }
    WithoutIsAmong(pending, order(f), list);
    hide DeskValid, Distinct, IsOrder, Among, Fresh, Without;
    assert ToAdmit(d, ApproveBatch(room, None, order)) == pending;
  }

  lemma NobodyLeft(list: seq<Digest>, pending: seq<Digest>, members: nat)
    ensures (if pending != [] && |list| + |Without(pending, list)| <= members then Among(pending, list) else pending)
            == []
            <==> pending == [] || (|list| + |pending| <= members && forall c :: c in pending ==> c !in list)
  {
    var left := Among(pending, list);
    if forall c :: c in pending ==> c !in list {
      WithoutNone(pending, list);
      assert forall c :: c !in left;
    } else {
      var c :| c in pending && c in list;
      assert c in left;
    }
  }

  lemma NobodyBoth(d: Desk, room: Room)
    ensures (forall c :: !Both(d, room, c))
            <==> forall c :: c in ListOf(d.pending, room) ==> c !in ListOf(d.lists, room)
  {
    hide ListOf;
    assert forall c :: Both(d, room, c) <==> c in ListOf(d.lists, room) && c in ListOf(d.pending, room);
  }

  /** So it leaves nobody pending exactly when nobody was, or the list takes all of them and none of them was enrolled
      behind the request's back. */
  lemma NobodyLeftExactlyWhen(d: Desk, room: Room, order: seq<Digest> -> seq<Digest>, caps: Caps)
    requires DeskValid(d, caps) && IsOrder(order)
    ensures
      var (list, pending) := (ListOf(d.lists, room), ListOf(d.pending, room));
      ListOf(Act(d, ApproveBatch(room, None, order), caps).pending, room) == []
      <==> pending == [] || (|list| + |pending| <= caps.members && forall c :: !Both(d, room, c))
  {
    hide *;
    ApproveAllMeans(d, room, order, caps);
    NobodyLeft(ListOf(d.lists, room), ListOf(d.pending, room), caps.members);
    NobodyBoth(d, room);
  }

  // ---- the two shortest runs that go past the requests ----

  lemma ThreeActions(d: Desk, a: Action, b: Action, e: Action, caps: Caps)
    ensures Acted(d, [a, b, e], caps) == Act(Act(Act(d, a, caps), b, caps), e, caps)
  {
    hide Act;
    var (d1, d2) := (Act(d, a, caps), Act(Act(d, a, caps), b, caps));
    assert [a, b, e][1..] == [b, e] && [b, e][1..] == [e] && [e][1..] == [];
    assert Acted(d2, [e], caps) == Acted(Act(d2, e, caps), [], caps);
    assert Acted(d1, [b, e], caps) == Acted(d2, [e], caps);
  }

  lemma AskedThenRegistered(room: Room, c: Digest, caps: Caps)
    requires caps.members >= 1 && caps.pending >= 1
    ensures var d := Act(Act(Empty(), Ask(room, c), caps), Register(room, c), caps);
            DeskValid(d, caps) && ListOf(d.lists, room) == ListOf(d.pending, room) == [c]
  {
    var d1 := Act(Empty(), Ask(room, c), caps);
    assert ListOf(d1.pending, room) == [c] && ListOf(d1.lists, room) == [];
    ActValid(Empty(), Ask(room, c), caps);
    ActValid(d1, Register(room, c), caps);
    hide DeskValid;
  }

  /** Ask, be registered by anybody, and the owner's approve-all leaves the request pending. */
  lemma RegisteredStaysPending(room: Room, c: Digest, order: seq<Digest> -> seq<Digest>, caps: Caps)
    requires IsOrder(order) && caps.members >= 1 && caps.pending >= 1
    ensures var after := Acted(Empty(), [Ask(room, c), Register(room, c), ApproveBatch(room, None, order)], caps);
            ListOf(after.lists, room) == [c] && ListOf(after.pending, room) == [c]
  {
    EmptyOrder(order);
    FilterOne(c);
    hide Act, Acted, IsOrder, DeskValid, Without, Among;
    ThreeActions(Empty(), Ask(room, c), Register(room, c), ApproveBatch(room, None, order), caps);
    AskedThenRegistered(room, c, caps);
    var d := Act(Act(Empty(), Ask(room, c), caps), Register(room, c), caps);
    ApproveAllMeans(d, room, order, caps);
  }

  lemma FilterOne(c: Digest)
    ensures Without([c], [c]) == [] && Among([c], [c]) == [c]
  {
    AmongSelf([c], [c]);
    WithoutIsAmong([c], [c], []);
    assert Among([c], []) == [];
  }

  lemma EmptyOrder(order: seq<Digest> -> seq<Digest>)
    requires IsOrder(order)
    ensures order([]) == []
  {
    assert Rearranges(order([]), []);
    SameLength([], order([]));
  }

  /** Registered alone, a commitment is enrolled though nobody asked or approved it. */
  lemma RegisteredUnasked(room: Room, c: Digest, caps: Caps)
    requires caps.members >= 1
    ensures var actions := [Register(room, c)];
            && Listed(Acted(Empty(), actions, caps), room, c)
            && !Asked(actions, room, c) && Approve(room, c) !in actions && !BatchApproved(actions, room)
  {}
}
