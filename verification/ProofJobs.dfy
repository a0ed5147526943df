/** Building the tier, bond and membership proof jobs, and what a proof accepted against their roots means. */
module ProofJobs {
  import opened Outcomes
  import opened Merkle
  import opened RequirementId
  import opened ShareSealing
  import opened SparseTree
  import opened QualifyingSet
  import EligibleStore

  datatype JobError =
    | IndexOutOfRange
    | AmountNotPositive
    | WrongLength
    | CommitmentMismatch
    | ScanFailed(cause: QualifyingSet.Error)
    | SetTooSmall
    | NoQualifyingLock
    | BadCommitment
    | BadSignature
    | NoConsent

  /** The Ed25519 primitives, and what is used of them: lengths, and that an honest signature verifies. */
  datatype Signer = Signer(
    publicKey: Bytes -> Bytes,
    sign: (Bytes, Bytes) -> Bytes,
    verify: (Bytes, Bytes, Bytes) -> bool
  )

  ghost predicate LawfulSigner(g: Signer) {
    && (forall s {:trigger g.publicKey(s)} :: |s| == 32 ==> |g.publicKey(s)| == 32)
    && forall m, s {:trigger g.sign(m, s)} :: |s| == 32 ==>
         |g.sign(m, s)| == 64 && g.verify(g.sign(m, s), m, g.publicKey(s))
  }

  /** The signing domains "zkorage-tier-bonded-v1", "zkorage-bond-access-v1" and "zkorage-dataroom-access-v1". */
  datatype Domain = TierBonded | BondAccess | RoomAccess

  function Tag(d: Domain): Bytes {
    match d
    case TierBonded =>
      [122, 107, 111, 114, 97, 103, 101, 45, 116, 105, 101, 114, 45, 98, 111, 110, 100, 101, 100, 45, 118, 49]
    case BondAccess =>
      [122, 107, 111, 114, 97, 103, 101, 45, 98, 111, 110, 100, 45, 97, 99, 99, 101, 115, 115, 45, 118, 49]
    case RoomAccess =>
      [122, 107, 111, 114, 97, 103, 101, 45, 100, 97, 116, 97, 114, 111, 111, 109, 45,
       97, 99, 99, 101, 115, 115, 45, 118, 49]
  }

  function Consent(d: Domain, context: Bytes, accessor: Bytes): Bytes {
    Tag(d) + context + accessor
  }

  /** A consent covers one context and one accessor, and no consent of the tier is one of the bond. */
  lemma ConsentInjective(d: Domain, context: Bytes, accessor: Bytes, d': Domain, context': Bytes, accessor': Bytes)
    requires |context| == |context'| == |accessor| == |accessor'| == 32 && !d.RoomAccess? && !d'.RoomAccess?
    requires Consent(d, context, accessor) == Consent(d', context', accessor')
    ensures d == d' && context == context' && accessor == accessor'
  {
    var (m, m') := (Consent(d, context, accessor), Consent(d', context', accessor'));
    assert m[8] == Tag(d)[8] && m'[8] == Tag(d')[8];
    assert m[22..54] == context && m'[22..54] == context' && m[54..] == accessor && m'[54..] == accessor';
  }

  /** A member's private witness: the identity and the seed of its signing key. */
  datatype Holder = Holder(secret: Bytes, trapdoor: Bytes, seed: Bytes)

  /** One scan of the escrow, and the smallest set it accepts. */
  datatype Scan = Scan(ledger: Ledger, requirement: Requirement, batch: nat, cap: nat, minAnonSet: nat)

  /** A tier or bond job, with the two roots its proof is checked against. */
  datatype Job = Job(
    domain: Domain, secret: Bytes, trapdoor: Bytes, context: Bytes, accessor: Bytes, sig: Bytes,
    memberIndex: nat, memberSiblings: seq<Digest>, memberRoot: Digest,
    qualIndex: nat, qualSiblings: seq<Digest>, qualRoot: Digest,
    nullifier: Digest)

  /** The guest's checks: both openings, over paths of the fixed depth, the holder's consent and the nullifier. */
  predicate GuestAccepts(g: Signer, j: Job, depth: nat) {
    && |j.memberSiblings| == |j.qualSiblings| == depth
    && Fold(IdCommitment(j.secret, j.trapdoor), j.memberIndex, j.memberSiblings) == j.memberRoot
    && Fold(Qualifying(j.secret), j.qualIndex, j.qualSiblings) == j.qualRoot
    && g.verify(j.sig, Consent(j.domain, j.context, j.accessor), j.accessor)
    && j.nullifier == Nullifier(j.secret, j.context)
  }

  function ScannedSet(scan: Scan): seq<QualLock>
    requires scan.batch > 0
  {
    Filtered(scan.ledger, scan.requirement, LastRead(scan.ledger, scan.batch, scan.cap, 1))
  }

  predicate All32(ds: seq<Digest>) {
    forall i :: 0 <= i < |ds| ==> Is32(ds[i])
  }

  /** The identity's commitment sits at the index the member names. */
  predicate EnrolledAt(members: seq<Digest>, index: int, secret: Bytes, trapdoor: Bytes) {
    0 <= index < |members| && members[index] == IdCommitment(secret, trapdoor)
  }

  /** The first check of a job build that fails, in the order they are made. */
  function JobRefusal(h: Holder, context: Bytes, scan: Scan, members: seq<Digest>, memberIndex: int, depth: nat)
    : Option<JobError>
    requires scan.batch > 0
  {
    var cs := Commitments(ScannedSet(scan));
    if memberIndex < 0 || memberIndex >= Pow2(depth) then Some(IndexOutOfRange)
    else if |h.secret| != 32 || |h.trapdoor| != 32 then Some(WrongLength)
    else if !EnrolledAt(members, memberIndex, h.secret, h.trapdoor) then Some(CommitmentMismatch)
    else if AnyTransient(scan.ledger, LastRead(scan.ledger, scan.batch, scan.cap, 1)) then
      Some(ScanFailed(NetworkUnreachable))
    else if !All32(cs) then Some(ScanFailed(CommitmentNot32Bytes))
    else if |cs| < scan.minAnonSet then Some(SetTooSmall)
    else if Qualifying(h.secret) !in cs then Some(NoQualifyingLock)
    else if !All32(members) then Some(BadCommitment)
    else if |h.seed| != 32 || |context| != 32 then Some(WrongLength)
    else None
  }

  /** Who gets a job: an enrolled identity of the right lengths, on a scan nothing failed in, whose commitment is one of
      at least `minAnonSet` different ones that qualify. */
  lemma JobBuiltExactlyWhen(h: Holder, context: Bytes, scan: Scan, members: seq<Digest>, memberIndex: int, depth: nat)
    requires scan.batch > 0
    ensures JobRefusal(h, context, scan, members, memberIndex, depth).None? <==>
              var locks := Filtered(scan.ledger, scan.requirement, LastRead(scan.ledger, scan.batch, scan.cap, 1));
              && |h.secret| == 32 && |h.trapdoor| == 32 && |h.seed| == 32 && |context| == 32
              && 0 <= memberIndex < |members| && memberIndex < Pow2(depth)
              && members[memberIndex] == IdCommitment(h.secret, h.trapdoor)
              && (forall id :: 1 <= id <= LastRead(scan.ledger, scan.batch, scan.cap, 1) ==>
                    !scan.ledger(id).Transient?)
              && (forall m :: m in members ==> Is32(m)) && (forall e :: e in locks ==> Is32(e.commitment))
              && |set e | e in locks :: e.commitment| >= scan.minAnonSet
              && exists e :: e in locks && e.commitment == Qualifying(h.secret)
  {
    hide LastRead;
    var locks := ScannedSet(scan);
    var cs := Commitments(locks);
    DistinctCommitments(scan.ledger, scan.requirement, LastRead(scan.ledger, scan.batch, scan.cap, 1));
    hide Filtered, Qualifies;
    forall e | e in locks ensures e.commitment in cs {
      var i :| 0 <= i < |locks| && locks[i] == e;
      assert cs[i] == e.commitment;
    }
    forall c | c in cs ensures exists e :: e in locks && e.commitment == c {
      var i :| 0 <= i < |cs| && cs[i] == c;
      assert locks[i] in locks;
    }
  }

  /** A scanned set has as many different commitments as entries. */
  lemma DistinctCommitments(ledger: Ledger, q: Requirement, n: nat)
    ensures |set e | e in Filtered(ledger, q, n) :: e.commitment| == |Filtered(ledger, q, n)|
  {
    var f := Filtered(ledger, q, n);
    FilteredMeans(ledger, q, n);
    hide Filtered;
    forall i, j | 0 <= i < j < |f| ensures Commitments(f)[i] != Commitments(f)[j] {}
    EligibleStore.DistinctSize(Commitments(f));
    assert (set e | e in f :: e.commitment) == set c | c in Commitments(f);
  }

  /** buildTierJob, and the common part of buildBondJob: every job that comes out is accepted against the live roots,
      for the holder and context it was built for. */
  method BuildJob(g: Signer, domain: Domain, h: Holder, context: Bytes, scan: Scan, members: seq<Digest>,
                  memberIndex: int, depth: nat)
    returns (r: Result<Job, JobError>)
    requires LawfulSigner(g) && scan.batch > 0 && scan.cap <= Pow2(depth)
    ensures r.Ok? ==>
              var j := r.value;
              && GuestAccepts(g, j, depth)
              && j.domain == domain && j.secret == h.secret && j.trapdoor == h.trapdoor && j.context == context
              && j.accessor == g.publicKey(h.seed) && j.memberIndex == memberIndex
              && j.memberRoot == Root(members, EmptyLeaf(), depth)
              && j.qualRoot == Root(Commitments(ScannedSet(scan)), Raw(Zeros()), depth)
    ensures var e := JobRefusal(h, context, scan, members, memberIndex, depth);
            if e.Some? then r == Err(e.value) else r.Ok?
  {
    if memberIndex < 0 || memberIndex >= Pow2(depth) {
      return Err(IndexOutOfRange);
    }
    if |h.secret| != 32 || |h.trapdoor| != 32 {
      return Err(WrongLength);
    }
    if memberIndex >= |members| || members[memberIndex] != IdCommitment(h.secret, h.trapdoor) {
      return Err(CommitmentMismatch);
    }
    hide Root, Filtered, LastRead, Qualifies, AnyTransient, Tag;
    var scanned := LiveSet(scan, depth);
    if scanned.Err? {
      return Err(ScanFailed(scanned.error));
    }
    var qual := scanned.value;
    if |qual.locks| < scan.minAnonSet {
      return Err(SetTooSmall);
    }
    var cs := Commitments(qual.locks);
    var qualIndex := EligibleStore.IndexOf(cs, Qualifying(h.secret));
    if qualIndex < 0 {
      return Err(NoQualifyingLock);
    }
    ScanFits(scan);
    var m := OpenSlot(members, EmptyLeaf(), memberIndex, depth);
    if m.Err? {
      return Err(BadCommitment);
    }
    var o := OpenSlot(cs, Raw(Zeros()), qualIndex, depth);
    if |h.seed| != 32 || |context| != 32 {
      return Err(WrongLength);
    }
    var accessor := g.publicKey(h.seed);
    var sig := g.sign(Consent(domain, context, accessor), h.seed);
    r := Ok(Job(domain, h.secret, h.trapdoor, context, accessor, sig,
                memberIndex, m.value.0, m.value.1, qualIndex, o.value.0, o.value.1, Nullifier(h.secret, context)));
  }

  /** The set a job is built on, read live from the escrow. */
  method LiveSet(scan: Scan, depth: nat) returns (r: Result<QualSet, QualifyingSet.Error>)
    requires scan.batch > 0
    ensures var cs := Commitments(ScannedSet(scan));
            var last := LastRead(scan.ledger, scan.batch, scan.cap, 1);
            r == if AnyTransient(scan.ledger, last) then Err(NetworkUnreachable)
                 else if !All32(cs) then Err(CommitmentNot32Bytes)
                 else Ok(QualSet(ScannedSet(scan), Root(cs, Raw(Zeros()), depth)))
  {
    hide Root, Filtered, LastRead, Qualifies, AnyTransient;
    CommitmentsAre32(ScannedSet(scan));
    r := BuildQualSet(scan.ledger, scan.requirement, scan.batch, scan.cap, depth);
  }

  lemma CommitmentsAre32(locks: seq<QualLock>)
    ensures All32(Commitments(locks)) <==> forall i :: 0 <= i < |locks| ==> Is32(locks[i].commitment)
  {
    var cs := Commitments(locks);
    if All32(cs) {
      forall i | 0 <= i < |locks| ensures Is32(locks[i].commitment) { assert Is32(cs[i]); }
    }
  }

  /** The context of a bond proof. */
  function ReqId(c: Crypto, q: Requirement): Bytes {
    c.sha256(Preimage(q.token, q.minAmount, q.deadline))
  }

  /** buildBondJob: the amount must be positive, and the context is the id of the very requirement scanned for. */
  method BuildBondJob(c: Crypto, g: Signer, h: Holder, scan: Scan, members: seq<Digest>, memberIndex: int, depth: nat)
    returns (r: Result<Job, JobError>)
    requires Lawful(c) && LawfulSigner(g) && scan.batch > 0 && scan.cap <= Pow2(depth)
    ensures r.Ok? ==>
              var j := r.value;
              && scan.requirement.minAmount > 0 && GuestAccepts(g, j, depth)
              && j.domain == BondAccess && j.secret == h.secret && j.trapdoor == h.trapdoor
              && j.context == c.sha256(Preimage(scan.requirement.token, scan.requirement.minAmount,
                                                scan.requirement.deadline))
              && j.accessor == g.publicKey(h.seed) && j.memberIndex == memberIndex
              && j.memberRoot == Root(members, EmptyLeaf(), depth)
              && j.qualRoot == Root(Commitments(ScannedSet(scan)), Raw(Zeros()), depth)
    ensures var e := JobRefusal(h, ReqId(c, scan.requirement), scan, members, memberIndex, depth);
            if e != Some(IndexOutOfRange) && scan.requirement.minAmount <= 0 then r == Err(AmountNotPositive)
            else if e.Some? then r == Err(e.value) else r.Ok?
  {
    hide GuestAccepts, Preimage, ScannedSet, Root;
    if memberIndex < 0 || memberIndex >= Pow2(depth) {
      return Err(IndexOutOfRange);
    }
    if scan.requirement.minAmount <= 0 {
      return Err(AmountNotPositive);
    }
    var m := EncodeRequirement(scan.requirement.token, scan.requirement.minAmount, scan.requirement.deadline);
    r := BuildJob(g, BondAccess, h, c.sha256(m), scan, members, memberIndex, depth);
  }

  /** A bond job's context names its requirement: within the widths of the encoding, jobs for different requirements
      have different contexts, or exhibit a collision of the hash. */
  lemma ReqIdBinds(c: Crypto, q: Requirement, q': Requirement)
    requires |q.token| == |q'.token| == 32
    requires 0 <= q.minAmount < Width(AMOUNT_LEN) && 0 <= q'.minAmount < Width(AMOUNT_LEN)
    requires 0 <= q.deadline < Width(DEADLINE_LEN) && 0 <= q'.deadline < Width(DEADLINE_LEN)
    ensures ReqId(c, q) == ReqId(c, q') ==>
              || (q.token == q'.token && q.minAmount == q'.minAmount && q.deadline == q'.deadline)
              || Collision(c, Preimage(q.token, q.minAmount, q.deadline), Preimage(q'.token, q'.minAmount, q'.deadline))
  {
    hide Preimage, Width;
    if Preimage(q.token, q.minAmount, q.deadline) == Preimage(q'.token, q'.minAmount, q'.deadline) {
      PreimageInjective(q.token, q.minAmount, q.deadline, q'.token, q'.minAmount, q'.deadline);
    }
  }

  // ---- the membership job ----

  /** Who consents: a signature made elsewhere, or the holder's own seed. */
  datatype ConsentSource = Signed(accessor: Bytes, sig: Bytes) | BySeed(seed: Bytes) | Nobody

  datatype MembershipJob = MembershipJob(
    secret: Bytes, trapdoor: Bytes, roomId: Bytes, recipientPub: Bytes, accessor: Bytes, sig: Bytes,
    index: nat, siblings: seq<Digest>, root: Digest, nullifier: Digest)

  predicate MembershipAccepts(g: Signer, j: MembershipJob, depth: nat) {
    && Accepts(j.root, depth, j.secret, j.trapdoor, j.index, j.siblings)
    && g.verify(j.sig, Tag(RoomAccess) + j.roomId + j.accessor + j.recipientPub, j.accessor)
    && j.nullifier == Nullifier(j.secret, j.roomId)
  }

  function MembershipRefusal(g: Signer, secret: Bytes, trapdoor: Bytes, roomId: Bytes, recipientPub: Bytes,
                             source: ConsentSource, members: seq<Digest>, index: int, depth: nat): Option<JobError>
  {
    if index < 0 || index >= Pow2(depth) then Some(IndexOutOfRange)
    else if |secret| != 32 || |trapdoor| != 32 then Some(WrongLength)
    else if !EnrolledAt(members, index, secret, trapdoor) then Some(CommitmentMismatch)
    else if !All32(members) then Some(BadCommitment)
    else
      match source
      case Signed(accessor, sig) =>
        if |accessor| != 32 || |sig| != 64 || |roomId| != 32 || |recipientPub| != 32 then Some(WrongLength)
        else if !g.verify(sig, Tag(RoomAccess) + roomId + accessor + recipientPub, accessor) then Some(BadSignature)
        else None
      case BySeed(seed) =>
        if |seed| != 32 || |roomId| != 32 || |recipientPub| != 32 then Some(WrongLength) else None
      case Nobody => Some(NoConsent)
  }

  /** Who gets a membership job. */
  lemma MembershipBuiltExactlyWhen(g: Signer, secret: Bytes, trapdoor: Bytes, roomId: Bytes, recipientPub: Bytes,
                                   source: ConsentSource, members: seq<Digest>, index: int, depth: nat)
    ensures MembershipRefusal(g, secret, trapdoor, roomId, recipientPub, source, members, index, depth).None? <==>
              && |secret| == 32 && |trapdoor| == 32 && |roomId| == 32 && |recipientPub| == 32
              && 0 <= index < |members| && index < Pow2(depth) && members[index] == IdCommitment(secret, trapdoor)
              && (forall m :: m in members ==> Is32(m))
              && match source
                 case Signed(accessor, sig) =>
                   && |accessor| == 32 && |sig| == 64
                   && g.verify(sig, Tag(RoomAccess) + roomId + accessor + recipientPub, accessor)
                 case BySeed(seed) => |seed| == 32
                 case Nobody => false
  {
    hide Tag;
  }

  /** Soundness of the membership proof: an enrolled identity, or the all-zero one while a slot is free; a consent over
      this room, accessor and recipient; and one nullifier per identity and room. */
  lemma MembershipAcceptedMeans(g: Signer, j: MembershipJob, members: seq<Digest>, depth: nat)
    requires MembershipAccepts(g, j, depth) && |members| <= Pow2(depth) && j.root == Root(members, EmptyLeaf(), depth)
    ensures IdCommitment(j.secret, j.trapdoor) in members
            || (|members| < Pow2(depth) && j.secret == j.trapdoor == Zeros())
    ensures g.verify(j.sig, Tag(RoomAccess) + j.roomId + j.accessor + j.recipientPub, j.accessor)
    ensures j.nullifier == Nullifier(j.secret, j.roomId)
  {
    hide Tag;
    WhoOpensMemberTree(members, j.secret, j.trapdoor, depth);
  }

  /** buildMembershipJob: refuses exactly what the guest would, and what it builds opens the room's root. */
  method BuildMembershipJob(g: Signer, secret: Bytes, trapdoor: Bytes, roomId: Bytes, recipientPub: Bytes,
                            source: ConsentSource, members: seq<Digest>, index: int, depth: nat)
    returns (r: Result<MembershipJob, JobError>)
    requires LawfulSigner(g)
    ensures r.Ok? ==> MembershipAccepts(g, r.value, depth) && r.value.root == Root(members, EmptyLeaf(), depth)
    ensures r.Ok? ==> r.value.secret == secret && r.value.trapdoor == trapdoor && r.value.index == index
                      && r.value.roomId == roomId && r.value.recipientPub == recipientPub
                      && (source.Signed? ==> r.value.accessor == source.accessor && r.value.sig == source.sig)
                      && (source.BySeed? ==> r.value.accessor == g.publicKey(source.seed))
    ensures var e := MembershipRefusal(g, secret, trapdoor, roomId, recipientPub, source, members, index, depth);
            if e.Some? then r == Err(e.value) else r.Ok?
  {
    hide Tag, Root;
    if index < 0 || index >= Pow2(depth) {
      return Err(IndexOutOfRange);
    }
    if |secret| != 32 || |trapdoor| != 32 {
      return Err(WrongLength);
    }
    if index >= |members| || members[index] != IdCommitment(secret, trapdoor) {
      return Err(CommitmentMismatch);
    }
    var m := OpenSlot(members, EmptyLeaf(), index, depth);
    if m.Err? {
      return Err(BadCommitment);
    }
    var accessor: Bytes, sig: Bytes;
    match source {
      case Signed(a, s) =>
        if |a| != 32 || |s| != 64 || |roomId| != 32 || |recipientPub| != 32 {
          return Err(WrongLength);
        }
        if !g.verify(s, Tag(RoomAccess) + roomId + a + recipientPub, a) {
          return Err(BadSignature);
        }
        accessor, sig := a, s;
      case BySeed(seed) =>
        if |seed| != 32 || |roomId| != 32 || |recipientPub| != 32 {
          return Err(WrongLength);
        }
        accessor := g.publicKey(seed);
        sig := g.sign(Tag(RoomAccess) + roomId + accessor + recipientPub, seed);
      case Nobody =>
        return Err(NoConsent);
    }
    r := Ok(MembershipJob(secret, trapdoor, roomId, recipientPub, accessor, sig, index, m.value.0, m.value.1,
                          Nullifier(secret, roomId)));
  }

  /** Build a tree and take one slot's witness from it. */
  method OpenSlot(leaves: seq<Digest>, empty: Digest, index: nat, depth: nat) returns (r: Result<(seq<Digest>,
                  Digest), SparseTree.Error>)
    requires index < |leaves| && index < Pow2(depth)
    ensures r.Ok? <==> forall i :: 0 <= i < |leaves| ==> Is32(leaves[i])
    ensures r.Ok? ==> |r.value.0| == depth && r.value.1 == Root(leaves, empty, depth)
                      && Fold(leaves[index], index, r.value.0) == r.value.1
  {
    var t := BuildSparseTree(leaves, empty, depth);
    if t.Err? {
      return Err(t.error);
    }
    var siblings := Witness(t.value, index, leaves, empty, depth);
    WitnessFolds(leaves, empty, index, depth);
    r := Ok((siblings, t.value.root));
  }

  lemma {:induction false} FilteredLength(ledger: Ledger, q: Requirement, n: nat)
    ensures |Filtered(ledger, q, n)| <= n
  {
    if n > 0 { FilteredLength(ledger, q, n - 1); }
  }

  lemma ScanFits(scan: Scan)
    requires scan.batch > 0
    ensures |ScannedSet(scan)| <= scan.cap
  {
    FilteredLength(scan.ledger, scan.requirement, LastRead(scan.ledger, scan.batch, scan.cap, 1));
    if scan.cap >= 1 { LastReadReaches(scan.ledger, scan.batch, scan.cap, 1); }
  }

  /** Soundness: whatever the guest accepts against these two roots comes from an enrolled identity (or the all-zero
      one, while a slot is free) that owns a lock qualifying right now. */
  lemma AcceptedMeans(g: Signer, j: Job, members: seq<Digest>, ledger: Ledger, q: Requirement, n: nat, depth: nat)
    returns (id: nat)
    requires GuestAccepts(g, j, depth) && |members| <= Pow2(depth)
    requires j.memberRoot == Root(members, EmptyLeaf(), depth)
    requires j.qualRoot == Root(Commitments(Filtered(ledger, q, n)), Raw(Zeros()), depth)
    ensures IdCommitment(j.secret, j.trapdoor) in members
            || (|members| < Pow2(depth) && j.secret == j.trapdoor == Zeros())
    ensures 1 <= id <= n && ledger(id).Found?
    ensures var l := ledger(id).lock;
            && !l.released && !l.revocable && l.unlockTime > q.now && l.unlockTime >= q.deadline
            && l.token == q.token && l.amount >= q.minAmount && l.commitment == Qualifying(j.secret)
    ensures g.verify(j.sig, Consent(j.domain, j.context, j.accessor), j.accessor)
    ensures j.nullifier == Nullifier(j.secret, j.context)
  {
    hide Tag;
    OpensMember(g, j, members, depth);
    var f := Filtered(ledger, q, n);
    FoldBinds(Commitments(f), Raw(Zeros()), Qualifying(j.secret), j.qualIndex, j.qualSiblings, 0, 0);
    var p := Merkle.Below(0, j.qualIndex, depth);
    FilteredFields(ledger, q, n);
    assert f[p] in f;
    id := f[p].id;
  }

  lemma OpensMember(g: Signer, j: Job, members: seq<Digest>, depth: nat)
    requires GuestAccepts(g, j, depth) && |members| <= Pow2(depth)
    requires j.memberRoot == Root(members, EmptyLeaf(), depth)
    ensures IdCommitment(j.secret, j.trapdoor) in members
            || (|members| < Pow2(depth) && j.secret == j.trapdoor == Zeros())
  {
    hide Tag;
    FoldBinds(members, EmptyLeaf(), IdCommitment(j.secret, j.trapdoor), j.memberIndex, j.memberSiblings, 0, 0);
    BelowRoot(j.memberIndex, depth);
  }
}
