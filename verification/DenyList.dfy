/** The sanctions deny-list: an indexed Merkle tree whose consecutive leaves bracket every non-member. */
module DenyList {
  import opened Outcomes
  import opened Gf256
  import opened Merkle
  import opened SparseTree

  type Value = seq<Byte>

  // ---- big-endian order ----

  function Num(v: Value): nat {
    if v == [] then 0 else 256 * Num(v[..|v| - 1]) + (v[|v| - 1] as int)
  }

  lemma ByteOrder(a: Byte, b: Byte)
    ensures a < b <==> (a as int) < (b as int)
    ensures a == b <==> (a as int) == (b as int)
  {}

  lemma {:induction false} FirstDifference(a: Value, b: Value, i: nat)
    requires |a| == |b| && i < |a| && a[..i] == b[..i] && (a[i] as int) < (b[i] as int)
    ensures Num(a) < Num(b)
    decreases |a|
  {
    var (fa, fb) := (a[..|a| - 1], b[..|b| - 1]);
    if i == |a| - 1 {
      assert fa == fb;
    } else {
      assert fa[..i] == a[..i] && fb[..i] == b[..i];
      FirstDifference(fa, fb, i);
    }
  }

  /** cmpBE agrees with numeric order on 32-byte values. */
  method CmpBE(a: Value, b: Value) returns (r: int)
    requires |a| == |b| == 32
    ensures r == -1 || r == 0 || r == 1
    ensures r < 0 <==> Num(a) < Num(b)
    ensures r > 0 <==> Num(a) > Num(b)
    ensures r == 0 <==> a == b
  {
    for i := 0 to 32
      invariant a[..i] == b[..i]
    {
      if a[i] != b[i] {
        ByteOrder(a[i], b[i]);
        ByteOrder(b[i], a[i]);
        if a[i] < b[i] {
          FirstDifference(a, b, i);
          return -1;
        } else {
          FirstDifference(b, a, i);
          return 1;
        }
      }
    }
    assert a == a[..32] && b == b[..32];
    return 0;
  }

  predicate All32(vals: seq<Value>) {
    forall i :: 0 <= i < |vals| ==> |vals[i]| == 32
  }

  lemma {:induction false} NumInjective(a: Value, b: Value)
    requires |a| == |b| && Num(a) == Num(b)
    ensures a == b
    decreases |a|
  {
    if a != [] {
      var (fa, fb) := (a[..|a| - 1], b[..|b| - 1]);
      ByteOrder(a[|a| - 1], b[|b| - 1]);
      NumInjective(fa, fb);
      assert a == fa + [a[|a| - 1]] && b == fb + [b[|b| - 1]];
    }
  }

  // ---- sorting and removing duplicates ----

  predicate Sorted(vals: seq<Value>) {
    forall i, j :: 0 <= i < j < |vals| ==> Num(vals[i]) <= Num(vals[j])
  }

  predicate Increasing(vals: seq<Value>) {
    forall i, j :: 0 <= i < j < |vals| ==> Num(vals[i]) < Num(vals[j])
  }

  function Insert(v: Value, sorted: seq<Value>): (r: seq<Value>)
    requires Sorted(sorted)
    ensures Sorted(r) && |r| == |sorted| + 1
    ensures forall x :: x in r <==> x == v || x in sorted
  {
    if sorted == [] || Num(v) <= Num(sorted[0]) then [v] + sorted
    else
      var rest := Insert(v, sorted[1..]);
      assert forall i :: 0 <= i < |rest| ==> rest[i] in rest;
      assert forall x :: x in sorted <==> x == sorted[0] || x in sorted[1..];
      [sorted[0]] + rest
  }

  /** The library sort by `cmpBE`: an increasing rearrangement. */
  function SortBE(vals: seq<Value>): (r: seq<Value>)
    ensures Sorted(r) && |r| == |vals|
    ensures forall x :: x in r <==> x in vals
  {
    if vals == [] then []
    else
      assert forall x :: x in vals <==> x == vals[0] || x in vals[1..];
      Insert(vals[0], SortBE(vals[1..]))
  }

  datatype Error =
    | ValueNot32Bytes
    | ValueZero
    | DepthOutOfRange
    | TooManyEntries
    | SubjectNot32Bytes
    | SubjectListed
    | NoLowLeaf

  predicate Acceptable(vals: seq<Value>) {
    All32(vals) && Zeros() !in vals
  }

  /** Value `k` is the first unacceptable one, and `e` says what is wrong with it. */
  predicate FirstBad(vals: seq<Value>, k: nat, e: Error) {
    k < |vals| && Acceptable(vals[..k])
    && if |vals[k]| != 32 then e == ValueNot32Bytes else vals[k] == Zeros() && e == ValueZero
  }

  method CheckValues(vals: seq<Value>) returns (e: Option<Error>)
    ensures e.None? <==> Acceptable(vals)
    ensures e.Some? ==> exists k :: FirstBad(vals, k, e.value)
  {
    for i := 0 to |vals|
      invariant forall k :: 0 <= k < i ==> |vals[k]| == 32 && vals[k] != Zeros()
    {
      assert Acceptable(vals[..i]);
      if |vals[i]| != 32 {
        assert FirstBad(vals, i, ValueNot32Bytes);
        return Some(ValueNot32Bytes);
      }
      var c := CmpBE(vals[i], Zeros());
      if c == 0 {
        assert FirstBad(vals, i, ValueZero);
        return Some(ValueZero);
      }
    }
    return None;
  }

  /** dedupSortBE: strictly increasing, with exactly the members given; a bad value throws. */
  method DedupSortBE(vals: seq<Value>) returns (r: Result<seq<Value>, Error>)
    ensures r.Ok? <==> Acceptable(vals)
    ensures r.Err? ==> exists k :: FirstBad(vals, k, r.error)
    ensures r.Ok? ==> Increasing(r.value) && All32(r.value) && |r.value| <= |vals|
    ensures r.Ok? ==> forall x :: x in r.value <==> x in vals
  {
    var bad := CheckValues(vals);
    if bad.Some? {
      return Err(bad.value);
    }
    var sorted := SortBE(vals);
    forall k | 0 <= k < |sorted| ensures |sorted[k]| == 32 { assert sorted[k] in vals; }
    var out := RemoveRepeats(sorted);
    r := Ok(out);
  }

  method RemoveRepeats(sorted: seq<Value>) returns (out: seq<Value>)
    requires Sorted(sorted) && All32(sorted)
    ensures Increasing(out) && All32(out) && |out| <= |sorted|
    ensures forall x :: x in out <==> x in sorted
  {
    out := [];
    for i := 0 to |sorted|
      invariant |out| <= i && (i > 0 ==> out != [] && out[|out| - 1] == sorted[i - 1])
      invariant Increasing(out) && All32(out)
      invariant forall x :: x in out <==> x in sorted[..i]
    {
      assert sorted[..i + 1] == sorted[..i] + [sorted[i]];
      var keep := true;
      if out != [] {
        var c := CmpBE(out[|out| - 1], sorted[i]);
        keep := c != 0;
      }
      if keep {
        assert out != [] ==> Num(out[|out| - 1]) < Num(sorted[i]);
        out := out + [sorted[i]];
      }
    }
    assert sorted[..|sorted|] == sorted;
  }

  // ---- the linked leaves ----

  datatype Leaf = Leaf(value: Value, nextValue: Value, nextIndex: nat)

  function LeafHash(l: Leaf): Digest {
    DenyLeaf(l.value, l.nextValue, l.nextIndex)
  }

  /** Leaf i: value i - 1 of the list (the head sentinel is zero), linked to the next; the last is linked to zero. */
  function LinkedLeaf(values: seq<Value>, i: nat): Leaf
    requires i <= |values|
  {
    Leaf(if i == 0 then Zeros() else values[i - 1],
         if i < |values| then values[i] else Zeros(),
         if i < |values| then i + 1 else 0)
  }

  function LinkedLeaves(values: seq<Value>): (ls: seq<Leaf>)
    ensures |ls| == |values| + 1
  {
    seq(|values| + 1, i requires 0 <= i < |values| + 1 => LinkedLeaf(values, i))
  }

  function LeafDigests(leaves: seq<Leaf>): (ds: seq<Digest>)
    ensures |ds| == |leaves|
  {
    seq(|leaves|, i requires 0 <= i < |leaves| => LeafHash(leaves[i]))
  }

  /** value < x, and x < next unless next is the end marker. */
  predicate Brackets(l: Leaf, x: Value) {
    Num(l.value) < Num(x) && (l.nextValue == Zeros() || Num(x) < Num(l.nextValue))
  }

  /** A sanctions list as the tree stores it. */
  ghost predicate ListOf(values: seq<Value>) {
    Increasing(values) && All32(values) && Zeros() !in values
  }

  function DenyRoot(values: seq<Value>, depth: nat): Digest {
    Root(LeafDigests(LinkedLeaves(values)), Raw(Zeros()), depth)
  }

  lemma {:induction false} NumZeros(n: nat)
    ensures Num(seq(n, _ => 0 as Byte)) == 0
  {
    if n > 0 {
      assert seq(n, _ => 0 as Byte)[..n - 1] == seq(n - 1, _ => 0 as Byte);
      NumZeros(n - 1);
    }
  }

  lemma ZeroIsLeast(x: Value)
    requires |x| == 32
    ensures Num(Zeros()) == 0 && (Num(x) == 0 <==> x == Zeros())
  {
    NumZeros(32);
    assert Zeros() == seq(32, _ => 0 as Byte);
    if Num(x) == 0 { NumInjective(x, Zeros()); }
  }

  /** The links agree: each leaf's next index is the leaf that holds its next value, and only the last leaf, whose next
      value is the end marker, points back to the head. */
  lemma LinksAgree(values: seq<Value>, i: nat)
    requires ListOf(values) && i <= |values|
    ensures
      var ls := LinkedLeaves(values);
      var l := ls[i];
      && l.nextIndex < |ls| && ls[l.nextIndex].value == l.nextValue
      && (l.nextIndex == 0 <==> i == |values|) && (l.nextIndex == 0 <==> l.nextValue == Zeros())
      && (l.nextIndex != 0 ==> l.nextIndex == i + 1 && Num(l.value) < Num(l.nextValue))
  {
    NumZeros(32);
    assert Zeros() == seq(32, _ => 0 as Byte);
    if i < |values| {
      assert values[i] in values;
      ZeroIsLeast(values[i]);
    }
  }

  /** A bracketed subject is not on the list. */
  lemma BracketExcludes(values: seq<Value>, i: nat, x: Value)
    requires ListOf(values) && i <= |values| && Brackets(LinkedLeaf(values, i), x)
    ensures x !in values
  {
    forall k | 0 <= k < |values| ensures values[k] != x {
      if k < i {
        assert Num(values[k]) <= Num(values[i - 1]);
      } else {
        assert Num(values[i]) <= Num(values[k]);
      }
    }
  }

  /** No two leaves bracket one subject. */
  lemma BracketUnique(values: seq<Value>, i: nat, j: nat, x: Value)
    requires ListOf(values) && i <= |values| && j <= |values|
    requires Brackets(LinkedLeaf(values, i), x) && Brackets(LinkedLeaf(values, j), x)
    ensures i == j
  {}

  /** Every non-zero subject off the list is bracketed. */
  lemma BracketExists(values: seq<Value>, x: Value) returns (i: nat)
    requires ListOf(values) && |x| == 32 && x !in values && x != Zeros()
    ensures i <= |values| && Brackets(LinkedLeaf(values, i), x)
  {
    ZeroIsLeast(x);
    i := 0;
    while i < |values| && Num(values[i]) < Num(x)
      invariant 0 <= i <= |values|
      invariant i > 0 ==> Num(values[i - 1]) < Num(x)
    {
      i := i + 1;
    }
    forall k | 0 <= k < |values| ensures Num(values[k]) != Num(x) {
      if Num(values[k]) == Num(x) { NumInjective(values[k], x); }
    }
  }

  // ---- what a witness proves ----

  datatype Witness = Witness(low: Leaf, leafIndex: nat, depth: nat, siblings: seq<Digest>)

  /** The guest's check: the low leaf folds to the pinned root and brackets the subject. */
  predicate Verifies(root: Digest, w: Witness, x: Value) {
    Fold(LeafHash(w.low), w.leafIndex, w.siblings) == root && Brackets(w.low, x)
  }

  lemma DigestsTagged(values: seq<Value>)
    ensures LeafTagged(LeafDigests(LinkedLeaves(values)), Raw(Zeros()))
  {}

  /** Soundness: any leaf, index and path, of any length, that verifies excludes the subject from the list. */
  lemma WitnessSound(values: seq<Value>, depth: nat, w: Witness, x: Value)
    requires ListOf(values) && Verifies(DenyRoot(values, depth), w, x)
    ensures x !in values && Num(x) > 0
    ensures exists i :: 0 <= i <= |values| && w.low == LinkedLeaf(values, i)
  {
    var ds := LeafDigests(LinkedLeaves(values));
    DigestsTagged(values);
    OpeningMeans(ds, Raw(Zeros()), depth, LeafHash(w.low), w.leafIndex, w.siblings);
    var q := Merkle.Below(0, w.leafIndex, depth);
    assert ds[q] == LeafHash(LinkedLeaf(values, q));
    assert w.low == LinkedLeaf(values, q);
    BracketExcludes(values, q, x);
  }

  /** Completeness: the tree's own leaf and path for the bracketing index verify. */
  lemma WitnessComplete(values: seq<Value>, depth: nat, i: nat, x: Value)
    requires i <= |values| < Pow2(depth) && Brackets(LinkedLeaf(values, i), x)
    ensures var siblings := Path(LeafDigests(LinkedLeaves(values)), Raw(Zeros()), i, 0, depth);
            Verifies(DenyRoot(values, depth), Witness(LinkedLeaf(values, i), i, depth, siblings), x)
  {
    WitnessFolds(LeafDigests(LinkedLeaves(values)), Raw(Zeros()), i, depth);
  }

  /** A subject can be proved off the list exactly when it is off the list and not zero. */
  lemma ProvableExactlyWhen(values: seq<Value>, depth: nat, x: Value)
    requires ListOf(values) && |values| < Pow2(depth) && |x| == 32
    ensures (exists w :: Verifies(DenyRoot(values, depth), w, x)) <==> x !in values && x != Zeros()
  {
    ZeroIsLeast(x);
    if exists w :: Verifies(DenyRoot(values, depth), w, x) {
      var w :| Verifies(DenyRoot(values, depth), w, x);
      WitnessSound(values, depth, w, x);
    }
    if x !in values && x != Zeros() {
      var i := BracketExists(values, x);
      WitnessComplete(values, depth, i, x);
    }
  }

  // ---- the tree object ----

  type NodeMap = map<(nat, nat), Digest>

  /** The first `count` nodes of level `d`, and no others of that level, are in the map, with their hashes. */
  ghost predicate Filled(nodes: NodeMap, ds: seq<Digest>, d: nat, count: nat) {
    && (forall p: nat :: (d, p) in nodes <==> p < count)
    && forall p: nat :: (d, p) in nodes ==> nodes[(d, p)] == TreeHash(ds, Raw(Zeros()), d, p)
  }

  /** Levels 0..top hold exactly their occupied prefixes, and nothing lies above. */
  ghost predicate FilledUpTo(nodes: NodeMap, ds: seq<Digest>, top: nat) {
    && (forall d: nat :: d <= top ==> Filled(nodes, ds, d, Occupied(|ds|, d)))
    && forall d: nat, p: nat :: (d, p) in nodes ==> d <= top
  }

  function NodeOrZero(nodes: NodeMap, zero: seq<Digest>, level: nat, index: nat): Digest
    requires level < |zero|
  {
    if (level, index) in nodes then nodes[(level, index)] else zero[level]
  }

  ghost predicate ZeroHashes(zero: seq<Digest>, depth: nat) {
    |zero| == depth + 1 && forall d :: 0 <= d <= depth ==> zero[d] == ZeroHash(Raw(Zeros()), d)
  }

  lemma NodeIsTreeHash(nodes: NodeMap, zero: seq<Digest>, ds: seq<Digest>, depth: nat, level: nat, index: nat)
    requires level <= depth && ZeroHashes(zero, depth) && Filled(nodes, ds, level, Occupied(|ds|, level))
    ensures NodeOrZero(nodes, zero, level, index) == TreeHash(ds, Raw(Zeros()), level, index)
  {
    if (level, index) !in nodes {
      EmptyPastOccupied(ds, Raw(Zeros()), level, index);
    }
  }

  lemma FilledKept(nodes: NodeMap, ds: seq<Digest>, level: nat, p: nat, v: Digest, d: nat, count: nat)
    requires d != level && Filled(nodes, ds, d, count)
    ensures Filled(nodes[(level, p) := v], ds, d, count)
  {}

  lemma FilledGrows(nodes: NodeMap, ds: seq<Digest>, level: nat, p: nat, v: Digest)
    requires Filled(nodes, ds, level, p) && v == TreeHash(ds, Raw(Zeros()), level, p)
    ensures Filled(nodes[(level, p) := v], ds, level, p + 1)
  {}

  class DenyTree {
    const depth: nat
    const values: seq<Value>
    var leaves: seq<Leaf>
    var nodes: NodeMap
    var zero: seq<Digest>
    var root: Digest

    ghost predicate Valid()
      reads this
    {
      && ListOf(values) && 1 <= depth <= 32 && |values| < Pow2(depth)
      && leaves == LinkedLeaves(values)
      && ZeroHashes(zero, depth)
      && FilledUpTo(nodes, LeafDigests(leaves), depth)
      && root == DenyRoot(values, depth)
    }

    constructor (values: seq<Value>, depth: nat)
      requires ListOf(values) && 1 <= depth <= 32 && |values| < Pow2(depth)
      ensures Valid() && this.values == values && this.depth == depth
    {
      this.values := values;
      this.depth := depth;
      this.leaves := [];
      this.nodes := map[];
      this.zero := [];
      this.root := Raw(Zeros());
      new;
      LinkLeaves();
      zero := ZeroSubtrees(Raw(Zeros()), depth);
      FillLeaves();
      FillLevels();
      NodeIsTreeHash(nodes, zero, LeafDigests(leaves), depth, depth, 0);
      root := NodeAt(depth, 0);
    }

    /** The head sentinel, then every value linked to the next. */
    method LinkLeaves()
      modifies this`leaves
      ensures leaves == LinkedLeaves(values)
    {
      leaves := [Leaf(Zeros(), if |values| > 0 then values[0] else Zeros(), if |values| > 0 then 1 else 0)];
      for i := 0 to |values|
        invariant leaves == LinkedLeaves(values)[..i + 1]
      {
        var isLast := i == |values| - 1;
        leaves := leaves + [Leaf(values[i], if isLast then Zeros() else values[i + 1], if isLast then 0 else i + 2)];
      }
    }

    method FillLeaves()
      requires nodes == map[]
      modifies this`nodes
      ensures FilledUpTo(nodes, LeafDigests(leaves), 0)
    {
      ghost var ds := LeafDigests(leaves);
      for i := 0 to |leaves|
        invariant Filled(nodes, ds, 0, i)
        invariant forall d: nat, p: nat :: (d, p) in nodes ==> d == 0
      {
        FilledGrows(nodes, ds, 0, i, LeafHash(leaves[i]));
        nodes := nodes[(0, i) := LeafHash(leaves[i])];
      }
    }

    /** Level by level: half as many nodes, rounded up, with no holes between them. */
    method FillLevels()
      requires FilledUpTo(nodes, LeafDigests(leaves), 0) && ZeroHashes(zero, depth)
      modifies this`nodes
      ensures FilledUpTo(nodes, LeafDigests(leaves), depth)
    {
      var count := |leaves|;
      for level := 0 to depth
        invariant count == Occupied(|leaves|, level)
        invariant FilledUpTo(nodes, LeafDigests(leaves), level)
      {
        FillParents(level, count);
        count := (count + 1) / 2;
      }
    }

    method FillParents(level: nat, count: nat)
      requires level < depth && ZeroHashes(zero, depth)
      requires count == Occupied(|leaves|, level)
      requires FilledUpTo(nodes, LeafDigests(leaves), level)
      modifies this`nodes
      ensures FilledUpTo(nodes, LeafDigests(leaves), level + 1)
    {
      ghost var ds := LeafDigests(leaves);
      var parents := (count + 1) / 2;
      for p := 0 to parents
        invariant forall d: nat :: d <= level ==> Filled(nodes, ds, d, Occupied(|ds|, d))
        invariant Filled(nodes, ds, level + 1, p)
        invariant forall d: nat, q: nat :: (d, q) in nodes ==> d <= level + 1
      {
        NodeIsTreeHash(nodes, zero, ds, depth, level, 2 * p);
        NodeIsTreeHash(nodes, zero, ds, depth, level, 2 * p + 1);
        var h := Node(NodeAt(level, 2 * p), NodeAt(level, 2 * p + 1));
        FilledGrows(nodes, ds, level + 1, p, h);
        forall d: nat | d <= level ensures Filled(nodes[(level + 1, p) := h], ds, d, Occupied(|ds|, d)) {
          FilledKept(nodes, ds, level + 1, p, h, d, Occupied(|ds|, d));
        }
        nodes := nodes[(level + 1, p) := h];
      }
    }

    function NodeAt(level: nat, index: nat): Digest
      requires level < |zero|
      reads this
    {
      NodeOrZero(nodes, zero, level, index)
    }

    method IsMember(id: Value) returns (b: bool)
      requires Valid() && |id| == 32
      ensures b == (id in values)
    {
      for i := 0 to |values|
        invariant id !in values[..i]
      {
        var c := CmpBE(values[i], id);
        if c == 0 {
          return true;
        }
        assert values[..i + 1] == values[..i] + [values[i]];
      }
      assert values[..|values|] == values;
      return false;
    }

    /** The first bracketing leaf; throws when there is none. */
    method LowLeafIndex(x: Value) returns (r: Result<nat, Error>)
      requires Valid() && |x| == 32
      ensures r.Ok? ==> r.value <= |values| && Brackets(LinkedLeaf(values, r.value), x)
      ensures r.Err? ==> r.error == NoLowLeaf && forall i :: 0 <= i <= |values| ==> !Brackets(LinkedLeaf(values, i), x)
    {
      for i := 0 to |leaves|
        invariant forall k :: 0 <= k < i ==> !Brackets(LinkedLeaf(values, k), x)
      {
        var l := leaves[i];
        assert l == LinkedLeaf(values, i);
        var above := CmpBE(l.value, x);
        var end := CmpBE(l.nextValue, Zeros());
        var below := CmpBE(x, l.nextValue);
        if above < 0 && (end == 0 || below < 0) {
          return Ok(i);
        }
      }
      return Err(NoLowLeaf);
    }

    /** nonMembershipWitness: succeeds for exactly the non-zero subjects off the list, and what it returns verifies. */
    method NonMembershipWitness(x: Value) returns (r: Result<Witness, Error>)
      requires Valid()
      ensures r.Ok? <==> |x| == 32 && x !in values && x != Zeros()
      ensures r.Ok? ==> Verifies(root, r.value, x) && r.value.depth == depth == |r.value.siblings|
      ensures r.Err? ==> r.error == if |x| != 32 then SubjectNot32Bytes
                                    else if x in values then SubjectListed
                                    else NoLowLeaf
    {
      if |x| != 32 {
        return Err(SubjectNot32Bytes);
      }
      var member := IsMember(x);
      if member {
        return Err(SubjectListed);
      }
      var low := LowLeafIndex(x);
      ZeroIsLeast(x);
      if low.Err? {
        if x != Zeros() {
          var i := BracketExists(values, x);
        }
        return Err(NoLowLeaf);
      }
      var idx := low.value;
      var siblings := Siblings(idx);
      WitnessComplete(values, depth, idx, x);
      r := Ok(Witness(leaves[idx], idx, depth, siblings));
    }

    method Siblings(idx: nat) returns (siblings: seq<Digest>)
      requires Valid()
      ensures siblings == Path(LeafDigests(leaves), Raw(Zeros()), idx, 0, depth)
    {
      ghost var (ds, empty) := (LeafDigests(leaves), Raw(Zeros()));
      siblings := [];
      var cur := idx;
      for level := 0 to depth
        invariant siblings + Path(ds, empty, cur, level, depth) == Path(ds, empty, idx, 0, depth)
      {
        NodeIsTreeHash(nodes, zero, ds, depth, level, Sibling(cur));
        var sib := NodeAt(level, Sibling(cur));
        PathStep(ds, empty, siblings, cur, level, depth);
        siblings := siblings + [sib];
        cur := cur / 2;
      }
    }
  }

  /** `new DenyTree(sanctioned, depth)` with its checks, in order; the entry count is checked before duplicates go. */
  method CreateDenyTree(sanctioned: seq<Value>, depth: int) returns (r: Result<DenyTree, Error>)
    ensures r.Ok? <==> 1 <= depth <= 32 && |sanctioned| < Pow2(depth) && Acceptable(sanctioned)
    ensures r.Ok? ==> fresh(r.value) && r.value.Valid() && r.value.depth == depth
    ensures r.Ok? ==> forall x :: x in r.value.values <==> x in sanctioned
    ensures depth < 1 || depth > 32 ==> r == Err(DepthOutOfRange)
    ensures 1 <= depth <= 32 && |sanctioned| >= Pow2(depth) ==> r == Err(TooManyEntries)
    ensures 1 <= depth <= 32 && |sanctioned| < Pow2(depth) && r.Err? ==> exists k :: FirstBad(sanctioned, k, r.error)
  {
    if depth < 1 || depth > 32 {
      return Err(DepthOutOfRange);
    }
    if |sanctioned| >= Pow2(depth) {
      return Err(TooManyEntries);
    }
    var sorted := DedupSortBE(sanctioned);
    if sorted.Err? {
      return Err(sorted.error);
    }
    var tree := new DenyTree(sorted.value, depth);
    r := Ok(tree);
  }
}
