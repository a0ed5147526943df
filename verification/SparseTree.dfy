/** The map-based Merkle builder of the enrolled-member and qualifying-lock trees. */
module SparseTree {
  import opened Outcomes
  import opened Merkle
  import opened Gf256

  datatype Error = LeafNot32Bytes

  /** What the builder closes over: one map of occupied nodes per level, and the empty-subtree hashes. */
  datatype Tree = Tree(levels: seq<map<nat, Digest>>, zero: seq<Digest>, root: Digest)

  predicate Is32(d: Digest) {
    d.Raw? ==> |d.bytes| == 32
  }

  /** Level `d` holds exactly the hashes of its occupied prefix. */
  ghost predicate LevelOf(m: map<nat, Digest>, leaves: seq<Digest>, empty: Digest, d: nat) {
    && (forall p: nat :: p in m <==> p < Occupied(|leaves|, d))
    && forall p :: p in m ==> m[p] == TreeHash(leaves, empty, d, p)
  }

  ghost predicate TreeOf(t: Tree, leaves: seq<Digest>, empty: Digest, depth: nat) {
    && |t.levels| == |t.zero| == depth + 1
    && (forall d :: 0 <= d <= depth ==> LevelOf(t.levels[d], leaves, empty, d) && t.zero[d] == ZeroHash(empty, d))
    && t.root == Root(leaves, empty, depth)
  }

  /** `cur.get(p) ?? zero` reads the tree's node, occupied or not. */
  function Get(m: map<nat, Digest>, p: nat, zero: Digest): Digest {
    if p in m then m[p] else zero
  }

  lemma GetIsTreeHash(m: map<nat, Digest>, leaves: seq<Digest>, empty: Digest, d: nat, p: nat)
    requires LevelOf(m, leaves, empty, d)
    ensures Get(m, p, ZeroHash(empty, d)) == TreeHash(leaves, empty, d, p)
  {
    if p !in m { EmptyPastOccupied(leaves, empty, d, p); }
  }

  lemma ParentHash(m: map<nat, Digest>, leaves: seq<Digest>, empty: Digest, d: nat, p: nat)
    requires LevelOf(m, leaves, empty, d)
    ensures Node(Get(m, 2 * p, ZeroHash(empty, d)), Get(m, 2 * p + 1, ZeroHash(empty, d)))
            == TreeHash(leaves, empty, d + 1, p)
  {
    GetIsTreeHash(m, leaves, empty, d, 2 * p);
    GetIsTreeHash(m, leaves, empty, d, 2 * p + 1);
  }

  method ZeroSubtrees(empty: Digest, depth: nat) returns (zero: seq<Digest>)
    ensures |zero| == depth + 1 && forall d :: 0 <= d <= depth ==> zero[d] == ZeroHash(empty, d)
  {
    zero := [empty];
    for k := 1 to depth + 1
      invariant |zero| == k && forall d :: 0 <= d < k ==> zero[d] == ZeroHash(empty, d)
    {
      zero := zero + [Node(zero[k - 1], zero[k - 1])];
    }
  }

  /** One level up: collect the parents of the occupied nodes, then hash each from its two children. */
  method NextLevel(cur: map<nat, Digest>, zero: Digest, ghost leaves: seq<Digest>, ghost empty: Digest, ghost d: nat)
    returns (next: map<nat, Digest>)
    requires LevelOf(cur, leaves, empty, d) && zero == ZeroHash(empty, d)
    ensures LevelOf(next, leaves, empty, d + 1)
  {
    hide TreeHash, ZeroHash, Get;
    var parents := ParentsOf(cur.Keys, Occupied(|leaves|, d));
    next := map[];
    var todo := parents;
    while todo != {}
      invariant todo <= parents && next.Keys == parents - todo
      invariant forall p :: p in next ==> next[p] == TreeHash(leaves, empty, d + 1, p)
      decreases |todo|
    {
      var p :| p in todo;
      ParentHash(cur, leaves, empty, d, p);
      next := next[p := Node(Get(cur, 2 * p, zero), Get(cur, 2 * p + 1, zero))];
      todo := todo - {p};
    }
  }

  method ParentsOf(keys: set<nat>, ghost count: nat) returns (parents: set<nat>)
    requires forall k: nat :: k in keys <==> k < count
    ensures forall p: nat :: p in parents <==> p < (count + 1) / 2
  {
    parents := {};
    var todo := keys;
    while todo != {}
      invariant todo <= keys
      invariant forall k: nat :: k in keys && k !in todo ==> k / 2 in parents
      invariant forall p: nat :: p in parents ==> p < (count + 1) / 2
      decreases |todo|
    {
      var k :| k in todo;
      todo := todo - {k};
      parents := parents + {k / 2};
    }
    forall p: nat | p < (count + 1) / 2 ensures p in parents {
      assert 2 * p in keys && (2 * p) / 2 == p;
    }
  }

  method LeafLevel(leaves: seq<Digest>, ghost empty: Digest) returns (m: map<nat, Digest>)
    ensures LevelOf(m, leaves, empty, 0)
  {
    m := map[];
    for i := 0 to |leaves|
      invariant forall p: nat :: p in m <==> p < i
      invariant forall p :: p in m ==> m[p] == leaves[p]
    {
      m := m[i := leaves[i]];
    }
  }

  method BuildLevels(leaves: seq<Digest>, ghost empty: Digest, depth: nat, zero: seq<Digest>)
    returns (levels: seq<map<nat, Digest>>)
    requires |zero| == depth + 1 && forall d :: 0 <= d <= depth ==> zero[d] == ZeroHash(empty, d)
    ensures |levels| == depth + 1 && forall d :: 0 <= d <= depth ==> LevelOf(levels[d], leaves, empty, d)
  {
    hide LevelOf, ZeroHash;
    var first := LeafLevel(leaves, empty);
    levels := [first];
    for d := 0 to depth
      invariant |levels| == d + 1
      invariant forall k :: 0 <= k <= d ==> LevelOf(levels[k], leaves, empty, k)
    {
      var next := NextLevel(levels[d], zero[d], leaves, empty, d);
      levels := levels + [next];
    }
  }

  /** buildSparseTree, at any depth. A leaf that is not 32 bytes throws. */
  method BuildSparseTree(leaves: seq<Digest>, empty: Digest, depth: nat) returns (r: Result<Tree, Error>)
    ensures r.Ok? <==> forall i :: 0 <= i < |leaves| ==> Is32(leaves[i])
    ensures r.Ok? ==> TreeOf(r.value, leaves, empty, depth)
  {
    var zero := ZeroSubtrees(empty, depth);
    for i := 0 to |leaves|
      invariant forall k :: 0 <= k < i ==> Is32(leaves[k])
    {
      if !Is32(leaves[i]) {
        return Err(LeafNot32Bytes);
      }
    }
    var levels := BuildLevels(leaves, empty, depth, zero);
    GetIsTreeHash(levels[depth], leaves, empty, depth, 0);
    r := Ok(Tree(levels, zero, Get(levels[depth], 0, zero[depth])));
  }

  /** The witness closure: the sibling at every level, from the maps or the empty hashes. */
  method Witness(t: Tree, index: nat, ghost leaves: seq<Digest>, ghost empty: Digest, ghost depth: nat)
    returns (siblings: seq<Digest>)
    requires TreeOf(t, leaves, empty, depth)
    ensures siblings == Path(leaves, empty, index, 0, depth)
  {
    hide Path;
    siblings := [];
    var idx := index;
    assert siblings + Path(leaves, empty, idx, 0, depth) == Path(leaves, empty, index, 0, depth);
    for d := 0 to |t.levels| - 1
      invariant siblings + Path(leaves, empty, idx, d, depth) == Path(leaves, empty, index, 0, depth)
    {
      GetIsTreeHash(t.levels[d], leaves, empty, d, Sibling(idx));
      var sib := Get(t.levels[d], Sibling(idx), t.zero[d]);
      PathStep(leaves, empty, siblings, idx, d, depth);
      siblings := siblings + [sib];
      idx := idx / 2;
    }
    PathEnd(leaves, empty, idx, depth);
  }

  // ---- the member tree ----

  const TREE_DEPTH := 20

  function IdCommitment(secret: seq<Byte>, trapdoor: seq<Byte>): Digest {
    IdLeaf(secret, trapdoor)
  }

  /** The member tree's empty slot is itself a commitment: that of the all-zero identity. */
  function EmptyLeaf(): Digest {
    IdCommitment(Zeros(), Zeros())
  }

  /** buildEligibleTree. */
  method BuildEligibleTree(commitments: seq<Digest>) returns (r: Result<Tree, Error>)
    ensures r.Ok? <==> forall i :: 0 <= i < |commitments| ==> Is32(commitments[i])
    ensures r.Ok? ==> TreeOf(r.value, commitments, EmptyLeaf(), TREE_DEPTH)
  {
    r := BuildSparseTree(commitments, EmptyLeaf(), TREE_DEPTH);
  }

  /** The guest's membership check: a path of the tree's depth folds the identity's leaf to the room's root. */
  predicate Accepts(root: Digest, depth: nat, secret: seq<Byte>, trapdoor: seq<Byte>, index: nat,
                    siblings: seq<Digest>)
  {
    |siblings| == depth && Fold(IdCommitment(secret, trapdoor), index, siblings) == root
  }

  /** Who can open a member tree, whatever was enrolled in it: the enrolled, and, while a slot is free, the all-zero
      identity. */
  lemma WhoOpensMemberTree(commitments: seq<Digest>, secret: seq<Byte>, trapdoor: seq<Byte>, depth: nat)
    requires |commitments| <= Pow2(depth)
    ensures (exists index: nat, siblings ::
               Accepts(Root(commitments, EmptyLeaf(), depth), depth, secret, trapdoor, index, siblings))
            <==> IdCommitment(secret, trapdoor) in commitments
                 || (|commitments| < Pow2(depth) && secret == Zeros() && trapdoor == Zeros())
  {
    var leaf := IdCommitment(secret, trapdoor);
    var root := Root(commitments, EmptyLeaf(), depth);
    if exists index: nat, siblings :: Accepts(root, depth, secret, trapdoor, index, siblings) {
      var index: nat, siblings :| Accepts(root, depth, secret, trapdoor, index, siblings);
      FoldBinds(commitments, EmptyLeaf(), leaf, index, siblings, 0, 0);
      BelowRoot(index, depth);
    }
    if leaf in commitments {
      var i :| 0 <= i < |commitments| && commitments[i] == leaf;
      WitnessFolds(commitments, EmptyLeaf(), i, depth);
      assert Accepts(root, depth, secret, trapdoor, i, Path(commitments, EmptyLeaf(), i, 0, depth));
    } else if |commitments| < Pow2(depth) && secret == Zeros() && trapdoor == Zeros() {
      var i := |commitments|;
      WitnessFolds(commitments, EmptyLeaf(), i, depth);
      assert Accepts(root, depth, secret, trapdoor, i, Path(commitments, EmptyLeaf(), i, 0, depth));
    }
  }

  /** The fixed path length is what keeps strangers out: wherever a node digest over an identity's leaf was enrolled, in
      any list and at any depth, the tree's own path with that node's other half in front folds the identity to the
      root, although no path of the right length does. */
  lemma LongerPathLetsStrangersIn(commitments: seq<Digest>, i: nat, secret: seq<Byte>, trapdoor: seq<Byte>,
                                  other: Digest, depth: nat)
    requires |commitments| <= Pow2(depth) && i < |commitments|
    requires commitments[i] == Node(IdCommitment(secret, trapdoor), other)
    requires IdCommitment(secret, trapdoor) !in commitments && (secret != Zeros() || trapdoor != Zeros())
    ensures var root := Root(commitments, EmptyLeaf(), depth);
            var path := [other] + Path(commitments, EmptyLeaf(), i, 0, depth);
            && Fold(IdCommitment(secret, trapdoor), 2 * i, path) == root
            && forall index: nat, siblings :: !Accepts(root, depth, secret, trapdoor, index, siblings)
  {
    var path := Path(commitments, EmptyLeaf(), i, 0, depth);
    assert ([other] + path)[1..] == path;
    WitnessFolds(commitments, EmptyLeaf(), i, depth);
    WhoOpensMemberTree(commitments, secret, trapdoor, depth);
  }
}
