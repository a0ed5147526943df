/** Binary Merkle trees over padded leaf lists: the reference hash, paths, and what a path proves. */
module Merkle {
  import opened Gf256

  /**
   * A 32-byte value, or the SHA-256 digest of a tagged preimage. The tags are prefix bytes (0 leaf, 1 node,
   * 2 nullifier, 3 qualifying lock); collision-freeness of the hash is the freeness of these constructors.
   */
  datatype Digest =
    | Raw(bytes: seq<Byte>)
    | IdLeaf(secret: seq<Byte>, trapdoor: seq<Byte>)
    | DenyLeaf(value: seq<Byte>, nextValue: seq<Byte>, nextIndex: nat)
    | Node(left: Digest, right: Digest)
    | Nullifier(idSecret: seq<Byte>, context: seq<Byte>)
    | Qualifying(lockSecret: seq<Byte>)

  function Zeros(): (z: seq<Byte>)
    ensures |z| == 32
  {
    seq(32, _ => 0)
  }

  function Pow2(n: nat): (p: nat)
    ensures p >= 1
  {
    if n == 0 then 1 else 2 * Pow2(n - 1)
  }

  // ---- the tree of a leaf list ----

  /** The node at (level, index) of the tree over `leaves`, every slot past them holding `empty`. */
  function TreeHash(leaves: seq<Digest>, empty: Digest, level: nat, index: nat): Digest
    decreases level
  {
    if level == 0 then
      if index < |leaves| then leaves[index] else empty
    else
      Node(TreeHash(leaves, empty, level - 1, 2 * index), TreeHash(leaves, empty, level - 1, 2 * index + 1))
  }

  function Root(leaves: seq<Digest>, empty: Digest, depth: nat): Digest {
    TreeHash(leaves, empty, depth, 0)
  }

  /** The hash of an empty subtree. */
  function ZeroHash(empty: Digest, level: nat): Digest {
    if level == 0 then empty else Node(ZeroHash(empty, level - 1), ZeroHash(empty, level - 1))
  }

  /** How many nodes of a level cover an occupied leaf: a prefix that halves, rounding up. */
  function Occupied(n: nat, level: nat): nat {
    if level == 0 then n else (Occupied(n, level - 1) + 1) / 2
  }

  lemma {:induction false} EmptyPastOccupied(leaves: seq<Digest>, empty: Digest, level: nat, index: nat)
    requires index >= Occupied(|leaves|, level)
    ensures TreeHash(leaves, empty, level, index) == ZeroHash(empty, level)
    decreases level
  {
    if level > 0 {
      EmptyPastOccupied(leaves, empty, level - 1, 2 * index);
      EmptyPastOccupied(leaves, empty, level - 1, 2 * index + 1);
    }
  }

  // ---- the reference: hash the whole padded list by halves ----

  function FullHash(xs: seq<Digest>, depth: nat): Digest
    requires |xs| == Pow2(depth)
    decreases depth
  {
    if depth == 0 then xs[0]
    else Node(FullHash(xs[..Pow2(depth - 1)], depth - 1), FullHash(xs[Pow2(depth - 1)..], depth - 1))
  }

  /** `count` consecutive slots of the padded list. */
  function Slots(leaves: seq<Digest>, empty: Digest, from: nat, count: nat): (xs: seq<Digest>)
    ensures |xs| == count
  {
    seq(count, k requires 0 <= k < count => TreeHash(leaves, empty, 0, from + k))
  }

  /** The first slot under node (level, index). */
  function FirstSlot(index: nat, level: nat): nat
    decreases level
  {
    if level == 0 then index else FirstSlot(2 * index, level - 1)
  }

  lemma {:induction false} FirstSlotNext(index: nat, level: nat)
    ensures FirstSlot(index + 1, level) == FirstSlot(index, level) + Pow2(level)
    ensures index == 0 ==> FirstSlot(index, level) == 0
    decreases level
  {
    if level > 0 {
      FirstSlotNext(2 * index, level - 1);
      FirstSlotNext(2 * index + 1, level - 1);
    }
  }

  lemma {:induction false} TreeIsFullHash(leaves: seq<Digest>, empty: Digest, level: nat, index: nat)
    ensures TreeHash(leaves, empty, level, index)
            == FullHash(Slots(leaves, empty, FirstSlot(index, level), Pow2(level)), level)
    decreases level
  {
    if level > 0 {
      var (h, from) := (Pow2(level - 1), FirstSlot(index, level));
      var xs := Slots(leaves, empty, from, Pow2(level));
      FirstSlotNext(2 * index, level - 1);
      assert xs[..h] == Slots(leaves, empty, from, h);
      assert xs[h..] == Slots(leaves, empty, from + h, h);
      TreeIsFullHash(leaves, empty, level - 1, 2 * index);
      TreeIsFullHash(leaves, empty, level - 1, 2 * index + 1);
    }
  }

  /** The leaves, then empty slots up to the capacity. */
  function Padded(leaves: seq<Digest>, empty: Digest, depth: nat): (xs: seq<Digest>)
    requires |leaves| <= Pow2(depth)
    ensures |xs| == Pow2(depth)
  {
    leaves + seq(Pow2(depth) - |leaves|, _ => empty)
  }

  /** The root is the hash of the complete padded tree. */
  lemma RootIsFullHash(leaves: seq<Digest>, empty: Digest, depth: nat)
    requires |leaves| <= Pow2(depth)
    ensures Root(leaves, empty, depth) == FullHash(Padded(leaves, empty, depth), depth)
  {
    TreeIsFullHash(leaves, empty, depth, 0);
    FirstSlotNext(0, depth);
    assert Slots(leaves, empty, 0, Pow2(depth)) == Padded(leaves, empty, depth);
  }

  // ---- paths ----

  function Sibling(index: nat): nat {
    if index % 2 == 0 then index + 1 else index - 1
  }

  /** The verifier's fold: the low bit of the index says on which side the running node goes. */
  function Fold(node: Digest, index: nat, siblings: seq<Digest>): Digest
    decreases |siblings|
  {
    if siblings == [] then node
    else Fold(Parent(node, index, siblings[0]), index / 2, siblings[1..])
  }

  function Parent(node: Digest, index: nat, sibling: Digest): Digest {
    if index % 2 == 0 then Node(node, sibling) else Node(sibling, node)
  }

  /** The sibling path of slot `index` from `level` up to `depth`. */
  function Path(leaves: seq<Digest>, empty: Digest, index: nat, level: nat, depth: nat): (p: seq<Digest>)
    requires level <= depth
    ensures |p| == depth - level
    decreases depth - level
  {
    if level == depth then []
    else [TreeHash(leaves, empty, level, Sibling(index))] + Path(leaves, empty, index / 2, level + 1, depth)
  }

  /** One turn of the witness loop: the next sibling leaves the remaining path. */
  lemma PathStep(leaves: seq<Digest>, empty: Digest, done: seq<Digest>, index: nat, level: nat, depth: nat)
    requires level < depth
    ensures done + Path(leaves, empty, index, level, depth)
            == (done + [TreeHash(leaves, empty, level, Sibling(index))])
                + Path(leaves, empty, index / 2, level + 1, depth)
  {}

  lemma PathEnd(leaves: seq<Digest>, empty: Digest, index: nat, depth: nat)
    ensures Path(leaves, empty, index, depth, depth) == []
  {}

  lemma {:induction false} PathFolds(leaves: seq<Digest>, empty: Digest, index: nat, level: nat, depth: nat)
    requires level <= depth && index < Pow2(depth - level)
    ensures Fold(TreeHash(leaves, empty, level, index), index, Path(leaves, empty, index, level, depth))
            == Root(leaves, empty, depth)
    decreases depth - level
  {
    if level < depth {
      PathFolds(leaves, empty, index / 2, level + 1, depth);
    }
  }

  /** Every slot, occupied or not, opens against the root. */
  lemma WitnessFolds(leaves: seq<Digest>, empty: Digest, index: nat, depth: nat)
    requires index < Pow2(depth)
    ensures Fold(if index < |leaves| then leaves[index] else empty, index, Path(leaves, empty, index, 0, depth))
            == Root(leaves, empty, depth)
  {
    PathFolds(leaves, empty, index, 0, depth);
  }

  /** The position `n` levels below node `top` that the low `n` bits of `index` lead to. */
  function Below(top: nat, index: nat, n: nat): nat {
    if n == 0 then top else 2 * Below(top, index / 2, n - 1) + index % 2
  }

  lemma {:induction false} BelowRoot(index: nat, n: nat)
    ensures Below(0, index, n) < Pow2(n)
    ensures index < Pow2(n) ==> Below(0, index, n) == index
  {
    if n > 0 {
      BelowRoot(index / 2, n - 1);
    }
  }

  /** Binding: a path that folds to a node of the tree starts at the tree's own node, and is the tree's own path. */
  lemma {:induction false} FoldBinds(leaves: seq<Digest>, empty: Digest, node: Digest, index: nat,
                                     siblings: seq<Digest>, level: nat, top: nat)
    requires Fold(node, index, siblings) == TreeHash(leaves, empty, level + |siblings|, top)
    ensures var q := Below(top, index, |siblings|);
            node == TreeHash(leaves, empty, level, q) && siblings == Path(leaves, empty, q, level, level + |siblings|)
    decreases |siblings|
  {
    if siblings != [] {
      var (up, rest) := (Parent(node, index, siblings[0]), siblings[1..]);
      FoldBinds(leaves, empty, up, index / 2, rest, level + 1, top);
      var (p, q) := (Below(top, index / 2, |rest|), Below(top, index, |siblings|));
      ParentBinds(leaves, empty, node, index, siblings[0], level, p);
      assert q == 2 * p + index % 2 && q / 2 == p;
      hide Fold, Below, Path, TreeHash, Parent;
      assert siblings == [siblings[0]] + rest;
      PathUnfold(leaves, empty, q, level, level + |siblings|);
    }
  }

  lemma ParentBinds(leaves: seq<Digest>, empty: Digest, node: Digest, index: nat, sibling: Digest, level: nat, p: nat)
    requires Parent(node, index, sibling) == TreeHash(leaves, empty, level + 1, p)
    ensures var q := 2 * p + index % 2;
            node == TreeHash(leaves, empty, level, q) && sibling == TreeHash(leaves, empty, level, Sibling(q))
  {}

  lemma PathUnfold(leaves: seq<Digest>, empty: Digest, index: nat, level: nat, depth: nat)
    requires level < depth
    ensures Path(leaves, empty, index, level, depth)
            == [TreeHash(leaves, empty, level, Sibling(index))] + Path(leaves, empty, index / 2, level + 1, depth)
  {}

  lemma {:induction false} FoldSplit(node: Digest, index: nat, a: seq<Digest>, b: seq<Digest>) returns (i: nat)
    ensures Fold(node, index, a + b) == Fold(Fold(node, index, a), i, b)
    decreases |a|
  {
    if a == [] {
      assert a + b == b;
      i := index;
    } else {
      assert (a + b)[0] == a[0] && (a + b)[1..] == a[1..] + b;
      i := FoldSplit(Parent(node, index, a[0]), index / 2, a[1..], b);
    }
  }

  lemma {:induction false} FoldIsNode(node: Digest, index: nat, siblings: seq<Digest>)
    requires siblings != []
    ensures Fold(node, index, siblings).Node?
    decreases |siblings|
  {
    if |siblings| > 1 {
      FoldIsNode(Parent(node, index, siblings[0]), index / 2, siblings[1..]);
    } else {
      assert siblings[1..] == [];
    }
  }

  /** No leaf of the tree is an internal-node digest. */
  predicate LeafTagged(leaves: seq<Digest>, empty: Digest) {
    !empty.Node? && forall i :: 0 <= i < |leaves| ==> !leaves[i].Node?
  }

  /** A path of any length that folds a leaf digest to the root has the tree's depth and opens the tree's own leaf. */
  lemma OpeningMeans(leaves: seq<Digest>, empty: Digest, depth: nat, leaf: Digest, index: nat, siblings: seq<Digest>)
    requires LeafTagged(leaves, empty) && !leaf.Node?
    requires Fold(leaf, index, siblings) == Root(leaves, empty, depth)
    ensures |siblings| == depth
    ensures var q := Below(0, index, depth);
            q < Pow2(depth) && leaf == (if q < |leaves| then leaves[q] else empty)
  {
    if |siblings| > depth {
      LongPathFails(leaves, empty, depth, leaf, index, siblings);
    } else {
      FoldBinds(leaves, empty, leaf, index, siblings, depth - |siblings|, 0);
      BelowRoot(index, depth);
    }
  }

  lemma LongPathFails(leaves: seq<Digest>, empty: Digest, depth: nat, leaf: Digest, index: nat, siblings: seq<Digest>)
    requires LeafTagged(leaves, empty) && |siblings| > depth
    ensures Fold(leaf, index, siblings) != Root(leaves, empty, depth)
  {
    var (a, b) := (siblings[..|siblings| - depth], siblings[|siblings| - depth..]);
    assert siblings == a + b;
    var i := FoldSplit(leaf, index, a, b);
    FoldIsNode(leaf, index, a);
    hide Fold, Path, Below;
    if Fold(leaf, index, siblings) == Root(leaves, empty, depth) {
      FoldBinds(leaves, empty, Fold(leaf, index, a), i, b, 0, 0);
    }
  }
}
