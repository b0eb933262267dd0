/** The zero-padded Merkle tree both tree algorithms refine, and the circuit's walk up
    an authentication path. */
module MerkleSpec {
  import opened Field
  import opened Wrappers

  /** The 2-to-1 hash. Nothing is assumed about it; in particular it may collide. */
  type Hasher = (Fr, Fr) -> Fr

  type Pair = (Fr, Fr)

  /** Root of an empty subtree of the given height. */
  function Zero(h: Hasher, level: nat): Fr {
    if level == 0 then 0 else h(Zero(h, level - 1), Zero(h, level - 1))
  }

  /** The node at (level, index) of the tree whose leaves are `leaves` followed by zeros. */
  function Node(h: Hasher, leaves: seq<Fr>, level: nat, index: nat): Fr
    decreases level
  {
    if level == 0 then
      if index < |leaves| then leaves[index] else 0
    else
      h(Node(h, leaves, level - 1, 2 * index), Node(h, leaves, level - 1, 2 * index + 1))
  }

  function Root(h: Hasher, leaves: seq<Fr>, depth: nat): Fr {
    Node(h, leaves, depth, 0)
  }

  /** n shifted right by `level` bits. */
  function Up(n: nat, level: nat): nat {
    if level == 0 then n else Up(n, level - 1) / 2
  }

  function Pow2(n: nat): (p: nat)
    ensures p >= 1
  {
    if n == 0 then 1 else 2 * Pow2(n - 1)
  }

  // ---- shifting ----

  lemma {:induction false} UpMonotone(m: nat, n: nat, level: nat)
    requires m <= n
    ensures Up(m, level) <= Up(n, level)
  {
    if level > 0 { UpMonotone(m, n, level - 1); }
  }

  lemma {:induction false} UpSuccessor(n: nat, level: nat)
    ensures Up(n, level) <= Up(n + 1, level) <= Up(n, level) + 1
  {
    if level > 0 { UpSuccessor(n, level - 1); }
  }

  lemma {:induction false} UpHalf(n: nat, level: nat)
    ensures Up(n / 2, level) == Up(n, level + 1)
  {
    if level > 0 { UpHalf(n, level - 1); }
  }

  /** An index fits in `level` bits exactly when shifting them out leaves nothing. */
  lemma {:induction false} UpZero(n: nat, level: nat)
    ensures Up(n, level) == 0 <==> n < Pow2(level)
    decreases level
  {
    if level > 0 {
      UpHalf(n, level - 1);
      UpZero(n / 2, level - 1);
    }
  }

  // ---- nodes ----

  lemma NodeStep(h: Hasher, leaves: seq<Fr>, level: nat, index: nat)
    ensures Node(h, leaves, level + 1, index / 2)
         == h(Node(h, leaves, level, 2 * (index / 2)), Node(h, leaves, level, 2 * (index / 2) + 1))
  {
  }

  /** A node strictly to the right of the last leaf is an empty subtree. */
  lemma {:induction false} NodeBeyondLeaves(h: Hasher, leaves: seq<Fr>, level: nat, index: nat)
    requires leaves == [] || Up(|leaves| - 1, level) < index
    ensures Node(h, leaves, level, index) == Zero(h, level)
    decreases level
  {
    if level > 0 {
      NodeBeyondLeaves(h, leaves, level - 1, 2 * index);
      NodeBeyondLeaves(h, leaves, level - 1, 2 * index + 1);
    }
  }

  /** Appending a leaf changes only the ancestors of the new position. */
  lemma {:induction false} NodeAppendElsewhere(h: Hasher, leaves: seq<Fr>, leaf: Fr, level: nat, index: nat)
    requires index != Up(|leaves|, level)
    ensures Node(h, leaves + [leaf], level, index) == Node(h, leaves, level, index)
    decreases level
  {
    if level > 0 {
      NodeAppendElsewhere(h, leaves, leaf, level - 1, 2 * index);
      NodeAppendElsewhere(h, leaves, leaf, level - 1, 2 * index + 1);
    }
  }

  // ---- authentication paths ----

  /** The two inputs the circuit selects at one level: the current node goes right when
      its bit is set. */
  function Ordered(cur: Fr, sibling: Fr, bit: bool): Pair {
    if bit then (sibling, cur) else (cur, sibling)
  }

  function HashPair(h: Hasher, p: Pair): Fr {
    h(p.0, p.1)
  }

  /** The walk from a leaf up through its siblings. */
  function Walk(h: Hasher, leaf: Fr, siblings: seq<Fr>, bits: seq<bool>): Fr
    requires |siblings| == |bits|
    decreases |bits|
  {
    if bits == [] then leaf
    else
      var k := |bits| - 1;
      HashPair(h, Ordered(Walk(h, leaf, siblings[..k], bits[..k]), siblings[k], bits[k]))
  }

  /** Every pair the walk hashes. */
  function WalkPairs(h: Hasher, leaf: Fr, siblings: seq<Fr>, bits: seq<bool>): set<Pair>
    requires |siblings| == |bits|
    decreases |bits|
  {
    if bits == [] then {}
    else
      var k := |bits| - 1;
      WalkPairs(h, leaf, siblings[..k], bits[..k])
      + {Ordered(Walk(h, leaf, siblings[..k], bits[..k]), siblings[k], bits[k])}
  }

  /** The leaf position reached from node `top` by following the bits down. */
  function Descend(top: nat, bits: seq<bool>): nat
    decreases |bits|
  {
    if bits == [] then top
    else
      var k := |bits| - 1;
      Descend(2 * top + (if bits[k] then 1 else 0), bits[..k])
  }

  function IndexOf(bits: seq<bool>): nat {
    Descend(0, bits)
  }

  function NodePair(h: Hasher, leaves: seq<Fr>, level: nat, index: nat): Pair
    requires level > 0
  {
    (Node(h, leaves, level - 1, 2 * index), Node(h, leaves, level - 1, 2 * index + 1))
  }

  /** Every pair the tree hashes on the way down from node `top` along the bits. */
  function TreePairs(h: Hasher, leaves: seq<Fr>, top: nat, bits: seq<bool>): set<Pair>
    decreases |bits|
  {
    if bits == [] then {}
    else
      var k := |bits| - 1;
      TreePairs(h, leaves, 2 * top + (if bits[k] then 1 else 0), bits[..k])
      + {NodePair(h, leaves, |bits|, top)}
  }

  /** Compare the walk with the tree from the top down; the first level at which they
      hash different inputs is a collision. */
  function Extract(h: Hasher, leaves: seq<Fr>, top: nat, leaf: Fr, siblings: seq<Fr>, bits: seq<bool>): Option<(Pair, Pair)>
    requires |siblings| == |bits|
    decreases |bits|
  {
    if bits == [] then None
    else
      var k := |bits| - 1;
      var mine := Ordered(Walk(h, leaf, siblings[..k], bits[..k]), siblings[k], bits[k]);
      var theirs := NodePair(h, leaves, |bits|, top);
      if mine != theirs then Some((mine, theirs))
      else Extract(h, leaves, 2 * top + (if bits[k] then 1 else 0), leaf, siblings[..k], bits[..k])
  }

  /** Membership soundness. A walk that reaches a node of the tree starts at the leaf
      its bits spell, or `Extract` exhibits two distinct inputs with one hash, one from
      the walk and one from the tree. */
  lemma {:induction false} MembershipOrCollision(
      h: Hasher, leaves: seq<Fr>, top: nat, leaf: Fr, siblings: seq<Fr>, bits: seq<bool>)
    requires |siblings| == |bits|
    requires Walk(h, leaf, siblings, bits) == Node(h, leaves, |bits|, top)
    ensures match Extract(h, leaves, top, leaf, siblings, bits)
            case None => leaf == Node(h, leaves, 0, Descend(top, bits))
            case Some((p, q)) =>
              && p != q && HashPair(h, p) == HashPair(h, q)
              && p in WalkPairs(h, leaf, siblings, bits)
              && q in TreePairs(h, leaves, top, bits)
    decreases |bits|
  {
    if bits != [] {
      var k := |bits| - 1;
      var mine := Ordered(Walk(h, leaf, siblings[..k], bits[..k]), siblings[k], bits[k]);
      if mine == NodePair(h, leaves, |bits|, top) {
        MembershipOrCollision(h, leaves, 2 * top + (if bits[k] then 1 else 0), leaf, siblings[..k], bits[..k]);
      }
    }
  }

  // ---- honest paths ----

  function Sibling(index: nat): nat {
    if index % 2 == 0 then index + 1 else index - 1
  }

  /** The siblings and bits of `index` in the tree. */
  predicate IsPath(h: Hasher, leaves: seq<Fr>, index: nat, siblings: seq<Fr>, bits: seq<bool>) {
    && |siblings| == |bits|
    && forall d :: 0 <= d < |bits| ==>
         && siblings[d] == Node(h, leaves, d, Sibling(Up(index, d)))
         && bits[d] == (Up(index, d) % 2 == 1)
  }

  /** Path completeness: from any position, filled or not, the path folds to the ancestor
      of that position. */
  lemma {:induction false} PathFolds(h: Hasher, leaves: seq<Fr>, index: nat, siblings: seq<Fr>, bits: seq<bool>)
    requires IsPath(h, leaves, index, siblings, bits)
    ensures Walk(h, Node(h, leaves, 0, index), siblings, bits) == Node(h, leaves, |bits|, Up(index, |bits|))
    ensures Descend(Up(index, |bits|), bits) == index
    decreases |bits|
  {
    hide Node;
    if bits != [] {
      var k := |bits| - 1;
      PathFolds(h, leaves, index, siblings[..k], bits[..k]);
      NodeStep(h, leaves, k, Up(index, k));
      var u := Up(index, k);
      assert Up(index, |bits|) == u / 2;
      assert bits[k] == (u % 2 == 1) && siblings[k] == Node(h, leaves, k, Sibling(u));
      assert 2 * (u / 2) + (if bits[k] then 1 else 0) == u;
    }
  }

  /** In a tree of the path's depth, every position inside the tree folds to the root, and
      its bits spell it. */
  lemma PathReachesRoot(h: Hasher, leaves: seq<Fr>, index: nat, siblings: seq<Fr>, bits: seq<bool>)
    requires IsPath(h, leaves, index, siblings, bits)
    requires index < Pow2(|bits|)
    ensures Walk(h, Node(h, leaves, 0, index), siblings, bits) == Root(h, leaves, |bits|)
    ensures IndexOf(bits) == index
  {
    UpZero(index, |bits|);
    PathFolds(h, leaves, index, siblings, bits);
  }

  // ---- collision freedom on the pairs a run hashes ----

  /** No two hashed pairs collide and none hashes to the empty leaf. */
  ghost predicate CollisionFree(h: Hasher, pairs: set<Pair>) {
    && (forall p, q :: p in pairs && q in pairs && HashPair(h, p) == HashPair(h, q) ==> p == q)
    && (forall p :: p in pairs ==> HashPair(h, p) != 0)
  }

  /** Membership soundness over collision-free pairs: what opens under the root of
      `leaves` and is itself a hash is one of `leaves`. */
  lemma MembershipSound(h: Hasher, pairs: set<Pair>, leaves: seq<Fr>, p: Pair, siblings: seq<Fr>, bits: seq<bool>)
    requires |siblings| == |bits|
    requires CollisionFree(h, pairs)
    requires p in pairs
    requires WalkPairs(h, HashPair(h, p), siblings, bits) <= pairs
    requires TreePairs(h, leaves, 0, bits) <= pairs
    requires Walk(h, HashPair(h, p), siblings, bits) == Root(h, leaves, |bits|)
    ensures IndexOf(bits) < |leaves| && leaves[IndexOf(bits)] == HashPair(h, p)
  {
    MembershipOrCollision(h, leaves, 0, HashPair(h, p), siblings, bits);
  }
}
