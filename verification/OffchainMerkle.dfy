/** Off-chain reconstruction of the commitment tree, level by level. */
module OffchainMerkle {
  import opened Field
  import opened MerkleSpec
  import CommitmentTree

  method Zeros(h: Hasher, depth: nat) returns (z: seq<Fr>)
    ensures |z| == depth + 1
    ensures forall i :: 0 <= i <= depth ==> z[i] == Zero(h, i)
  {
    z := [0];
    for i := 0 to depth
      invariant |z| == i + 1
      invariant forall k :: 0 <= k <= i ==> z[k] == Zero(h, k)
    {
      z := z + [h(z[i], z[i])];
    }
  }

  /** `level` lists the nodes of height `d` from the left, far enough that every node
      beyond it is empty. */
  ghost predicate IsLevel(h: Hasher, leaves: seq<Fr>, d: nat, level: seq<Fr>) {
    && (forall i :: 0 <= i < |level| ==> level[i] == Node(h, leaves, d, i))
    && |level| == (if leaves == [] then (if d == 0 then 0 else 1) else Up(|leaves| - 1, d) + 1)
  }

  function GetOr(level: seq<Fr>, i: nat, zero: Fr): Fr {
    if i < |level| then level[i] else zero
  }

  lemma GetOrIsNode(h: Hasher, leaves: seq<Fr>, d: nat, level: seq<Fr>, i: nat)
    requires IsLevel(h, leaves, d, level)
    ensures GetOr(level, i, Zero(h, d)) == Node(h, leaves, d, i)
  {
    if |level| <= i { NodeBeyondLeaves(h, leaves, d, i); }
  }

  method NextLevel(h: Hasher, level: seq<Fr>, zero: Fr, ghost leaves: seq<Fr>, ghost d: nat) returns (next: seq<Fr>)
    requires IsLevel(h, leaves, d, level) && zero == Zero(h, d)
    ensures IsLevel(h, leaves, d + 1, next)
  {
    next := [];
    var i := 0;
    while i < |level|
      invariant 0 <= i <= |level| + 1 && i % 2 == 0
      invariant |next| == i / 2
      invariant forall k :: 0 <= k < |next| ==> next[k] == Node(h, leaves, d + 1, k)
    {
      var l := level[i];
      var r := GetOr(level, i + 1, zero);
      GetOrIsNode(h, leaves, d, level, i + 1);
      assert 2 * (i / 2) == i;
      assert h(l, r) == Node(h, leaves, d + 1, i / 2);
      next := next + [h(l, r)];
      i := i + 2;
    }
    if next == [] {
      NodeBeyondLeaves(h, leaves, d, 0);
      NodeBeyondLeaves(h, leaves, d, 1);
      next := next + [h(zero, zero)];
    }
  }

  /** Root and authentication path of `index`. The root is that of the zero-padded tree,
      whatever the index, and the siblings and bits are those of the tree's own nodes. */
  method Path(h: Hasher, leaves: seq<Fr>, index: nat, depth: nat) returns (root: Fr, siblings: seq<Fr>, bits: seq<bool>)
    requires depth > 0 || leaves != []
    ensures root == Root(h, leaves, depth)
    ensures |bits| == depth && IsPath(h, leaves, index, siblings, bits)
  {
    var z := Zeros(h, depth);
    var level: seq<Fr> := leaves;
    var idx: nat := index;
    siblings, bits := [], [];
    for d := 0 to depth
      invariant idx == Up(index, d)
      invariant |bits| == d && IsPath(h, leaves, index, siblings, bits)
      invariant IsLevel(h, leaves, d, level)
    {
      var zero: Fr := z[d];
      var sib := GetOr(level, Sibling(idx), zero);
      GetOrIsNode(h, leaves, d, level, Sibling(idx));
      siblings := siblings + [sib];
      bits := bits + [idx % 2 == 1];
      level := NextLevel(h, level, zero, leaves, d);
      idx := idx / 2;
    }
    root := level[0];
  }

  method ComputeRoot(h: Hasher, leaves: seq<Fr>, depth: nat) returns (root: Fr)
    ensures root == Root(h, leaves, depth)
  {
    if leaves == [] {
      var z := Zeros(h, depth);
      NodeBeyondLeaves(h, leaves, depth, 0);
      return z[depth];
    }
    var siblings, bits;
    root, siblings, bits := Path(h, leaves, 0, depth);
  }

  // ---- the two trees agree ----

  function ReplayedLeaves(events: seq<CommitmentTree.CommitInserted>): (leaves: seq<Word>)
    ensures |leaves| == |events|
    ensures forall i :: 0 <= i < |events| ==> leaves[i] == events[i].leaf
  {
    seq(|events|, i requires 0 <= i < |events| => events[i].leaf)
  }

  /** What an indexer rebuilds from the event log is the root the chain published last. */
  lemma ReplayMatchesChain(h: Hasher, depth: nat, leaves: seq<Word>, events: seq<CommitmentTree.CommitInserted>)
    requires CommitmentTree.EventsOk(h, depth, leaves, events)
    ensures ReplayedLeaves(events) == leaves
    ensures events != [] ==> events[|events| - 1].root == Root(h, DecodeAll(ReplayedLeaves(events)), depth)
  {
    assert ReplayedLeaves(events) == leaves;
    assert leaves[..|leaves|] == leaves;
  }

  /** Rebuilding from the log of a live contract gives its current root, the empty tree
      included. */
  method AuditRoot(tree: CommitmentTree.Tree) returns (root: Fr)
    requires tree.Valid()
    ensures root == tree.state.root
    ensures tree.events != [] ==> root == tree.events[|tree.events| - 1].root
  {
    ReplayMatchesChain(tree.h, tree.depth, tree.leaves, tree.events);
    assert tree.leaves[..|tree.leaves|] == tree.leaves;
    root := ComputeRoot(tree.h, DecodeAll(ReplayedLeaves(tree.events)), tree.depth);
  }
}
