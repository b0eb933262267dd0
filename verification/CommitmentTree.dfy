/** The on-chain commitment tree: an append-only Merkle tree kept by one pass of
    `depth` hashes per insertion, with a ring of recent roots. */
module CommitmentTree {
  import opened Field
  import opened Wrappers
  import opened MerkleSpec

  const DEPTH: nat := 20
  const ROOT_HISTORY: nat := 32

  datatype Error = TreeFull | DuplicateLeaf

  datatype CommitInserted = CommitInserted(index: nat, leaf: Word, root: Word)

  datatype TreeState = TreeState(
    nextIndex: nat, currentRootIndex: nat, filledSubtrees: seq<Word>, zeros: seq<Word>, root: Word, size: nat)

  function HashWords(h: Hasher, left: Word, right: Word): Word {
    h(Decode(left), Decode(right))
  }

  // ---- what the tree means ----

  /** Root after the first `j` insertions. */
  function RootAt(h: Hasher, depth: nat, leaves: seq<Word>, j: nat): Fr
    requires j <= |leaves|
  {
    Root(h, DecodeAll(leaves[..j]), depth)
  }

  function WindowStart(n: nat): nat {
    if n < ROOT_HISTORY then 0 else n - ROOT_HISTORY + 1
  }

  /** `root` is one of the last ROOT_HISTORY roots. */
  ghost predicate KnownRoot(h: Hasher, depth: nat, leaves: seq<Word>, root: Word) {
    exists j :: WindowStart(|leaves|) <= j <= |leaves| && root == RootAt(h, depth, leaves, j)
  }

  /** What `insert` does to the sequence of leaves. */
  function Inserted(depth: nat, leaves: seq<Word>, leaf: Word): Result<seq<Word>, Error> {
    if leaf in leaves then Err(DuplicateLeaf)
    else if |leaves| >= Pow2(depth) then Err(TreeFull)
    else Ok(leaves + [leaf])
  }

  // ---- representation invariant ----

  /** Whenever bit `level` of the leaf count is set, the slot of that level holds the
      complete left sibling of the next path. */
  ghost predicate FilledOk(h: Hasher, leaves: seq<Word>, filled: seq<Word>) {
    forall l :: 0 <= l < |filled| && Up(|leaves|, l) % 2 == 1 ==>
      Decode(filled[l]) == Node(h, DecodeAll(leaves), l, Up(|leaves|, l) - 1)
  }

  ghost predicate ZerosOk(h: Hasher, zeros: seq<Word>) {
    forall l :: 0 <= l < |zeros| ==> zeros[l] == Zero(h, l)
  }

  predicate CountersOk(depth: nat, leaves: seq<Word>, s: TreeState) {
    && s.nextIndex == s.size == |leaves| <= Pow2(depth)
    && s.currentRootIndex == |leaves| % ROOT_HISTORY
  }

  ghost predicate StateOk(h: Hasher, depth: nat, leaves: seq<Word>, s: TreeState) {
    && CountersOk(depth, leaves, s)
    && |s.filledSubtrees| == |s.zeros| == depth
    && ZerosOk(h, s.zeros)
    && FilledOk(h, leaves, s.filledSubtrees)
    && s.root == RootAt(h, depth, leaves, |leaves|)
  }

  /** The ring holds exactly the roots of the window, root `j` in slot `j % 32`. */
  ghost predicate RingOk(h: Hasher, depth: nat, leaves: seq<Word>, ring: map<nat, Word>) {
    && (forall i: nat :: i in ring <==> i < ROOT_HISTORY && i <= |leaves|)
    && forall j :: WindowStart(|leaves|) <= j <= |leaves| ==>
         j % ROOT_HISTORY in ring && ring[j % ROOT_HISTORY] == RootAt(h, depth, leaves, j)
  }

  ghost predicate EventsOk(h: Hasher, depth: nat, leaves: seq<Word>, events: seq<CommitInserted>) {
    && |events| == |leaves|
    && forall i :: 0 <= i < |events| ==>
         events[i] == CommitInserted(i, leaves[i], RootAt(h, depth, leaves, i + 1))
  }

  ghost predicate KeysOk(leaves: seq<Word>, keys: set<Word>) {
    forall w :: w in keys <==> w in leaves
  }

  lemma KeysAppend(leaves: seq<Word>, leaf: Word, keys: set<Word>)
    requires KeysOk(leaves, keys)
    ensures leaf in keys <==> leaf in leaves
    ensures KeysOk(leaves + [leaf], keys + {leaf})
  {
  }

  // ---- one level of the insertion ----

  /** The invariant of the insertion loop. Levels below `level` already satisfy the
      filled-subtree property for the longer list, the others still for the shorter. */
  ghost predicate Climbing(h: Hasher, leaves: seq<Word>, leaf: Word, filled: seq<Word>, level: nat, index: nat, current: Word)
  {
    && level <= |filled|
    && index == Up(|leaves|, level)
    && Decode(current) == Node(h, DecodeAll(leaves + [leaf]), level, index)
    && (forall l :: 0 <= l < level && Up(|leaves| + 1, l) % 2 == 1 ==>
          Decode(filled[l]) == Node(h, DecodeAll(leaves + [leaf]), l, Up(|leaves| + 1, l) - 1))
    && (forall l :: level <= l < |filled| && Up(|leaves|, l) % 2 == 1 ==>
          Decode(filled[l]) == Node(h, DecodeAll(leaves), l, Up(|leaves|, l) - 1))
  }

  lemma ClimbStart(h: Hasher, leaves: seq<Word>, leaf: Word, filled: seq<Word>)
    requires FilledOk(h, leaves, filled)
    ensures Climbing(h, leaves, leaf, filled, 0, |leaves|, leaf)
  {
    assert DecodeAll(leaves + [leaf])[|leaves|] == Decode(leaf);
  }

  lemma UpStep(n: nat, level: nat)
    ensures Up(n, level + 1) == Up(n, level) / 2
  {
  }

  /** An even position is the left child: it is remembered, and its sibling is empty. */
  lemma ClimbEven(h: Hasher, leaves: seq<Word>, leaf: Word, filled: seq<Word>, level: nat, index: nat, current: Word, zero: Word)
    requires level < |filled| && index % 2 == 0 && zero == Zero(h, level)
    requires Climbing(h, leaves, leaf, filled, level, index, current)
    ensures Climbing(h, leaves, leaf, filled[level := current], level + 1, index / 2, HashWords(h, current, zero))
  {
    hide Node, Up, Zero;
    var longer := DecodeAll(leaves + [leaf]);
    NodeBeyondLeaves(h, longer, level, index + 1);
    UpSuccessor(|leaves|, level);
    UpStep(|leaves|, level);
    NodeStep(h, longer, level, index);
    assert 2 * (index / 2) == index;
    assert Decode(HashWords(h, current, zero)) == Node(h, longer, level + 1, index / 2);
  }

  /** An odd position is the right child of the remembered complete node. */
  lemma ClimbOdd(h: Hasher, leaves: seq<Word>, leaf: Word, filled: seq<Word>, level: nat, index: nat, current: Word)
    requires level < |filled| && index % 2 == 1
    requires Climbing(h, leaves, leaf, filled, level, index, current)
    ensures Climbing(h, leaves, leaf, filled, level + 1, index / 2, HashWords(h, filled[level], current))
  {
    hide Node, Up;
    var longer := DecodeAll(leaves + [leaf]);
    DecodeAllAppend(leaves, leaf);
    NodeAppendElsewhere(h, DecodeAll(leaves), Decode(leaf), level, index - 1);
    assert Decode(filled[level]) == Node(h, longer, level, index - 1);
    UpSuccessor(|leaves|, level);
    UpStep(|leaves|, level);
    NodeStep(h, longer, level, index);
    assert 2 * (index / 2) == index - 1;
    assert Decode(HashWords(h, filled[level], current)) == Node(h, longer, level + 1, index / 2);
  }

  lemma RootAtAppend(h: Hasher, depth: nat, leaves: seq<Word>, leaf: Word, j: nat)
    requires j <= |leaves|
    ensures RootAt(h, depth, leaves + [leaf], j) == RootAt(h, depth, leaves, j)
  {
    assert (leaves + [leaf])[..j] == leaves[..j];
  }

  lemma RingAppend(h: Hasher, depth: nat, leaves: seq<Word>, leaf: Word, ring: map<nat, Word>)
    requires RingOk(h, depth, leaves, ring)
    ensures RingOk(h, depth, leaves + [leaf],
              ring[(|leaves| + 1) % ROOT_HISTORY := RootAt(h, depth, leaves + [leaf], |leaves| + 1)])
  {
    var n := |leaves| + 1;
    var longer := leaves + [leaf];
    var ring' := ring[n % ROOT_HISTORY := RootAt(h, depth, longer, n)];
    forall j | WindowStart(n) <= j <= n
      ensures j % ROOT_HISTORY in ring' && ring'[j % ROOT_HISTORY] == RootAt(h, depth, longer, j)
    {
      if j < n {
        RootAtAppend(h, depth, leaves, leaf, j);
        assert j % ROOT_HISTORY != n % ROOT_HISTORY;
      }
    }
  }

  lemma EventsAppend(h: Hasher, depth: nat, leaves: seq<Word>, leaf: Word, events: seq<CommitInserted>)
    requires EventsOk(h, depth, leaves, events)
    ensures EventsOk(h, depth, leaves + [leaf],
              events + [CommitInserted(|leaves|, leaf, RootAt(h, depth, leaves + [leaf], |leaves| + 1))])
  {
    forall i {:trigger events[i]} | 0 <= i < |leaves|
      ensures RootAt(h, depth, leaves + [leaf], i + 1) == RootAt(h, depth, leaves, i + 1)
    {
      RootAtAppend(h, depth, leaves, leaf, i + 1);
    }
  }

  /** A finished climb establishes the tree state for the longer list. */
  lemma Climbed(h: Hasher, depth: nat, leaves: seq<Word>, leaf: Word, s: TreeState, filled: seq<Word>, index: nat, current: Word)
    requires depth > 0 && |filled| == depth && current < R
    requires StateOk(h, depth, leaves, s) && |leaves| < Pow2(depth)
    requires Climbing(h, leaves, leaf, filled, depth, index, current)
    ensures current == RootAt(h, depth, leaves + [leaf], |leaves| + 1) == Root(h, DecodeAll(leaves + [leaf]), depth)
    ensures StateOk(h, depth, leaves + [leaf],
              TreeState(|leaves| + 1, (|leaves| + 1) % ROOT_HISTORY, filled, s.zeros, current, |leaves| + 1))
  {
    UpZero(|leaves|, depth);
    assert (leaves + [leaf])[..|leaves| + 1] == leaves + [leaf];
  }

  /** The slot of the ring a stored root sits in names its place in the window. */
  lemma RingExact(h: Hasher, depth: nat, leaves: seq<Word>, ring: map<nat, Word>, root: Word)
    requires RingOk(h, depth, leaves, ring)
    ensures KnownRoot(h, depth, leaves, root) <==> exists i :: 0 <= i < ROOT_HISTORY && i in ring && ring[i] == root
  {
    var n := |leaves|;
    if i :| 0 <= i < ROOT_HISTORY && i in ring && ring[i] == root {
      var j := n - (n - i) % ROOT_HISTORY;
      assert j % ROOT_HISTORY == i;
      assert WindowStart(n) <= j <= n;
    }
    if j :| WindowStart(n) <= j <= n && root == RootAt(h, depth, leaves, j) {
      assert j % ROOT_HISTORY in ring;
    }
  }

  /** The window in numbers: a word is known exactly when it is the root after some number
      of insertions that at most 31 more have followed. */
  lemma KnownRootWindow(h: Hasher, depth: nat, leaves: seq<Word>, root: Word)
    ensures KnownRoot(h, depth, leaves, root)
       <==> exists j: nat :: j <= |leaves| <= j + 31 && root == Root(h, DecodeAll(leaves[..j]), depth)
  {
    hide Node;
    if j: nat :| j <= |leaves| <= j + 31 && root == Root(h, DecodeAll(leaves[..j]), depth) {
      assert WindowStart(|leaves|) <= j && root == RootAt(h, depth, leaves, j);
    }
    if j :| WindowStart(|leaves|) <= j <= |leaves| && root == RootAt(h, depth, leaves, j) {
      assert j <= |leaves| <= j + 31 && root == Root(h, DecodeAll(leaves[..j]), depth);
    }
  }

  /** A root stays known for 31 further insertions and is forgotten at the 32nd, unless one
      of the roots since is the same word. */
  lemma RootExpires(h: Hasher, depth: nat, leaves: seq<Word>, j: nat)
    requires j <= |leaves|
    ensures var root := Root(h, DecodeAll(leaves[..j]), depth);
            && (|leaves| <= j + 31 ==> KnownRoot(h, depth, leaves, root))
            && (|leaves| >= j + 32 && (forall i: nat :: i <= |leaves| <= i + 31 ==> Root(h, DecodeAll(leaves[..i]), depth) != root) ==>
                 !KnownRoot(h, depth, leaves, root))
  {
    hide Node;
    KnownRootWindow(h, depth, leaves, Root(h, DecodeAll(leaves[..j]), depth));
  }

  /** At the deployed depth every counter stays far below 32 bits. */
  lemma CountersFit32Bits(leaves: seq<Word>, s: TreeState)
    requires CountersOk(DEPTH, leaves, s)
    ensures s.nextIndex == s.size <= 0x10_0000 && s.currentRootIndex < ROOT_HISTORY
  {
    assert Pow2(5) == 32;
    assert Pow2(10) == 1024;
    assert Pow2(15) == 32768;
    assert Pow2(DEPTH) == 0x10_0000;
  }

  /** Everything the contract stores or has published. */
  datatype Image = Image(state: TreeState, leafKeys: set<Word>, rootSlots: map<nat, Word>, events: seq<CommitInserted>)

  ghost predicate Represents(h: Hasher, depth: nat, leaves: seq<Word>, image: Image) {
    && StateOk(h, depth, leaves, image.state)
    && KeysOk(leaves, image.leafKeys)
    && RingOk(h, depth, leaves, image.rootSlots)
    && EventsOk(h, depth, leaves, image.events)
  }

  // ---- the contract ----

  class Tree {
    const h: Hasher
    const depth: nat

    var state: TreeState
    /** The persistent entries Key::Leaf and Key::Root. */
    var leafKeys: set<Word>
    var rootSlots: map<nat, Word>
    /** The published CommitInserted events. */
    var events: seq<CommitInserted>

    ghost var leaves: seq<Word>

    ghost predicate Valid()
      reads this
    {
      depth > 0 && Represents(h, depth, leaves, Stored())
    }

    constructor (h: Hasher, depth: nat)
      requires depth > 0
      ensures Valid() && leaves == []
      ensures this.h == h && this.depth == depth
    {
      var zeros: seq<Word> := [];
      var filled: seq<Word> := [];
      var current: Word := 0;
      var level := 0;
      while level < depth
        invariant 0 <= level <= depth
        invariant |zeros| == |filled| == level
        invariant ZerosOk(h, zeros)
        invariant current == Zero(h, level)
      {
        zeros := zeros + [current];
        filled := filled + [current];
        current := HashWords(h, current, current);
        level := level + 1;
      }
      this.h := h;
      this.depth := depth;
      state := TreeState(0, 0, filled, zeros, current, 0);
      leafKeys := {};
      rootSlots := map[0 := current];
      events := [];
      leaves := [];
      new;
      NodeBeyondLeaves(h, [], depth, 0);
      assert DecodeAll([]) == [];
      forall l: nat ensures Up(0, l) == 0 { UpZero(0, l); }
    }

    /** Append a leaf. The stored root afterwards is the root of the zero-padded tree over
        all leaves in insertion order; a duplicate or a full tree changes nothing. */
    method Insert(leaf: Word) returns (r: Result<nat, Error>)
      requires Valid()
      modifies this
      ensures Valid()
      ensures match Inserted(depth, old(leaves), leaf)
              case Err(e) => r == Err(e) && unchanged(this)
              case Ok(longer) => r == Ok(|old(leaves)|) && leaves == longer
                                 && state.root == Root(h, DecodeAll(leaves), depth)
      ensures r == Err(DuplicateLeaf) <==> leaf in old(leaves)
      ensures r == Err(TreeFull) <==> leaf !in old(leaves) && |old(leaves)| == Pow2(depth)
      ensures r.Ok? ==> leaves == old(leaves) + [leaf]
                        && events == old(events) + [CommitInserted(|old(leaves)|, leaf, state.root)]
    {
      hide RingOk, EventsOk, FilledOk, Climbing, RootAt, Node, Zero, Pow2, Up, DecodeAll, KeysOk;
      KeysAppend(leaves, leaf, leafKeys);
      if leaf in leafKeys {
        return Err(DuplicateLeaf);
      }
      var next := state;
      if next.nextIndex >= Pow2(depth) {
        return Err(TreeFull);
      }
      var leafIndex := next.nextIndex;
      var current: Word := leaf;
      var index := leafIndex;
      var level := 0;
      var filled: seq<Word> := next.filledSubtrees;
      ClimbStart(h, leaves, leaf, filled);
      while level < depth
        invariant 0 <= level <= depth == |filled|
        invariant Climbing(h, leaves, leaf, filled, level, index, current)
        invariant level > 0 ==> current < R
        modifies {}
      {
        if index % 2 == 0 {
          ClimbEven(h, leaves, leaf, filled, level, index, current, next.zeros[level]);
          filled := filled[level := current];
          current := HashWords(h, current, next.zeros[level]);
        } else {
          ClimbOdd(h, leaves, leaf, filled, level, index, current);
          current := HashWords(h, filled[level], current);
        }
        index := index / 2;
        level := level + 1;
      }
      Climbed(h, depth, leaves, leaf, next, filled, index, current);
      RingAppend(h, depth, leaves, leaf, rootSlots);
      EventsAppend(h, depth, leaves, leaf, events);

      var newRootIndex := (next.currentRootIndex + 1) % ROOT_HISTORY;
      assert newRootIndex == (|leaves| + 1) % ROOT_HISTORY;
      state := next.(currentRootIndex := newRootIndex, root := current, nextIndex := leafIndex + 1,
                     size := next.size + 1, filledSubtrees := filled);
      leafKeys := leafKeys + {leaf};
      rootSlots := rootSlots[newRootIndex := current];
      events := events + [CommitInserted(leafIndex, leaf, current)];
      leaves := leaves + [leaf];
      return Ok(leafIndex);
    }

    /** The window is exact: true precisely for the last ROOT_HISTORY roots. */
    method IsKnownRoot(root: Word) returns (known: bool)
      requires Valid()
      ensures known <==> KnownRoot(h, depth, leaves, root)
      ensures known <==> exists j: nat :: j <= |leaves| <= j + 31 && root == Root(h, DecodeAll(leaves[..j]), depth)
    {
      RingExact(h, depth, leaves, rootSlots, root);
      KnownRootWindow(h, depth, leaves, root);
      var i := 0;
      while i < ROOT_HISTORY
        invariant 0 <= i <= ROOT_HISTORY
        invariant forall k :: 0 <= k < i && k in rootSlots ==> rootSlots[k] != root
      {
        if i in rootSlots && rootSlots[i] == root {
          return true;
        }
        i := i + 1;
      }
      return false;
    }

    function Stored(): Image
      reads this
    {
      Image(state, leafKeys, rootSlots, events)
    }

    /** The host's rollback of an invocation that trapped. */
    method Restore(image: Image, ghost before: seq<Word>)
      requires depth > 0 && Represents(h, depth, before, image)
      modifies this
      ensures Valid() && leaves == before
      ensures Stored() == image
    {
      state, leafKeys, rootSlots, events := image.state, image.leafKeys, image.rootSlots, image.events;
      leaves := before;
    }
  }
}
