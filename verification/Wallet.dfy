/** The browser wallet's proof builders: the checks they make, the witness they assemble
    and the public inputs they publish. Values are the parsed decimal strings. */
module Wallet {
  import opened Field
  import opened Wrappers
  import opened MerkleSpec
  import opened Notes
  import opened Relations
  import OffchainMerkle

  type U128 = x: int | 0 <= x < TWO_128 witness 0

  datatype Error =
    | WrongInputCount | InputOverflow | SumMismatch | AmountExceedsValue | LeafMismatch(input: nat)
    | RootsDiffer | NoInputs
    | ProofFailed   // the freshly made proof does not verify
    | Panicked      // unchecked addition with overflow checks on

  /** An output note as the caller describes it. */
  datatype Output = Output(ownerPk: Fr, k: Fr, v: U128)

  datatype NoteRef = NoteRef(k: Fr, v: U128, index: nat)

  datatype TransferNParams = TransferNParams(spendSk: Fr, inputs: seq<NoteRef>, leaves: seq<Word>, out1: Output, out2: Output)

  /** What a builder hands back: the public inputs and the witness behind the proof. */
  datatype Built<W> = Built(publics: seq<Fr>, evidence: W)

  function OutputNote(o: Output): Note {
    Note(o.ownerPk, o.k, o.v)
  }

  function RefNote(h: Hasher, spendSk: Fr, r: NoteRef): Note {
    Owned(h, spendSk, r.k, r.v)
  }

  predicate LeafMatches(h: Hasher, spendSk: Fr, leaves: seq<Fr>, r: NoteRef) {
    r.index < |leaves| && leaves[r.index] == Commitment(h, RefNote(h, spendSk, r))
  }

  predicate Fits(v: U128) {
    v < TWO_64
  }

  function RefValues(inputs: seq<NoteRef>): (vs: seq<Fr>)
    ensures |vs| == |inputs| && forall i :: 0 <= i < |inputs| ==> vs[i] == inputs[i].v
  {
    seq(|inputs|, i requires 0 <= i < |inputs| => inputs[i].v)
  }

  /** The first input from `i` on whose leaf does not match, if any. */
  function FirstMismatch(h: Hasher, spendSk: Fr, leaves: seq<Fr>, inputs: seq<NoteRef>, i: nat): Option<nat>
    decreases |inputs| - i
  {
    if i >= |inputs| then None
    else if LeafMatches(h, spendSk, leaves, inputs[i]) then FirstMismatch(h, spendSk, leaves, inputs, i + 1)
    else Some(i)
  }

  // ---- N-input transfer ----

  /** Why `transfer_n_proof` refuses before it makes a proof, in the order it looks. */
  function TransferNRefusal(h: Hasher, n: nat, p: TransferNParams): Option<Error> {
    var total := Total(RefValues(p.inputs));
    if |p.inputs| != n then Some(WrongInputCount)
    else if total >= TWO_128 then Some(InputOverflow)
    else if p.out1.v + p.out2.v >= TWO_128 then Some(Panicked)
    else if p.out1.v + p.out2.v != total then Some(SumMismatch)
    else
      match FirstMismatch(h, p.spendSk, DecodeAll(p.leaves), p.inputs, 0)
      case Some(i) => Some(LeafMismatch(i))
      case None => if n == 0 then Some(NoInputs) else None
  }

  /** The leaf at the listed index commits to the listed note under the owner's key. */
  predicate Holds(h: Hasher, spendSk: Fr, leaves: seq<Word>, r: NoteRef) {
    r.index < |leaves| && leaves[r.index] % R == h(h(h(spendSk, 0), r.k), r.v)
  }

  lemma {:induction false} MismatchIsFirst(h: Hasher, spendSk: Fr, leaves: seq<Word>, inputs: seq<NoteRef>, from: nat, i: nat)
    ensures FirstMismatch(h, spendSk, DecodeAll(leaves), inputs, from) == Some(i)
       <==> from <= i < |inputs| && !Holds(h, spendSk, leaves, inputs[i]) && forall k :: from <= k < i ==> Holds(h, spendSk, leaves, inputs[k])
    ensures FirstMismatch(h, spendSk, DecodeAll(leaves), inputs, from) == None
       <==> forall k :: from <= k < |inputs| ==> Holds(h, spendSk, leaves, inputs[k])
    decreases |inputs| - from
  {
    if from < |inputs| { MismatchIsFirst(h, spendSk, leaves, inputs, from + 1, i); }
  }

  /** Every refusal of `transfer_n_proof` and when it is given. */
  lemma TransferNRefusals(h: Hasher, n: nat, p: TransferNParams)
    ensures var sum, out, r := Total(RefValues(p.inputs)), p.out1.v + p.out2.v, TransferNRefusal(h, n, p);
            var counted := |p.inputs| == n && sum < 0x1_0000_0000_0000_0000_0000_0000_0000_0000;
            && (r == Some(WrongInputCount) <==> |p.inputs| != n)
            && (r == Some(InputOverflow) <==> |p.inputs| == n && sum >= 0x1_0000_0000_0000_0000_0000_0000_0000_0000)
            && (r == Some(Panicked) <==> counted && out >= 0x1_0000_0000_0000_0000_0000_0000_0000_0000)
            && (r == Some(SumMismatch) <==> counted && out != sum && out < 0x1_0000_0000_0000_0000_0000_0000_0000_0000)
            && (forall i: nat :: r == Some(LeafMismatch(i)) <==>
                 && counted && out == sum && i < n && !Holds(h, p.spendSk, p.leaves, p.inputs[i])
                 && forall k :: 0 <= k < i ==> Holds(h, p.spendSk, p.leaves, p.inputs[k]))
            && (r == Some(NoInputs) <==> |p.inputs| == n == 0 && out == 0)
            && (r == None <==>
                 && counted && out == sum && n > 0
                 && forall i :: 0 <= i < n ==> Holds(h, p.spendSk, p.leaves, p.inputs[i]))
  {
    hide Holds, LeafMatches, FirstMismatch;
    forall i: nat { MismatchIsFirst(h, p.spendSk, p.leaves, p.inputs, 0, i); }
    MismatchIsFirst(h, p.spendSk, p.leaves, p.inputs, 0, 0);
    var refusal := FirstMismatch(h, p.spendSk, DecodeAll(p.leaves), p.inputs, 0);
    assert p.inputs == [] ==> Total(RefValues(p.inputs)) == 0;
    if refusal.Some? { MismatchIsFirst(h, p.spendSk, p.leaves, p.inputs, 0, refusal.value); }
  }

  ghost predicate TransferNFits(p: TransferNParams) {
    Fits(p.out1.v) && Fits(p.out2.v) && forall i :: 0 <= i < |p.inputs| ==> Fits(p.inputs[i].v)
  }

  /** The honest witness for the listed notes under the tree of `leaves`. */
  ghost predicate HonestInput(h: Hasher, depth: nat, leaves: seq<Fr>, r: NoteRef, input: Input) {
    && input.k == r.k && input.v == r.v
    && |input.bits| == depth && IsPath(h, leaves, r.index, input.siblings, input.bits)
  }

  ghost predicate HonestTransferN(h: Hasher, depth: nat, p: TransferNParams, w: TransferNWitness) {
    && w.spendSk == p.spendSk && w.out1 == OutputNote(p.out1) && w.out2 == OutputNote(p.out2)
    && |w.inputs| == |p.inputs|
    && forall i :: 0 <= i < |p.inputs| ==> HonestInput(h, depth, DecodeAll(p.leaves), p.inputs[i], w.inputs[i])
  }

  function Nullifiers(h: Hasher, spendSk: Fr, inputs: seq<NoteRef>): (nfs: seq<Fr>)
    ensures |nfs| == |inputs| && forall i :: 0 <= i < |inputs| ==> nfs[i] == Nullifier(h, spendSk, inputs[i].k)
  {
    seq(|inputs|, i requires 0 <= i < |inputs| => Nullifier(h, spendSk, inputs[i].k))
  }

  /** [root, nf_1, ..., nf_N, out_cm1, out_cm2]. */
  function TransferNPublics(h: Hasher, depth: nat, p: TransferNParams): seq<Fr> {
    [Root(h, DecodeAll(p.leaves), depth)] + Nullifiers(h, p.spendSk, p.inputs)
    + [Commitment(h, OutputNote(p.out1)), Commitment(h, OutputNote(p.out2))]
  }

  /** An honest input whose leaf matches satisfies the membership constraints, unless the
      tree's depth is too small for its index. */
  lemma HonestInputHolds(h: Hasher, depth: nat, leaves: seq<Fr>, spendSk: Fr, r: NoteRef, input: Input)
    requires HonestInput(h, depth, leaves, r, input) && LeafMatches(h, spendSk, leaves, r)
    requires |leaves| <= Pow2(depth)
    ensures InputHolds(h, depth, spendSk, input, Root(h, leaves, depth), Nullifier(h, spendSk, r.k))
  {
    PathReachesRoot(h, leaves, r.index, input.siblings, input.bits);
  }

  lemma {:induction false} NoMismatch(h: Hasher, spendSk: Fr, leaves: seq<Fr>, inputs: seq<NoteRef>, from: nat)
    requires FirstMismatch(h, spendSk, leaves, inputs, from) == None
    ensures forall i :: from <= i < |inputs| ==> LeafMatches(h, spendSk, leaves, inputs[i])
    decreases |inputs| - from
  {
    if from < |inputs| { NoMismatch(h, spendSk, leaves, inputs, from + 1); }
  }

  /** Every honest input holds against the published root and its own nullifier. */
  lemma HonestInputsHold(h: Hasher, depth: nat, n: nat, p: TransferNParams, w: TransferNWitness)
    requires |p.inputs| == n && |p.leaves| <= Pow2(depth)
    requires FirstMismatch(h, p.spendSk, DecodeAll(p.leaves), p.inputs, 0) == None
    requires HonestTransferN(h, depth, p, w)
    ensures forall i :: 0 <= i < n ==>
              InputHolds(h, depth, w.spendSk, w.inputs[i], Root(h, DecodeAll(p.leaves), depth), Nullifiers(h, p.spendSk, p.inputs)[i])
    ensures Values(w.inputs) == RefValues(p.inputs)
  {
    hide Commitment, InputHolds, Root, IsPath, Pow2, FirstMismatch, LeafMatches, Nullifier;
    var leaves := DecodeAll(p.leaves);
    NoMismatch(h, p.spendSk, leaves, p.inputs, 0);
    forall i | 0 <= i < n
      ensures InputHolds(h, depth, w.spendSk, w.inputs[i], Root(h, leaves, depth), Nullifiers(h, p.spendSk, p.inputs)[i])
    {
      assert HonestInput(h, depth, leaves, p.inputs[i], w.inputs[i]);
      HonestInputHolds(h, depth, leaves, p.spendSk, p.inputs[i], w.inputs[i]);
    }
    forall i | 0 <= i < n ensures Values(w.inputs)[i] == RefValues(p.inputs)[i] {
      assert HonestInput(h, depth, leaves, p.inputs[i], w.inputs[i]);
    }
  }

  lemma PublicsAt(h: Hasher, depth: nat, p: TransferNParams)
    ensures var n := |p.inputs|;
            var pub := TransferNPublics(h, depth, p);
            && |pub| == n + 3 && pub[0] == Root(h, DecodeAll(p.leaves), depth)
            && (forall i :: 0 <= i < n ==> pub[1 + i] == Nullifiers(h, p.spendSk, p.inputs)[i])
            && pub[n + 1] == Commitment(h, OutputNote(p.out1)) && pub[n + 2] == Commitment(h, OutputNote(p.out2))
  {
    hide Commitment, Root, Nullifier;
  }

  /** Builder completeness: once the wallet's own checks pass, the assembled witness
      satisfies the circuit exactly when every value has 64 bits. */
  lemma AssembledIffFits(h: Hasher, depth: nat, n: nat, p: TransferNParams, w: TransferNWitness)
    requires |p.inputs| == n && n * TWO_64 < R && |p.leaves| <= Pow2(depth)
    requires p.out1.v + p.out2.v == Total(RefValues(p.inputs))
    requires FirstMismatch(h, p.spendSk, DecodeAll(p.leaves), p.inputs, 0) == None
    requires HonestTransferN(h, depth, p, w)
    ensures TransferNHolds(h, depth, n, TransferNPublics(h, depth, p), w) <==> TransferNFits(p)
  {
    HonestInputsHold(h, depth, n, p, w);
    PublicsAt(h, depth, p);
    assert w.out1 == OutputNote(p.out1) && w.out2 == OutputNote(p.out2) && |w.inputs| == n;
    hide Commitment, InputHolds, HonestTransferN, FirstMismatch, TransferNPublics, Pow2, Add, Total, Sum;
    assert forall i :: 0 <= i < n ==> w.inputs[i].v == Values(w.inputs)[i] == RefValues(p.inputs)[i] == p.inputs[i].v;
    if TransferNFits(p) {
      TransferNBalance(Values(w.inputs), w.out1.v, w.out2.v);
    }
  }

  lemma {:induction false} TotalMonotone(vs: seq<Fr>, n: nat)
    requires n <= |vs|
    ensures Total(vs[..n]) <= Total(vs)
    decreases |vs|
  {
    if n < |vs| {
      TotalMonotone(vs[..|vs| - 1], n);
      assert vs[..|vs| - 1][..n] == vs[..n];
    } else {
      assert vs[..n] == vs;
    }
  }

  /** The first loop: add the values up, refusing on overflow. */
  method AddUp(inputs: seq<NoteRef>) returns (r: Result<U128, Error>)
    ensures r == if Total(RefValues(inputs)) >= TWO_128 then Err(InputOverflow) else Ok(Total(RefValues(inputs)))
  {
    var sum: U128 := 0;
    for i := 0 to |inputs|
      invariant sum == Total(RefValues(inputs)[..i])
    {
      assert RefValues(inputs)[..i + 1][..i] == RefValues(inputs)[..i];
      TotalMonotone(RefValues(inputs), i + 1);
      if sum + inputs[i].v >= TWO_128 {
        return Err(InputOverflow);
      }
      sum := sum + inputs[i].v;
    }
    assert RefValues(inputs)[..|inputs|] == RefValues(inputs);
    return Ok(sum);
  }

  /** The second loop: every listed note must be the leaf at its index. */
  method CheckLeaves(h: Hasher, spendSk: Fr, leaves: seq<Fr>, inputs: seq<NoteRef>) returns (r: Option<nat>)
    ensures r == FirstMismatch(h, spendSk, leaves, inputs, 0)
  {
    for i := 0 to |inputs|
      invariant FirstMismatch(h, spendSk, leaves, inputs, 0) == FirstMismatch(h, spendSk, leaves, inputs, i)
    {
      if !LeafMatches(h, spendSk, leaves, inputs[i]) {
        return Some(i);
      }
    }
    return None;
  }

  /** The third loop: paths, nullifiers and the shared root. The roots never differ. */
  method AssembleInputs(h: Hasher, depth: nat, leaves: seq<Fr>, spendSk: Fr, refs: seq<NoteRef>)
    returns (root: Option<Fr>, nfs: seq<Fr>, inputs: seq<Input>)
    requires forall i :: 0 <= i < |refs| ==> refs[i].index < |leaves|
    ensures root == if refs == [] then None else Some(Root(h, leaves, depth))
    ensures nfs == Nullifiers(h, spendSk, refs)
    ensures |inputs| == |refs|
    ensures forall i :: 0 <= i < |refs| ==> HonestInput(h, depth, leaves, refs[i], inputs[i])
  {
    root, nfs, inputs := None, [], [];
    for i := 0 to |refs|
      invariant root == if i == 0 then None else Some(Root(h, leaves, depth))
      invariant |nfs| == |inputs| == i
      invariant forall k :: 0 <= k < i ==> nfs[k] == Nullifier(h, spendSk, refs[k].k)
      invariant forall k :: 0 <= k < i ==> HonestInput(h, depth, leaves, refs[k], inputs[k])
    {
      var r, siblings, bits := OffchainMerkle.Path(h, leaves, refs[i].index, depth);
      assert root.Some? ==> root.value == r;
      root := Some(r);
      nfs := nfs + [Nullifier(h, spendSk, refs[i].k)];
      inputs := inputs + [Relations.Input(refs[i].k, refs[i].v, siblings, bits)];
    }
  }

  /** `transfer_n_proof`. It refuses for the stated reason; otherwise its witness is the
      honest one, its public inputs are the pool's vector in the pool's order, and it
      succeeds exactly when that witness satisfies the circuit. With a tree no larger than
      the depth allows, that is exactly when every value has 64 bits. */
  method TransferNProof(h: Hasher, depth: nat, n: nat, p: TransferNParams) returns (r: Result<Built<TransferNWitness>, Error>)
    ensures TransferNRefusal(h, n, p).Some? ==> r == Err(TransferNRefusal(h, n, p).value)
    ensures TransferNRefusal(h, n, p) == None ==> r.Ok? || r.error == ProofFailed
    ensures r.Ok? ==>
              && HonestTransferN(h, depth, p, r.value.evidence)
              && r.value.publics == TransferNPublics(h, depth, p)
              && TransferNHolds(h, depth, n, r.value.publics, r.value.evidence)
    ensures TransferNRefusal(h, n, p) == None && n * TWO_64 < R && |p.leaves| <= Pow2(depth) ==>
              (r.Ok? <==> TransferNFits(p))
    ensures r.Ok? ==>
              && |r.value.publics| == n + 3 && |p.inputs| == n
              && r.value.publics[0] == Root(h, DecodeAll(p.leaves), depth)
              && (forall i :: 0 <= i < n ==> r.value.publics[1 + i] == h(p.spendSk, p.inputs[i].k))
              && r.value.publics[n + 1] == h(h(p.out1.ownerPk, p.out1.k), p.out1.v)
              && r.value.publics[n + 2] == h(h(p.out2.ownerPk, p.out2.k), p.out2.v)
  {
    hide Commitment, Walk, Node, IsPath, Pow2, Add, TransferNHolds;
    if |p.inputs| != n {
      return Err(WrongInputCount);
    }
    var sum := AddUp(p.inputs);
    if sum.Err? {
      return Err(sum.error);
    }
    if p.out1.v + p.out2.v >= TWO_128 {
      return Err(Panicked);
    }
    if p.out1.v + p.out2.v != sum.value {
      return Err(SumMismatch);
    }
    var leaves := DecodeAll(p.leaves);
    var mismatch := CheckLeaves(h, p.spendSk, leaves, p.inputs);
    if mismatch.Some? {
      return Err(LeafMismatch(mismatch.value));
    }
    NoMismatch(h, p.spendSk, leaves, p.inputs, 0);
    var root, nfs, inputs := AssembleInputs(h, depth, leaves, p.spendSk, p.inputs);
    if root == None {
      return Err(NoInputs);
    }
    var w := TransferNWitness(p.spendSk, inputs, OutputNote(p.out1), OutputNote(p.out2));
    var publics: seq<Fr> := [root.value] + nfs + [Commitment(h, w.out1), Commitment(h, w.out2)];
    assert publics == TransferNPublics(h, depth, p);
    if n * TWO_64 < R && |p.leaves| <= Pow2(depth) {
      AssembledIffFits(h, depth, n, p, w);
    }
    if !TransferNHolds(h, depth, n, publics, w) {
      return Err(ProofFailed);
    }
    CommitmentInFull(h, w.out1);
    CommitmentInFull(h, w.out2);
    PublicsAt(h, depth, p);
    return Ok(Built(publics, w));
  }

  // ---- deposit ----

  /** `deposit_proof` succeeds exactly on 64-bit amounts. */
  method DepositProof(h: Hasher, ownerPk: Fr, k: Fr, amount: U128) returns (r: Result<Built<DepositWitness>, Error>)
    ensures r == if Fits(amount)
                 then Ok(Built([Commitment(h, Note(ownerPk, k, amount)), amount], DepositWitness(ownerPk, k)))
                 else Err(ProofFailed)
    ensures r.Ok? ==> DepositHolds(h, r.value.publics, r.value.evidence)
    ensures r.Ok? ==> r.value.publics == [h(h(ownerPk, k), amount), amount]
  {
    var cm := Commitment(h, Note(ownerPk, k, amount));
    var w := DepositWitness(ownerPk, k);
    if !DepositHolds(h, [cm, amount], w) {
      return Err(ProofFailed);
    }
    return Ok(Built([cm, amount], w));
  }

  // ---- unshield ----

  datatype UnshieldParams = UnshieldParams(
    spendSk: Fr, note: NoteRef, leaves: seq<Word>, recipient: Word, amount: U128, changeK: Fr)

  function UnshieldRefusal(h: Hasher, p: UnshieldParams): Option<Error> {
    if p.amount > p.note.v then Some(AmountExceedsValue)
    else if !LeafMatches(h, p.spendSk, DecodeAll(p.leaves), p.note) then Some(LeafMismatch(0))
    else None
  }

  /** Every refusal of `unshield_proof` and when it is given. */
  lemma UnshieldRefusals(h: Hasher, p: UnshieldParams)
    ensures UnshieldRefusal(h, p) == Some(AmountExceedsValue) <==> p.amount > p.note.v
    ensures UnshieldRefusal(h, p) == Some(LeafMismatch(0)) <==> p.amount <= p.note.v && !Holds(h, p.spendSk, p.leaves, p.note)
    ensures UnshieldRefusal(h, p) == None <==> p.amount <= p.note.v && Holds(h, p.spendSk, p.leaves, p.note)
  {
  }

  /** [root, nullifier, recipient, amount, change_cm]. */
  function UnshieldPublics(h: Hasher, depth: nat, p: UnshieldParams): seq<Fr>
    requires p.amount <= p.note.v
  {
    [Root(h, DecodeAll(p.leaves), depth), Nullifier(h, p.spendSk, p.note.k), Decode(p.recipient), p.amount,
     Commitment(h, Owned(h, p.spendSk, p.changeK, p.note.v - p.amount))]
  }

  ghost predicate HonestUnshield(h: Hasher, depth: nat, p: UnshieldParams, w: UnshieldWitness) {
    && w.spendSk == p.spendSk && w.k2 == p.changeK && w.vc == p.note.v - p.amount
    && HonestInput(h, depth, DecodeAll(p.leaves), p.note, w.input)
  }

  /** `unshield_proof`: once its own checks pass it succeeds exactly when the amount and
      the change both have 64 bits. */
  method UnshieldProof(h: Hasher, depth: nat, p: UnshieldParams) returns (r: Result<Built<UnshieldWitness>, Error>)
    ensures UnshieldRefusal(h, p).Some? ==> r == Err(UnshieldRefusal(h, p).value)
    ensures UnshieldRefusal(h, p) == None ==> r.Ok? || r.error == ProofFailed
    ensures r.Ok? ==>
              && p.amount <= p.note.v
              && HonestUnshield(h, depth, p, r.value.evidence)
              && r.value.publics == UnshieldPublics(h, depth, p)
              && UnshieldHolds(h, depth, r.value.publics, r.value.evidence)
    ensures UnshieldRefusal(h, p) == None && |p.leaves| <= Pow2(depth) ==>
              (r.Ok? <==> Fits(p.amount) && Fits(p.note.v - p.amount))
    ensures r.Ok? ==>
              r.value.publics
              == [Root(h, DecodeAll(p.leaves), depth), h(p.spendSk, p.note.k), p.recipient % R, p.amount,
                  h(h(h(p.spendSk, 0), p.changeK), p.note.v - p.amount)]
  {
    hide Commitment, Walk, Node, IsPath, Pow2;
    if p.amount > p.note.v {
      return Err(AmountExceedsValue);
    }
    var leaves := DecodeAll(p.leaves);
    if !LeafMatches(h, p.spendSk, leaves, p.note) {
      return Err(LeafMismatch(0));
    }
    var root, siblings, bits := OffchainMerkle.Path(h, leaves, p.note.index, depth);
    var input := Relations.Input(p.note.k, p.note.v, siblings, bits);
    var w := UnshieldWitness(p.spendSk, input, p.changeK, p.note.v - p.amount);
    var publics: seq<Fr> :=
      [root, Nullifier(h, p.spendSk, p.note.k), Decode(p.recipient), p.amount, Commitment(h, ChangeNote(h, w))];
    if |leaves| <= Pow2(depth) {
      HonestInputHolds(h, depth, leaves, p.spendSk, p.note, input);
    }
    if !UnshieldHolds(h, depth, publics, w) {
      return Err(ProofFailed);
    }
    CommitmentInFull(h, ChangeNote(h, w));
    return Ok(Built(publics, w));
  }

  // ---- one-input transfer ----

  datatype TransferParams = TransferParams(spendSk: Fr, note: NoteRef, leaves: seq<Word>, out1: Output, out2: Output)

  function TransferRefusal(h: Hasher, p: TransferParams): Option<Error> {
    if p.out1.v + p.out2.v >= TWO_128 then Some(Panicked)
    else if p.out1.v + p.out2.v != p.note.v then Some(SumMismatch)
    else if !LeafMatches(h, p.spendSk, DecodeAll(p.leaves), p.note) then Some(LeafMismatch(0))
    else None
  }

  /** Every refusal of `transfer_proof` and when it is given. */
  lemma TransferRefusals(h: Hasher, p: TransferParams)
    ensures var out, r := p.out1.v + p.out2.v, TransferRefusal(h, p);
            && (r == Some(Panicked) <==> out >= 0x1_0000_0000_0000_0000_0000_0000_0000_0000)
            && (r == Some(SumMismatch) <==> out < 0x1_0000_0000_0000_0000_0000_0000_0000_0000 && out != p.note.v)
            && (r == Some(LeafMismatch(0)) <==> out == p.note.v && !Holds(h, p.spendSk, p.leaves, p.note))
            && (r == None <==> out == p.note.v && Holds(h, p.spendSk, p.leaves, p.note))
  {
  }

  /** [root, nullifier, out_cm1, out_cm2]. */
  function TransferPublics(h: Hasher, depth: nat, p: TransferParams): seq<Fr> {
    [Root(h, DecodeAll(p.leaves), depth), Nullifier(h, p.spendSk, p.note.k),
     Commitment(h, OutputNote(p.out1)), Commitment(h, OutputNote(p.out2))]
  }

  ghost predicate HonestTransfer(h: Hasher, depth: nat, p: TransferParams, w: TransferWitness) {
    && w.spendSk == p.spendSk && w.out1 == OutputNote(p.out1) && w.out2 == OutputNote(p.out2)
    && HonestInput(h, depth, DecodeAll(p.leaves), p.note, w.input)
  }

  /** `transfer_proof`: once its own checks pass it succeeds exactly when both outputs have
      64 bits, whatever the width of the input value. */
  method TransferProof(h: Hasher, depth: nat, p: TransferParams) returns (r: Result<Built<TransferWitness>, Error>)
    ensures TransferRefusal(h, p).Some? ==> r == Err(TransferRefusal(h, p).value)
    ensures TransferRefusal(h, p) == None ==> r.Ok? || r.error == ProofFailed
    ensures r.Ok? ==>
              && HonestTransfer(h, depth, p, r.value.evidence)
              && r.value.publics == TransferPublics(h, depth, p)
              && TransferHolds(h, depth, r.value.publics, r.value.evidence)
    ensures TransferRefusal(h, p) == None && |p.leaves| <= Pow2(depth) ==>
              (r.Ok? <==> Fits(p.out1.v) && Fits(p.out2.v))
    ensures r.Ok? ==>
              r.value.publics
              == [Root(h, DecodeAll(p.leaves), depth), h(p.spendSk, p.note.k),
                  h(h(p.out1.ownerPk, p.out1.k), p.out1.v), h(h(p.out2.ownerPk, p.out2.k), p.out2.v)]
  {
    hide Commitment, Walk, Node, IsPath, Pow2;
    if p.out1.v + p.out2.v >= TWO_128 {
      return Err(Panicked);
    }
    if p.out1.v + p.out2.v != p.note.v {
      return Err(SumMismatch);
    }
    var leaves := DecodeAll(p.leaves);
    if !LeafMatches(h, p.spendSk, leaves, p.note) {
      return Err(LeafMismatch(0));
    }
    var root, siblings, bits := OffchainMerkle.Path(h, leaves, p.note.index, depth);
    var input := Relations.Input(p.note.k, p.note.v, siblings, bits);
    var w := TransferWitness(p.spendSk, input, OutputNote(p.out1), OutputNote(p.out2));
    var publics: seq<Fr> := [root, Nullifier(h, p.spendSk, p.note.k), Commitment(h, w.out1), Commitment(h, w.out2)];
    if |leaves| <= Pow2(depth) {
      HonestInputHolds(h, depth, leaves, p.spendSk, p.note, input);
    }
    if !TransferHolds(h, depth, publics, w) {
      return Err(ProofFailed);
    }
    CommitmentInFull(h, w.out1);
    CommitmentInFull(h, w.out2);
    return Ok(Built(publics, w));
  }
}
