/** What each circuit's constraints say of its public inputs and witness. Module Circuits
    proves that the emitted constraint systems are satisfiable exactly when these hold. */
module Relations {
  import opened Field
  import opened MerkleSpec
  import opened Notes

  const VALUE_BITS: nat := 64

  predicate InRange(v: Fr) {
    v < TWO_64
  }

  /** The private data of one spent note. */
  datatype Input = Input(k: Fr, v: Fr, siblings: seq<Fr>, bits: seq<bool>)

  datatype DepositWitness = DepositWitness(ownerPk: Fr, k: Fr)

  datatype UnshieldWitness = UnshieldWitness(spendSk: Fr, input: Input, k2: Fr, vc: Fr)

  datatype TransferWitness = TransferWitness(spendSk: Fr, input: Input, out1: Note, out2: Note)

  datatype TransferNWitness = TransferNWitness(spendSk: Fr, inputs: seq<Input>, out1: Note, out2: Note)

  function InputNote(h: Hasher, spendSk: Fr, input: Input): Note {
    Owned(h, spendSk, input.k, input.v)
  }

  /** Membership of the input note under `root` and its nullifier. */
  predicate InputHolds(h: Hasher, depth: nat, spendSk: Fr, input: Input, root: Fr, nf: Fr) {
    && |input.siblings| == |input.bits| == depth
    && Walk(h, Commitment(h, InputNote(h, spendSk, input)), input.siblings, input.bits) == root
    && Nullifier(h, spendSk, input.k) == nf
  }

  /** Public inputs [cm, amount]. */
  predicate DepositHolds(h: Hasher, pub: seq<Fr>, w: DepositWitness) {
    && |pub| == 2
    && InRange(pub[1])
    && Commitment(h, Note(w.ownerPk, w.k, pub[1])) == pub[0]
  }

  function ChangeNote(h: Hasher, w: UnshieldWitness): Note {
    Owned(h, w.spendSk, w.k2, w.vc)
  }

  /** Public inputs [root, nullifier, recipient, amount, change_cm]. */
  predicate UnshieldHolds(h: Hasher, depth: nat, pub: seq<Fr>, w: UnshieldWitness) {
    && |pub| == 5
    && InputHolds(h, depth, w.spendSk, w.input, pub[0], pub[1])
    && Commitment(h, ChangeNote(h, w)) == pub[4]
    && InRange(pub[3]) && InRange(w.vc)
    && Add(pub[3], w.vc) == w.input.v
  }

  /** Public inputs [root, nullifier, out_cm1, out_cm2]. The input value itself carries no
      range check. */
  predicate TransferHolds(h: Hasher, depth: nat, pub: seq<Fr>, w: TransferWitness) {
    && |pub| == 4
    && InputHolds(h, depth, w.spendSk, w.input, pub[0], pub[1])
    && Commitment(h, w.out1) == pub[2] && Commitment(h, w.out2) == pub[3]
    && InRange(w.out1.v) && InRange(w.out2.v)
    && Add(w.out1.v, w.out2.v) == w.input.v
  }

  function Values(inputs: seq<Input>): (vs: seq<Fr>)
    ensures |vs| == |inputs|
    ensures forall i :: 0 <= i < |vs| ==> vs[i] == inputs[i].v
  {
    seq(|inputs|, i requires 0 <= i < |inputs| => inputs[i].v)
  }

  /** Public inputs [root, nf_1, ..., nf_N, out_cm1, out_cm2]. */
  predicate TransferNHolds(h: Hasher, depth: nat, n: nat, pub: seq<Fr>, w: TransferNWitness) {
    && |pub| == n + 3 && |w.inputs| == n
    && (forall i :: 0 <= i < n ==>
          InputHolds(h, depth, w.spendSk, w.inputs[i], pub[0], pub[1 + i]) && InRange(w.inputs[i].v))
    && Commitment(h, w.out1) == pub[n + 1] && Commitment(h, w.out2) == pub[n + 2]
    && InRange(w.out1.v) && InRange(w.out2.v)
    && Add(w.out1.v, w.out2.v) == Sum(Values(w.inputs))
  }

  // ---- the balance equations do not wrap ----

  function Total(vs: seq<Fr>): nat {
    if vs == [] then 0 else Total(vs[..|vs| - 1]) + vs[|vs| - 1]
  }

  lemma {:induction false} TotalBound(vs: seq<Fr>)
    requires forall i :: 0 <= i < |vs| ==> InRange(vs[i])
    ensures Total(vs) <= |vs| * TWO_64
  {
    if vs != [] {
      TotalBound(vs[..|vs| - 1]);
    }
  }

  /** Accumulating any number of 64-bit values below the field's capacity is integer
      addition. */
  lemma {:induction false} SumIsTotal(vs: seq<Fr>)
    requires forall i :: 0 <= i < |vs| ==> InRange(vs[i])
    requires |vs| * TWO_64 < R
    ensures Sum(vs) == Total(vs)
  {
    if vs != [] {
      var front := vs[..|vs| - 1];
      SumIsTotal(front);
      TotalBound(vs);
    }
  }

  /** With both summands range-checked, the field equation of `unshield` and of the
      one-input transfer says the same as the integer equation, although the input value
      is not range-checked. */
  lemma TwoTermBalance(a: Fr, b: Fr, v: Fr)
    requires InRange(a) && InRange(b)
    ensures Add(a, b) == v <==> a + b == v
  {
  }

  /** The N-input balance holds in the field exactly when it holds over the integers. */
  lemma TransferNBalance(vs: seq<Fr>, v1: Fr, v2: Fr)
    requires forall i :: 0 <= i < |vs| ==> InRange(vs[i])
    requires InRange(v1) && InRange(v2)
    requires |vs| * TWO_64 < R
    ensures Add(v1, v2) == Sum(vs) <==> v1 + v2 == Total(vs)
  {
    SumIsTotal(vs);
  }
}
