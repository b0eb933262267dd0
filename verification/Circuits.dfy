/** The four circuits as emitted constraint systems. For each, the constraints force every
    bit decomposition, and an assignment so filled in passes the checks exactly when the
    public inputs and witnesses it carries satisfy the circuit's relation; hence the system
    is satisfiable for given public inputs exactly when some witness satisfies the
    relation. */
module Circuits {
  import opened Field
  import opened MerkleSpec
  import opened Notes
  import opened Relations
  import opened Poseidon
  import opened R1cs
  import opened HashGadget

  // ---- where a circuit's inputs and witnesses sit ----

  /** One spent note: its blinding, its value and its path, as positions or as values. */
  datatype InputSlots<T> = InputSlots(k: T, v: T, sibs: seq<T>, bits: seq<T>)

  /** The public inputs and, in allocation order, the leading witness (the spend key, or
      the owner of a deposit), the spent notes and the rest. */
  datatype Slots<T> = Slots(pubs: seq<T>, head: T, inputs: seq<InputSlots<T>>, rest: seq<T>)

  function Interleave<T>(xs: seq<T>, ys: seq<T>): (zs: seq<T>)
    requires |xs| == |ys|
    ensures |zs| == 2 * |xs|
  {
    if xs == [] then []
    else
      var k := |xs| - 1;
      Interleave(xs[..k], ys[..k]) + [xs[k], ys[k]]
  }

  function FlatInput<T>(s: InputSlots<T>): seq<T>
    requires |s.sibs| == |s.bits|
  {
    [s.k, s.v] + Interleave(s.sibs, s.bits)
  }

  ghost predicate ShapedInput<T>(s: InputSlots<T>, depth: nat) {
    |s.sibs| == |s.bits| == depth
  }

  ghost predicate ShapedInputs<T>(ss: seq<InputSlots<T>>, depth: nat) {
    forall i :: 0 <= i < |ss| ==> ShapedInput(ss[i], depth)
  }

  ghost function FlatInputs<T>(ss: seq<InputSlots<T>>, depth: nat): seq<T>
    requires ShapedInputs(ss, depth)
  {
    if ss == [] then []
    else FlatInputs(ss[..|ss| - 1], depth) + FlatInput(ss[|ss| - 1])
  }

  ghost predicate Shaped<T>(s: Slots<T>, pubs: nat, inputs: nat, rest: nat, depth: nat) {
    |s.pubs| == pubs && |s.inputs| == inputs && |s.rest| == rest && ShapedInputs(s.inputs, depth)
  }

  ghost function FlatWitness<T>(s: Slots<T>, depth: nat): seq<T>
    requires ShapedInputs(s.inputs, depth)
  {
    [s.head] + FlatInputs(s.inputs, depth) + s.rest
  }

  // ---- reading an assignment at the slots ----

  function Value(w: seq<Fr>, i: nat): Fr {
    Eval(Var(i), w)
  }

  function ReadInput(s: InputSlots<nat>, w: seq<Fr>): InputSlots<Fr> {
    InputSlots(Value(w, s.k), Value(w, s.v), At(w, s.sibs), At(w, s.bits))
  }

  function ReadInputs(ss: seq<InputSlots<nat>>, w: seq<Fr>): (rs: seq<InputSlots<Fr>>)
    ensures |rs| == |ss| && forall i :: 0 <= i < |ss| ==> rs[i] == ReadInput(ss[i], w)
  {
    seq(|ss|, i requires 0 <= i < |ss| => ReadInput(ss[i], w))
  }

  function Read(s: Slots<nat>, w: seq<Fr>): Slots<Fr> {
    Slots(At(w, s.pubs), Value(w, s.head), ReadInputs(s.inputs, w), At(w, s.rest))
  }

  lemma {:induction false} InterleaveRead(w: seq<Fr>, xs: seq<nat>, ys: seq<nat>)
    requires |xs| == |ys|
    ensures At(w, Interleave(xs, ys)) == Interleave(At(w, xs), At(w, ys))
  {
    if xs != [] {
      var k := |xs| - 1;
      InterleaveRead(w, xs[..k], ys[..k]);
      assert At(w, xs)[..k] == At(w, xs[..k]) && At(w, ys)[..k] == At(w, ys[..k]);
    }
  }

  lemma InputRead(w: seq<Fr>, s: InputSlots<nat>)
    requires |s.sibs| == |s.bits|
    ensures |ReadInput(s, w).sibs| == |ReadInput(s, w).bits| == |s.bits|
    ensures At(w, FlatInput(s)) == FlatInput(ReadInput(s, w))
  {
    InterleaveRead(w, s.sibs, s.bits);
  }

  lemma {:induction false} InputsRead(w: seq<Fr>, ss: seq<InputSlots<nat>>, depth: nat)
    requires ShapedInputs(ss, depth)
    ensures ShapedInputs(ReadInputs(ss, w), depth)
    ensures At(w, FlatInputs(ss, depth)) == FlatInputs(ReadInputs(ss, w), depth)
  {
    hide Interleave, Eval, ReadInput;
    if ss != [] {
      var k := |ss| - 1;
      InputsRead(w, ss[..k], depth);
      InputRead(w, ss[k]);
      assert ReadInputs(ss, w)[..k] == ReadInputs(ss[..k], w);
      assert ReadInputs(ss, w)[k] == ReadInput(ss[k], w);
      assert At(w, FlatInputs(ss, depth)) == At(w, FlatInputs(ss[..k], depth)) + At(w, FlatInput(ss[k]));
    }
  }

  lemma WitnessRead(w: seq<Fr>, s: Slots<nat>, depth: nat)
    requires ShapedInputs(s.inputs, depth)
    ensures ShapedInputs(Read(s, w).inputs, depth)
    ensures At(w, FlatWitness(s, depth)) == FlatWitness(Read(s, w), depth)
  {
    InputsRead(w, s.inputs, depth);
  }

  // ---- flattening loses nothing ----

  lemma {:induction false} InterleaveInjective<T>(xs: seq<T>, ys: seq<T>, xs': seq<T>, ys': seq<T>)
    requires |xs| == |ys| == |xs'| == |ys'|
    requires Interleave(xs, ys) == Interleave(xs', ys')
    ensures xs == xs' && ys == ys'
  {
    if xs != [] {
      var k := |xs| - 1;
      var a, b := Interleave(xs[..k], ys[..k]), Interleave(xs'[..k], ys'[..k]);
      SplitEqual(a, [xs[k], ys[k]], b, [xs'[k], ys'[k]]);
      InterleaveInjective(xs[..k], ys[..k], xs'[..k], ys'[..k]);
      assert xs == xs[..k] + [xs[k]] && ys == ys[..k] + [ys[k]];
      assert xs' == xs'[..k] + [xs'[k]] && ys' == ys'[..k] + [ys'[k]];
      assert [xs[k], ys[k]][0] == [xs'[k], ys'[k]][0] && [xs[k], ys[k]][1] == [xs'[k], ys'[k]][1];
    }
  }

  lemma SplitEqual<T>(a: seq<T>, x: seq<T>, b: seq<T>, y: seq<T>)
    requires |a| == |b| || |x| == |y|
    requires a + x == b + y
    ensures a == b && x == y
  {
    assert |a| == |b|;
    assert (a + x)[..|a|] == a && (b + y)[..|b|] == b;
    assert (a + x)[|a|..] == x && (b + y)[|b|..] == y;
  }

  lemma InputInjective<T>(s: InputSlots<T>, s': InputSlots<T>, depth: nat)
    requires ShapedInput(s, depth) && ShapedInput(s', depth)
    requires FlatInput(s) == FlatInput(s')
    ensures s == s'
  {
    SplitEqual([s.k, s.v], Interleave(s.sibs, s.bits), [s'.k, s'.v], Interleave(s'.sibs, s'.bits));
    assert [s.k, s.v][0] == [s'.k, s'.v][0] && [s.k, s.v][1] == [s'.k, s'.v][1];
    InterleaveInjective(s.sibs, s.bits, s'.sibs, s'.bits);
  }

  lemma {:induction false} InputsInjective<T>(ss: seq<InputSlots<T>>, ss': seq<InputSlots<T>>, depth: nat)
    requires |ss| == |ss'| && ShapedInputs(ss, depth) && ShapedInputs(ss', depth)
    requires FlatInputs(ss, depth) == FlatInputs(ss', depth)
    ensures ss == ss'
  {
    if ss != [] {
      var k := |ss| - 1;
      SplitEqual(FlatInputs(ss[..k], depth), FlatInput(ss[k]), FlatInputs(ss'[..k], depth), FlatInput(ss'[k]));
      InputsInjective(ss[..k], ss'[..k], depth);
      InputInjective(ss[k], ss'[k], depth);
      assert ss == ss[..k] + [ss[k]] && ss' == ss'[..k] + [ss'[k]];
    }
  }

  lemma WitnessInjective<T>(s: Slots<T>, s': Slots<T>, pubs: nat, inputs: nat, rest: nat, depth: nat)
    requires Shaped(s, pubs, inputs, rest, depth) && Shaped(s', pubs, inputs, rest, depth)
    requires s.pubs == s'.pubs && FlatWitness(s, depth) == FlatWitness(s', depth)
    ensures s == s'
  {
    SplitEqual([s.head] + FlatInputs(s.inputs, depth), s.rest, [s'.head] + FlatInputs(s'.inputs, depth), s'.rest);
    assert |[s.head]| == |[s'.head]|;
    SplitEqual([s.head], FlatInputs(s.inputs, depth), [s'.head], FlatInputs(s'.inputs, depth));
    assert [s.head][0] == [s'.head][0];
    InputsInjective(s.inputs, s'.inputs, depth);
  }

  // ---- values as witnesses ----

  function Bools(fs: seq<Fr>): (bs: seq<bool>)
    ensures |bs| == |fs| && forall i :: 0 <= i < |fs| ==> bs[i] == (fs[i] == 1)
  {
    seq(|fs|, i requires 0 <= i < |fs| => fs[i] == 1)
  }

  function Digits(bs: seq<bool>): (fs: seq<Fr>)
    ensures |fs| == |bs| && forall i :: 0 <= i < |bs| ==> fs[i] == if bs[i] then 1 else 0
  {
    seq(|bs|, i requires 0 <= i < |bs| => if bs[i] then 1 else 0)
  }

  ghost predicate InputBits(ss: seq<InputSlots<Fr>>) {
    forall i :: 0 <= i < |ss| ==> AllBits(ss[i].bits)
  }

  function AsInput(s: InputSlots<Fr>): Input {
    Relations.Input(s.k, s.v, s.sibs, Bools(s.bits))
  }

  function AsInputs(ss: seq<InputSlots<Fr>>): (inputs: seq<Input>)
    ensures |inputs| == |ss| && forall i :: 0 <= i < |ss| ==> inputs[i] == AsInput(ss[i])
  {
    seq(|ss|, i requires 0 <= i < |ss| => AsInput(ss[i]))
  }

  function FromInput(i: Input): InputSlots<Fr> {
    InputSlots(i.k, i.v, i.siblings, Digits(i.bits))
  }

  function FromInputs(inputs: seq<Input>): (ss: seq<InputSlots<Fr>>)
    ensures |ss| == |inputs| && forall i :: 0 <= i < |inputs| ==> ss[i] == FromInput(inputs[i])
  {
    seq(|inputs|, i requires 0 <= i < |inputs| => FromInput(inputs[i]))
  }

  lemma InputsRoundTrip(inputs: seq<Input>)
    ensures AsInputs(FromInputs(inputs)) == inputs && InputBits(FromInputs(inputs))
  {
    forall i | 0 <= i < |inputs| ensures AsInput(FromInput(inputs[i])) == inputs[i] {
      assert Bools(Digits(inputs[i].bits)) == inputs[i].bits;
    }
  }

  function RestNote(rest: seq<Fr>, at: nat): Note
    requires at + 3 <= |rest|
  {
    Note(rest[at], rest[at + 1], rest[at + 2])
  }

  function NoteSlots(n: Note): seq<Fr> {
    [n.ownerPk, n.k, n.v]
  }

  /** Give the system's public inputs and witnesses chosen values. */
  lemma Assign(wires: seq<Wire>, slots: Slots<nat>, values: Slots<Fr>, pubs: nat, inputs: nat, rest: nat, depth: nat) returns (w: seq<Fr>)
    requires Layered(wires)
    requires Shaped(slots, pubs, inputs, rest, depth) && Shaped(values, pubs, inputs, rest, depth)
    requires Frees(wires) == Layout(slots.pubs, FlatWitness(slots, depth))
    ensures |w| == |wires| && Consistent(w, wires) && Read(slots, w) == values
  {
    SameFlatLength(slots, values, pubs, inputs, rest, depth);
    w := Fill(wires, values.pubs, FlatWitness(values, depth));
    WitnessRead(w, slots, depth);
    WitnessInjective(Read(slots, w), values, pubs, inputs, rest, depth);
  }

  lemma {:induction false} SameFlatInputs<S, T>(ss: seq<InputSlots<S>>, ts: seq<InputSlots<T>>, depth: nat)
    requires |ss| == |ts| && ShapedInputs(ss, depth) && ShapedInputs(ts, depth)
    ensures |FlatInputs(ss, depth)| == |FlatInputs(ts, depth)|
  {
    if ss != [] { SameFlatInputs(ss[..|ss| - 1], ts[..|ts| - 1], depth); }
  }

  lemma SameFlatLength<S, T>(s: Slots<S>, t: Slots<T>, pubs: nat, inputs: nat, rest: nat, depth: nat)
    requires Shaped(s, pubs, inputs, rest, depth) && Shaped(t, pubs, inputs, rest, depth)
    ensures |FlatWitness(s, depth)| == |FlatWitness(t, depth)|
  {
    SameFlatInputs(s.inputs, t.inputs, depth);
  }

  // ---- gadgets shared by the circuits ----

  method NoteCommitVar(cs: ConstraintSystem, p: Params, owner: Expr, k: Expr, v: Expr) returns (r: Expr)
    requires Below(owner, |cs.wires|) && Below(k, |cs.wires|) && Below(v, |cs.wires|)
    modifies cs`wires
    ensures Extends(old(cs.wires), old(cs.checks), cs.wires, cs.checks) && Frees(cs.wires) == Frees(old(cs.wires))
    ensures Below(r, |cs.wires|)
    ensures forall w {:trigger Consistent(w, cs.wires)} :: Consistent(w, cs.wires) ==>
              Eval(r, w) == Commitment(PoseidonHasher(p), Note(Eval(owner, w), Eval(k, w), Eval(v, w)))
  {
    hide Forced, PoseidonHasher, Frees, Consistent, Eval, Below;
    var inner := Hash2Var(cs, p, owner, k);
    r := Hash2Var(cs, p, inner, v);
  }

  /** One step of the walk: witness the sibling and the bit, order, hash. */
  method StepVar(cs: ConstraintSystem, p: Params, cur: Expr) returns (next: Expr, ghost sib: nat, ghost bit: nat)
    requires Below(cur, |cs.wires|)
    modifies cs
    ensures Extends(old(cs.wires), old(cs.checks), cs.wires, cs.checks) && Below(next, |cs.wires|)
    ensures Frees(cs.wires) == Layout(Frees(old(cs.wires)).inputs, Frees(old(cs.wires)).witnesses + [sib, bit])
    ensures forall w {:trigger Passed(w, cs.checks)} :: Passed(w, cs.checks) <==>
              Passed(w, old(cs.checks)) && (Value(w, bit) == 0 || Value(w, bit) == 1)
    ensures forall w {:trigger Consistent(w, cs.wires)} :: Consistent(w, cs.wires) && (Value(w, bit) == 0 || Value(w, bit) == 1) ==>
              Eval(next, w) == HashPair(PoseidonHasher(p), Ordered(Eval(cur, w), Value(w, sib), Value(w, bit) == 1))
  {
    hide Forced, PoseidonHasher, Frees, Consistent;
    sib, bit := |cs.wires|, |cs.wires| + 1;
    var s := cs.Allocate(Witness);
    var b := cs.NewBoolean();
    var left := cs.Select(b, s, cur);
    var right := cs.Select(b, cur, s);
    next := Hash2Var(cs, p, left, right);
  }

  lemma WalkAppend(h: Hasher, leaf: Fr, siblings: seq<Fr>, bits: seq<bool>, sib: Fr, bit: bool)
    requires |siblings| == |bits|
    ensures Walk(h, leaf, siblings + [sib], bits + [bit])
         == HashPair(h, Ordered(Walk(h, leaf, siblings, bits), sib, bit))
  {
    assert (siblings + [sib])[..|bits|] == siblings && (bits + [bit])[..|bits|] == bits;
  }

  lemma ReadAppend(w: seq<Fr>, sibs: seq<nat>, bits: seq<nat>, sib: nat, bit: nat)
    requires |sibs| == |bits|
    ensures At(w, sibs + [sib]) == At(w, sibs) + [Value(w, sib)]
    ensures Bools(At(w, bits + [bit])) == Bools(At(w, bits)) + [Value(w, bit) == 1]
    ensures AllBits(At(w, bits + [bit])) <==> AllBits(At(w, bits)) && (Value(w, bit) == 0 || Value(w, bit) == 1)
    ensures Interleave(sibs + [sib], bits + [bit]) == Interleave(sibs, bits) + [sib, bit]
  {
    assert (sibs + [sib])[..|bits|] == sibs && (bits + [bit])[..|bits|] == bits;
    assert At(w, bits + [bit])[|bits|] == Value(w, bit);
    assert forall i :: 0 <= i < |bits| ==> At(w, bits + [bit])[i] == At(w, bits)[i];
  }

  lemma PathAppend(h: Hasher, sibs: seq<nat>, bits: seq<nat>, sib: nat, bit: nat)
    requires |sibs| == |bits|
    ensures Interleave(sibs + [sib], bits + [bit]) == Interleave(sibs, bits) + [sib, bit]
    ensures forall w {:trigger At(w, bits + [bit])} ::
              AllBits(At(w, bits + [bit])) <==> AllBits(At(w, bits)) && (Value(w, bit) == 0 || Value(w, bit) == 1)
    ensures forall w, leaf {:trigger Walk(h, leaf, At(w, sibs + [sib]), Bools(At(w, bits + [bit])))} ::
              Walk(h, leaf, At(w, sibs + [sib]), Bools(At(w, bits + [bit])))
              == HashPair(h, Ordered(Walk(h, leaf, At(w, sibs), Bools(At(w, bits))), Value(w, sib), Value(w, bit) == 1))
  {
    hide Walk, Interleave, At, Bools, AllBits, Eval;
    ReadAppend([], sibs, bits, sib, bit);
    forall w: seq<Fr>
      ensures AllBits(At(w, bits + [bit])) <==> AllBits(At(w, bits)) && (Value(w, bit) == 0 || Value(w, bit) == 1)
    {
      ReadAppend(w, sibs, bits, sib, bit);
    }
    forall w: seq<Fr>, leaf: Fr
      ensures Walk(h, leaf, At(w, sibs + [sib]), Bools(At(w, bits + [bit])))
              == HashPair(h, Ordered(Walk(h, leaf, At(w, sibs), Bools(At(w, bits))), Value(w, sib), Value(w, bit) == 1))
    {
      ReadAppend(w, sibs, bits, sib, bit);
      WalkAppend(h, leaf, At(w, sibs), Bools(At(w, bits)), Value(w, sib), Value(w, bit) == 1);
    }
  }

  /** The walk up the tree. The checks it adds make every path bit boolean, and then the
      result is the walk of the native specification. */
  method WalkVar(cs: ConstraintSystem, p: Params, leaf: Expr, depth: nat)
    returns (root: Expr, ghost sibs: seq<nat>, ghost bits: seq<nat>)
    requires Below(leaf, |cs.wires|)
    modifies cs
    ensures Extends(old(cs.wires), old(cs.checks), cs.wires, cs.checks) && Below(root, |cs.wires|)
    ensures |sibs| == |bits| == depth
    ensures Frees(cs.wires) == Layout(Frees(old(cs.wires)).inputs, Frees(old(cs.wires)).witnesses + Interleave(sibs, bits))
    ensures forall w {:trigger Passed(w, cs.checks)} ::
              Passed(w, cs.checks) <==> Passed(w, old(cs.checks)) && AllBits(At(w, bits))
    ensures forall w {:trigger Consistent(w, cs.wires)} :: Consistent(w, cs.wires) && AllBits(At(w, bits)) ==>
              Eval(root, w) == Walk(PoseidonHasher(p), Eval(leaf, w), At(w, sibs), Bools(At(w, bits)))
  {
    hide Forced, PoseidonHasher, Frees, Consistent, Passed, Eval, Below, Walk, Interleave, At, Bools, AllBits;
    root, sibs, bits := leaf, [], [];
    EmptyPath(PoseidonHasher(p));
    assert Frees(cs.wires).witnesses + [] == Frees(cs.wires).witnesses;
    for i := 0 to depth
      invariant Extends(old(cs.wires), old(cs.checks), cs.wires, cs.checks) && Below(root, |cs.wires|)
      invariant |sibs| == |bits| == i
      invariant Frees(cs.wires) == Layout(Frees(old(cs.wires)).inputs, Frees(old(cs.wires)).witnesses + Interleave(sibs, bits))
      invariant forall w {:trigger Passed(w, cs.checks)} ::
                  Passed(w, cs.checks) <==> Passed(w, old(cs.checks)) && AllBits(At(w, bits))
      invariant forall w {:trigger Consistent(w, cs.wires)} :: Consistent(w, cs.wires) && AllBits(At(w, bits)) ==>
                  Eval(root, w) == Walk(PoseidonHasher(p), Eval(leaf, w), At(w, sibs), Bools(At(w, bits)))
    {
      ghost var sibs0, bits0 := sibs, bits;
      ghost var sib, bit;
      root, sib, bit := StepVar(cs, p, root);
      sibs, bits := sibs + [sib], bits + [bit];
      PathAppend(PoseidonHasher(p), sibs0, bits0, sib, bit);
    }
  }

  lemma EmptyPath(h: Hasher)
    ensures Interleave<nat>([], []) == []
    ensures forall w :: AllBits(At(w, []))
    ensures forall w, leaf :: Walk(h, leaf, At(w, []), Bools(At(w, []))) == leaf
  {
    forall w, leaf: Fr ensures Walk(h, leaf, At(w, []), Bools(At(w, []))) == leaf {
      assert At(w, []) == [] && Bools(At(w, [])) == [];
    }
  }

  /** The constraints on one spent note: membership under the root and the nullifier. */
  method SpendVar(cs: ConstraintSystem, p: Params, depth: nat, spendSk: Expr, owner: Expr, k: Expr, v: Expr, root: Expr, nf: Expr)
    returns (ghost sibs: seq<nat>, ghost bits: seq<nat>)
    requires Below(spendSk, |cs.wires|) && Below(owner, |cs.wires|) && Below(k, |cs.wires|) && Below(v, |cs.wires|)
    requires forall w {:trigger Consistent(w, cs.wires)} :: Consistent(w, cs.wires) ==>
               Eval(owner, w) == OwnerPk(PoseidonHasher(p), Eval(spendSk, w))
    modifies cs
    ensures Extends(old(cs.wires), old(cs.checks), cs.wires, cs.checks)
    ensures |sibs| == |bits| == depth
    ensures Frees(cs.wires) == Layout(Frees(old(cs.wires)).inputs, Frees(old(cs.wires)).witnesses + Interleave(sibs, bits))
    ensures forall w {:trigger Passed(w, cs.checks)} :: Consistent(w, cs.wires) ==>
              (Passed(w, cs.checks) <==>
                && Passed(w, old(cs.checks)) && AllBits(At(w, bits))
                && InputHolds(PoseidonHasher(p), depth, Eval(spendSk, w),
                     Relations.Input(Eval(k, w), Eval(v, w), At(w, sibs), Bools(At(w, bits))), Eval(root, w), Eval(nf, w)))
  {
    hide Forced, PoseidonHasher, Frees, Consistent, Passed, Eval, Below, Walk, Interleave, At, Bools, AllBits;
    var cm := NoteCommitVar(cs, p, owner, k, v);
    var computed;
    computed, sibs, bits := WalkVar(cs, p, cm, depth);
    cs.Enforce(Equal(computed, root));
    var nullifier := Hash2Var(cs, p, spendSk, k);
    cs.Enforce(Equal(nullifier, nf));
  }

  // ---- allocation ----

  predicate AreVars(es: seq<Expr>) {
    forall i :: 0 <= i < |es| ==> es[i].Var?
  }

  function Positions(es: seq<Expr>): (ps: seq<nat>)
    requires AreVars(es)
    ensures |ps| == |es| && forall i :: 0 <= i < |es| ==> ps[i] == es[i].i
  {
    seq(|es|, i requires 0 <= i < |es| => es[i].i)
  }

  lemma AtPositions(w: seq<Fr>, es: seq<Expr>)
    requires AreVars(es)
    ensures forall i :: 0 <= i < |es| ==> At(w, Positions(es))[i] == Eval(es[i], w) == Value(w, es[i].i)
  {
  }

  lemma NothingYet()
    ensures Frees([]) == Layout([], []) && Layered([]) && Forced([], [])
    ensures forall w {:trigger Passed(w, [])} :: Passed(w, [])
  {
  }

  method NewInputs(cs: ConstraintSystem, n: nat) returns (es: seq<Expr>)
    modifies cs`wires
    ensures Extends(old(cs.wires), old(cs.checks), cs.wires, cs.checks)
    ensures |es| == n && AreVars(es) && AllBelow(es, |cs.wires|)
    ensures Frees(cs.wires) == Layout(Frees(old(cs.wires)).inputs + Positions(es), Frees(old(cs.wires)).witnesses)
  {
    hide Forced, Frees, Consistent, Eval;
    es := [];
    for i := 0 to n
      invariant Extends(old(cs.wires), old(cs.checks), cs.wires, cs.checks)
      invariant |es| == i && AreVars(es) && AllBelow(es, |cs.wires|)
      invariant Frees(cs.wires) == Layout(Frees(old(cs.wires)).inputs + Positions(es), Frees(old(cs.wires)).witnesses)
    {
      var e := cs.Allocate(Wire.Input);
      assert Positions(es + [e]) == Positions(es) + [e.i];
      es := es + [e];
    }
  }

  method NewWitnesses(cs: ConstraintSystem, n: nat) returns (es: seq<Expr>)
    modifies cs`wires
    ensures Extends(old(cs.wires), old(cs.checks), cs.wires, cs.checks)
    ensures |es| == n && AreVars(es) && AllBelow(es, |cs.wires|)
    ensures Frees(cs.wires) == Layout(Frees(old(cs.wires)).inputs, Frees(old(cs.wires)).witnesses + Positions(es))
  {
    hide Forced, Frees, Consistent, Eval;
    es := [];
    for i := 0 to n
      invariant Extends(old(cs.wires), old(cs.checks), cs.wires, cs.checks)
      invariant |es| == i && AreVars(es) && AllBelow(es, |cs.wires|)
      invariant Frees(cs.wires) == Layout(Frees(old(cs.wires)).inputs, Frees(old(cs.wires)).witnesses + Positions(es))
    {
      var e := cs.Allocate(Witness);
      assert Positions(es + [e]) == Positions(es) + [e.i];
      es := es + [e];
    }
  }

  lemma FlatShort<T>(s: Slots<T>)
    requires s.inputs == []
    ensures FlatWitness(s, 0) == [s.head] + s.rest
  {
  }

  // ---- the circuits ----

  /** Some assignment satisfies the system with these public inputs. */
  ghost predicate SatisfiableWith(wires: seq<Wire>, checks: seq<Check>, pub: seq<Fr>) {
    exists w :: Satisfies(w, wires, checks) && At(w, Frees(wires).inputs) == pub
  }

  function DepositOf(s: Slots<Fr>): DepositWitness
    requires |s.rest| == 1
  {
    DepositWitness(s.head, s.rest[0])
  }

  function UnshieldOf(s: Slots<Fr>): UnshieldWitness
    requires |s.inputs| == 1 && |s.rest| == 2
  {
    UnshieldWitness(s.head, AsInput(s.inputs[0]), s.rest[0], s.rest[1])
  }

  function TransferOf(s: Slots<Fr>): TransferWitness
    requires |s.inputs| == 1 && |s.rest| == 6
  {
    TransferWitness(s.head, AsInput(s.inputs[0]), RestNote(s.rest, 0), RestNote(s.rest, 3))
  }

  function TransferNOf(s: Slots<Fr>): TransferNWitness
    requires |s.rest| == 6
  {
    TransferNWitness(s.head, AsInputs(s.inputs), RestNote(s.rest, 0), RestNote(s.rest, 3))
  }

  /** `slots` locates the public inputs and witnesses of a system built from scratch. */
  ghost predicate LaidOut(wires: seq<Wire>, slots: Slots<nat>, pubs: nat, inputs: nat, rest: nat, depth: nat) {
    && Layered(wires)
    && Shaped(slots, pubs, inputs, rest, depth)
    && Frees(wires) == Layout(slots.pubs, FlatWitness(slots, depth))
  }

  ghost predicate DepositSystem(p: Params, wires: seq<Wire>, checks: seq<Check>, slots: Slots<nat>) {
    && LaidOut(wires, slots, 2, 0, 1, 0) && Forced(wires, checks)
    && forall w {:trigger Passed(w, checks)} :: Consistent(w, wires) ==>
         (Passed(w, checks) <==> DepositHolds(PoseidonHasher(p), Read(slots, w).pubs, DepositOf(Read(slots, w))))
  }

  /** The deposit circuit is satisfiable with [cm, amount] exactly when the amount has 64
      bits and some owner and blinding open cm to it. */
  lemma DepositRealized(p: Params, wires: seq<Wire>, checks: seq<Check>, slots: Slots<nat>, pub: seq<Fr>)
    requires DepositSystem(p, wires, checks, slots)
    ensures SatisfiableWith(wires, checks, pub) <==> exists wit :: DepositHolds(PoseidonHasher(p), pub, wit)
  {
    hide Emitted, PoseidonHasher, Consistent, Passed, Commitment;
    if wit :| DepositHolds(PoseidonHasher(p), pub, wit) {
      var values := Slots(pub, wit.ownerPk, [], [wit.k]);
      var w := Assign(wires, slots, values, 2, 0, 1, 0);
      assert DepositOf(Read(slots, w)) == wit;
      assert Passed(w, checks);
      ConsistentIsEmitted(w, wires);
      assert Satisfies(w, wires, checks) && At(w, Frees(wires).inputs) == Read(slots, w).pubs;
    }
  }

  method SynthesizeDeposit(cs: ConstraintSystem, p: Params) returns (ghost slots: Slots<nat>)
    requires cs.wires == [] && cs.checks == []
    modifies cs
    ensures DepositSystem(p, cs.wires, cs.checks, slots)
  {
    NothingYet();
    hide Forced, PoseidonHasher, Frees, Consistent, Eval, Below, Layered, Commitment, Pow2, FlatWitness, At, Passed;
    var pub := NewInputs(cs, 2);
    var wit := NewWitnesses(cs, 2);
    slots := Slots(Positions(pub), wit[0].i, [], [wit[1].i]);
    RangeCheck(cs, pub[1], VALUE_BITS);
    var computed := NoteCommitVar(cs, p, wit[0], wit[1], pub[1]);
    cs.Enforce(Equal(computed, pub[0]));
    assert FlatWitness(slots, 0) == Positions(wit) by { FlatShort(slots); }
    forall w | Consistent(w, cs.wires)
      ensures Passed(w, cs.checks) <==> DepositHolds(PoseidonHasher(p), Read(slots, w).pubs, DepositOf(Read(slots, w)))
    {
      Pow2Constants();
      AtPositions(w, pub);
      AtPositions(w, wit);
    }
  }

  method OwnerVar(cs: ConstraintSystem, p: Params, spendSk: Expr) returns (owner: Expr)
    requires Below(spendSk, |cs.wires|)
    modifies cs`wires
    ensures Extends(old(cs.wires), old(cs.checks), cs.wires, cs.checks) && Frees(cs.wires) == Frees(old(cs.wires))
    ensures Below(owner, |cs.wires|)
    ensures forall w {:trigger Consistent(w, cs.wires)} :: Consistent(w, cs.wires) ==>
              Eval(owner, w) == OwnerPk(PoseidonHasher(p), Eval(spendSk, w))
  {
    hide Forced, PoseidonHasher, Frees, Consistent;
    owner := Hash2Var(cs, p, spendSk, Const(OWNER_PK_DOMAIN));
  }

  lemma FlatOne<T>(s: Slots<T>, depth: nat)
    requires |s.inputs| == 1 && ShapedInputs(s.inputs, depth)
    ensures FlatWitness(s, depth)
         == [s.head, s.inputs[0].k, s.inputs[0].v] + Interleave(s.inputs[0].sibs, s.inputs[0].bits) + s.rest
  {
    var none: seq<InputSlots<T>> := s.inputs[..0];
    assert FlatInputs(none, depth) == [];
    assert FlatInputs(s.inputs, depth) == FlatInput(s.inputs[0]);
    assert [s.head] + ([s.inputs[0].k, s.inputs[0].v] + Interleave(s.inputs[0].sibs, s.inputs[0].bits))
        == [s.head, s.inputs[0].k, s.inputs[0].v] + Interleave(s.inputs[0].sibs, s.inputs[0].bits);
  }

  /** One output note: its commitment opens to three witnesses. */
  method OutputVar(cs: ConstraintSystem, p: Params, note: seq<Expr>, cm: Expr)
    requires |note| == 3 && AllBelow(note, |cs.wires|)
    modifies cs
    ensures Extends(old(cs.wires), old(cs.checks), cs.wires, cs.checks) && Frees(cs.wires) == Frees(old(cs.wires))
    ensures forall w {:trigger Passed(w, cs.checks)} :: Consistent(w, cs.wires) ==>
              (Passed(w, cs.checks) <==>
                && Passed(w, old(cs.checks))
                && Commitment(PoseidonHasher(p), Note(Eval(note[0], w), Eval(note[1], w), Eval(note[2], w))) == Eval(cm, w))
  {
    hide Forced, PoseidonHasher, Frees, Consistent, Passed, Eval, Below, Commitment;
    var c := NoteCommitVar(cs, p, note[0], note[1], note[2]);
    cs.Enforce(Equal(c, cm));
  }

  /** Two range-checked values that sum to a third. */
  method BalanceVar(cs: ConstraintSystem, a: Expr, b: Expr, total: Expr)
    requires Below(a, |cs.wires|) && Below(b, |cs.wires|)
    modifies cs
    ensures Extends(old(cs.wires), old(cs.checks), cs.wires, cs.checks) && Frees(cs.wires) == Frees(old(cs.wires))
    ensures forall w {:trigger Passed(w, cs.checks)} :: Consistent(w, cs.wires) ==>
              (Passed(w, cs.checks) <==>
                && Passed(w, old(cs.checks))
                && InRange(Eval(a, w)) && InRange(Eval(b, w))
                && Add(Eval(a, w), Eval(b, w)) == Eval(total, w))
  {
    hide Forced, Frees, Consistent, Passed, Below, Pow2, Add;
    Pow2Constants();
    RangeCheck(cs, a, VALUE_BITS);
    RangeCheck(cs, b, VALUE_BITS);
    cs.Enforce(Equal(Sum2(a, b), total));
  }

  // ---- unshield ----

  ghost predicate UnshieldSystem(p: Params, depth: nat, wires: seq<Wire>, checks: seq<Check>, slots: Slots<nat>) {
    && LaidOut(wires, slots, 5, 1, 2, depth) && Forced(wires, checks)
    && forall w {:trigger Passed(w, checks)} :: Consistent(w, wires) ==>
         (Passed(w, checks) <==>
           && InputBits(Read(slots, w).inputs)
           && UnshieldHolds(PoseidonHasher(p), depth, Read(slots, w).pubs, UnshieldOf(Read(slots, w))))
  }

  /** What the one-input circuits begin with: the public inputs, the spend key and the
      spent note, its owner tag, membership and nullifier. */
  method OpenSpend(cs: ConstraintSystem, p: Params, depth: nat, pubs: nat)
    returns (pub: seq<Expr>, wit: seq<Expr>, owner: Expr, ghost sibs: seq<nat>, ghost bits: seq<nat>)
    requires cs.wires == [] && cs.checks == [] && pubs >= 2
    modifies cs
    ensures Layered(cs.wires) && Forced(cs.wires, cs.checks)
    ensures |pub| == pubs && AreVars(pub) && AllBelow(pub, |cs.wires|)
    ensures |wit| == 3 && AreVars(wit) && AllBelow(wit, |cs.wires|) && Below(owner, |cs.wires|)
    ensures |sibs| == |bits| == depth
    ensures Frees(cs.wires) == Layout(Positions(pub), Positions(wit) + Interleave(sibs, bits))
    ensures forall w {:trigger Consistent(w, cs.wires)} :: Consistent(w, cs.wires) ==>
              Eval(owner, w) == OwnerPk(PoseidonHasher(p), Eval(wit[0], w))
    ensures forall w {:trigger Passed(w, cs.checks)} :: Consistent(w, cs.wires) ==>
              (Passed(w, cs.checks) <==>
                && AllBits(At(w, bits))
                && InputHolds(PoseidonHasher(p), depth, Eval(wit[0], w),
                     Relations.Input(Eval(wit[1], w), Eval(wit[2], w), At(w, sibs), Bools(At(w, bits))),
                     Eval(pub[0], w), Eval(pub[1], w)))
  {
    NothingYet();
    hide Forced, PoseidonHasher, Frees, Consistent, Eval, Below, Layered, Commitment, OwnerPk, At, Passed, Walk, Interleave, Bools,
      AllBits, InputHolds;
    pub := NewInputs(cs, pubs);
    wit := NewWitnesses(cs, 3);
    owner := OwnerVar(cs, p, wit[0]);
    sibs, bits := SpendVar(cs, p, depth, wit[0], owner, wit[1], wit[2], pub[0], pub[1]);
  }

  method SynthesizeUnshield(cs: ConstraintSystem, p: Params, depth: nat) returns (ghost slots: Slots<nat>)
    requires cs.wires == [] && cs.checks == []
    modifies cs
    ensures UnshieldSystem(p, depth, cs.wires, cs.checks, slots)
  {
    hide Forced, PoseidonHasher, Frees, Consistent, Eval, Below, Layered, Commitment, OwnerPk, FlatWitness, At, Passed, Add,
      Walk, Interleave, Bools, AllBits, InputHolds;
    var pub, wit, owner;
    ghost var sibs, bits;
    pub, wit, owner, sibs, bits := OpenSpend(cs, p, depth, 5);
    var change := NewWitnesses(cs, 2);
    OutputVar(cs, p, [owner] + change, pub[4]);
    BalanceVar(cs, pub[3], change[1], wit[2]);
    var unused := cs.Times(pub[2], pub[2]);
    slots := Slots(Positions(pub), wit[0].i, [InputSlots(wit[1].i, wit[2].i, sibs, bits)], Positions(change));
    FlatOne(slots, depth);
    forall w | Consistent(w, cs.wires)
      ensures Passed(w, cs.checks) <==>
                && InputBits(Read(slots, w).inputs)
                && UnshieldHolds(PoseidonHasher(p), depth, Read(slots, w).pubs, UnshieldOf(Read(slots, w)))
    {
      AtPositions(w, pub);
      AtPositions(w, wit);
      AtPositions(w, change);
      assert Read(slots, w).inputs == [ReadInput(slots.inputs[0], w)];
    }
  }

  /** The unshield circuit is satisfiable with [root, nullifier, recipient, amount,
      change_cm] exactly when some witness satisfies its relation. */
  lemma UnshieldRealized(p: Params, depth: nat, wires: seq<Wire>, checks: seq<Check>, slots: Slots<nat>, pub: seq<Fr>)
    requires UnshieldSystem(p, depth, wires, checks, slots)
    ensures SatisfiableWith(wires, checks, pub) <==> exists wit :: UnshieldHolds(PoseidonHasher(p), depth, pub, wit)
  {
    hide Emitted, PoseidonHasher, Consistent, Passed, Commitment, Walk, Layered, Frees;
    if wit :| UnshieldHolds(PoseidonHasher(p), depth, pub, wit) {
      InputsRoundTrip([wit.input]);
      var values := Slots(pub, wit.spendSk, FromInputs([wit.input]), [wit.k2, wit.vc]);
      var w := Assign(wires, slots, values, 5, 1, 2, depth);
      assert AsInputs(values.inputs)[0] == AsInput(values.inputs[0]) == wit.input;
      assert UnshieldOf(Read(slots, w)) == wit;
      assert Passed(w, checks);
      ConsistentIsEmitted(w, wires);
      assert Satisfies(w, wires, checks) && At(w, Frees(wires).inputs) == Read(slots, w).pubs;
    }
  }

  // ---- one-input transfer ----

  ghost predicate TransferSystem(p: Params, depth: nat, wires: seq<Wire>, checks: seq<Check>, slots: Slots<nat>) {
    && LaidOut(wires, slots, 4, 1, 6, depth) && Forced(wires, checks)
    && forall w {:trigger Passed(w, checks)} :: Consistent(w, wires) ==>
         (Passed(w, checks) <==>
           && InputBits(Read(slots, w).inputs)
           && TransferHolds(PoseidonHasher(p), depth, Read(slots, w).pubs, TransferOf(Read(slots, w))))
  }

  method SynthesizeTransfer(cs: ConstraintSystem, p: Params, depth: nat) returns (ghost slots: Slots<nat>)
    requires cs.wires == [] && cs.checks == []
    modifies cs
    ensures TransferSystem(p, depth, cs.wires, cs.checks, slots)
  {
    hide Forced, PoseidonHasher, Frees, Consistent, Eval, Below, Layered, Commitment, OwnerPk, FlatWitness, At, Passed, Add,
      Walk, Interleave, Bools, AllBits, InputHolds;
    var pub, wit, owner;
    ghost var sibs, bits;
    pub, wit, owner, sibs, bits := OpenSpend(cs, p, depth, 4);
    var outs := CloseTransfer(cs, p, pub[2], pub[3], wit[2]);
    slots := Slots(Positions(pub), wit[0].i, [InputSlots(wit[1].i, wit[2].i, sibs, bits)], Positions(outs));
    FlatOne(slots, depth);
    forall w | Consistent(w, cs.wires)
      ensures Passed(w, cs.checks) <==>
                && InputBits(Read(slots, w).inputs)
                && TransferHolds(PoseidonHasher(p), depth, Read(slots, w).pubs, TransferOf(Read(slots, w)))
    {
      AtPositions(w, pub);
      AtPositions(w, wit);
      AtPositions(w, outs);
      assert Read(slots, w).inputs == [ReadInput(slots.inputs[0], w)];
    }
  }

  /** What the transfer circuits end with: two output notes, their range checks and the
      balance against the value spent. */
  method CloseTransfer(cs: ConstraintSystem, p: Params, cm1: Expr, cm2: Expr, total: Expr) returns (outs: seq<Expr>)
    modifies cs
    ensures Extends(old(cs.wires), old(cs.checks), cs.wires, cs.checks)
    ensures |outs| == 6 && AreVars(outs)
    ensures Frees(cs.wires) == Layout(Frees(old(cs.wires)).inputs, Frees(old(cs.wires)).witnesses + Positions(outs))
    ensures forall w {:trigger Passed(w, cs.checks)} :: Consistent(w, cs.wires) ==>
              (Passed(w, cs.checks) <==>
                && Passed(w, old(cs.checks))
                && Commitment(PoseidonHasher(p), Note(Eval(outs[0], w), Eval(outs[1], w), Eval(outs[2], w))) == Eval(cm1, w)
                && Commitment(PoseidonHasher(p), Note(Eval(outs[3], w), Eval(outs[4], w), Eval(outs[5], w))) == Eval(cm2, w)
                && InRange(Eval(outs[2], w)) && InRange(Eval(outs[5], w))
                && Add(Eval(outs[2], w), Eval(outs[5], w)) == Eval(total, w))
  {
    hide Forced, PoseidonHasher, Frees, Consistent, Eval, Below, Commitment, Passed, Add;
    var out1 := NewWitnesses(cs, 3);
    OutputVar(cs, p, out1, cm1);
    var out2 := NewWitnesses(cs, 3);
    OutputVar(cs, p, out2, cm2);
    BalanceVar(cs, out1[2], out2[2], total);
    outs := out1 + out2;
    assert Positions(outs) == Positions(out1) + Positions(out2);
  }

  /** The one-input transfer circuit is satisfiable with [root, nullifier, out_cm1,
      out_cm2] exactly when some witness satisfies its relation. */
  lemma TransferRealized(p: Params, depth: nat, wires: seq<Wire>, checks: seq<Check>, slots: Slots<nat>, pub: seq<Fr>)
    requires TransferSystem(p, depth, wires, checks, slots)
    ensures SatisfiableWith(wires, checks, pub) <==> exists wit :: TransferHolds(PoseidonHasher(p), depth, pub, wit)
  {
    hide Emitted, PoseidonHasher, Consistent, Passed, Commitment, Walk, Layered, Frees;
    if wit :| TransferHolds(PoseidonHasher(p), depth, pub, wit) {
      InputsRoundTrip([wit.input]);
      var values := Slots(pub, wit.spendSk, FromInputs([wit.input]), NoteSlots(wit.out1) + NoteSlots(wit.out2));
      var w := Assign(wires, slots, values, 4, 1, 6, depth);
      assert AsInputs(values.inputs)[0] == AsInput(values.inputs[0]) == wit.input;
      assert TransferOf(Read(slots, w)) == wit;
      assert Passed(w, checks);
      ConsistentIsEmitted(w, wires);
      assert Satisfies(w, wires, checks) && At(w, Frees(wires).inputs) == Read(slots, w).pubs;
    }
  }

  // ---- N-input transfer ----

  ghost predicate TransferNSystem(p: Params, depth: nat, n: nat, wires: seq<Wire>, checks: seq<Check>, slots: Slots<nat>) {
    && LaidOut(wires, slots, n + 3, n, 6, depth) && Forced(wires, checks)
    && forall w {:trigger Passed(w, checks)} :: Consistent(w, wires) ==>
         (Passed(w, checks) <==>
           && InputBits(Read(slots, w).inputs)
           && TransferNHolds(PoseidonHasher(p), depth, n, Read(slots, w).pubs, TransferNOf(Read(slots, w))))
  }

  /** What the loop over the inputs enforces of one input. */
  ghost predicate InputPasses(h: Hasher, depth: nat, spendSk: Fr, s: InputSlots<Fr>, root: Fr, nf: Fr) {
    AllBits(s.bits) && InputHolds(h, depth, spendSk, AsInput(s), root, nf) && InRange(s.v)
  }

  ghost predicate InputsPass(h: Hasher, depth: nat, spendSk: Fr, ss: seq<InputSlots<Fr>>, root: Fr, nfs: seq<Fr>) {
    |ss| <= |nfs| && forall i :: 0 <= i < |ss| ==> InputPasses(h, depth, spendSk, ss[i], root, nfs[i])
  }

  lemma InputsPassAppend(h: Hasher, depth: nat, spendSk: Fr, ss: seq<InputSlots<Fr>>, s: InputSlots<Fr>, root: Fr, nfs: seq<Fr>)
    requires |ss| < |nfs|
    ensures InputsPass(h, depth, spendSk, ss + [s], root, nfs)
       <==> InputsPass(h, depth, spendSk, ss, root, nfs) && InputPasses(h, depth, spendSk, s, root, nfs[|ss|])
  {
    hide InputPasses;
    var longer := ss + [s];
    assert forall i :: 0 <= i < |ss| ==> longer[i] == ss[i];
    assert longer[|ss|] == s;
  }

  lemma SumAppend(ss: seq<InputSlots<Fr>>, s: InputSlots<Fr>)
    ensures Sum(Values(AsInputs(ss + [s]))) == Add(Sum(Values(AsInputs(ss))), s.v)
  {
    assert Values(AsInputs(ss + [s])) == Values(AsInputs(ss)) + [s.v];
  }

  /** One input of an N-input transfer: its value is range-checked too. */
  method InputVar(cs: ConstraintSystem, p: Params, depth: nat, spendSk: Expr, owner: Expr, root: Expr, nf: Expr)
    returns (v: Expr, ghost slot: InputSlots<nat>)
    requires Below(spendSk, |cs.wires|) && Below(owner, |cs.wires|)
    requires forall w {:trigger Consistent(w, cs.wires)} :: Consistent(w, cs.wires) ==>
               Eval(owner, w) == OwnerPk(PoseidonHasher(p), Eval(spendSk, w))
    modifies cs
    ensures Extends(old(cs.wires), old(cs.checks), cs.wires, cs.checks) && Below(v, |cs.wires|)
    ensures ShapedInput(slot, depth)
    ensures Frees(cs.wires) == Layout(Frees(old(cs.wires)).inputs, Frees(old(cs.wires)).witnesses + FlatInput(slot))
    ensures forall w :: Eval(v, w) == ReadInput(slot, w).v
    ensures forall w {:trigger Passed(w, cs.checks)} :: Consistent(w, cs.wires) ==>
              (Passed(w, cs.checks) <==>
                && Passed(w, old(cs.checks))
                && InputPasses(PoseidonHasher(p), depth, Eval(spendSk, w), ReadInput(slot, w), Eval(root, w), Eval(nf, w)))
  {
    hide Forced, PoseidonHasher, Frees, Consistent, Eval, Below, Commitment, OwnerPk, Passed, Walk, Interleave, Bools, AllBits,
      InputHolds, At, Pow2;
    Pow2Constants();
    var kv := NewWitnesses(cs, 2);
    v := kv[1];
    RangeCheck(cs, v, VALUE_BITS);
    ghost var sibs, bits;
    sibs, bits := SpendVar(cs, p, depth, spendSk, owner, kv[0], kv[1], root, nf);
    slot := InputSlots(kv[0].i, kv[1].i, sibs, bits);
    assert Positions(kv) == [slot.k, slot.v];
  }

  method SynthesizeTransferN(cs: ConstraintSystem, p: Params, depth: nat, n: nat) returns (ghost slots: Slots<nat>)
    requires cs.wires == [] && cs.checks == []
    modifies cs
    ensures TransferNSystem(p, depth, n, cs.wires, cs.checks, slots)
  {
    NothingYet();
    hide Forced, PoseidonHasher, Frees, Consistent, Eval, Below, Layered, Commitment, OwnerPk, FlatWitness, FlatInput, FlatInputs, At,
      Passed, Add, InputPasses, ReadInput, InputsPass, Sum, Values, AsInputs, ReadInputs;
    var pub := NewInputs(cs, n + 3);
    var key := NewWitnesses(cs, 1);
    var owner := OwnerVar(cs, p, key[0]);
    ghost var ins: seq<InputSlots<nat>> := [];
    var vSum;
    vSum, ins := InputLoop(cs, p, depth, n, key[0], owner, pub);
    var outs := CloseTransfer(cs, p, pub[n + 1], pub[n + 2], vSum);
    slots := Slots(Positions(pub), key[0].i, ins, Positions(outs));
    TransferNLaidOut(cs.wires, slots, key, outs, n, depth);
    forall w | Consistent(w, cs.wires)
      ensures Passed(w, cs.checks) <==>
                && InputBits(Read(slots, w).inputs)
                && TransferNHolds(PoseidonHasher(p), depth, n, Read(slots, w).pubs, TransferNOf(Read(slots, w)))
    {
      AtPositions(w, pub);
      AtPositions(w, key);
      AtPositions(w, outs);
      TransferNReads(PoseidonHasher(p), depth, n, Read(slots, w));
      assert NullifiersAt(pub, w, n) == Read(slots, w).pubs[1..n + 1];
    }
  }

  /** The values of the nullifier inputs. */
  function NullifiersAt(pub: seq<Expr>, w: seq<Fr>, n: nat): (nfs: seq<Fr>)
    requires |pub| == n + 3
    ensures |nfs| == n && forall i :: 0 <= i < n ==> nfs[i] == Eval(pub[1 + i], w)
  {
    EvalAll(pub, w)[1..n + 1]
  }

  lemma TransferNLaidOut(wires: seq<Wire>, slots: Slots<nat>, key: seq<Expr>, outs: seq<Expr>, n: nat, depth: nat)
    requires Layered(wires) && Shaped(slots, n + 3, n, 6, depth)
    requires |key| == 1 && AreVars(key) && AreVars(outs)
    requires slots.head == key[0].i && slots.rest == Positions(outs)
    requires Frees(wires) == Layout(slots.pubs, Positions(key) + FlatInputs(slots.inputs, depth) + Positions(outs))
    ensures LaidOut(wires, slots, n + 3, n, 6, depth)
  {
    assert Positions(key) == [slots.head];
  }

  /** The loop's constraints and the closing ones are together the relation. */
  lemma TransferNReads(h: Hasher, depth: nat, n: nat, s: Slots<Fr>)
    requires |s.pubs| == n + 3 && |s.inputs| == n && |s.rest| == 6
    ensures InputBits(s.inputs) && TransferNHolds(h, depth, n, s.pubs, TransferNOf(s)) <==>
              && InputsPass(h, depth, s.head, s.inputs, s.pubs[0], s.pubs[1..n + 1])
              && Commitment(h, RestNote(s.rest, 0)) == s.pubs[n + 1] && Commitment(h, RestNote(s.rest, 3)) == s.pubs[n + 2]
              && InRange(s.rest[2]) && InRange(s.rest[5])
              && Add(s.rest[2], s.rest[5]) == Sum(Values(AsInputs(s.inputs)))
  {
    hide Commitment, InputHolds, AllBits, Add, Sum, Values, InRange;
    var nfs := s.pubs[1..n + 1];
    assert forall i :: 0 <= i < n ==> nfs[i] == s.pubs[1 + i];
    if InputBits(s.inputs) && TransferNHolds(h, depth, n, s.pubs, TransferNOf(s)) {
      forall i | 0 <= i < n ensures InputPasses(h, depth, s.head, s.inputs[i], s.pubs[0], nfs[i]) {
        assert AsInputs(s.inputs)[i] == AsInput(s.inputs[i]);
      }
    }
    if InputsPass(h, depth, s.head, s.inputs, s.pubs[0], nfs) {
      forall i | 0 <= i < n
        ensures InputHolds(h, depth, s.head, AsInputs(s.inputs)[i], s.pubs[0], s.pubs[1 + i]) && InRange(s.inputs[i].v)
        ensures AllBits(s.inputs[i].bits)
      {
        assert InputPasses(h, depth, s.head, s.inputs[i], s.pubs[0], nfs[i]);
      }
    }
  }

  /** The checks from `before` to `after` enforce exactly the inputs `ins`. */
  ghost predicate InputsEnforced(p: Params, depth: nat, wires: seq<Wire>, before: seq<Check>, after: seq<Check>,
                                 spendSk: Expr, pub: seq<Expr>, n: nat, ins: seq<InputSlots<nat>>)
    requires |pub| == n + 3
  {
    forall w {:trigger Passed(w, after)} :: Consistent(w, wires) ==>
      (Passed(w, after) <==>
        && Passed(w, before)
        && InputsPass(PoseidonHasher(p), depth, Eval(spendSk, w), ReadInputs(ins, w), Eval(pub[0], w), NullifiersAt(pub, w, n)))
  }

  lemma InputsEnforcedStart(p: Params, depth: nat, wires: seq<Wire>, checks: seq<Check>, spendSk: Expr, pub: seq<Expr>, n: nat)
    requires |pub| == n + 3
    ensures InputsEnforced(p, depth, wires, checks, checks, spendSk, pub, n, [])
    ensures FlatInputs<nat>([], depth) == []
    ensures forall w :: Eval(Const(0), w) == Sum(Values(AsInputs(ReadInputs([], w))))
  {
    hide Forced, PoseidonHasher, Consistent, Passed;
  }

  lemma InputsEnforcedStep(p: Params, depth: nat, wires: seq<Wire>, wires': seq<Wire>, before: seq<Check>, mid: seq<Check>, after: seq<Check>,
                           spendSk: Expr, pub: seq<Expr>, n: nat, ins: seq<InputSlots<nat>>, slot: InputSlots<nat>)
    requires |pub| == n + 3 && |ins| < n && ShapedInputs(ins, depth) && ShapedInput(slot, depth)
    requires InputsEnforced(p, depth, wires, before, mid, spendSk, pub, n, ins) && Grows(wires, wires')
    requires forall w {:trigger Passed(w, after)} :: Consistent(w, wires') ==>
               (Passed(w, after) <==>
                 && Passed(w, mid)
                 && InputPasses(PoseidonHasher(p), depth, Eval(spendSk, w), ReadInput(slot, w), Eval(pub[0], w), Eval(pub[1 + |ins|], w)))
    ensures InputsEnforced(p, depth, wires', before, after, spendSk, pub, n, ins + [slot])
  {
    hide Forced, PoseidonHasher, Consistent, Passed, InputPasses, InputsPass, ReadInputs, ReadInput, NullifiersAt, Eval;
    MoreInputs(PoseidonHasher(p), depth, pub, n, ins, slot, spendSk);
  }

  /** The loop over the inputs, accumulating the value sum. */
  method InputLoop(cs: ConstraintSystem, p: Params, depth: nat, n: nat, spendSk: Expr, owner: Expr, pub: seq<Expr>)
    returns (vSum: Expr, ghost ins: seq<InputSlots<nat>>)
    requires |pub| == n + 3
    requires Below(spendSk, |cs.wires|) && Below(owner, |cs.wires|)
    requires forall w {:trigger Consistent(w, cs.wires)} :: Consistent(w, cs.wires) ==>
               Eval(owner, w) == OwnerPk(PoseidonHasher(p), Eval(spendSk, w))
    modifies cs
    ensures Extends(old(cs.wires), old(cs.checks), cs.wires, cs.checks)
    ensures |ins| == n && ShapedInputs(ins, depth)
    ensures Frees(cs.wires) == Layout(Frees(old(cs.wires)).inputs, Frees(old(cs.wires)).witnesses + FlatInputs(ins, depth))
    ensures forall w :: Eval(vSum, w) == Sum(Values(AsInputs(ReadInputs(ins, w))))
    ensures InputsEnforced(p, depth, cs.wires, old(cs.checks), cs.checks, spendSk, pub, n, ins)
  {
    hide Forced, PoseidonHasher, Frees, Consistent, Eval, Below, OwnerPk, FlatInput, FlatInputs, Passed, Add,
      InputPasses, ReadInput, Sum, Values, AsInputs, ReadInputs, InputsEnforced, ShapedInput;
    vSum, ins := Const(0), [];
    InputsEnforcedStart(p, depth, cs.wires, cs.checks, spendSk, pub, n);
    assert Frees(cs.wires).witnesses + [] == Frees(cs.wires).witnesses;
    for i := 0 to n
      invariant Extends(old(cs.wires), old(cs.checks), cs.wires, cs.checks)
      invariant |ins| == i && ShapedInputs(ins, depth)
      invariant Frees(cs.wires) == Layout(Frees(old(cs.wires)).inputs, Frees(old(cs.wires)).witnesses + FlatInputs(ins, depth))
      invariant forall w :: Eval(vSum, w) == Sum(Values(AsInputs(ReadInputs(ins, w))))
      invariant InputsEnforced(p, depth, cs.wires, old(cs.checks), cs.checks, spendSk, pub, n, ins)
    {
      ghost var ins0, wires0, checks0 := ins, cs.wires, cs.checks;
      var v;
      ghost var slot;
      v, slot := InputVar(cs, p, depth, spendSk, owner, pub[0], pub[1 + i]);
      vSum := Sum2(vSum, v);
      ins := ins + [slot];
      MoreInputs(PoseidonHasher(p), depth, pub, n, ins0, slot, spendSk);
      InputsEnforcedStep(p, depth, wires0, cs.wires, old(cs.checks), checks0, cs.checks, spendSk, pub, n, ins0, slot);
    }
  }

  lemma MoreInputs(h: Hasher, depth: nat, pub: seq<Expr>, n: nat, ins: seq<InputSlots<nat>>, slot: InputSlots<nat>, spendSk: Expr)
    requires |pub| == n + 3 && |ins| < n && ShapedInputs(ins, depth) && ShapedInput(slot, depth)
    ensures ShapedInputs(ins + [slot], depth)
    ensures FlatInputs(ins + [slot], depth) == FlatInputs(ins, depth) + FlatInput(slot)
    ensures forall w {:trigger ReadInputs(ins + [slot], w)} ::
              && Sum(Values(AsInputs(ReadInputs(ins + [slot], w)))) == Add(Sum(Values(AsInputs(ReadInputs(ins, w)))), ReadInput(slot, w).v)
              && (InputsPass(h, depth, Eval(spendSk, w), ReadInputs(ins + [slot], w), Eval(pub[0], w), NullifiersAt(pub, w, n)) <==>
                   && InputsPass(h, depth, Eval(spendSk, w), ReadInputs(ins, w), Eval(pub[0], w), NullifiersAt(pub, w, n))
                   && InputPasses(h, depth, Eval(spendSk, w), ReadInput(slot, w), Eval(pub[0], w), Eval(pub[1 + |ins|], w)))
  {
    hide InputsPass, InputPasses, Sum, Values, AsInputs, Add, ReadInput, Eval, FlatInput;
    assert (ins + [slot])[..|ins|] == ins;
    forall w: seq<Fr>
      ensures && Sum(Values(AsInputs(ReadInputs(ins + [slot], w)))) == Add(Sum(Values(AsInputs(ReadInputs(ins, w)))), ReadInput(slot, w).v)
              && (InputsPass(h, depth, Eval(spendSk, w), ReadInputs(ins + [slot], w), Eval(pub[0], w), NullifiersAt(pub, w, n)) <==>
                   && InputsPass(h, depth, Eval(spendSk, w), ReadInputs(ins, w), Eval(pub[0], w), NullifiersAt(pub, w, n))
                   && InputPasses(h, depth, Eval(spendSk, w), ReadInput(slot, w), Eval(pub[0], w), Eval(pub[1 + |ins|], w)))
    {
      assert ReadInputs(ins + [slot], w) == ReadInputs(ins, w) + [ReadInput(slot, w)];
      SumAppend(ReadInputs(ins, w), ReadInput(slot, w));
      InputsPassAppend(h, depth, Eval(spendSk, w), ReadInputs(ins, w), ReadInput(slot, w), Eval(pub[0], w), NullifiersAt(pub, w, n));
    }
  }

  /** The N-input transfer circuit is satisfiable with [root, nf_1, ..., nf_N, out_cm1,
      out_cm2] exactly when some witness satisfies its relation, for every N and depth. */
  lemma TransferNRealized(p: Params, depth: nat, n: nat, wires: seq<Wire>, checks: seq<Check>, slots: Slots<nat>, pub: seq<Fr>)
    requires TransferNSystem(p, depth, n, wires, checks, slots)
    ensures SatisfiableWith(wires, checks, pub) <==> exists wit :: TransferNHolds(PoseidonHasher(p), depth, n, pub, wit)
  {
    hide Emitted, PoseidonHasher, Consistent, Passed, Commitment, Walk, Layered, Frees;
    if wit :| TransferNHolds(PoseidonHasher(p), depth, n, pub, wit) {
      InputsRoundTrip(wit.inputs);
      var values := Slots(pub, wit.spendSk, FromInputs(wit.inputs), NoteSlots(wit.out1) + NoteSlots(wit.out2));
      var w := Assign(wires, slots, values, n + 3, n, 6, depth);
      assert TransferNOf(Read(slots, w)) == wit;
      assert Passed(w, checks);
      ConsistentIsEmitted(w, wires);
      assert Satisfies(w, wires, checks) && At(w, Frees(wires).inputs) == Read(slots, w).pubs;
    }
  }
}
