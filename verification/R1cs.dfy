/** Constraint systems as the circuits emit them. Every allocation adds a wire. A product
    carries the constraint that defines it; the bits of a decomposition are witnesses that
    the prover fills in and nothing but checks constrains. Checks are the remaining
    constraints. */
module R1cs {
  import opened Field
  import FieldLaws

  /** A field variable: a constant or a linear combination of wires. */
  datatype Expr =
    | Const(c: Fr)
    | Var(i: nat)
    | Plus(l: Expr, r: Expr)
    | Minus(l: Expr, r: Expr)
    | Scaled(c: Fr, e: Expr)

  datatype Wire =
    | Input
    | Witness
    | Product(a: Expr, b: Expr)
    | BitOf(e: Expr, position: nat)   // filled with that bit of `e`, but not defined by it

  datatype Check =
    | Equal(l: Expr, r: Expr)
    | IsBit(e: Expr)

  /** Number of bits a decomposition allocates: the size of the field's modulus. */
  const MODULUS_BITS: nat := 255

  function Eval(e: Expr, w: seq<Fr>): Fr {
    match e
    case Const(c) => c
    case Var(i) => if i < |w| then w[i] else 0
    case Plus(l, r) => Add(Eval(l, w), Eval(r, w))
    case Minus(l, r) => Sub(Eval(l, w), Eval(r, w))
    case Scaled(c, e) => Mul(Eval(e, w), c)
  }

  predicate Below(e: Expr, n: nat) {
    match e
    case Const(_) => true
    case Var(i) => i < n
    case Plus(l, r) => Below(l, n) && Below(r, n)
    case Minus(l, r) => Below(l, n) && Below(r, n)
    case Scaled(_, e) => Below(e, n)
  }

  /** Constants fold, so arithmetic on them emits nothing later. */
  function Sum2(a: Expr, b: Expr): (e: Expr)
    ensures forall w :: Eval(e, w) == Add(Eval(a, w), Eval(b, w))
    ensures forall n :: Below(a, n) && Below(b, n) ==> Below(e, n)
  {
    if a.Const? && b.Const? then Const(Add(a.c, b.c)) else Plus(a, b)
  }

  function ScaledBy(a: Expr, c: Fr): (e: Expr)
    ensures forall w :: Eval(e, w) == Mul(Eval(a, w), c)
    ensures forall n :: Below(a, n) ==> Below(e, n)
  {
    if a.Const? then Const(Mul(a.c, c)) else Scaled(c, a)
  }

  /** Bit `j` of a number. */
  function Bit(n: nat, j: nat): Fr {
    if j == 0 then n % 2 else Bit(n / 2, j - 1)
  }

  predicate IsFree(wire: Wire) {
    wire.Input? || wire.Witness?
  }

  predicate GateHolds(wire: Wire, value: Fr, w: seq<Fr>) {
    wire.Product? ==> value == Mul(Eval(wire.a, w), Eval(wire.b, w))
  }

  /** The assignment satisfies every constraint that the wires themselves carry. */
  ghost predicate Emitted(w: seq<Fr>, wires: seq<Wire>) {
    |w| >= |wires| && forall i :: 0 <= i < |wires| ==> GateHolds(wires[i], w[i], w)
  }

  predicate WireHolds(wire: Wire, value: Fr, w: seq<Fr>) {
    match wire
    case BitOf(e, j) => value == Bit(Eval(e, w), j)
    case _ => GateHolds(wire, value, w)
  }

  /** Moreover every decomposition is filled in as the prover does. */
  ghost predicate Consistent(w: seq<Fr>, wires: seq<Wire>) {
    |w| >= |wires| && forall i :: 0 <= i < |wires| ==> WireHolds(wires[i], w[i], w)
  }

  predicate CheckHolds(c: Check, w: seq<Fr>) {
    match c
    case Equal(l, r) => Eval(l, w) == Eval(r, w)
    case IsBit(e) => Eval(e, w) == 0 || Eval(e, w) == 1
  }

  ghost predicate Passed(w: seq<Fr>, checks: seq<Check>) {
    forall i :: 0 <= i < |checks| ==> CheckHolds(checks[i], w)
  }

  /** The assignment satisfies the whole system: what its wires carry and its checks. */
  ghost predicate Satisfies(w: seq<Fr>, wires: seq<Wire>, checks: seq<Check>) {
    |w| == |wires| && Emitted(w, wires) && Passed(w, checks)
  }

  /** The constraints leave no freedom in the decompositions: whatever satisfies them has
      the bits the prover would fill in. */
  ghost predicate Forced(wires: seq<Wire>, checks: seq<Check>) {
    forall w {:trigger Passed(w, checks)} :: Emitted(w, wires) && Passed(w, checks) ==> Consistent(w, wires)
  }

  lemma ConsistentIsEmitted(w: seq<Fr>, wires: seq<Wire>)
    requires Consistent(w, wires)
    ensures Emitted(w, wires)
  {
    forall i | 0 <= i < |wires| ensures GateHolds(wires[i], w[i], w) {
      assert WireHolds(wires[i], w[i], w);
    }
  }

  predicate WireBelow(wire: Wire, n: nat) {
    match wire
    case Product(a, b) => Below(a, n) && Below(b, n)
    case BitOf(e, _) => Below(e, n)
    case _ => true
  }

  /** Wires are defined from earlier wires only. */
  ghost predicate Layered(wires: seq<Wire>) {
    forall i :: 0 <= i < |wires| ==> WireBelow(wires[i], i)
  }

  /** Positions of the public inputs and of the witnesses, each in allocation order. */
  datatype Layout = Layout(inputs: seq<nat>, witnesses: seq<nat>)

  function Allocated(layout: Layout, wire: Wire, position: nat): Layout {
    match wire
    case Input => layout.(inputs := layout.inputs + [position])
    case Witness => layout.(witnesses := layout.witnesses + [position])
    case _ => layout
  }

  function Frees(wires: seq<Wire>): Layout {
    if wires == [] then Layout([], [])
    else
      var k := |wires| - 1;
      Allocated(Frees(wires[..k]), wires[k], k)
  }

  function At(w: seq<Fr>, positions: seq<nat>): (vs: seq<Fr>)
    ensures |vs| == |positions|
    ensures forall i :: 0 <= i < |vs| ==> vs[i] == Eval(Var(positions[i]), w)
  {
    seq(|positions|, i requires 0 <= i < |positions| => Eval(Var(positions[i]), w))
  }

  // ---- witness generation ----

  lemma {:induction false} EvalExtends(e: Expr, w: seq<Fr>, more: seq<Fr>)
    requires Below(e, |w|)
    ensures Eval(e, w + more) == Eval(e, w)
  {
    match e
    case Plus(l, r) => EvalExtends(l, w, more); EvalExtends(r, w, more);
    case Minus(l, r) => EvalExtends(l, w, more); EvalExtends(r, w, more);
    case Scaled(_, e') => EvalExtends(e', w, more);
    case _ =>
  }

  lemma {:induction false} BelowMonotone(e: Expr, m: nat, n: nat)
    requires Below(e, m) && m <= n
    ensures Below(e, n)
  {
    match e
    case Plus(l, r) => BelowMonotone(l, m, n); BelowMonotone(r, m, n);
    case Minus(l, r) => BelowMonotone(l, m, n); BelowMonotone(r, m, n);
    case Scaled(_, e') => BelowMonotone(e', m, n);
    case _ =>
  }

  ghost predicate Within(positions: seq<nat>, n: nat) {
    forall i :: 0 <= i < |positions| ==> positions[i] < n
  }

  lemma {:induction false} FreesWithin(wires: seq<Wire>)
    ensures Within(Frees(wires).inputs, |wires|) && Within(Frees(wires).witnesses, |wires|)
  {
    if wires != [] { FreesWithin(wires[..|wires| - 1]); }
  }

  lemma AtExtends(w: seq<Fr>, more: seq<Fr>, positions: seq<nat>)
    requires Within(positions, |w|)
    ensures At(w + more, positions) == At(w, positions)
  {
  }

  lemma WireExtends(wire: Wire, value: Fr, w: seq<Fr>, more: seq<Fr>)
    requires WireBelow(wire, |w|)
    ensures WireHolds(wire, value, w + more) <==> WireHolds(wire, value, w)
  {
    match wire
    case Product(a, b) => EvalExtends(a, w, more); EvalExtends(b, w, more);
    case BitOf(e, _) => EvalExtends(e, w, more);
    case _ =>
  }

  lemma WireBelowMonotone(wire: Wire, m: nat, n: nat)
    requires WireBelow(wire, m) && m <= n
    ensures WireBelow(wire, n)
  {
    match wire
    case Product(a, b) => BelowMonotone(a, m, n); BelowMonotone(b, m, n);
    case BitOf(e, _) => BelowMonotone(e, m, n);
    case _ =>
  }

  function Define(wire: Wire, w: seq<Fr>): Fr
    requires !IsFree(wire)
  {
    match wire
    case Product(a, b) => Mul(Eval(a, w), Eval(b, w))
    case BitOf(e, j) => Bit(Eval(e, w), j)
  }

  /** Any choice of public inputs and witnesses extends to a consistent assignment. */
  lemma {:induction false} Fill(wires: seq<Wire>, pub: seq<Fr>, wit: seq<Fr>) returns (w: seq<Fr>)
    requires Layered(wires)
    requires |pub| == |Frees(wires).inputs| && |wit| == |Frees(wires).witnesses|
    ensures |w| == |wires| && Consistent(w, wires)
    ensures At(w, Frees(wires).inputs) == pub && At(w, Frees(wires).witnesses) == wit
  {
    if wires == [] {
      w := [];
    } else {
      var k := |wires| - 1;
      var front := wires[..k];
      var v: Fr := 0;
      var pub0, wit0 := pub, wit;
      match wires[k] {
        case Input => pub0, v := pub[..|pub| - 1], pub[|pub| - 1];
        case Witness => wit0, v := wit[..|wit| - 1], wit[|wit| - 1];
        case _ =>
      }
      var w0 := Fill(front, pub0, wit0);
      if !IsFree(wires[k]) {
        v := Define(wires[k], w0);
      }
      w := w0 + [v];
      FillStep(front, wires[k], w0, v);
      assert wires == front + [wires[k]];
      FreesWithin(front);
      AtExtends(w0, [v], Frees(front).inputs);
      AtExtends(w0, [v], Frees(front).witnesses);
      AtAppend(w, Frees(front).inputs, k);
      AtAppend(w, Frees(front).witnesses, k);
    }
  }

  lemma AtAppend(w: seq<Fr>, positions: seq<nat>, i: nat)
    ensures At(w, positions + [i]) == At(w, positions) + [Eval(Var(i), w)]
  {
  }

  lemma FillStep(front: seq<Wire>, wire: Wire, w0: seq<Fr>, v: Fr)
    requires Layered(front + [wire]) && |w0| == |front| && Consistent(w0, front)
    requires IsFree(wire) || v == Define(wire, w0)
    ensures Consistent(w0 + [v], front + [wire])
  {
    var wires := front + [wire];
    forall i | 0 <= i < |wires| ensures WireHolds(wires[i], (w0 + [v])[i], w0 + [v]) {
      assert WireBelow(wires[i], i);
      WireBelowMonotone(wires[i], i, |w0|);
      if i < |front| {
        WireExtends(wires[i], w0[i], w0, [v]);
      } else {
        WireExtends(wire, v, w0, [v]);
      }
    }
  }

  // ---- growing a system ----

  /** Later wires leave the meaning of earlier ones alone. */
  ghost predicate Grows(before: seq<Wire>, after: seq<Wire>) {
    && before <= after
    && (Layered(before) ==> Layered(after))
    && (forall e {:trigger Below(e, |after|)} :: Below(e, |before|) ==> Below(e, |after|))
    && (forall w {:trigger Consistent(w, after)} :: Consistent(w, after) ==> Consistent(w, before))
    && forall w {:trigger Emitted(w, after)} :: Emitted(w, after) ==> Emitted(w, before)
  }

  /** The system grows, and its decompositions stay forced. */
  ghost predicate Extends(wires: seq<Wire>, checks: seq<Check>, wires': seq<Wire>, checks': seq<Check>) {
    Grows(wires, wires') && (Forced(wires, checks) ==> Forced(wires', checks'))
  }

  lemma Append(before: seq<Wire>, wire: Wire)
    requires WireBelow(wire, |before|)
    ensures Grows(before, before + [wire])
    ensures Frees(before + [wire]) == Allocated(Frees(before), wire, |before|)
    ensures forall w :: Consistent(w, before + [wire]) <==>
              Consistent(w, before) && |w| > |before| && WireHolds(wire, w[|before|], w)
    ensures forall w :: Emitted(w, before + [wire]) <==>
              Emitted(w, before) && |w| > |before| && GateHolds(wire, w[|before|], w)
  {
    hide WireHolds, GateHolds, WireBelow, Consistent, Emitted;
    var after := before + [wire];
    assert after[..|before|] == before;
    forall e | Below(e, |before|) ensures Below(e, |after|) { BelowMonotone(e, |before|, |after|); }
    AppendConsistent(before, wire);
    AppendEmitted(before, wire);
  }

  lemma AppendConsistent(before: seq<Wire>, wire: Wire)
    ensures forall w :: Consistent(w, before + [wire]) <==>
              Consistent(w, before) && |w| > |before| && WireHolds(wire, w[|before|], w)
  {
    hide WireHolds;
    var after := before + [wire];
    forall w | Consistent(w, after) ensures Consistent(w, before) && WireHolds(wire, w[|before|], w) {
      forall i | 0 <= i < |before| ensures WireHolds(before[i], w[i], w) {
        assert after[i] == before[i];
      }
      assert after[|before|] == wire;
    }
  }

  lemma AppendEmitted(before: seq<Wire>, wire: Wire)
    ensures forall w :: Emitted(w, before + [wire]) <==>
              Emitted(w, before) && |w| > |before| && GateHolds(wire, w[|before|], w)
  {
    hide GateHolds;
    var after := before + [wire];
    forall w | Emitted(w, after) ensures Emitted(w, before) && GateHolds(wire, w[|before|], w) {
      forall i | 0 <= i < |before| ensures GateHolds(before[i], w[i], w) {
        assert after[i] == before[i];
      }
      assert after[|before|] == wire;
    }
  }

  lemma PassedAppend(checks: seq<Check>, c: Check)
    ensures forall w {:trigger Passed(w, checks + [c])} :: Passed(w, checks + [c]) <==> Passed(w, checks) && CheckHolds(c, w)
  {
    forall w ensures Passed(w, checks + [c]) <==> Passed(w, checks) && CheckHolds(c, w) {
      if Passed(w, checks + [c]) {
        assert (checks + [c])[|checks|] == c;
        forall i | 0 <= i < |checks| ensures CheckHolds(checks[i], w) {
          assert (checks + [c])[i] == checks[i];
        }
      }
    }
  }

  class ConstraintSystem {
    var wires: seq<Wire>
    var checks: seq<Check>

    constructor ()
      ensures wires == [] && checks == []
    {
      wires, checks := [], [];
    }

    method Allocate(wire: Wire) returns (e: Expr)
      requires WireBelow(wire, |wires|) && !wire.BitOf?
      modifies this`wires
      ensures wires == old(wires) + [wire] && e == Var(|old(wires)|)
      ensures Extends(old(wires), old(checks), wires, checks)
      ensures Frees(wires) == Allocated(Frees(old(wires)), wire, |old(wires)|)
      ensures forall w :: Consistent(w, wires) ==> WireHolds(wire, Eval(e, w), w)
    {
      e := Var(|wires|);
      Append(wires, wire);
      wires := wires + [wire];
      assert forall w :: !wire.BitOf? && |w| >= |wires| ==>
               (WireHolds(wire, w[|old(wires)|], w) <==> GateHolds(wire, w[|old(wires)|], w));
    }

    /** One bit of a decomposition: a boolean witness. */
    method NewBit(value: Expr, position: nat) returns (e: Expr)
      requires Below(value, |wires|)
      modifies this
      ensures wires == old(wires) + [BitOf(value, position)] && e == Var(|old(wires)|)
      ensures Grows(old(wires), wires) && Frees(wires) == Frees(old(wires))
      ensures forall w {:trigger Consistent(w, wires)} :: Consistent(w, wires) <==>
                Consistent(w, old(wires)) && |w| > |old(wires)| && Eval(e, w) == Bit(Eval(value, w), position)
      ensures forall w {:trigger Passed(w, checks)} :: Passed(w, checks) <==> Passed(w, old(checks)) && CheckHolds(IsBit(e), w)
    {
      e := Var(|wires|);
      Append(wires, BitOf(value, position));
      wires := wires + [BitOf(value, position)];
      Enforce(IsBit(e));
    }

    method Enforce(c: Check)
      modifies this`checks
      ensures checks == old(checks) + [c]
      ensures Forced(wires, old(checks)) ==> Forced(wires, checks)
      ensures forall w {:trigger Passed(w, checks)} :: Passed(w, checks) <==> Passed(w, old(checks)) && CheckHolds(c, w)
    {
      PassedAppend(checks, c);
      checks := checks + [c];
    }

    /** A witness constrained to 0 or 1. */
    method NewBoolean() returns (e: Expr)
      modifies this
      ensures Extends(old(wires), old(checks), wires, checks) && e == Var(|old(wires)|) && Below(e, |wires|)
      ensures Frees(wires) == Allocated(Frees(old(wires)), Witness, |old(wires)|)
      ensures forall w {:trigger Passed(w, checks)} :: Passed(w, checks) <==> Passed(w, old(checks)) && CheckHolds(IsBit(e), w)
    {
      e := Allocate(Witness);
      Enforce(IsBit(e));
    }

    /** The product of two variables. A constant factor folds away; otherwise one wire and
        its defining constraint are emitted. */
    method Times(a: Expr, b: Expr) returns (c: Expr)
      requires Below(a, |wires|) && Below(b, |wires|)
      modifies this`wires
      ensures Extends(old(wires), old(checks), wires, checks) && Frees(wires) == Frees(old(wires))
      ensures Below(c, |wires|)
      ensures forall w {:trigger Consistent(w, wires)} :: Consistent(w, wires) ==> Eval(c, w) == Mul(Eval(a, w), Eval(b, w))
    {
      if b.Const? {
        return ScaledBy(a, b.c);
      }
      if a.Const? {
        forall x: Fr ensures Mul(x, a.c) == Mul(a.c, x) {
          FieldLaws.MulCommutes(R, x, a.c);
        }
        return ScaledBy(b, a.c);
      }
      c := Allocate(Product(a, b));
    }

    /** `t` when the bit is set, else `f`. */
    method Select(bit: Expr, t: Expr, f: Expr) returns (r: Expr)
      requires Below(bit, |wires|) && Below(t, |wires|) && Below(f, |wires|)
      modifies this`wires
      ensures Extends(old(wires), old(checks), wires, checks) && Frees(wires) == Frees(old(wires))
      ensures Below(r, |wires|)
      ensures forall w {:trigger Consistent(w, wires)} :: Consistent(w, wires) && CheckHolds(IsBit(bit), w) ==>
                Eval(r, w) == if Eval(bit, w) == 1 then Eval(t, w) else Eval(f, w)
    {
      var p := Times(bit, Minus(t, f));
      r := Plus(f, p);
      forall w | Consistent(w, wires) && CheckHolds(IsBit(bit), w)
        ensures Eval(r, w) == if Eval(bit, w) == 1 then Eval(t, w) else Eval(f, w)
      {
        SelectArithmetic(Eval(t, w), Eval(f, w));
      }
    }
  }

  lemma SelectArithmetic(t: Fr, f: Fr)
    ensures Add(f, Mul(1, Sub(t, f))) == t && Add(f, Mul(0, Sub(t, f))) == f
  {
  }
}
