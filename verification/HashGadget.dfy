/** The circuit gadgets: the Poseidon permutation on circuit variables, and the bit-based
    range check. Each emitted gadget computes its native counterpart under every
    consistent assignment. */
module HashGadget {
  import opened Field
  import FieldLaws
  import opened MerkleSpec
  import opened Poseidon
  import opened R1cs

  type Exprs = s: seq<Expr> | |s| == 3 witness [Const(0), Const(0), Const(0)]

  function EvalRow(state: Exprs, w: seq<Fr>): FrRow {
    [Eval(state[0], w), Eval(state[1], w), Eval(state[2], w)]
  }

  ghost predicate AllBelow(state: seq<Expr>, n: nat) {
    forall i :: 0 <= i < |state| ==> Below(state[i], n)
  }

  method Pow5Var(cs: ConstraintSystem, x: Expr) returns (r: Expr)
    requires Below(x, |cs.wires|)
    modifies cs`wires
    ensures Extends(old(cs.wires), old(cs.checks), cs.wires, cs.checks) && Frees(cs.wires) == Frees(old(cs.wires))
    ensures Below(r, |cs.wires|)
    ensures forall w {:trigger Consistent(w, cs.wires)} :: Consistent(w, cs.wires) ==> Eval(r, w) == Pow5(R, Eval(x, w))
  {
    hide Forced, MulIn, Eval, Frees, Consistent, Below;
    var x2 := cs.Times(x, x);
    var x4 := cs.Times(x2, x2);
    r := cs.Times(x4, x);
  }

  /** The S-box on circuit variables, one cell after another. */
  method SBoxVar(cs: ConstraintSystem, full: bool, state: Exprs) returns (out: Exprs)
    requires AllBelow(state, |cs.wires|)
    modifies cs`wires
    ensures Extends(old(cs.wires), old(cs.checks), cs.wires, cs.checks) && Frees(cs.wires) == Frees(old(cs.wires))
    ensures AllBelow(out, |cs.wires|)
    ensures forall w {:trigger Consistent(w, cs.wires)} :: Consistent(w, cs.wires) ==>
              EvalRow(out, w) == SBox(R, full, EvalRow(state, w))
  {
    hide Forced, Pow5, MulIn, Eval, Frees, Consistent, Below;
    out := state;
    var last := if full then 3 else 1;
    for i := 0 to last
      invariant Extends(old(cs.wires), old(cs.checks), cs.wires, cs.checks) && Frees(cs.wires) == Frees(old(cs.wires))
      invariant AllBelow(out, |cs.wires|)
      invariant forall k :: i <= k < 3 ==> out[k] == state[k]
      invariant forall w {:trigger Consistent(w, cs.wires)} :: Consistent(w, cs.wires) ==>
                  forall k :: 0 <= k < i ==> Eval(out[k], w) == Pow5(R, Eval(state[k], w))
    {
      var c := Pow5Var(cs, out[i]);
      out := out[i := c];
    }
  }

  function MixVar(mds: seq<FrRow>, state: Exprs): (out: Exprs)
    requires |mds| == 3
    ensures forall w :: EvalRow(out, w) == Mix(R, mds, EvalRow(state, w))
    ensures forall n :: AllBelow(state, n) ==> AllBelow(out, n)
  {
    assert forall m: FrRow, w {:trigger Eval(DotVar(m, state), w)} :: Eval(DotVar(m, state), w) == Dot(R, m, EvalRow(state, w));
    [DotVar(mds[0], state), DotVar(mds[1], state), DotVar(mds[2], state)]
  }

  function DotVar(m: FrRow, state: Exprs): (e: Expr)
    ensures forall w :: Eval(e, w) == Dot(R, m, EvalRow(state, w))
    ensures forall n :: AllBelow(state, n) ==> Below(e, n)
  {
    forall x: Fr, y: Fr ensures Mul(x, y) == Mul(y, x) { FieldLaws.MulCommutes(R, x, y); }
    Sum2(Sum2(Sum2(Const(0), ScaledBy(state[0], m[0])), ScaledBy(state[1], m[1])), ScaledBy(state[2], m[2]))
  }

  function AddConstantsVar(rc: FrRow, state: Exprs): (out: Exprs)
    ensures forall w :: EvalRow(out, w) == AddConstants(R, rc, EvalRow(state, w))
    ensures forall n :: AllBelow(state, n) ==> AllBelow(out, n)
  {
    [Sum2(state[0], Const(rc[0])), Sum2(state[1], Const(rc[1])), Sum2(state[2], Const(rc[2]))]
  }

  /** The permutation on circuit variables. Under every consistent assignment of the
      emitted system the outputs are the native permutation of the inputs. */
  method PermuteVar(cs: ConstraintSystem, p: Params, state: Exprs) returns (out: Exprs)
    requires AllBelow(state, |cs.wires|)
    modifies cs`wires
    ensures Extends(old(cs.wires), old(cs.checks), cs.wires, cs.checks) && Frees(cs.wires) == Frees(old(cs.wires))
    ensures AllBelow(out, |cs.wires|)
    ensures forall w {:trigger Consistent(w, cs.wires)} :: Consistent(w, cs.wires) ==>
              EvalRow(out, w) == Permuted(R, p, EvalRow(state, w))
  {
    hide Forced, EvalRow, SBox, Mix, AddConstants, Eval, Frees, Consistent, AllBelow, MixVar, AddConstantsVar;
    out := state;
    for round := 0 to N_ROUNDS
      invariant Extends(old(cs.wires), old(cs.checks), cs.wires, cs.checks) && Frees(cs.wires) == Frees(old(cs.wires))
      invariant AllBelow(out, |cs.wires|)
      invariant forall w {:trigger Consistent(w, cs.wires)} :: Consistent(w, cs.wires) ==>
                  EvalRow(out, w) == Rounds(R, p, EvalRow(state, w), round)
    {
      var added: Exprs := AddConstantsVar(p.rc[round], out);
      var boxed: Exprs := SBoxVar(cs, FullRound(round), added);
      out := MixVar(p.mds, boxed);
    }
  }

  /** 2-to-1 compression in the circuit. */
  method Hash2Var(cs: ConstraintSystem, p: Params, a: Expr, b: Expr) returns (r: Expr)
    requires Below(a, |cs.wires|) && Below(b, |cs.wires|)
    modifies cs`wires
    ensures Extends(old(cs.wires), old(cs.checks), cs.wires, cs.checks) && Frees(cs.wires) == Frees(old(cs.wires))
    ensures Below(r, |cs.wires|)
    ensures forall w {:trigger Consistent(w, cs.wires)} :: Consistent(w, cs.wires) ==>
              Eval(r, w) == PoseidonHasher(p)(Eval(a, w), Eval(b, w))
  {
    hide Forced, Permuted, Frees, Consistent;
    var state: Exprs := [Const(0), a, b];
    var out: Exprs := PermuteVar(cs, p, state);
    r := out[0];
    forall w | Consistent(w, cs.wires)
      ensures Eval(r, w) == PoseidonHasher(p)(Eval(a, w), Eval(b, w))
    {
      assert EvalRow(state, w) == [0, Eval(a, w), Eval(b, w)];
      assert EvalRow(out, w)[0] == Eval(r, w);
    }
  }

  // ---- range check ----

  /** Doubling the exponent's bound by repeated squaring; only the lengths below matter. */
  lemma {:induction false} Pow2Adds(a: nat, b: nat, x: nat)
    requires Pow2(b) == x
    ensures Pow2(a + b) == Pow2(a) * x
  {
    if a > 0 {
      Pow2Adds(a - 1, b, x);
      Doubled(Pow2(a - 1), x);
    }
  }

  lemma Doubled(y: nat, x: nat)
    ensures 2 * (y * x) == (2 * y) * x
  {
  }

  lemma Pow2Constants()
    ensures Pow2(64) == TWO_64
    ensures Pow2(MODULUS_BITS - 1) < R < Pow2(MODULUS_BITS)
  {
    assert Pow2(4) == 16 && Pow2(7) == 128;
    Pow2Adds(4, 4, 16);
    Pow2Adds(8, 8, 256);
    Pow2Adds(16, 16, 0x1_0000);
    Pow2Adds(32, 32, 0x1_0000_0000);
    Pow2Adds(64, 64, TWO_64);
    Pow2Adds(64, 128, TWO_128);
    Pow2Adds(32, 192, TWO_64 * TWO_128);
    Pow2Adds(16, 224, 0x1_0000_0000 * TWO_64 * TWO_128);
    Pow2Adds(8, 240, 0x1_0000 * 0x1_0000_0000 * TWO_64 * TWO_128);
    Pow2Adds(7, 248, 0x100 * 0x1_0000 * 0x1_0000_0000 * TWO_64 * TWO_128);
  }

  /** All bits of `n` from `lo` up to `hi` are zero. */
  ghost predicate BitsZero(n: nat, lo: nat, hi: nat) {
    forall j :: lo <= j < hi ==> Bit(n, j) == 0
  }

  lemma BitsZeroHalf(n: nat, lo: nat, hi: nat)
    requires 0 < lo
    ensures BitsZero(n, lo, hi) <==> hi == 0 || BitsZero(n / 2, lo - 1, hi - 1)
  {
    assert forall j :: 0 < j ==> Bit(n, j) == Bit(n / 2, j - 1);
    if hi > 0 && BitsZero(n, lo, hi) {
      forall j | lo - 1 <= j < hi - 1 ensures Bit(n / 2, j) == 0 { assert Bit(n, j + 1) == 0; }
    }
  }

  /** A number of at most `hi` bits is below 2^lo exactly when its bits from `lo` on are
      zero. */
  lemma {:induction false} HighBitsZero(n: nat, lo: nat, hi: nat)
    requires lo <= hi && n < Pow2(hi)
    ensures BitsZero(n, lo, hi) <==> n < Pow2(lo)
    decreases hi
  {
    if lo > 0 {
      BitsZeroHalf(n, lo, hi);
      HighBitsZero(n / 2, lo - 1, hi - 1);
    } else if hi > 0 {
      BitsZeroHalf(n, 1, hi);
      HighBitsZero(n / 2, 0, hi - 1);
      assert Bit(n, 0) == n % 2;
      assert BitsZero(n, 0, hi) <==> Bit(n, 0) == 0 && BitsZero(n, 1, hi);
    }
  }

  // ---- the packing equation ----

  function EvalAll(es: seq<Expr>, w: seq<Fr>): (vs: seq<Fr>)
    ensures |vs| == |es| && forall i :: 0 <= i < |es| ==> vs[i] == Eval(es[i], w)
  {
    seq(|es|, i requires 0 <= i < |es| => Eval(es[i], w))
  }

  ghost predicate AllBits(fs: seq<Fr>) {
    forall i :: 0 <= i < |fs| ==> fs[i] == 0 || fs[i] == 1
  }

  /** The number the digits spell, least significant first. */
  function Weight(bs: seq<Fr>): nat {
    if bs == [] then 0 else bs[0] + 2 * Weight(bs[1..])
  }

  /** The linear combination of the bits, the coefficient doubling from one to the next. */
  function PackedVar(le: seq<Expr>, c: Fr): (e: Expr)
    ensures forall n :: AllBelow(le, n) ==> Below(e, n)
  {
    if le == [] then Const(0)
    else
      assert forall n :: AllBelow(le, n) ==> Below(le[0], n) && AllBelow(le[1..], n);
      Sum2(ScaledBy(le[0], c), PackedVar(le[1..], Add(c, c)))
  }

  /** The packed value is the number the bits spell, modulo R. */
  lemma {:induction false} PackedIsWeight(le: seq<Expr>, c: Fr, w: seq<Fr>)
    ensures Eval(PackedVar(le, c), w) == MulIn(R, c, Weight(EvalAll(le, w)))
  {
    hide MulIn, AddIn;
    if le != [] {
      var b, rest := Eval(le[0], w), Weight(EvalAll(le[1..], w));
      assert EvalAll(le, w)[1..] == EvalAll(le[1..], w);
      PackedIsWeight(le[1..], Add(c, c), w);
      InFull(c, c);
      InFull(b, c);
      FieldLaws.ModMul(R, c + c, rest);
      InFull(c + c, rest);
      FieldLaws.ModAdd(R, b * c, (c + c) * rest);
      Regroup(b, c, rest);
    } else {
      InFull(c, 0);
    }
  }

  lemma InFull(a: int, b: int)
    ensures AddIn(R, a, b) == (a + b) % R && MulIn(R, a, b) == (a * b) % R
  {
  }

  lemma Regroup(b: int, c: int, rest: int)
    ensures AddIn(R, b * c, (c + c) * rest) == MulIn(R, c, b + 2 * rest)
  {
    assert b * c + (c + c) * rest == c * (b + 2 * rest);
  }

  /** Boolean digits are the bits of the number they spell. */
  lemma {:induction false} WeightBits(bs: seq<Fr>, j: nat)
    requires AllBits(bs) && j < |bs|
    ensures Bit(Weight(bs), j) == bs[j]
    decreases |bs|
  {
    assert bs[0] == 0 || bs[0] == 1;
    if j > 0 {
      assert AllBits(bs[1..]) by { assert forall i :: 0 <= i < |bs| - 1 ==> bs[1..][i] == bs[i + 1]; }
      WeightBits(bs[1..], j - 1);
    }
  }

  lemma {:induction false} WeightBound(bs: seq<Fr>, lo: nat)
    requires AllBits(bs) && forall j :: lo <= j < |bs| ==> bs[j] == 0
    ensures Weight(bs) < Pow2(lo)
    decreases |bs|
  {
    if bs != [] {
      assert bs[0] == 0 || bs[0] == 1;
      assert forall i :: 0 <= i < |bs| - 1 ==> bs[1..][i] == bs[i + 1];
      WeightBound(bs[1..], if lo > 0 then lo - 1 else 0);
    }
  }

  /** The bits of a number spell it. */
  lemma {:induction false} BitsWeigh(n: nat, bs: seq<Fr>)
    requires n < Pow2(|bs|) && forall j :: 0 <= j < |bs| ==> bs[j] == Bit(n, j)
    ensures Weight(bs) == n && AllBits(bs)
    decreases |bs|
  {
    if bs != [] {
      assert bs[0] == n % 2;
      forall j | 0 <= j < |bs| - 1 ensures bs[1..][j] == Bit(n / 2, j) {
        assert bs[1..][j] == bs[j + 1];
      }
      BitsWeigh(n / 2, bs[1..]);
      forall i | 0 <= i < |bs| ensures bs[i] == 0 || bs[i] == 1 {
        if i > 0 { assert bs[i] == bs[1..][i - 1]; }
      }
    }
  }

  /** Soundness of the decomposition: boolean digits that pack to the value, with zeros from
      `bits` on, are its canonical bits, and it has no others. The packing equation cannot
      wrap, so no comparison with the modulus is needed. */
  lemma PackedForces(v: Fr, bs: seq<Fr>, bits: nat)
    requires AllBits(bs) && bits < MODULUS_BITS
    requires forall j :: bits <= j < |bs| ==> bs[j] == 0
    requires v == Weight(bs) % R
    ensures forall j :: 0 <= j < |bs| ==> bs[j] == Bit(v, j)
  {
    WeightBound(bs, bits);
    Pow2Constants();
    Pow2Monotone(bits, MODULUS_BITS - 1);
    assert v == Weight(bs);
    forall j | 0 <= j < |bs| ensures bs[j] == Bit(v, j) { WeightBits(bs, j); }
  }

  lemma {:induction false} Pow2Monotone(a: nat, b: nat)
    requires a <= b
    ensures Pow2(a) <= Pow2(b)
  {
    if a < b { Pow2Monotone(a, b - 1); }
  }

  /** The little-endian decomposition: boolean witnesses that pack to the value. */
  method ToBits(cs: ConstraintSystem, value: Expr) returns (le: seq<Expr>)
    requires Below(value, |cs.wires|)
    modifies cs
    ensures Grows(old(cs.wires), cs.wires) && Frees(cs.wires) == Frees(old(cs.wires))
    ensures |le| == MODULUS_BITS
    ensures forall w {:trigger Consistent(w, cs.wires)} :: Consistent(w, cs.wires) <==>
              Consistent(w, old(cs.wires)) && |w| >= |cs.wires| && forall j :: 0 <= j < MODULUS_BITS ==> Eval(le[j], w) == Bit(Eval(value, w), j)
    ensures forall w {:trigger Passed(w, cs.checks)} :: Passed(w, cs.checks) <==>
              Passed(w, old(cs.checks)) && AllBits(EvalAll(le, w)) && Eval(value, w) == Weight(EvalAll(le, w)) % R
  {
    hide Frees, Consistent, Emitted, Passed, Eval, Bit;
    le := [];
    AssignsAll(cs.wires);
    for i := 0 to MODULUS_BITS
      invariant Grows(old(cs.wires), cs.wires) && Frees(cs.wires) == Frees(old(cs.wires))
      invariant |le| == i
      invariant forall w {:trigger Consistent(w, cs.wires)} :: Consistent(w, cs.wires) <==>
                  Consistent(w, old(cs.wires)) && |w| >= |cs.wires| && forall j :: 0 <= j < i ==> Eval(le[j], w) == Bit(Eval(value, w), j)
      invariant forall w {:trigger Passed(w, cs.checks)} :: Passed(w, cs.checks) <==>
                  Passed(w, old(cs.checks)) && AllBits(EvalAll(le, w))
    {
      var b := cs.NewBit(value, i);
      le := le + [b];
      BitsAppend(le[..i], b);
      assert le[..i] + [b] == le;
    }
    cs.Enforce(Equal(value, PackedVar(le, 1)));
    forall w ensures Eval(PackedVar(le, 1), w) == Weight(EvalAll(le, w)) % R {
      PackedIsWeight(le, 1, w);
      InFull(1, Weight(EvalAll(le, w)));
    }
  }

  lemma BitsAppend(le: seq<Expr>, b: Expr)
    ensures forall w {:trigger EvalAll(le + [b], w)} ::
              AllBits(EvalAll(le + [b], w)) <==> AllBits(EvalAll(le, w)) && CheckHolds(IsBit(b), w)
  {
    hide Eval;
    forall w: seq<Fr>
      ensures AllBits(EvalAll(le + [b], w)) <==> AllBits(EvalAll(le, w)) && CheckHolds(IsBit(b), w)
    {
      var bs := EvalAll(le + [b], w);
      assert forall i :: 0 <= i < |le| ==> bs[i] == EvalAll(le, w)[i];
      assert bs[|le|] == Eval(b, w);
    }
  }

  /** Enforce value < 2^bits: decompose the value and force every bit from `bits` on to
      zero. The checks force the bits, and pass exactly on values in range. */
  method RangeCheck(cs: ConstraintSystem, value: Expr, bits: nat)
    requires Below(value, |cs.wires|) && bits < MODULUS_BITS
    modifies cs
    ensures Extends(old(cs.wires), old(cs.checks), cs.wires, cs.checks) && Frees(cs.wires) == Frees(old(cs.wires))
    ensures forall w {:trigger Passed(w, cs.checks)} :: Consistent(w, cs.wires) ==>
              (Passed(w, cs.checks) <==> Passed(w, old(cs.checks)) && Eval(value, w) < Pow2(bits))
  {
    hide Frees, Consistent, Emitted, Passed, Eval, Bit, Pow2, Weight;
    var le := ToBits(cs, value);
    label Decomposed:
    for i := bits to MODULUS_BITS
      invariant cs.wires == old@Decomposed(cs.wires)
      invariant forall w {:trigger Passed(w, cs.checks)} ::
                  Passed(w, cs.checks) <==> Passed(w, old@Decomposed(cs.checks)) && forall j :: bits <= j < i ==> Eval(le[j], w) == 0
    {
      cs.Enforce(Equal(le[i], Const(0)));
      assert forall w :: Eval(Const(0), w) == 0 by { EvalZero(); }
    }
    forall w | Consistent(w, cs.wires)
      ensures Passed(w, cs.checks) <==> Passed(w, old(cs.checks)) && Eval(value, w) < Pow2(bits)
    {
      CanonicalBits(Eval(value, w), EvalAll(le, w), bits);
    }
    AssignsAll(cs.wires);
    if Forced(old(cs.wires), old(cs.checks)) {
      forall w | Emitted(w, cs.wires) && Passed(w, cs.checks) ensures Consistent(w, cs.wires) {
        PackedForces(Eval(value, w), EvalAll(le, w), bits);
      }
    }
  }

  /** A consistent assignment has a value for every wire. */
  lemma AssignsAll(wires: seq<Wire>)
    ensures forall w :: Consistent(w, wires) || Emitted(w, wires) ==> |w| >= |wires|
  {
  }

  lemma EvalZero()
    ensures forall w :: Eval(Const(0), w) == 0
  {
  }

  /** The canonical bits of a value pass the decomposition's checks, and vanish from `bits`
      on exactly when it is in range. */
  lemma CanonicalBits(v: Fr, bs: seq<Fr>, bits: nat)
    requires |bs| == MODULUS_BITS && bits <= MODULUS_BITS && forall j :: 0 <= j < |bs| ==> bs[j] == Bit(v, j)
    ensures AllBits(bs) && v == Weight(bs) % R
    ensures (forall j :: bits <= j < MODULUS_BITS ==> bs[j] == 0) <==> v < Pow2(bits)
  {
    Pow2Constants();
    BitsWeigh(v, bs);
    HighBitsZero(v, bits, MODULUS_BITS);
    assert BitsZero(v, bits, MODULUS_BITS) <==> forall j :: bits <= j < MODULUS_BITS ==> bs[j] == 0;
  }
}
