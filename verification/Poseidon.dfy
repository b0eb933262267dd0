/** The Poseidon permutation on three elements of a prime field and its 2-to-1 compression.
    The program's field has order R; the permutation itself is stated for any modulus. */
module Poseidon {
  import opened Field
  import opened MerkleSpec

  const ROUNDS_F: nat := 8
  const ROUNDS_P: nat := 56
  const N_ROUNDS: nat := ROUNDS_F + ROUNDS_P
  const HALF_F: nat := ROUNDS_F / 2

  /** A row of three numbers: a state, a matrix row or a round's constants. */
  type Row = s: seq<int> | |s| == 3 witness [0, 0, 0]

  /** A row over the program's field. */
  type FrRow = s: seq<Fr> | |s| == 3 witness [0, 0, 0]

  datatype Tables<+T> = Params(mds: seq<seq<T>>, rc: seq<seq<T>>)

  predicate Shaped<T>(p: Tables<T>) {
    && |p.mds| == 3 && (forall i :: 0 <= i < 3 ==> |p.mds[i]| == 3)
    && |p.rc| == N_ROUNDS && forall i :: 0 <= i < N_ROUNDS ==> |p.rc[i]| == 3
  }

  /** Any matrix and constants of the right shape; the concrete tables are not fixed here. */
  type AnyParams = p: Tables<int> | Shaped(p)
    witness Params(seq(3, _ => [0, 0, 0]), seq(N_ROUNDS, _ => [0, 0, 0]))

  /** Tables over the program's field. */
  type Params = p: Tables<Fr> | Shaped(p)
    witness Params(seq(3, _ => [0, 0, 0]), seq(N_ROUNDS, _ => [0, 0, 0]))

  function Pow5(q: Modulus, x: int): (y: int)
    ensures 0 <= y < q
  {
    var x2 := MulIn(q, x, x);
    var x4 := MulIn(q, x2, x2);
    MulIn(q, x4, x)
  }

  predicate FullRound(round: nat) {
    round < HALF_F || round >= N_ROUNDS - HALF_F
  }

  function AddConstants(q: Modulus, rc: Row, s: Row): Row {
    [AddIn(q, s[0], rc[0]), AddIn(q, s[1], rc[1]), AddIn(q, s[2], rc[2])]
  }

  function SBox(q: Modulus, full: bool, s: Row): Row {
    if full then [Pow5(q, s[0]), Pow5(q, s[1]), Pow5(q, s[2])] else [Pow5(q, s[0]), s[1], s[2]]
  }

  function Dot(q: Modulus, m: Row, s: Row): int {
    AddIn(q, AddIn(q, AddIn(q, 0, MulIn(q, m[0], s[0])), MulIn(q, m[1], s[1])), MulIn(q, m[2], s[2]))
  }

  function Mix(q: Modulus, mds: seq<Row>, s: Row): (t: Row)
    requires |mds| == 3
    ensures Reduced(q, t)
  {
    [Dot(q, mds[0], s), Dot(q, mds[1], s), Dot(q, mds[2], s)]
  }

  /** The row's entries are elements of the field. */
  predicate Reduced(q: Modulus, s: Row) {
    0 <= s[0] < q && 0 <= s[1] < q && 0 <= s[2] < q
  }

  function Round(q: Modulus, p: AnyParams, round: nat, s: Row): (t: Row)
    requires round < N_ROUNDS
    ensures Reduced(q, t)
  {
    Mix(q, p.mds, SBox(q, FullRound(round), AddConstants(q, p.rc[round], s)))
  }

  function Rounds(q: Modulus, p: AnyParams, s: Row, n: nat): (t: Row)
    requires n <= N_ROUNDS
    ensures n > 0 || Reduced(q, s) ==> Reduced(q, t)
  {
    if n == 0 then s else Round(q, p, n - 1, Rounds(q, p, s, n - 1))
  }

  function Permuted(q: Modulus, p: AnyParams, s: Row): (t: Row)
    ensures Reduced(q, t)
  {
    Rounds(q, p, s, N_ROUNDS)
  }

  function Poseidon2to1(p: Params, a: Fr, b: Fr): Fr {
    Permuted(R, p, [0, a, b])[0]
  }

  /** The hash every other layer takes as a parameter. */
  function PoseidonHasher(p: Params): Hasher {
    (a: Fr, b: Fr) => Poseidon2to1(p, a, b)
  }

  /** The native permutation, overwriting its state round by round. */
  method Permute(p: Params, state: array<Fr>)
    requires state.Length == 3
    modifies state
    ensures state[..] == Permuted(R, p, old(state[..]))
  {
    ghost var start: FrRow := state[..];
    for round := 0 to N_ROUNDS
      invariant state[..] == Rounds(R, p, start, round)
    {
      PermuteRound(p, round, state);
    }
  }

  method PermuteRound(p: Params, round: nat, state: array<Fr>)
    requires state.Length == 3 && round < N_ROUNDS
    modifies state
    ensures state[..] == Round(R, p, round, old(state[..]))
  {
    hide AddIn, MulIn, Pow5;
    ghost var s: FrRow := state[..];
    for i := 0 to 3
      invariant forall k :: 0 <= k < 3 ==> state[k] == if k < i then Add(s[k], p.rc[round][k]) else s[k]
    {
      state[i] := Add(state[i], p.rc[round][i]);
    }
    assert state[..] == AddConstants(R, p.rc[round], s);
    ghost var t: FrRow := state[..];
    if FullRound(round) {
      for i := 0 to 3
        invariant forall k :: 0 <= k < 3 ==> state[k] == if k < i then Pow5(R, t[k]) else t[k]
      {
        state[i] := Pow5(R, state[i]);
      }
    } else {
      state[0] := Pow5(R, state[0]);
    }
    assert state[..] == SBox(R, FullRound(round), t);
    ghost var u: FrRow := state[..];
    var ns := new Fr[3];
    for i := 0 to 3
      invariant state[..] == u
      invariant forall k :: 0 <= k < i ==> ns[k] == Dot(R, p.mds[k], u)
    {
      ns[i] := 0;
      for j := 0 to 3
        invariant state[..] == u
        invariant forall k :: 0 <= k < i ==> ns[k] == Dot(R, p.mds[k], u)
        invariant j == 0 ==> ns[i] == 0
        invariant j == 1 ==> ns[i] == Add(0, Mul(p.mds[i][0], u[0]))
        invariant j == 2 ==> ns[i] == Add(Add(0, Mul(p.mds[i][0], u[0])), Mul(p.mds[i][1], u[1]))
        invariant j == 3 ==> ns[i] == Dot(R, p.mds[i], u)
      {
        ns[i] := Add(ns[i], Mul(p.mds[i][j], state[j]));
      }
    }
    assert ns[..] == Mix(R, p.mds, u);
    forall i | 0 <= i < 3 {
      state[i] := ns[i];
    }
    assert state[..] == ns[..];
  }

  method Compress(p: Params, a: Fr, b: Fr) returns (r: Fr)
    ensures r == Poseidon2to1(p, a, b)
  {
    var state := new Fr[3] [0, a, b];
    assert state[..] == [0, a, b];
    Permute(p, state);
    r := state[0];
  }
}
