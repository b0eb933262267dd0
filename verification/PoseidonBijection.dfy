/** The Poseidon permutation is a permutation: over any prime q with 5 not dividing q - 1, and
    for an invertible matrix, every round, full or partial, can be undone, and so can all of
    them. */
module PoseidonBijection {
  import opened Field
  import opened FieldLaws
  import opened Poseidon

  // ---- the S-box ----

  /** The fifth power is one to one when 5 does not divide q - 1. */
  predicate FifthRoots(q: Modulus) {
    (q - 1) % 5 != 0
  }

  /** Some multiple of q - 1 is one short of a multiple of 5. */
  function Turns(q: Modulus): nat {
    match (q - 1) % 5
    case 1 => 4
    case 2 => 2
    case 3 => 3
    case _ => 1
  }

  /** Raising to this power undoes the fifth power. */
  function RootExponent(q: Modulus): nat {
    (1 + Turns(q) * (q - 1)) / 5
  }

  lemma RootExponentExact(q: Modulus)
    requires FifthRoots(q)
    ensures 5 * RootExponent(q) == 1 + (q - 1) * Turns(q)
  {
    var n, k := q - 1, Turns(q);
    var i, r := n / 5, n % 5;
    assert n == 5 * i + r;
    assert (1 + k * r) % 5 == 0;
    var j := (1 + k * r) / 5 + k * i;
    assert 1 + k * n == 5 * j;
    assert RootExponent(q) == j;
    assert (q - 1) * k == k * n;
  }

  lemma FieldHasFifthRoots()
    ensures FifthRoots(R)
  {
  }

  lemma FirstPower(q: Modulus, x: int)
    requires 0 <= x < q
    ensures Power(q, x, 1) == x
  {
    MulOne(q, x);
    assert Power(q, x, 0) == 1;
  }

  lemma Pow5IsPower(q: Modulus, x: int, five: nat)
    requires five == 5 && 0 <= x < q
    ensures Pow5(q, x) == Power(q, x, five)
  {
    hide MulIn, Power;
    PowerAdds(q, x, 1, 1);
    PowerAdds(q, x, 2, 2);
    PowerAdds(q, x, 4, 1);
    FirstPower(q, x);
  }

  /** x^(1 + k(q - 1)) == x for every field element. */
  lemma PowerCycle(q: Modulus, x: int, k: nat)
    requires IsPrime(q) && 0 <= x < q
    ensures Power(q, x, 1 + (q - 1) * k) == x
  {
    hide MulIn, Power, IsPrime;
    PowerAdds(q, x, 1, (q - 1) * k);
    FirstPower(q, x);
    if x != 0 {
      PowerOfPower(q, x, q - 1, k);
      Fermat(q, x);
      PowerOfOne(q, k);
      MulOne(q, x);
    } else {
      ZeroTimes(q, Power(q, x, (q - 1) * k));
    }
  }

  lemma ZeroTimes(q: Modulus, y: int)
    ensures MulIn(q, 0, y) == 0
  {
    assert 0 * y == 0;
    ModSmall(q, 0);
  }

  /** The fifth power has an inverse on the whole field. */
  lemma SBoxInverts(q: Modulus, x: int)
    requires IsPrime(q) && FifthRoots(q) && 0 <= x < q
    ensures Power(q, Pow5(q, x), RootExponent(q)) == x && Pow5(q, Power(q, x, RootExponent(q))) == x
  {
    hide MulIn, Power, Pow5, IsPrime, RootExponent;
    var d := RootExponent(q);
    Pow5IsPower(q, x, 5);
    Pow5IsPower(q, Power(q, x, d), 5);
    PowerOfPower(q, x, 5, d);
    PowerOfPower(q, x, d, 5);
    RootExponentExact(q);
    PowerCycle(q, x, Turns(q));
  }

  // ---- the linear layer ----

  /** The row of the product matrix. */
  function RowTimes(q: Modulus, r: Row, m: seq<Row>): Row
    requires |m| == 3
  {
    [Dot(q, r, [m[0][0], m[1][0], m[2][0]]), Dot(q, r, [m[0][1], m[1][1], m[2][1]]), Dot(q, r, [m[0][2], m[1][2], m[2][2]])]
  }

  /** The product of the two matrices is the identity. */
  predicate LeftInverse(q: Modulus, inv: seq<Row>, m: seq<Row>) {
    && |inv| == |m| == 3
    && RowTimes(q, inv[0], m) == [1, 0, 0] && RowTimes(q, inv[1], m) == [0, 1, 0] && RowTimes(q, inv[2], m) == [0, 0, 1]
  }

  function DotInt(m: Row, s: Row): int {
    m[0] * s[0] + m[1] * s[1] + m[2] * s[2]
  }

  /** A dot product is the integer one, reduced. */
  lemma DotIsDotInt(q: Modulus, m: Row, s: Row)
    ensures Dot(q, m, s) == DotInt(m, s) % q
  {
    hide MulIn;
    var a, b, c := m[0] * s[0], m[1] * s[1], m[2] * s[2];
    Products(q, m, s);
    ModTwice(q, a);
    ModAdd(q, a, b);
    ModAdd(q, a + b, c);
  }

  lemma Products(q: Modulus, m: Row, s: Row)
    ensures MulIn(q, m[0], s[0]) == (m[0] * s[0]) % q
    ensures MulIn(q, m[1], s[1]) == (m[1] * s[1]) % q
    ensures MulIn(q, m[2], s[2]) == (m[2] * s[2]) % q
  {
  }

  /** Reducing the entries of one factor first changes nothing. */
  lemma DotReduced(q: Modulus, m: Row, s: Row, t: Row)
    requires t == [s[0] % q, s[1] % q, s[2] % q]
    ensures DotInt(m, t) % q == DotInt(m, s) % q
  {
    hide Multiple, DotInt;
    var i, j, k := m[0] * (s[0] / q), m[1] * (s[1] / q), m[2] * (s[2] / q);
    Expand(q, m[0], s[0]);
    Expand(q, m[1], s[1]);
    Expand(q, m[2], s[2]);
    Spread(q, i, j, k);
    DotInFull(m, s, m[0] * s[0], m[1] * s[1], m[2] * s[2]);
    DotInFull(m, t, m[0] * t[0], m[1] * t[1], m[2] * t[2]);
    ModShift(q, DotInt(m, t), i + j + k);
  }

  lemma DotInFull(m: Row, s: Row, x: int, y: int, z: int)
    requires x == m[0] * s[0] && y == m[1] * s[1] && z == m[2] * s[2]
    ensures DotInt(m, s) == x + y + z
  {
  }

  lemma Expand(q: Modulus, a: int, x: int)
    ensures a * x == a * (x % q) + Multiple(a * (x / q), q)
  {
    assert x == (x / q) * q + x % q;
  }

  lemma Spread(q: Modulus, a: int, b: int, c: int)
    ensures Multiple(a + b + c, q) == Multiple(a, q) + Multiple(b, q) + Multiple(c, q)
  {
  }

  /** Applying one matrix after another is applying their product. */
  lemma DotMix(q: Modulus, r: Row, m: seq<Row>, s: Row)
    requires |m| == 3
    ensures Dot(q, r, Mix(q, m, s)) == Dot(q, RowTimes(q, r, m), s)
  {
    hide Dot, DotInt;
    var ms: Row := [DotInt(m[0], s), DotInt(m[1], s), DotInt(m[2], s)];
    DotIsDotInt(q, m[0], s);
    DotIsDotInt(q, m[1], s);
    DotIsDotInt(q, m[2], s);
    DotIsDotInt(q, r, Mix(q, m, s));
    DotReduced(q, r, ms, Mix(q, m, s));
    var c0: Row, c1: Row, c2: Row := [m[0][0], m[1][0], m[2][0]], [m[0][1], m[1][1], m[2][1]], [m[0][2], m[1][2], m[2][2]];
    var rm: Row := [DotInt(r, c0), DotInt(r, c1), DotInt(r, c2)];
    DotIsDotInt(q, r, c0);
    DotIsDotInt(q, r, c1);
    DotIsDotInt(q, r, c2);
    DotIsDotInt(q, RowTimes(q, r, m), s);
    DotReduced(q, s, rm, RowTimes(q, r, m));
    DotIntCommutes(s, rm);
    DotIntCommutes(s, RowTimes(q, r, m));
    Exchange(r, m, s);
  }

  lemma DotIntCommutes(m: Row, s: Row)
    ensures DotInt(m, s) == DotInt(s, m)
  {
  }

  lemma Exchange(r: Row, m: seq<Row>, s: Row)
    requires |m| == 3
    ensures DotInt(r, [DotInt(m[0], s), DotInt(m[1], s), DotInt(m[2], s)])
         == DotInt([DotInt(r, [m[0][0], m[1][0], m[2][0]]), DotInt(r, [m[0][1], m[1][1], m[2][1]]), DotInt(r, [m[0][2], m[1][2], m[2][2]])], s)
  {
    Distribute(r[0], m[0][0] * s[0], m[0][1] * s[1], m[0][2] * s[2]);
    Distribute(r[1], m[1][0] * s[0], m[1][1] * s[1], m[1][2] * s[2]);
    Distribute(r[2], m[2][0] * s[0], m[2][1] * s[1], m[2][2] * s[2]);
    Collect(r[0], r[1], r[2], m[0][0], m[1][0], m[2][0], s[0]);
    Collect(r[0], r[1], r[2], m[0][1], m[1][1], m[2][1], s[1]);
    Collect(r[0], r[1], r[2], m[0][2], m[1][2], m[2][2], s[2]);
  }

  lemma Distribute(a: int, x: int, y: int, z: int)
    ensures a * (x + y + z) == a * x + a * y + a * z
  {
  }

  lemma Collect(a: int, b: int, c: int, x: int, y: int, z: int, s: int)
    ensures (a * x + b * y + c * z) * s == a * (x * s) + b * (y * s) + c * (z * s)
  {
    assert (a * x) * s == a * (x * s) && (b * y) * s == b * (y * s) && (c * z) * s == c * (z * s);
  }

  lemma UnitRows(q: Modulus, s: Row)
    requires Reduced(q, s)
    ensures Dot(q, [1, 0, 0], s) == s[0] && Dot(q, [0, 1, 0], s) == s[1] && Dot(q, [0, 0, 1], s) == s[2]
  {
    hide MulIn, AddIn;
    Units(q, s[0]);
    Units(q, s[1]);
    Units(q, s[2]);
    Units(q, 0);
  }

  lemma Units(q: Modulus, x: int)
    requires 0 <= x < q
    ensures MulIn(q, 0, x) == 0 && MulIn(q, 1, x) == x && AddIn(q, 0, x) == x && AddIn(q, x, 0) == x
  {
    ZeroTimes(q, x);
    MulOne(q, x);
    ModSmall(q, x);
  }

  /** An invertible matrix makes the linear layer invertible. */
  lemma MixInverts(q: Modulus, inv: seq<Row>, m: seq<Row>, s: Row)
    requires LeftInverse(q, inv, m) && Reduced(q, s)
    ensures Mix(q, inv, Mix(q, m, s)) == s
  {
    hide Dot, RowTimes;
    DotMix(q, inv[0], m, s);
    DotMix(q, inv[1], m, s);
    DotMix(q, inv[2], m, s);
    UnitRows(q, s);
  }

  // ---- rounds ----

  function SubConstants(q: Modulus, rc: Row, s: Row): Row {
    [SubIn(q, s[0], rc[0]), SubIn(q, s[1], rc[1]), SubIn(q, s[2], rc[2])]
  }

  function UnSBox(q: Modulus, full: bool, s: Row): Row {
    var d := RootExponent(q);
    if full then [Power(q, s[0], d), Power(q, s[1], d), Power(q, s[2], d)] else [Power(q, s[0], d), s[1], s[2]]
  }

  function UnRound(q: Modulus, p: AnyParams, inv: seq<Row>, round: nat, s: Row): (t: Row)
    requires round < N_ROUNDS && |inv| == 3
    ensures Reduced(q, t)
  {
    SubConstants(q, p.rc[round], UnSBox(q, FullRound(round), Mix(q, inv, s)))
  }

  /** Undo the rounds from the last one down to round `from`. */
  function UnRounds(q: Modulus, p: AnyParams, inv: seq<Row>, s: Row, from: nat): (t: Row)
    requires from <= N_ROUNDS && |inv| == 3
    ensures Reduced(q, s) ==> Reduced(q, t)
    decreases N_ROUNDS - from
  {
    if from == N_ROUNDS then s else UnRound(q, p, inv, from, UnRounds(q, p, inv, s, from + 1))
  }

  lemma ConstantInverts(q: Modulus, c: int, x: int)
    requires 0 <= x < q
    ensures SubIn(q, AddIn(q, x, c), c) == x && AddIn(q, SubIn(q, x, c), c) == x
  {
    var i, j := (x + c) / q, (x - c) / q;
    assert x + c == Multiple(i, q) + AddIn(q, x, c);
    assert AddIn(q, x, c) - c == x + Multiple(-i, q);
    ModShift(q, x, -i);
    assert x - c == Multiple(j, q) + SubIn(q, x, c);
    assert SubIn(q, x, c) + c == x + Multiple(-j, q);
    ModShift(q, x, -j);
    ModSmall(q, x);
  }

  lemma ConstantsInvert(q: Modulus, rc: Row, s: Row)
    requires Reduced(q, s)
    ensures SubConstants(q, rc, AddConstants(q, rc, s)) == s && AddConstants(q, rc, SubConstants(q, rc, s)) == s
  {
    hide AddIn, SubIn;
    ConstantInverts(q, rc[0], s[0]);
    ConstantInverts(q, rc[1], s[1]);
    ConstantInverts(q, rc[2], s[2]);
  }

  lemma RowSBoxInverts(q: Modulus, full: bool, s: Row)
    requires IsPrime(q) && FifthRoots(q) && Reduced(q, s)
    ensures UnSBox(q, full, SBox(q, full, s)) == s && SBox(q, full, UnSBox(q, full, s)) == s
  {
    hide Power, Pow5, IsPrime, RootExponent;
    SBoxInverts(q, s[0]);
    SBoxInverts(q, s[1]);
    SBoxInverts(q, s[2]);
  }

  /** The layers keep rows within the field. */
  lemma LayersReduce(q: Modulus, rc: Row, full: bool, s: Row)
    requires Reduced(q, s)
    ensures Reduced(q, AddConstants(q, rc, s)) && Reduced(q, SBox(q, full, s)) && Reduced(q, UnSBox(q, full, s))
  {
    hide MulIn, RootExponent, Power, Pow5;
  }

  /** `inv` is a two-sided inverse of the round matrix. */
  predicate Inverts(q: Modulus, inv: seq<Row>, p: AnyParams) {
    |inv| == 3 && LeftInverse(q, inv, p.mds) && LeftInverse(q, p.mds, inv)
  }

  /** Each round, full or partial, is undone from both sides. */
  lemma RoundInverts(q: Modulus, p: AnyParams, inv: seq<Row>, round: nat, s: Row)
    requires IsPrime(q) && FifthRoots(q) && Inverts(q, inv, p) && round < N_ROUNDS && Reduced(q, s)
    ensures UnRound(q, p, inv, round, Round(q, p, round, s)) == s
    ensures Round(q, p, round, UnRound(q, p, inv, round, s)) == s
  {
    hide Mix, SBox, UnSBox, AddConstants, SubConstants, LeftInverse, IsPrime, Reduced;
    var rc, full := p.rc[round], FullRound(round);
    var a, m := AddConstants(q, rc, s), Mix(q, inv, s);
    LayersReduce(q, rc, full, s);
    LayersReduce(q, rc, full, a);
    ConstantsInvert(q, rc, s);
    RowSBoxInverts(q, full, a);
    MixInverts(q, inv, p.mds, SBox(q, full, a));
    LayersReduce(q, rc, full, m);
    ConstantsInvert(q, rc, UnSBox(q, full, m));
    RowSBoxInverts(q, full, m);
    MixInverts(q, p.mds, inv, s);
  }

  /** Undoing the last rounds of a permuted state leaves the state before them. */
  lemma {:induction false} UndoRounds(q: Modulus, p: AnyParams, inv: seq<Row>, s: Row, from: nat)
    requires IsPrime(q) && FifthRoots(q) && Inverts(q, inv, p) && from <= N_ROUNDS && Reduced(q, s)
    ensures UnRounds(q, p, inv, Permuted(q, p, s), from) == Rounds(q, p, s, from)
    decreases N_ROUNDS - from
  {
    assert |inv| == 3;
    hide Round, UnRound, Inverts, IsPrime, Reduced;
    if from < N_ROUNDS {
      UndoRounds(q, p, inv, s, from + 1);
      RoundInverts(q, p, inv, from, Rounds(q, p, s, from));
    }
  }

  /** Redoing the first rounds of an unpermuted state leaves the state after them. */
  lemma {:induction false} RedoRounds(q: Modulus, p: AnyParams, inv: seq<Row>, t: Row, upTo: nat)
    requires IsPrime(q) && FifthRoots(q) && Inverts(q, inv, p) && upTo <= N_ROUNDS && Reduced(q, t)
    ensures Rounds(q, p, UnRounds(q, p, inv, t, 0), upTo) == UnRounds(q, p, inv, t, upTo)
  {
    assert |inv| == 3;
    hide Round, UnRound, Inverts, IsPrime, Reduced;
    if upTo > 0 {
      RedoRounds(q, p, inv, t, upTo - 1);
      RoundInverts(q, p, inv, upTo - 1, UnRounds(q, p, inv, t, upTo));
    }
  }

  /** The permutation is a bijection of the state space: it has an explicit inverse, so no
      two states meet and every state is reached. */
  lemma PermutedIsBijection(q: Modulus, p: AnyParams, inv: seq<Row>, s: Row, t: Row)
    requires IsPrime(q) && FifthRoots(q) && Inverts(q, inv, p) && Reduced(q, s) && Reduced(q, t)
    ensures Permuted(q, p, s) == t <==> s == UnRounds(q, p, inv, t, 0)
  {
    hide Round, UnRound, LeftInverse, IsPrime, Reduced;
    UndoRounds(q, p, inv, s, 0);
    RedoRounds(q, p, inv, t, N_ROUNDS);
  }

  /** In particular over the program's field. */
  lemma FieldPermutedIsBijection(p: Params, inv: seq<FrRow>, s: FrRow, t: FrRow)
    requires IsPrime(R) && Inverts(R, inv, p)
    ensures Permuted(R, p, s) == t <==> s == UnRounds(R, p, inv, t, 0)
  {
    hide Permuted, UnRounds, Inverts, IsPrime;
    FieldHasFifthRoots();
    PermutedIsBijection(R, p, inv, s, t);
  }
}
