/** What the permutation computes, said without its own rounds: a reference in integer
    arithmetic with the round numbers written out, and closed forms for two matrices that
    show how often, and in which rounds, each cell passes the S-box. */
module PoseidonShape {
  import opened Field
  import opened FieldLaws
  import opened Poseidon
  import opened PoseidonBijection

  // ---- a reference in integers ----

  /** The first cell is raised to the fifth power in all 64 rounds, the others in the first
      four and the last four. */
  function Boxed(q: Modulus, round: nat, cell: nat, x: int): int {
    if cell == 0 || round < 4 || round >= 60 then Power(q, x % q, 5) else x % q
  }

  function ReferenceCell(q: Modulus, p: AnyParams, round: nat, s: Row, i: nat): int
    requires round < 64 && i < 3
  {
    (p.mds[i][0] * Boxed(q, round, 0, s[0] + p.rc[round][0])
     + p.mds[i][1] * Boxed(q, round, 1, s[1] + p.rc[round][1])
     + p.mds[i][2] * Boxed(q, round, 2, s[2] + p.rc[round][2])) % q
  }

  function Reference(q: Modulus, p: AnyParams, s: Row, rounds: nat): Row
    requires rounds <= 64
  {
    if rounds == 0 then s
    else
      var t := Reference(q, p, s, rounds - 1);
      [ReferenceCell(q, p, rounds - 1, t, 0), ReferenceCell(q, p, rounds - 1, t, 1), ReferenceCell(q, p, rounds - 1, t, 2)]
  }

  lemma RoundIsReference(q: Modulus, p: AnyParams, round: nat, s: Row)
    requires round < 64
    ensures Round(q, p, round, s)
         == [ReferenceCell(q, p, round, s, 0), ReferenceCell(q, p, round, s, 1), ReferenceCell(q, p, round, s, 2)]
  {
    hide Boxed, SBox, AddConstants, Dot;
    SBoxIsBoxed(q, p.rc[round], round, s);
    var b := SBox(q, FullRound(round), AddConstants(q, p.rc[round], s));
    DotIsDotInt(q, p.mds[0], b);
    DotIsDotInt(q, p.mds[1], b);
    DotIsDotInt(q, p.mds[2], b);
  }

  lemma SBoxIsBoxed(q: Modulus, rc: Row, round: nat, s: Row)
    requires round < 64
    ensures SBox(q, FullRound(round), AddConstants(q, rc, s))
         == [Boxed(q, round, 0, s[0] + rc[0]), Boxed(q, round, 1, s[1] + rc[1]), Boxed(q, round, 2, s[2] + rc[2])]
  {
    hide Power, Pow5;
    var a := AddConstants(q, rc, s);
    Pow5IsPower(q, a[0], 5);
    Pow5IsPower(q, a[1], 5);
    Pow5IsPower(q, a[2], 5);
  }

  lemma {:induction false} RoundsAreReference(q: Modulus, p: AnyParams, s: Row, n: nat)
    requires n <= 64
    ensures Rounds(q, p, s, n) == Reference(q, p, s, n)
  {
    hide Round, ReferenceCell;
    if n > 0 {
      RoundsAreReference(q, p, s, n - 1);
      RoundIsReference(q, p, n - 1, Rounds(q, p, s, n - 1));
    }
  }

  /** The permutation is 64 rounds of the reference, for any modulus and tables. */
  lemma PermutedIsReference(q: Modulus, p: AnyParams, s: Row)
    ensures Permuted(q, p, s) == Reference(q, p, s, 64)
  {
    hide Rounds, Reference;
    RoundsAreReference(q, p, s, 64);
  }

  // ---- closed forms ----

  /** 5 to the k. */
  function Fives(k: nat): nat {
    if k == 0 then 1 else 5 * Fives(k - 1)
  }

  lemma RaiseOnce(q: Modulus, x: int, k: nat)
    requires 0 <= x < q
    ensures Pow5(q, Power(q, x, Fives(k))) == Power(q, x, Fives(k + 1))
  {
    hide Power, Pow5;
    Pow5IsPower(q, Power(q, x, Fives(k)), 5);
    PowerOfPower(q, x, Fives(k), 5);
  }

  ghost predicate NoConstants(p: AnyParams) {
    forall round :: 0 <= round < 64 ==> p.rc[round] == [0, 0, 0]
  }

  lemma NothingAdded(q: Modulus, s: Row)
    requires Reduced(q, s)
    ensures AddConstants(q, [0, 0, 0], s) == s
  {
    hide MulIn, AddIn;
    Units(q, s[0]);
    Units(q, s[1]);
    Units(q, s[2]);
  }

  /** Full rounds among the first n. */
  function FullAmong(n: nat): nat {
    if n <= 4 then n else if n <= 60 then 4 else n - 56
  }

  lemma {:induction false} IdentityRounds(q: Modulus, p: AnyParams, s: Row, n: nat)
    requires NoConstants(p) && p.mds == [[1, 0, 0], [0, 1, 0], [0, 0, 1]] && Reduced(q, s) && n <= 64
    ensures Rounds(q, p, s, n)
         == [Power(q, s[0], Fives(n)), Power(q, s[1], Fives(FullAmong(n))), Power(q, s[2], Fives(FullAmong(n)))]
  {
    hide Power, Pow5, Dot, AddConstants, Fives;
    if n == 0 {
      NoFives();
      FirstPower(q, s[0]);
      FirstPower(q, s[1]);
      FirstPower(q, s[2]);
    } else {
      var k := n - 1;
      var t := Rounds(q, p, s, k);
      IdentityRounds(q, p, s, k);
      RaiseOnce(q, s[0], k);
      RaiseOnce(q, s[1], FullAmong(k));
      RaiseOnce(q, s[2], FullAmong(k));
      NothingAdded(q, t);
      UnitRows(q, SBox(q, FullRound(k), t));
    }
  }

  lemma NoFives()
    ensures Fives(0) == 1
  {
  }

  /** Without constants and mixing, the first cell is raised 64 times and the others 8. */
  lemma IdentityPermuted(q: Modulus, p: AnyParams, x: int, y: int, z: int)
    requires NoConstants(p) && p.mds == [[1, 0, 0], [0, 1, 0], [0, 0, 1]] && Reduced(q, [x, y, z])
    ensures Permuted(q, p, [x, y, z]) == [Power(q, x, Fives(64)), Power(q, y, Fives(8)), Power(q, z, Fives(8))]
  {
    hide Power, Rounds, Fives;
    IdentityRounds(q, p, [x, y, z], 64);
  }

  /** How often the value that starts in the given cell is raised in the first n rounds when
      the cells shift down by one each round. */
  function Raises(cell: nat, n: nat): nat {
    if n == 0 then 0
    else Raises(cell, n - 1) + (if n - 1 < 4 || n - 1 >= 60 || (n - 1) % 3 == cell then 1 else 0)
  }

  function Shifted(q: Modulus, s: Row, n: nat, place: nat): int {
    var cell := (place + n) % 3;
    Power(q, s[cell], Fives(Raises(cell, n)))
  }

  function ShiftedRow(q: Modulus, s: Row, n: nat): Row {
    [Shifted(q, s, n, 0), Shifted(q, s, n, 1), Shifted(q, s, n, 2)]
  }

  lemma {:induction false} ShiftRounds(q: Modulus, p: AnyParams, s: Row, n: nat)
    requires NoConstants(p) && p.mds == [[0, 1, 0], [0, 0, 1], [1, 0, 0]] && Reduced(q, s) && n <= 64
    ensures Rounds(q, p, s, n) == ShiftedRow(q, s, n)
  {
    hide Power, Fives, Round;
    if n == 0 {
      NoFives();
      FirstPower(q, s[0]);
      FirstPower(q, s[1]);
      FirstPower(q, s[2]);
    } else {
      ShiftRounds(q, p, s, n - 1);
      ShiftRound(q, p, s, n - 1);
    }
  }

  lemma ShiftRound(q: Modulus, p: AnyParams, s: Row, k: nat)
    requires NoConstants(p) && p.mds == [[0, 1, 0], [0, 0, 1], [1, 0, 0]] && Reduced(q, s) && k < 64
    ensures Round(q, p, k, ShiftedRow(q, s, k)) == ShiftedRow(q, s, k + 1)
  {
    hide Power, Pow5, Dot, AddConstants, Fives, SBox;
    var t := ShiftedRow(q, s, k);
    forall cell | 0 <= cell < 3
      ensures Pow5(q, Power(q, s[cell], Fives(Raises(cell, k)))) == Power(q, s[cell], Fives(Raises(cell, k) + 1))
    {
      RaiseOnce(q, s[cell], Raises(cell, k));
    }
    ShiftStep(q, s, k, t, SBox(q, FullRound(k), t));
    hide Shifted;
    NothingAdded(q, t);
    UnitRows(q, SBox(q, FullRound(k), t));
  }

  /** One round moves each value down a cell, raised if the round raises its cell. */
  lemma ShiftStep(q: Modulus, s: Row, k: nat, t: Row, u: Row)
    requires k < 64 && t == [Shifted(q, s, k, 0), Shifted(q, s, k, 1), Shifted(q, s, k, 2)]
    requires u == SBox(q, FullRound(k), t)
    requires forall cell :: 0 <= cell < 3 ==>
               Pow5(q, Power(q, s[cell], Fives(Raises(cell, k)))) == Power(q, s[cell], Fives(Raises(cell, k) + 1))
    ensures [u[1], u[2], u[0]] == [Shifted(q, s, k + 1, 0), Shifted(q, s, k + 1, 1), Shifted(q, s, k + 1, 2)]
  {
    hide Power, Pow5, Fives;
    assert (0 + k) % 3 == k % 3;
    assert (2 + (k + 1)) % 3 == k % 3 && (0 + (k + 1)) % 3 == (1 + k) % 3 && (1 + (k + 1)) % 3 == (2 + k) % 3;
  }

  lemma RaisesInAll()
    ensures Raises(0, 64) == 26 && Raises(1, 64) == 27 && Raises(2, 64) == 27
  {
    forall cell | 0 <= cell < 3 ensures Raises(cell, 4) == 4 { assert Raises(cell, 2) == 2; }
    RaisesBetween(0, 60);
    RaisesBetween(1, 60);
    RaisesBetween(2, 60);
    forall cell | 0 <= cell < 3 ensures Raises(cell, 64) == Raises(cell, 60) + 4 { assert Raises(cell, 62) == Raises(cell, 60) + 2; }
  }

  /** In the partial rounds each value is raised every third round. */
  lemma {:induction false} RaisesBetween(cell: nat, n: nat)
    requires cell < 3 && 4 <= n <= 60
    ensures Raises(cell, n) == 4 + (n + 2 - cell) / 3 - (6 - cell) / 3
  {
    if n > 4 { RaisesBetween(cell, n - 1); } else { assert Raises(cell, 2) == 2; }
  }

  /** Without constants and with the cells shifting down, each value takes its turn in the
      first cell: the placement of every round, full and partial, shows in the exponents. */
  lemma ShiftPermuted(q: Modulus, p: AnyParams, x: int, y: int, z: int)
    requires NoConstants(p) && p.mds == [[0, 1, 0], [0, 0, 1], [1, 0, 0]] && Reduced(q, [x, y, z])
    ensures Permuted(q, p, [x, y, z]) == [Power(q, y, Fives(27)), Power(q, z, Fives(27)), Power(q, x, Fives(26))]
  {
    hide Power, Rounds, Fives;
    ShiftRounds(q, p, [x, y, z], 64);
    RaisesInAll();
  }

  /** In particular the compression of (a, b) is then a to the 5^27. */
  lemma ShiftCompressed(p: Params, a: Fr, b: Fr)
    requires NoConstants(p) && p.mds == [[0, 1, 0], [0, 0, 1], [1, 0, 0]]
    ensures Poseidon2to1(p, a, b) == Power(R, a, Fives(27))
  {
    hide Power, Permuted, Fives;
    ShiftPermuted(R, p, 0, a, b);
  }
}
