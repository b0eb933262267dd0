/** Small concrete runs: deposits of 5 and the payout of one note, with a hash given by a
    table. They show that runs meeting every hypothesis of module Ledger exist, that the
    pool's balance need not equal deposits minus withdrawals, and what a nullifier spelt as
    a word of R or more does to a run. */
module Example {
  import opened Field
  import opened Wrappers
  import opened MerkleSpec
  import opened CommitmentTree
  import opened Notes
  import opened Relations
  import opened PoolSpec
  import opened Ledger

  const KEY: Fr := 7
  const OWNER: Fr := 11
  const NF: Word := 12
  const CM: Word := 14
  const LEFT: Fr := 15
  const CHANGE: Word := 17
  const EMPTY: Fr := 19
  const ROOT: Word := 20
  const NOTE: Note := Note(OWNER, 2, 5)
  const REST: Note := Note(OWNER, 4, 0)
  const OTHER: Note := Note(9, 3, 5)
  const OTHER_CM: Word := 24
  const SPENT: Input := Input(2, 5, [0, EMPTY], [false, false])

  /** The pairs the runs hash have distinct hashes. */
  function Toy(a: Fr, b: Fr): Fr {
    match (a, b)
    case (7, 0) => 11
    case (7, 2) => 12
    case (11, 2) => 13
    case (13, 5) => 14
    case (14, 0) => 15
    case (11, 4) => 16
    case (16, 0) => 17
    case (0, 0) => 19
    case (15, 19) => 20
    case (19, 19) => 21
    case (9, 3) => 23
    case (23, 5) => 24
    case (17, 0) => 25
    case (14, 24) => 26
    case (26, 19) => 27
    case (26, 25) => 28
    case _ => 0
  }

  /** What a hash in the table was made from. */
  function Untoy(c: Fr): Pair {
    match c
    case 11 => (7, 0)
    case 12 => (7, 2)
    case 13 => (11, 2)
    case 14 => (13, 5)
    case 15 => (14, 0)
    case 16 => (11, 4)
    case 17 => (16, 0)
    case 19 => (0, 0)
    case 20 => (15, 19)
    case 21 => (19, 19)
    case 23 => (9, 3)
    case 24 => (23, 5)
    case 25 => (17, 0)
    case 26 => (14, 24)
    case 27 => (26, 19)
    case 28 => (26, 25)
    case _ => (1, 1)
  }

  predicate InTable(p: Pair) {
    Toy(p.0, p.1) != 0 && Untoy(Toy(p.0, p.1)) == p
  }

  lemma TableIsCollisionFree(pairs: set<Pair>)
    requires forall p :: p in pairs ==> InTable(p)
    ensures CollisionFree(ToyConfig().h, pairs)
  {
    hide Untoy, Toy;
    forall p | p in pairs ensures HashPair(ToyConfig().h, p) == Toy(p.0, p.1) && InTable(p) {}
  }

  const POOL: Address := Address(0)
  const USER: Address := Address(1)

  /** Four leaves, no exit policy. */
  function ToyConfig(): Config {
    Config((a: Fr, b: Fr) => Toy(a, b), 2, POOL, _ => 0, None)
  }

  function Start(): map<Address, Balance> {
    map[USER := 10]
  }

  function DepositFive(cm: Word, note: Note): Action {
    DoDeposit(USER, true, 5, cm, OfDeposit(DepositWitness(note.ownerPk, note.k)))
  }

  /** Pay the whole note out, under the given spellings of its nullifier and change. */
  function PayFive(recipient: Address, nf: Word, change: Word): Action {
    DoUnshield(OfUnshield(UnshieldWitness(KEY, SPENT, 4, 0)), ROOT, nf, recipient, 5, change,
               PrivacyLevel(true, true, true, false, true))
  }

  lemma Opens()
    ensures Commitment(ToyConfig().h, NOTE) == CM && Commitment(ToyConfig().h, OTHER) == OTHER_CM
  {
  }

  lemma AfterDeposit(b: Book, cm: Word, note: Note) returns (b': Book)
    requires (cm, note) == (CM, NOTE) || (cm, note) == (OTHER_CM, OTHER)
    requires cm !in b.st.leaves && |b.st.leaves| < 4
    requires BalanceOf(b.st.balances, USER) >= 5 && BalanceOf(b.st.balances, POOL) <= 100
    ensures b' == Act(ToyConfig(), b, DepositFive(cm, note))
    ensures b'.st.leaves == b.st.leaves + [cm] && b'.st.spent == b.st.spent
    ensures Moved(b.st.balances, USER, POOL, 5) == Some(b'.st.balances)
    ensures b'.notes == b.notes + [note] && b'.consumed == b.consumed
    ensures b'.deposited == b.deposited + 5 && b'.withdrawn == b.withdrawn
    ensures b'.pairs == b.pairs + NotePairs(ToyConfig().h, note)
  {
    hide NotePairs, Commitment, Toy, Untoy;
    var cfg := ToyConfig();
    b' := Act(cfg, b, DepositFive(cm, note));
    var pub := DecodeAll([cm, AmountField(5)]);
    assert pub == [cm, 5];
    Opens();
    assert DepositHolds(cfg.h, pub, DepositWitness(note.ownerPk, note.k));
    assert Accepts(cfg, DepositCircuit, OfDeposit(DepositWitness(note.ownerPk, note.k)), [cm, AmountField(5)]);
    assert Pow2(1) == 2;
  }

  /** The states in which the note's leaf is the first and its root is still known. */
  predicate Ready(st: PoolState) {
    st.leaves == [CM] || st.leaves == [CM, OTHER_CM] || st.leaves == [CM, OTHER_CM, CHANGE]
  }

  lemma RootIsKnown(st: PoolState)
    requires Ready(st)
    ensures Known(ToyConfig(), st, ROOT)
  {
    var cfg := ToyConfig();
    var one := st.leaves[..1];
    assert one == [CM];
    assert DecodeAll([CM]) == [CM];
    TreeNodes(DecodeAll(one));
    assert RootAt(cfg.h, cfg.depth, st.leaves, 1) == ROOT;
  }

  /** The nodes above the note's leaf, by the number of leaves. */
  lemma TreeNodes(leaves: seq<Fr>)
    requires leaves == [] || leaves == [CM] || leaves == [CM, OTHER_CM] || leaves == [CM, OTHER_CM, CHANGE]
    ensures var h := ToyConfig().h;
            && Node(h, leaves, 1, 0) == (if leaves == [] then EMPTY else if |leaves| == 1 then LEFT else 26)
            && Node(h, leaves, 1, 1) == (if |leaves| < 3 then EMPTY else 25)
            && (leaves == [CM] ==> Root(h, leaves, 2) == ROOT)
  {
    var h := ToyConfig().h;
    assert Node(h, leaves, 0, 2) == (if |leaves| < 3 then 0 else CHANGE) && Node(h, leaves, 0, 3) == 0;
    assert Node(h, leaves, 0, 0) == if leaves == [] then 0 else CM;
    assert Node(h, leaves, 0, 1) == if |leaves| < 2 then 0 else OTHER_CM;
  }

  lemma WitnessHolds()
    ensures UnshieldHolds(ToyConfig().h, 2, [ROOT, NF, 0, 5, CHANGE], UnshieldWitness(KEY, SPENT, 4, 0))
    ensures ChangeNote(ToyConfig().h, UnshieldWitness(KEY, SPENT, 4, 0)) == REST
    ensures InputNote(ToyConfig().h, KEY, SPENT) == NOTE && Commitment(ToyConfig().h, NOTE) == CM
    ensures WalkPairs(ToyConfig().h, CM, SPENT.siblings, SPENT.bits) == {(CM, 0), (LEFT, EMPTY)}
  {
    var h := ToyConfig().h;
    assert [false, false][..1] == [false] && [0 as Fr, EMPTY][..1] == [0];
    assert [false][..0] == [] && [0 as Fr][..0] == [];
    assert Walk(h, CM, [], []) == CM;
    assert Walk(h, CM, [0], [false]) == HashPair(h, (CM, 0)) == LEFT;
    assert Walk(h, CM, [0, EMPTY], [false, false]) == HashPair(h, (LEFT, EMPTY)) == ROOT;
    assert Add(5, 0) == 5;
  }

  lemma PairsInTable(leaves: seq<Word>)
    requires Ready(PoolState(leaves, {}, map[]))
    ensures forall p :: p in AllInputPairs(ToyConfig().h, leaves, KEY, [SPENT]) ==> InTable(p)
    ensures forall p :: p in AllNotePairs(ToyConfig().h, [REST]) ==> InTable(p)
    ensures forall p :: p in NotePairs(ToyConfig().h, NOTE) + NotePairs(ToyConfig().h, OTHER) ==> InTable(p)
  {
    hide Node, Walk, WalkPairs, Toy, Untoy;
    var h := ToyConfig().h;
    WitnessHolds();
    TableRows();
    forall j: nat, p | j <= |leaves| && p in TreePairs(h, DecodeAll(leaves[..j]), 0, SPENT.bits) ensures InTable(p) {
      TreePairsInTable(leaves, j);
    }
    forall p | p in AllInputPairs(h, leaves, KEY, [SPENT]) ensures InTable(p) {
      assert p in InputPairs(h, leaves, KEY, SPENT);
    }
  }

  lemma TableRows()
    ensures InTable((7, 0)) && InTable((7, 2)) && InTable((11, 2)) && InTable((13, 5)) && InTable((14, 0)) && InTable((11, 4))
    ensures InTable((16, 0)) && InTable((0, 0)) && InTable((15, 19)) && InTable((19, 19)) && InTable((9, 3)) && InTable((23, 5))
    ensures InTable((14, 24)) && InTable((26, 19)) && InTable((26, 25))
    ensures Toy(11, 2) == 13 && Toy(11, 4) == 16 && Toy(9, 3) == 23
  {
  }

  lemma TreePairsInTable(leaves: seq<Word>, j: nat)
    requires Ready(PoolState(leaves, {}, map[])) && j <= |leaves|
    ensures forall p :: p in TreePairs(ToyConfig().h, DecodeAll(leaves[..j]), 0, SPENT.bits) ==> InTable(p)
  {
    hide Toy, Untoy, InTable;
    var h := ToyConfig().h;
    var past := DecodeAll(leaves[..j]);
    assert past == if j == 0 then [] else if j == 1 then [CM] else if j == 2 then [CM, OTHER_CM] else [CM, OTHER_CM, CHANGE];
    TreeNodes(past);
    TableRows();
    assert [false, false][..1] == [false] && [false][..0] == [];
    assert TreePairs(h, past, 0, [false]) == TreePairs(h, past, 0, []) + {NodePair(h, past, 1, 0)};
    assert TreePairs(h, past, 0, [false, false]) == TreePairs(h, past, 0, [false]) + {NodePair(h, past, 2, 0)};
    assert NodePair(h, past, 1, 0) == (if j == 0 then 0 else CM, if j < 2 then 0 else OTHER_CM);
    assert NodePair(h, past, 2, 0) == (Node(h, past, 1, 0), Node(h, past, 1, 1));
  }

  /** Another payout of the note, under fresh spellings. */
  lemma AfterPayout(b: Book, recipient: Address, nf: Word, change: Word) returns (b': Book)
    requires Ready(b.st) && Decode(nf) == NF && nf !in b.st.spent && Decode(change) == CHANGE && change !in b.st.leaves
    requires BalanceOf(b.st.balances, POOL) >= 5
    requires recipient == POOL || BalanceOf(b.st.balances, recipient) <= 100
    requires forall p :: p in b.pairs ==> InTable(p)
    ensures b' == Act(ToyConfig(), b, PayFive(recipient, nf, change))
    ensures b'.st.leaves == b.st.leaves + [change] && b'.st.spent == b.st.spent + {nf}
    ensures Moved(b.st.balances, POOL, recipient, 5) == Some(b'.st.balances)
    ensures b'.notes == b.notes + [REST] && b'.consumed == b.consumed + [Consumption(0, KEY)]
    ensures b'.deposited == b.deposited && b'.withdrawn == b.withdrawn + 5
    ensures forall p :: p in b'.pairs ==> InTable(p)
  {
    hide UnshieldHolds, Walk, Node, Commitment, KnownRoot, AllInputPairs, AllNotePairs, NotePairs, InTable, Ready, Toy, Untoy;
    var cfg := ToyConfig();
    var a := PayFive(recipient, nf, change);
    b' := Act(cfg, b, a);
    RootIsKnown(b.st);
    WitnessHolds();
    var publics := UnshieldPublics(cfg, ROOT, nf, recipient, 5, change);
    assert DecodeAll(publics) == [ROOT, NF, 0, 5, CHANGE];
    Small(b.st);
    assert UnshieldValidated(cfg, b.st, a.proof, ROOT, nf, recipient, 5, change, a.claim);
    ValidatedOutcome(cfg, b.st, a.proof, ROOT, nf, recipient, 5, change, a.claim);
    SpendAccepted(cfg, b.st, a);
    FirstLeaf();
    PairsInTable(b.st.leaves);
    assert ToSet([nf]) == {nf};
    assert Consumptions(KEY, [SPENT]) == [Consumption(0, KEY)];
  }

  lemma FirstLeaf()
    ensures IndexOf(SPENT.bits) == 0
  {
    assert [false, false][..1] == [false] && [false][..0] == [];
    assert Descend(0, [false]) == Descend(0, []);
    assert Descend(0, [false, false]) == Descend(0, [false]);
  }

  lemma Small(st: PoolState)
    requires Ready(st)
    ensures |st.leaves| < Pow2(ToyConfig().depth)
    ensures PoolState(st.leaves, {}, map[]).leaves == st.leaves && Ready(PoolState(st.leaves, {}, map[]))
  {
    assert Pow2(1) == 2;
  }

  /** Deposits and unshields alone can leave the pool's balance above deposits minus
      withdrawals; Ledger.BalanceExactIff says exactly when. */
  lemma SelfPayoutKeepsTheBalance() returns (b: Book)
    ensures RunsTo(ToyConfig(), Start(), [DepositFive(CM, NOTE), PayFive(POOL, NF, CHANGE)], b)
    ensures BalanceOf(b.st.balances, POOL) != b.deposited - b.withdrawn
  {
    hide Act, CollisionFree, NotePairs, Run, InTable;
    var cfg := ToyConfig();
    var first := AfterDeposit(Opened(Start()), CM, NOTE);
    assert first.st.leaves == [CM];
    PairsInTable([CM]);
    b := AfterPayout(first, POOL, NF, CHANGE);
    TableIsCollisionFree(b.pairs);
    TwoSteps(cfg, Opened(Start()), DepositFive(CM, NOTE), PayFive(POOL, NF, CHANGE));
  }

  function TwicePaid(): seq<Action> {
    [DepositFive(CM, NOTE), DepositFive(OTHER_CM, OTHER), PayFive(USER, NF, CHANGE), PayFive(USER, NF + R, CHANGE + R)]
  }

  /** A word of R or more spells the nullifier a canonical word already registered. The pool
      accepts both, one leaf worth 5 is consumed twice, and the pool is left with nothing
      although the other note, worth 5, was never consumed. Ledger.OnceIffNeverAliased says
      exactly when this happens. */
  lemma AliasedNullifierConsumesTwice() returns (b: Book)
    ensures RunsTo(ToyConfig(), Start(), TwicePaid(), b)
    ensures b.notes == [NOTE, OTHER, REST, REST]
    ensures b.consumed == [Consumption(0, KEY), Consumption(0, KEY)]
    ensures b.deposited == b.withdrawn == 10 && BalanceOf(b.st.balances, POOL) == 0
    ensures Unspent(b.notes, Indices(b.consumed)) == 5
    ensures !NeverAliases(ToyConfig(), Start(), TwicePaid())
  {
    hide Act, CollisionFree, NotePairs, Run, InTable, NeverAliases, Unspent, Indices;
    var cfg := ToyConfig();
    var b1 := AfterDeposit(Opened(Start()), CM, NOTE);
    PairsInTable([CM]);
    var b2 := AfterDeposit(b1, OTHER_CM, OTHER);
    assert b2.st.leaves == [CM, OTHER_CM];
    var b3 := AfterPayout(b2, USER, NF, CHANGE);
    b := AfterPayout(b3, USER, NF + R, CHANGE + R);
    TableIsCollisionFree(b.pairs);
    FourSteps(cfg, Opened(Start()), TwicePaid()[0], TwicePaid()[1], TwicePaid()[2], TwicePaid()[3]);
    assert b.consumed[0].index == b.consumed[1].index;
    LeavesConsumedAtMostOnce(cfg, Start(), TwicePaid(), b);
    Outstanding(b.notes, Indices(b.consumed));
    OnlyTheFirst(b.consumed);
  }

  lemma OnlyTheFirst(consumed: seq<Consumption>)
    requires consumed == [Consumption(0, KEY), Consumption(0, KEY)]
    ensures Indices(consumed) == {0}
  {
    assert consumed[0].index == 0;
  }

  lemma Outstanding(notes: seq<Note>, gone: set<nat>)
    requires notes == [NOTE, OTHER, REST, REST]
    ensures gone == {0} ==> Unspent(notes, gone) == 5
  {
    assert notes[..3] == [NOTE, OTHER, REST] && notes[..3][..2] == [NOTE, OTHER] && [NOTE, OTHER][..1] == [NOTE] && [NOTE][..0] == [];
    assert gone == {0} ==> Unspent([NOTE], gone) == 0 && Unspent([NOTE, OTHER], gone) == 5 && Unspent([NOTE, OTHER, REST], gone) == 5;
  }

  lemma TwoSteps(cfg: Config, b: Book, a: Action, a': Action)
    ensures Run(cfg, b, [a, a']) == Act(cfg, Act(cfg, b, a), a')
  {
    hide Act;
    assert [a, a'][..1] == [a] && [a][..0] == [];
    assert Run(cfg, b, []) == b;
    assert Run(cfg, b, [a]) == Act(cfg, b, a);
  }

  lemma FourSteps(cfg: Config, b: Book, a1: Action, a2: Action, a3: Action, a4: Action)
    ensures Run(cfg, b, [a1, a2, a3, a4]) == Act(cfg, Act(cfg, Act(cfg, Act(cfg, b, a1), a2), a3), a4)
  {
    hide Act;
    TwoSteps(cfg, b, a1, a2);
    assert [a1, a2, a3][..2] == [a1, a2];
    assert Run(cfg, b, [a1, a2, a3]) == Act(cfg, Run(cfg, b, [a1, a2]), a3);
    assert [a1, a2, a3, a4][..3] == [a1, a2, a3];
  }
}
