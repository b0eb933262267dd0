/** Whole runs of the pool: value conservation, and each leaf consumed at most once. */
module Ledger {
  import opened Field
  import opened Wrappers
  import opened MerkleSpec
  import opened CommitmentTree
  import opened Notes
  import opened Relations
  import opened PoolSpec

  /** One invocation, or a token movement the pool has no part in. */
  datatype Action =
    | DoDeposit(from: Address, authorized: bool, amount: I128, cm: Word, proof: Proof)
    | DoUnshield(proof: Proof, root: Word, nf: Word, recipient: Address, amount: I128, change: Word, claim: PrivacyLevel)
    | DoTransfer(proof: Proof, root: Word, nf: Word, out1: Word, out2: Word)
    | DoTransferN(proof: Proof, root: Word, nfs: seq<Word>, out1: Word, out2: Word)
    | MoveTokens(from: Address, to: Address, amount: I128)

  /** What the environment guarantees of an action: the pool's own address authorizes no
      token movement outside its code. */
  predicate Admissible(cfg: Config, a: Action) {
    match a
    case DoDeposit(from, authorized, _, _, _) => authorized ==> from != cfg.pool
    case MoveTokens(from, _, _) => from != cfg.pool
    case _ => true
  }

  /** What a spend shows, and the witness behind it. */
  datatype Spend = Spend(root: Word, nfs: seq<Word>, cms: seq<Word>, sk: Fr, inputs: seq<Input>, outs: seq<Note>)

  function SpendOf(cfg: Config, a: Action): Option<Spend> {
    match a
    case DoUnshield(OfUnshield(w), root, nf, _, _, change, _) =>
      Some(Spend(root, [nf], [change], w.spendSk, [w.input], [ChangeNote(cfg.h, w)]))
    case DoTransfer(OfTransfer(w), root, nf, out1, out2) =>
      Some(Spend(root, [nf], [out1, out2], w.spendSk, [w.input], [w.out1, w.out2]))
    case DoTransferN(OfTransferN(w), root, nfs, out1, out2) =>
      Some(Spend(root, nfs, [out1, out2], w.spendSk, w.inputs, [w.out1, w.out2]))
    case _ => None
  }

  /** Tokens the pool pays for the action. */
  function Payout(a: Action): int {
    if a.DoUnshield? then a.amount else 0
  }

  /** Tokens an effective action brings to the pool's address without creating a note. */
  function Windfall(cfg: Config, a: Action): int {
    match a
    case DoUnshield(_, _, _, recipient, amount, _, _) => if recipient == cfg.pool then amount else 0
    case MoveTokens(_, to, amount) => if to == cfg.pool then amount else 0
    case _ => 0
  }

  datatype Consumption = Consumption(index: nat, spendSk: Fr)

  /** The pool's state with what an omniscient observer of its proofs would note down:
      the note behind each leaf, the leaf each accepted input opened and the key that
      opened it, the totals, and every pair hashed by an accepted proof or along the
      tree paths it was checked against. */
  datatype Book = Book(
    st: PoolState, notes: seq<Note>, consumed: seq<Consumption>,
    deposited: int, withdrawn: int, surplus: int, pairs: set<Pair>)

  function Opened(balances: map<Address, Balance>): Book {
    Book(PoolState([], {}, balances), [], [], 0, 0, 0, {})
  }

  // ---- evidence in an accepted spend ----

  function InputPairs(h: Hasher, leaves: seq<Word>, sk: Fr, input: Input): set<Pair>
    requires |input.siblings| == |input.bits|
  {
    NotePairs(h, InputNote(h, sk, input))
    + {(sk, OWNER_PK_DOMAIN), (sk, input.k)}
    + WalkPairs(h, Commitment(h, InputNote(h, sk, input)), input.siblings, input.bits)
    + set j: nat, p | j <= |leaves| && p in TreePairs(h, DecodeAll(leaves[..j]), 0, input.bits) :: p
  }

  function AllInputPairs(h: Hasher, leaves: seq<Word>, sk: Fr, inputs: seq<Input>): set<Pair> {
    set i, p | 0 <= i < |inputs| && |inputs[i].siblings| == |inputs[i].bits|
               && p in InputPairs(h, leaves, sk, inputs[i]) :: p
  }

  function AllNotePairs(h: Hasher, notes: seq<Note>): set<Pair> {
    set i, p | 0 <= i < |notes| && p in NotePairs(h, notes[i]) :: p
  }

  function Consumptions(sk: Fr, inputs: seq<Input>): (cs: seq<Consumption>)
    ensures |cs| == |inputs|
    ensures forall i :: 0 <= i < |cs| ==> cs[i] == Consumption(IndexOf(inputs[i].bits), sk)
  {
    seq(|inputs|, i requires 0 <= i < |inputs| => Consumption(IndexOf(inputs[i].bits), sk))
  }

  // ---- one step ----

  /** The pool's next state, and whether the action took effect. */
  ghost function Perform(cfg: Config, st: PoolState, a: Action): (PoolState, bool) {
    match a
    case DoDeposit(from, authorized, amount, cm, proof) =>
      var (st', r) := Deposit(cfg, st, from, authorized, amount, cm, proof);
      (st', r.Done?)
    case DoUnshield(proof, root, nf, recipient, amount, change, claim) =>
      var (st', r) := Unshield(cfg, st, proof, root, nf, recipient, amount, change, claim);
      (st', r.Done?)
    case DoTransfer(proof, root, nf, out1, out2) =>
      var (st', r) := Transfer(cfg, st, proof, root, nf, out1, out2);
      (st', r.Done?)
    case DoTransferN(proof, root, nfs, out1, out2) =>
      var (st', r) := TransferN(cfg, st, proof, root, nfs, out1, out2);
      (st', r.Done?)
    case MoveTokens(from, to, amount) =>
      match Moved(st.balances, from, to, amount)
      case None => (st, false)
      case Some(balances) => (st.(balances := balances), true)
  }

  ghost function Spending(cfg: Config, b: Book, st': PoolState, s: Spend): Book {
    b.(st := st', notes := b.notes + s.outs, consumed := b.consumed + Consumptions(s.sk, s.inputs),
       pairs := b.pairs + AllInputPairs(cfg.h, b.st.leaves, s.sk, s.inputs) + AllNotePairs(cfg.h, s.outs))
  }

  ghost function Act(cfg: Config, b: Book, a: Action): Book {
    var (st', done) := Perform(cfg, b.st, a);
    if !done then b.(st := st')
    else
      match (a, SpendOf(cfg, a))
      case (DoDeposit(_, _, amount, _, OfDeposit(w)), _) =>
        var note := Note(w.ownerPk, w.k, Decode(AmountField(amount)));
        b.(st := st', notes := b.notes + [note], deposited := b.deposited + amount,
           pairs := b.pairs + NotePairs(cfg.h, note))
      case (_, Some(s)) =>
        Spending(cfg, b, st', s)
          .(withdrawn := b.withdrawn + Payout(a), surplus := b.surplus + Windfall(cfg, a))
      case _ => b.(st := st', surplus := b.surplus + Windfall(cfg, a))
  }

  ghost function Run(cfg: Config, b: Book, actions: seq<Action>): Book {
    if actions == [] then b
    else Act(cfg, Run(cfg, b, actions[..|actions| - 1]), actions[|actions| - 1])
  }

  // ---- value still in the tree ----

  function Indices(consumed: seq<Consumption>): set<nat> {
    set i | 0 <= i < |consumed| :: consumed[i].index
  }

  lemma IndicesAppend(consumed: seq<Consumption>, c: Consumption)
    ensures Indices(consumed + [c]) == Indices(consumed) + {c.index}
  {
    var longer := consumed + [c];
    forall i | i in Indices(consumed) + {c.index} ensures i in Indices(longer) {
      if i == c.index {
        assert longer[|consumed|].index == i;
      } else {
        var k :| 0 <= k < |consumed| && consumed[k].index == i;
        assert longer[k].index == i;
      }
    }
  }

  /** Total value of the notes whose leaf is not among `gone`. */
  function Unspent(notes: seq<Note>, gone: set<nat>): nat {
    if notes == [] then 0
    else
      var k := |notes| - 1;
      Unspent(notes[..k], gone) + (if k in gone then 0 else notes[k].v)
  }

  lemma {:induction false} UnspentConsume(notes: seq<Note>, gone: set<nat>, i: nat)
    requires i < |notes| && i !in gone
    ensures Unspent(notes, gone + {i}) == Unspent(notes, gone) - notes[i].v
  {
    var k := |notes| - 1;
    if i < k {
      UnspentConsume(notes[..k], gone, i);
    } else {
      UnspentIgnores(notes[..k], gone, k);
    }
  }

  lemma {:induction false} UnspentIgnores(notes: seq<Note>, gone: set<nat>, i: nat)
    requires |notes| <= i
    ensures Unspent(notes, gone + {i}) == Unspent(notes, gone)
  {
    if notes != [] { UnspentIgnores(notes[..|notes| - 1], gone, i); }
  }

  function NoteTotal(notes: seq<Note>): nat {
    if notes == [] then 0 else NoteTotal(notes[..|notes| - 1]) + notes[|notes| - 1].v
  }

  lemma {:induction false} UnspentNothing(notes: seq<Note>)
    ensures Unspent(notes, {}) == NoteTotal(notes)
  {
    if notes != [] { UnspentNothing(notes[..|notes| - 1]); }
  }

  /** Total value of the notes consumed, counted as often as they were consumed. */
  function ConsumedValue(notes: seq<Note>, consumed: seq<Consumption>): nat {
    if consumed == [] then 0
    else
      var k := |consumed| - 1;
      ConsumedValue(notes, consumed[..k]) + ValueAt(notes, consumed[k].index)
  }

  function ValueAt(notes: seq<Note>, i: nat): nat {
    if i < |notes| then notes[i].v else 0
  }

  /** Value taken out of leaves that had been consumed before. */
  function Repeated(notes: seq<Note>, consumed: seq<Consumption>): nat {
    if consumed == [] then 0
    else
      var k := |consumed| - 1;
      Repeated(notes, consumed[..k])
      + (if consumed[k].index in Indices(consumed[..k]) then ValueAt(notes, consumed[k].index) else 0)
  }

  ghost predicate IndicesBelow(consumed: seq<Consumption>, n: nat) {
    forall c :: c in consumed ==> c.index < n
  }

  /** What was created and not taken out is what the unconsumed notes are worth, less what
      was taken out of consumed ones. */
  lemma {:induction false} UnspentAndRepeated(notes: seq<Note>, consumed: seq<Consumption>)
    requires IndicesBelow(consumed, |notes|)
    ensures NoteTotal(notes) - ConsumedValue(notes, consumed) == Unspent(notes, Indices(consumed)) - Repeated(notes, consumed)
  {
    if consumed == [] {
      assert Indices(consumed) == {};
      UnspentNothing(notes);
    } else {
      hide Unspent, NoteTotal;
      var k := |consumed| - 1;
      var front, c := consumed[..k], consumed[k];
      UnspentAndRepeated(notes, front);
      IndicesAppend(front, c);
      assert consumed == front + [c];
      if c.index in Indices(front) {
        assert Indices(front) + {c.index} == Indices(front);
      } else {
        UnspentConsume(notes, Indices(front), c.index);
      }
    }
  }

  /** Only worthless leaves were consumed again. */
  ghost predicate NoValueTwice(notes: seq<Note>, consumed: seq<Consumption>) {
    forall i, j :: 0 <= i < j < |consumed| && consumed[i].index == consumed[j].index ==> ValueAt(notes, consumed[i].index) == 0
  }

  lemma {:induction false} RepeatedIff(notes: seq<Note>, consumed: seq<Consumption>)
    ensures Repeated(notes, consumed) == 0 <==> NoValueTwice(notes, consumed)
  {
    if consumed != [] {
      var k := |consumed| - 1;
      var front := consumed[..k];
      RepeatedIff(notes, front);
      assert forall i :: 0 <= i < k ==> front[i] == consumed[i];
      if consumed[k].index in Indices(front) {
        var i :| 0 <= i < k && front[i].index == consumed[k].index;
        assert consumed[i].index == consumed[k].index;
      } else {
        forall i | 0 <= i < k ensures consumed[i].index != consumed[k].index {
          assert front[i].index in Indices(front);
        }
      }
    }
  }

  lemma {:induction false} ConsumedValueKept(notes: seq<Note>, outs: seq<Note>, consumed: seq<Consumption>)
    requires IndicesBelow(consumed, |notes|)
    ensures ConsumedValue(notes + outs, consumed) == ConsumedValue(notes, consumed)
  {
    if consumed != [] { ConsumedValueKept(notes, outs, consumed[..|consumed| - 1]); }
  }

  lemma {:induction false} NoteTotalAppend(notes: seq<Note>, outs: seq<Note>)
    ensures NoteTotal(notes + outs) == NoteTotal(notes) + NoteTotal(outs)
  {
    if outs == [] {
      assert notes + outs == notes;
    } else {
      var k := |outs| - 1;
      NoteTotalAppend(notes, outs[..k]);
      assert (notes + outs)[..|notes + outs| - 1] == notes + outs[..k];
    }
  }

  // ---- the invariant ----

  /** Every leaf commits to its note, and every note is worth a 64-bit value. */
  ghost predicate LeavesOpen(cfg: Config, b: Book) {
    && |b.notes| == |b.st.leaves|
    && forall i :: 0 <= i < |b.notes| ==>
         InRange(b.notes[i].v) && Commitment(cfg.h, b.notes[i]) == Decode(b.st.leaves[i]) && NotePairs(cfg.h, b.notes[i]) <= b.pairs
  }

  /** Some registered word spells the field element. */
  ghost predicate Registered(spent: set<Word>, f: Fr) {
    exists s :: s in spent && Decode(s) == f
  }

  /** Every consumed leaf's nullifier is registered, in some spelling, under the key that
      owns its note. */
  ghost predicate ConsumedIsSpent(cfg: Config, b: Book) {
    forall c :: c in b.consumed ==>
      && c.index < |b.notes|
      && OwnerPk(cfg.h, c.spendSk) == b.notes[c.index].ownerPk
      && (c.spendSk, OWNER_PK_DOMAIN) in b.pairs
      && Registered(b.st.spent, Nullifier(cfg.h, c.spendSk, b.notes[c.index].k))
  }

  /** `c` is why `nf` is registered. */
  ghost predicate Accounts(cfg: Config, b: Book, c: Consumption, nf: Word) {
    && c in b.consumed && c.index < |b.notes|
    && Decode(nf) == Nullifier(cfg.h, c.spendSk, b.notes[c.index].k)
    && (c.spendSk, b.notes[c.index].k) in b.pairs
  }

  /** Nothing is registered but nullifiers of consumed leaves. */
  ghost predicate SpentIsConsumed(cfg: Config, b: Book) {
    forall nf :: nf in b.st.spent ==> exists c :: Accounts(cfg, b, c, nf)
  }

  /** The accounts balance, counting each leaf as often as it was consumed. */
  ghost predicate Balanced(cfg: Config, b: Book) {
    && NoteTotal(b.notes) - ConsumedValue(b.notes, b.consumed) == b.deposited - b.withdrawn
    && BalanceOf(b.st.balances, cfg.pool) == b.deposited - b.withdrawn + b.surplus
    && b.surplus >= 0
  }

  ghost predicate Inv(cfg: Config, b: Book) {
    && LeavesOpen(cfg, b)
    && |b.st.leaves| <= Pow2(cfg.depth)
    && ConsumedIsSpent(cfg, b)
    && SpentIsConsumed(cfg, b)
    && Balanced(cfg, b)
  }

  // ---- the evidence in an accepted spend ----

  ghost predicate SpendHolds(cfg: Config, st: PoolState, s: Spend) {
    && |s.nfs| == |s.inputs| && |s.outs| == |s.cms|
    && Known(cfg, st, s.root)
    && FirstFault(st.spent, s.nfs) == None
    && (forall i :: 0 <= i < |s.inputs| ==> InputHolds(cfg.h, cfg.depth, s.sk, s.inputs[i], Decode(s.root), Decode(s.nfs[i])))
    && forall i :: 0 <= i < |s.outs| ==> InRange(s.outs[i].v) && Commitment(cfg.h, s.outs[i]) == Decode(s.cms[i])
  }

  lemma SameCount(cfg: Config, st: PoolState, s: Spend)
    requires SpendHolds(cfg, st, s)
    ensures |s.nfs| == |s.inputs| && |s.outs| == |s.cms|
  {
  }

  /** What an accepted spend does to the pool, in terms of its evidence. */
  ghost predicate SpendDone(cfg: Config, st: PoolState, st': PoolState, s: Spend, payout: int, windfall: int) {
    && st'.leaves == st.leaves + s.cms && st'.spent == st.spent + ToSet(s.nfs)
    && (|st.leaves| <= Pow2(cfg.depth) ==> |st'.leaves| <= Pow2(cfg.depth))
    && Total(Values(s.inputs)) == NoteTotal(s.outs) + payout
    && BalanceOf(st'.balances, cfg.pool) == BalanceOf(st.balances, cfg.pool) - payout + windfall
    && windfall >= 0
  }

  /** The registry and tree effects of a validated spend. */
  lemma SpentEffects(cfg: Config, st: PoolState, nfs: seq<Word>, cms: seq<Word>)
    requires FirstFault(st.spent, nfs) == None
    ensures match Spent(cfg, st, nfs, cms)
            case Some(st') => st' == st.(leaves := st.leaves + cms, spent := st.spent + ToSet(nfs))
                              && (|st.leaves| <= Pow2(cfg.depth) ==> |st'.leaves| <= Pow2(cfg.depth))
            case None => true
  {
    ValidatedMarksSucceed(st.spent, nfs);
    InsertedAllAppends(cfg.depth, st.leaves, cms);
  }

  lemma OneInput(spent: set<Word>, input: Input, nf: Word)
    requires nf !in spent
    ensures FirstFault(spent, [nf]) == None
    ensures Total(Values([input])) == input.v
  {
    NoFaultMeansFresh(spent, [nf]);
    assert Values([input])[..0] == [];
  }

  lemma PairOfNotes(out1: Note, out2: Note)
    ensures NoteTotal([out1]) == out1.v && NoteTotal([out1, out2]) == out1.v + out2.v
  {
    assert [out1, out2][..1] == [out1] && [out1][..0] == [];
  }

  /** What an accepted unshield proof says, over the integers. */
  lemma UnshieldEvidence(cfg: Config, w: UnshieldWitness, root: Word, nf: Word, recipient: Address, amount: I128, change: Word)
    requires amount > 0
    requires UnshieldHolds(cfg.h, cfg.depth, DecodeAll(UnshieldPublics(cfg, root, nf, recipient, amount, change)), w)
    ensures InputHolds(cfg.h, cfg.depth, w.spendSk, w.input, Decode(root), Decode(nf))
    ensures Commitment(cfg.h, ChangeNote(cfg.h, w)) == Decode(change)
    ensures w.input.v == amount + w.vc && InRange(w.vc)
  {
    hide InputHolds, Commitment, OwnerPk;
    var pub := DecodeAll(UnshieldPublics(cfg, root, nf, recipient, amount, change));
    assert pub[3] == amount;
    TwoTermBalance(pub[3], w.vc, w.input.v);
  }

  lemma PayoutBalance(cfg: Config, balances: map<Address, Balance>, recipient: Address, amount: I128)
    requires Moved(balances, cfg.pool, recipient, amount).Some?
    ensures BalanceOf(Moved(balances, cfg.pool, recipient, amount).value, cfg.pool)
         == BalanceOf(balances, cfg.pool) - (if recipient == cfg.pool then 0 else amount)
  {
  }

  lemma UnshieldAccepted(cfg: Config, st: PoolState, a: Action)
    requires a.DoUnshield? && Perform(cfg, st, a).1
    ensures SpendOf(cfg, a).Some? && SpendHolds(cfg, st, SpendOf(cfg, a).value)
    ensures SpendDone(cfg, st, Perform(cfg, st, a).0, SpendOf(cfg, a).value, Payout(a), Windfall(cfg, a))
  {
    hide KnownRoot, Total, NoteTotal, FirstFault, Spent, UnshieldHolds, InputHolds, Moved, BalanceOf, Commitment, AmountField;
    var w := a.proof.unshield;
    UnshieldEvidence(cfg, w, a.root, a.nf, a.recipient, a.amount, a.change);
    PayoutBalance(cfg, st.balances, a.recipient, a.amount);
    OneInput(st.spent, w.input, a.nf);
    SpentEffects(cfg, st, [a.nf], [a.change]);
    PairOfNotes(ChangeNote(cfg.h, w), ChangeNote(cfg.h, w));
  }

  lemma TransferAccepted(cfg: Config, st: PoolState, a: Action)
    requires a.DoTransfer? && Perform(cfg, st, a).1
    ensures SpendOf(cfg, a).Some? && SpendHolds(cfg, st, SpendOf(cfg, a).value)
    ensures SpendDone(cfg, st, Perform(cfg, st, a).0, SpendOf(cfg, a).value, Payout(a), Windfall(cfg, a))
  {
    hide KnownRoot, Total, NoteTotal, FirstFault, Spent, InputHolds, BalanceOf, Commitment;
    var w := a.proof.transfer;
    assert TransferHolds(cfg.h, cfg.depth, DecodeAll([a.root, a.nf, a.out1, a.out2]), w);
    OneInput(st.spent, w.input, a.nf);
    SpentEffects(cfg, st, [a.nf], [a.out1, a.out2]);
    PairOfNotes(w.out1, w.out2);
  }

  /** What an accepted N-input proof says, over the integers. */
  lemma TransferNEvidence(cfg: Config, w: TransferNWitness, root: Word, nfs: seq<Word>, out1: Word, out2: Word)
    requires |nfs| * TWO_64 < R
    requires TransferNHolds(cfg.h, cfg.depth, |nfs|, DecodeAll(TransferNPublics(root, nfs, out1, out2)), w)
    ensures |w.inputs| == |nfs|
    ensures forall i :: 0 <= i < |nfs| ==> InputHolds(cfg.h, cfg.depth, w.spendSk, w.inputs[i], Decode(root), Decode(nfs[i]))
    ensures Commitment(cfg.h, w.out1) == Decode(out1) && Commitment(cfg.h, w.out2) == Decode(out2)
    ensures InRange(w.out1.v) && InRange(w.out2.v) && Total(Values(w.inputs)) == w.out1.v + w.out2.v
  {
    hide InputHolds, Commitment, Total, Sum, Add;
    var n := |nfs|;
    var pub := DecodeAll(TransferNPublics(root, nfs, out1, out2));
    assert pub[n + 1] == Decode(out1) && pub[n + 2] == Decode(out2);
    forall i | 0 <= i < n
      ensures InputHolds(cfg.h, cfg.depth, w.spendSk, w.inputs[i], Decode(root), Decode(nfs[i])) && InRange(w.inputs[i].v)
    {
      assert pub[1 + i] == Decode(nfs[i]);
    }
    TransferNBalance(Values(w.inputs), w.out1.v, w.out2.v);
  }

  lemma TransferNAccepted(cfg: Config, st: PoolState, a: Action)
    requires a.DoTransferN? && Perform(cfg, st, a).1
    ensures SpendOf(cfg, a).Some? && SpendHolds(cfg, st, SpendOf(cfg, a).value)
    ensures SpendDone(cfg, st, Perform(cfg, st, a).0, SpendOf(cfg, a).value, Payout(a), Windfall(cfg, a))
  {
    hide KnownRoot, Total, NoteTotal, FirstFault, Spent, InputHolds, BalanceOf, Commitment;
    hide TransferNHolds, Values;
    var w := a.proof.transferN;
    TransferNEvidence(cfg, w, a.root, a.nfs, a.out1, a.out2);
    SpentEffects(cfg, st, a.nfs, [a.out1, a.out2]);
    PairOfNotes(w.out1, w.out2);
  }

  predicate IsSpend(a: Action) {
    a.DoUnshield? || a.DoTransfer? || a.DoTransferN?
  }

  /** Whatever the flow, an accepted spend carries evidence for all it does. */
  lemma SpendAccepted(cfg: Config, st: PoolState, a: Action)
    requires IsSpend(a) && Perform(cfg, st, a).1
    ensures SpendOf(cfg, a).Some? && SpendHolds(cfg, st, SpendOf(cfg, a).value)
    ensures SpendDone(cfg, st, Perform(cfg, st, a).0, SpendOf(cfg, a).value, Payout(a), Windfall(cfg, a))
  {
    hide Perform, SpendOf, SpendHolds, SpendDone;
    match a
    case DoUnshield(_, _, _, _, _, _, _) => UnshieldAccepted(cfg, st, a);
    case DoTransfer(_, _, _, _, _) => TransferAccepted(cfg, st, a);
    case DoTransferN(_, _, _, _, _) => TransferNAccepted(cfg, st, a);
  }

  // ---- an accepted input opens a leaf ----

  /** An accepted input's path leads to a leaf of the tree as it stands now, even when
      proved against a stale root, and the input note is the note behind that leaf. */
  lemma InputOpensLeaf(cfg: Config, b: Book, all: set<Pair>, root: Word, sk: Fr, input: Input, nf: Fr)
    requires LeavesOpen(cfg, b) && CollisionFree(cfg.h, all) && b.pairs <= all
    requires Known(cfg, b.st, root)
    requires InputHolds(cfg.h, cfg.depth, sk, input, Decode(root), nf)
    requires InputPairs(cfg.h, b.st.leaves, sk, input) <= all
    ensures IndexOf(input.bits) < |b.notes| && b.notes[IndexOf(input.bits)] == InputNote(cfg.h, sk, input)
  {
    hide Walk, WalkPairs, TreePairs, Descend, Node, DecodeAll, Inserted;
    var note := InputNote(cfg.h, sk, input);
    var leaves := b.st.leaves;
    var j :| WindowStart(|leaves|) <= j <= |leaves| && root == RootAt(cfg.h, cfg.depth, leaves, j);
    var past := DecodeAll(leaves[..j]);
    assert CommitPair(cfg.h, note) in NotePairs(cfg.h, note);
    forall p | p in TreePairs(cfg.h, past, 0, input.bits) ensures p in all {
      assert p in InputPairs(cfg.h, leaves, sk, input);
    }
    MembershipSound(cfg.h, all, past, CommitPair(cfg.h, note), input.siblings, input.bits);
    var i := IndexOf(input.bits);
    assert past[i] == Decode(leaves[i]);
    CommitmentBinds(cfg.h, all, b.notes[i], note);
  }

  lemma InputPairsWithin(h: Hasher, leaves: seq<Word>, sk: Fr, inputs: seq<Input>, i: nat)
    requires i < |inputs| && |inputs[i].siblings| == |inputs[i].bits|
    ensures InputPairs(h, leaves, sk, inputs[i]) <= AllInputPairs(h, leaves, sk, inputs)
  {
  }

  /** One input of an accepted spend: the leaf it opens, under the key and nullifier it
      shows, all hashed in the run. */
  lemma InputAt(cfg: Config, b: Book, all: set<Pair>, s: Spend, i: nat)
    requires LeavesOpen(cfg, b) && CollisionFree(cfg.h, all) && b.pairs <= all
    requires SpendHolds(cfg, b.st, s) && i < |s.inputs|
    requires AllInputPairs(cfg.h, b.st.leaves, s.sk, s.inputs) <= all
    ensures IndexOf(s.inputs[i].bits) < |b.notes|
    ensures b.notes[IndexOf(s.inputs[i].bits)] == InputNote(cfg.h, s.sk, s.inputs[i])
    ensures Decode(s.nfs[i]) == Nullifier(cfg.h, s.sk, s.inputs[i].k)
    ensures (s.sk, OWNER_PK_DOMAIN) in all && (s.sk, s.inputs[i].k) in all
  {
    assert InputHolds(cfg.h, cfg.depth, s.sk, s.inputs[i], Decode(s.root), Decode(s.nfs[i]));
    InputPairsWithin(cfg.h, b.st.leaves, s.sk, s.inputs, i);
    assert (s.sk, OWNER_PK_DOMAIN) in InputPairs(cfg.h, b.st.leaves, s.sk, s.inputs[i]);
    assert (s.sk, s.inputs[i].k) in InputPairs(cfg.h, b.st.leaves, s.sk, s.inputs[i]);
    InputOpensLeaf(cfg, b, all, s.root, s.sk, s.inputs[i], Decode(s.nfs[i]));
  }

  // ---- when a leaf is consumed again ----

  /** Two leaves share owner and blinding, hence their nullifier, whatever their values. */
  predicate Twins(notes: seq<Note>, i: nat, j: nat) {
    i < |notes| && j < |notes| && notes[i].ownerPk == notes[j].ownerPk && notes[i].k == notes[j].k
  }

  /** Leaf `i`, or a twin of it, was consumed. */
  ghost predicate TwinConsumed(b: Book, i: nat) {
    exists c :: c in b.consumed && Twins(b.notes, c.index, i)
  }

  /** A leaf's nullifier is registered in some spelling exactly when the leaf or a twin of
      it was consumed: no one without its key can register it. */
  lemma RegisteredIffTwinConsumed(cfg: Config, b: Book, all: set<Pair>, i: nat, sk: Fr)
    requires ConsumedIsSpent(cfg, b) && SpentIsConsumed(cfg, b)
    requires CollisionFree(cfg.h, all) && b.pairs <= all
    requires i < |b.notes| && OwnerPk(cfg.h, sk) == b.notes[i].ownerPk
    requires (sk, OWNER_PK_DOMAIN) in all && (sk, b.notes[i].k) in all
    ensures Registered(b.st.spent, Nullifier(cfg.h, sk, b.notes[i].k)) <==> TwinConsumed(b, i)
  {
    var nf := Nullifier(cfg.h, sk, b.notes[i].k);
    if s :| s in b.st.spent && Decode(s) == nf {
      var c :| Accounts(cfg, b, c, s);
      var there := (c.spendSk, b.notes[c.index].k);
      assert HashPair(cfg.h, there) == HashPair(cfg.h, (sk, b.notes[i].k));
      assert there in all && there == (sk, b.notes[i].k);
      assert Twins(b.notes, c.index, i);
    }
    if c :| c in b.consumed && Twins(b.notes, c.index, i) {
      OwnerBindsKey(cfg.h, all, c.spendSk, sk);
    }
  }

  /** The exact condition. An accepted input opens a leaf that was consumed, or a twin of
      one, if and only if the word it shows spells an already registered nullifier; and two
      inputs of one spend open the same leaf or twins if and only if their words spell the
      same nullifier. Anyone can compare the words before the call. */
  lemma AliasIffTwinConsumed(cfg: Config, b: Book, all: set<Pair>, s: Spend, i: nat)
    requires LeavesOpen(cfg, b) && ConsumedIsSpent(cfg, b) && SpentIsConsumed(cfg, b)
    requires CollisionFree(cfg.h, all) && b.pairs <= all
    requires SpendHolds(cfg, b.st, s) && i < |s.inputs|
    requires AllInputPairs(cfg.h, b.st.leaves, s.sk, s.inputs) <= all
    ensures Registered(b.st.spent, Decode(s.nfs[i])) <==> TwinConsumed(b, IndexOf(s.inputs[i].bits))
    ensures forall j :: 0 <= j < |s.inputs| ==>
              (Decode(s.nfs[j]) == Decode(s.nfs[i]) <==> Twins(b.notes, IndexOf(s.inputs[j].bits), IndexOf(s.inputs[i].bits)))
  {
    hide LeavesOpen, ConsumedIsSpent, SpentIsConsumed, SpendHolds, AllInputPairs, Registered, TwinConsumed, IndexOf;
    SameCount(cfg, b.st, s);
    InputAt(cfg, b, all, s, i);
    RegisteredIffTwinConsumed(cfg, b, all, IndexOf(s.inputs[i].bits), s.sk);
    forall j | 0 <= j < |s.inputs|
      ensures Decode(s.nfs[j]) == Decode(s.nfs[i]) <==> Twins(b.notes, IndexOf(s.inputs[j].bits), IndexOf(s.inputs[i].bits))
    {
      InputAt(cfg, b, all, s, j);
      assert HashPair(cfg.h, (s.sk, s.inputs[j].k)) == Decode(s.nfs[j]);
      assert HashPair(cfg.h, (s.sk, s.inputs[i].k)) == Decode(s.nfs[i]);
    }
  }

  /** Every opening of a consumed leaf, under whatever key, shows a registered nullifier. */
  lemma LeafFixesNullifier(cfg: Config, b: Book, all: set<Pair>, c: Consumption, sk: Fr, input: Input)
    requires CollisionFree(cfg.h, all) && b.pairs <= all
    requires ConsumedIsSpent(cfg, b) && c in b.consumed && c.index == IndexOf(input.bits)
    requires b.notes[c.index] == InputNote(cfg.h, sk, input)
    requires (sk, OWNER_PK_DOMAIN) in all
    ensures Registered(b.st.spent, Nullifier(cfg.h, sk, input.k))
  {
    OwnerBindsKey(cfg.h, all, c.spendSk, sk);
  }

  /** The words are fresh as field elements: none spells a registered nullifier and no two
      spell the same. */
  ghost predicate FieldFresh(spent: set<Word>, nfs: seq<Word>) {
    && (forall i :: 0 <= i < |nfs| ==> !Registered(spent, Decode(nfs[i])))
    && forall i, j :: 0 <= i < j < |nfs| ==> Decode(nfs[i]) != Decode(nfs[j])
  }

  /** No two consumptions were of one leaf or of twins. */
  ghost predicate TwinsOnce(notes: seq<Note>, consumed: seq<Consumption>) {
    forall i, j :: 0 <= i < j < |consumed| ==> !Twins(notes, consumed[i].index, consumed[j].index)
  }

  ghost predicate Apart(notes: seq<Note>, consumed: seq<Consumption>, more: seq<Consumption>) {
    forall i, j :: 0 <= i < |consumed| && 0 <= j < |more| ==> !Twins(notes, consumed[i].index, more[j].index)
  }

  lemma TwinsOnceAppend(notes: seq<Note>, consumed: seq<Consumption>, more: seq<Consumption>)
    ensures TwinsOnce(notes, consumed + more) <==> TwinsOnce(notes, consumed) && TwinsOnce(notes, more) && Apart(notes, consumed, more)
  {
    hide Twins;
    var both, n := consumed + more, |consumed|;
    if TwinsOnce(notes, both) {
      forall i, j | 0 <= i < j < n ensures !Twins(notes, consumed[i].index, consumed[j].index) {
        assert both[i] == consumed[i] && both[j] == consumed[j];
      }
      forall i, j | 0 <= i < j < |more| ensures !Twins(notes, more[i].index, more[j].index) {
        assert both[n + i] == more[i] && both[n + j] == more[j];
      }
      forall i, j | 0 <= i < n && 0 <= j < |more| ensures !Twins(notes, consumed[i].index, more[j].index) {
        assert both[i] == consumed[i] && both[n + j] == more[j];
      }
    }
  }

  lemma TwinsOnceKept(notes: seq<Note>, outs: seq<Note>, consumed: seq<Consumption>)
    requires IndicesBelow(consumed, |notes|)
    ensures TwinsOnce(notes + outs, consumed) <==> TwinsOnce(notes, consumed)
  {
    assert forall i :: 0 <= i < |consumed| ==> consumed[i] in consumed;
  }

  /** A spend consumes no leaf or twin again exactly when its words are fresh as field
      elements. */
  lemma SpendingOnce(cfg: Config, b: Book, b': Book, s: Spend)
    requires Inv(cfg, b) && CollisionFree(cfg.h, b'.pairs)
    requires SpendHolds(cfg, b.st, s)
    requires b'.notes == b.notes + s.outs && b'.consumed == b.consumed + Consumptions(s.sk, s.inputs)
    requires b.pairs + AllInputPairs(cfg.h, b.st.leaves, s.sk, s.inputs) <= b'.pairs
    ensures TwinsOnce(b'.notes, b'.consumed) <==> TwinsOnce(b.notes, b.consumed) && FieldFresh(b.st.spent, s.nfs)
  {
    hide LeavesOpen, Balanced, SpentIsConsumed, AllInputPairs, Registered, CollisionFree, IndexOf, Twins, SpendHolds;
    var n := |s.inputs|;
    SameCount(cfg, b.st, s);
    var more := Consumptions(s.sk, s.inputs);
    forall i | 0 <= i < n
      ensures more[i].index < |b.notes|
      ensures Registered(b.st.spent, Decode(s.nfs[i])) <==> TwinConsumed(b, more[i].index)
      ensures forall j :: 0 <= j < n ==> (Decode(s.nfs[j]) == Decode(s.nfs[i]) <==> Twins(b.notes, more[j].index, more[i].index))
    {
      AliasIffTwinConsumed(cfg, b, b'.pairs, s, i);
      InputAt(cfg, b, b'.pairs, s, i);
    }
    NewlyApart(b, more, s.nfs);
    TwinsOnceAppend(b.notes, b.consumed, more);
    TwinsOnceKept(b.notes, s.outs, b'.consumed);
  }

  lemma NewlyApart(b: Book, more: seq<Consumption>, nfs: seq<Word>)
    requires |more| == |nfs|
    requires forall i :: 0 <= i < |more| ==> (Registered(b.st.spent, Decode(nfs[i])) <==> TwinConsumed(b, more[i].index))
    requires forall i, j :: 0 <= i < |more| && 0 <= j < |more| ==>
               (Decode(nfs[j]) == Decode(nfs[i]) <==> Twins(b.notes, more[j].index, more[i].index))
    ensures FieldFresh(b.st.spent, nfs) <==> TwinsOnce(b.notes, more) && Apart(b.notes, b.consumed, more)
  {
    hide Registered, Twins;
    if FieldFresh(b.st.spent, nfs) {
      forall i, j | 0 <= i < |b.consumed| && 0 <= j < |more| ensures !Twins(b.notes, b.consumed[i].index, more[j].index) {
        assert b.consumed[i] in b.consumed;
        assert !TwinConsumed(b, more[j].index);
      }
    }
    if Apart(b.notes, b.consumed, more) {
      forall j | 0 <= j < |more| ensures !TwinConsumed(b, more[j].index) {
        forall c | c in b.consumed ensures !Twins(b.notes, c.index, more[j].index) {
          var i :| 0 <= i < |b.consumed| && b.consumed[i] == c;
        }
      }
    }
  }

  lemma {:induction false} ConsumedValueGrows(notes: seq<Note>, consumed: seq<Consumption>, sk: Fr, inputs: seq<Input>)
    requires forall i :: 0 <= i < |inputs| ==> ValueAt(notes, IndexOf(inputs[i].bits)) == inputs[i].v
    ensures ConsumedValue(notes, consumed + Consumptions(sk, inputs)) == ConsumedValue(notes, consumed) + Total(Values(inputs))
  {
    hide IndexOf, ValueAt;
    if inputs == [] {
      assert consumed + Consumptions(sk, inputs) == consumed;
    } else {
      var k := |inputs| - 1;
      ConsumedValueGrows(notes, consumed, sk, inputs[..k]);
      var cs := consumed + Consumptions(sk, inputs);
      assert cs[..|cs| - 1] == consumed + Consumptions(sk, inputs[..k]);
      assert cs[|cs| - 1] == Consumption(IndexOf(inputs[k].bits), sk);
      assert Values(inputs)[..k] == Values(inputs[..k]);
    }
  }

  /** Consuming the inputs takes out exactly their values, from leaves of the tree. */
  lemma ConsumeInputs(cfg: Config, b: Book, all: set<Pair>, s: Spend)
    requires Inv(cfg, b) && CollisionFree(cfg.h, all) && b.pairs <= all
    requires SpendHolds(cfg, b.st, s)
    requires AllInputPairs(cfg.h, b.st.leaves, s.sk, s.inputs) <= all
    ensures var cs := b.consumed + Consumptions(s.sk, s.inputs);
            && IndicesBelow(cs, |b.notes|)
            && ConsumedValue(b.notes, cs) == ConsumedValue(b.notes, b.consumed) + Total(Values(s.inputs))
  {
    hide LeavesOpen, CollisionFree, AllInputPairs, SpentIsConsumed, SpendHolds, Balanced, IndexOf, Pow2, ConsumedValue, Total, Values;
    forall i | 0 <= i < |s.inputs|
      ensures IndexOf(s.inputs[i].bits) < |b.notes| && ValueAt(b.notes, IndexOf(s.inputs[i].bits)) == s.inputs[i].v
    {
      InputAt(cfg, b, all, s, i);
    }
    ConsumedValueGrows(b.notes, b.consumed, s.sk, s.inputs);
    IndicesWithin(cfg, b);
  }

  // ---- every action keeps the invariant ----

  lemma SpendingOpens(cfg: Config, b: Book, b': Book, outs: seq<Note>, cms: seq<Word>)
    requires LeavesOpen(cfg, b)
    requires |outs| == |cms| && forall i :: 0 <= i < |outs| ==> InRange(outs[i].v) && Commitment(cfg.h, outs[i]) == Decode(cms[i])
    requires b'.st.leaves == b.st.leaves + cms && b'.notes == b.notes + outs
    requires b.pairs + AllNotePairs(cfg.h, outs) <= b'.pairs
    ensures LeavesOpen(cfg, b')
  {
    var n := |b.notes|;
    forall i | 0 <= i < |b'.notes|
      ensures InRange(b'.notes[i].v) && Commitment(cfg.h, b'.notes[i]) == Decode(b'.st.leaves[i]) && NotePairs(cfg.h, b'.notes[i]) <= b'.pairs
    {
      if i < n {
        assert b'.notes[i] == b.notes[i];
      } else {
        assert b'.notes[i] == outs[i - n];
        forall p | p in NotePairs(cfg.h, outs[i - n]) ensures p in AllNotePairs(cfg.h, outs) {}
      }
    }
  }

  /** What a spend turns the book into, short of the token movement. */
  ghost predicate Booked(cfg: Config, b: Book, b': Book, s: Spend) {
    && b'.st.spent == b.st.spent + ToSet(s.nfs)
    && b'.notes == b.notes + s.outs && b'.consumed == b.consumed + Consumptions(s.sk, s.inputs)
    && b.pairs + AllInputPairs(cfg.h, b.st.leaves, s.sk, s.inputs) <= b'.pairs
  }

  /** A newly consumed leaf is registered under its owner's key. */
  lemma NewlyConsumed(cfg: Config, b: Book, b': Book, s: Spend, i: nat)
    requires Inv(cfg, b) && CollisionFree(cfg.h, b'.pairs)
    requires SpendHolds(cfg, b.st, s) && i < |s.inputs| && Booked(cfg, b, b', s)
    ensures s.nfs[i] in s.nfs && Accounts(cfg, b', Consumptions(s.sk, s.inputs)[i], s.nfs[i])
    ensures OwnerPk(cfg.h, s.sk) == b'.notes[IndexOf(s.inputs[i].bits)].ownerPk && (s.sk, OWNER_PK_DOMAIN) in b'.pairs
  {
    hide CollisionFree, AllInputPairs, LeavesOpen, ConsumedIsSpent, SpentIsConsumed, Balanced;
    InputAt(cfg, b, b'.pairs, s, i);
    assert Consumptions(s.sk, s.inputs)[i] in b'.consumed;
  }

  lemma SpendingMarks(cfg: Config, b: Book, b': Book, s: Spend)
    requires Inv(cfg, b) && CollisionFree(cfg.h, b'.pairs)
    requires SpendHolds(cfg, b.st, s) && Booked(cfg, b, b', s)
    ensures ConsumedIsSpent(cfg, b') && SpentIsConsumed(cfg, b')
  {
    hide CollisionFree, AllInputPairs, Balanced, LeavesOpen, SpendHolds, IndexOf;
    SameCount(cfg, b.st, s);
    forall c | c in b'.consumed
      ensures && c.index < |b'.notes|
              && OwnerPk(cfg.h, c.spendSk) == b'.notes[c.index].ownerPk
              && (c.spendSk, OWNER_PK_DOMAIN) in b'.pairs
              && Registered(b'.st.spent, Nullifier(cfg.h, c.spendSk, b'.notes[c.index].k))
    {
      if c in b.consumed {
        var w :| w in b.st.spent && Decode(w) == Nullifier(cfg.h, c.spendSk, b.notes[c.index].k);
        assert w in b'.st.spent;
      } else {
        var i :| 0 <= i < |s.inputs| && c == Consumptions(s.sk, s.inputs)[i];
        NewlyConsumed(cfg, b, b', s, i);
        assert s.nfs[i] in b'.st.spent;
      }
    }
    forall nf | nf in b'.st.spent ensures exists c :: Accounts(cfg, b', c, nf) {
      if nf in b.st.spent {
        var c :| Accounts(cfg, b, c, nf);
        assert Accounts(cfg, b', c, nf);
      } else {
        var i :| 0 <= i < |s.nfs| && s.nfs[i] == nf;
        NewlyConsumed(cfg, b, b', s, i);
      }
    }
  }

  /** The books after an accepted spend: the leaves open, consumed leaves and registered
      nullifiers account for each other, and the value moves from inputs to outputs. */
  lemma SpendingKeeps(cfg: Config, b: Book, b': Book, s: Spend)
    requires Inv(cfg, b) && CollisionFree(cfg.h, b'.pairs)
    requires SpendHolds(cfg, b.st, s) && Booked(cfg, b, b', s)
    requires b'.st.leaves == b.st.leaves + s.cms && AllNotePairs(cfg.h, s.outs) <= b'.pairs
    ensures LeavesOpen(cfg, b') && ConsumedIsSpent(cfg, b') && SpentIsConsumed(cfg, b')
    ensures NoteTotal(b'.notes) - ConsumedValue(b'.notes, b'.consumed)
         == NoteTotal(b.notes) - ConsumedValue(b.notes, b.consumed) + NoteTotal(s.outs) - Total(Values(s.inputs))
  {
    hide LeavesOpen, CollisionFree, KnownRoot, AllInputPairs, AllNotePairs, ConsumedIsSpent, SpentIsConsumed, Total, NoteTotal,
      ConsumedValue, Values, FirstFault, Balanced;
    SpendingOpens(cfg, b, b', s.outs, s.cms);
    SpendingMarks(cfg, b, b', s);
    ConsumeInputs(cfg, b, b'.pairs, s);
    ConsumedValueKept(b.notes, s.outs, b'.consumed);
    NoteTotalAppend(b.notes, s.outs);
  }

  /** New notes alone disturb no account of what was consumed. */
  lemma AccountsKept(cfg: Config, b: Book, b': Book)
    requires ConsumedIsSpent(cfg, b) && SpentIsConsumed(cfg, b)
    requires b.notes <= b'.notes && b'.consumed == b.consumed && b.pairs <= b'.pairs && b'.st.spent == b.st.spent
    ensures ConsumedIsSpent(cfg, b') && SpentIsConsumed(cfg, b')
  {
    forall nf | nf in b'.st.spent ensures exists c :: Accounts(cfg, b', c, nf) {
      var c :| Accounts(cfg, b, c, nf);
      assert Accounts(cfg, b', c, nf);
    }
  }

  /** A deposit's new leaf is worth the tokens paid in. */
  lemma DepositKeeps(cfg: Config, b: Book, a: Action)
    requires a.DoDeposit? && Inv(cfg, b) && Admissible(cfg, a)
    ensures Inv(cfg, Act(cfg, b, a))
  {
    hide LeavesOpen, ConsumedIsSpent, SpentIsConsumed, NotePairs, AllNotePairs, NoteTotal, ConsumedValue, Pow2;
    var b' := Act(cfg, b, a);
    if Perform(cfg, b.st, a).1 {
      var note := Note(a.proof.deposit.ownerPk, a.proof.deposit.k, Decode(AmountField(a.amount)));
      var pub := DecodeAll([a.cm, AmountField(a.amount)]);
      assert DepositHolds(cfg.h, pub, a.proof.deposit);
      assert note.v == a.amount;
      OneNote(cfg.h, note);
      SpendingOpens(cfg, b, b', [note], [a.cm]);
      AccountsKept(cfg, b, b');
      IndicesWithin(cfg, b);
      ConsumedValueKept(b.notes, [note], b.consumed);
      NoteTotalAppend(b.notes, [note]);
    }
  }

  lemma OneNote(h: Hasher, note: Note)
    ensures AllNotePairs(h, [note]) == NotePairs(h, note) && NoteTotal([note]) == note.v
  {
    assert [note][..0] == [];
    forall p | p in NotePairs(h, note) ensures p in AllNotePairs(h, [note]) {
      assert p in NotePairs(h, [note][0]);
    }
  }

  lemma IndicesWithin(cfg: Config, b: Book)
    requires ConsumedIsSpent(cfg, b)
    ensures IndicesBelow(b.consumed, |b.notes|)
  {
  }

  /** A spend keeps the invariant, whatever words its nullifiers are spelt with. */
  lemma SpendKeeps(cfg: Config, b: Book, a: Action)
    requires IsSpend(a) && Inv(cfg, b)
    requires CollisionFree(cfg.h, Act(cfg, b, a).pairs)
    ensures Inv(cfg, Act(cfg, b, a))
  {
    hide Perform, SpendHolds, CollisionFree, AllInputPairs, AllNotePairs, Total, NoteTotal, ConsumedValue,
      LeavesOpen, ConsumedIsSpent, SpentIsConsumed, Consumptions, Pow2;
    if Perform(cfg, b.st, a).1 {
      SpendAccepted(cfg, b.st, a);
      SpendingKeeps(cfg, b, Act(cfg, b, a), SpendOf(cfg, a).value);
    } else {
      Refused(cfg, b.st, a);
    }
  }

  /** What does not take effect leaves everything as it was. */
  lemma Refused(cfg: Config, st: PoolState, a: Action)
    requires !Perform(cfg, st, a).1
    ensures Perform(cfg, st, a).0 == st
  {
  }

  lemma MoveTokensKeeps(cfg: Config, b: Book, a: Action)
    requires a.MoveTokens? && Inv(cfg, b) && Admissible(cfg, a)
    ensures Inv(cfg, Act(cfg, b, a))
  {
    hide LeavesOpen, ConsumedIsSpent, SpentIsConsumed, NoteTotal, ConsumedValue, Pow2;
    var b' := Act(cfg, b, a);
    assert b'.notes == b.notes && b'.consumed == b.consumed && b'.pairs == b.pairs;
    assert b'.st.leaves == b.st.leaves && b'.st.spent == b.st.spent;
    AccountsKept(cfg, b, b');
    SameLeaves(cfg, b, b');
  }

  lemma SameLeaves(cfg: Config, b: Book, b': Book)
    requires LeavesOpen(cfg, b) && b'.notes == b.notes && b'.pairs == b.pairs && b'.st.leaves == b.st.leaves
    ensures LeavesOpen(cfg, b')
  {
  }

  /** What each effective action appends: leaves to the tree and consumptions to the book. */
  lemma AppendedPerAction(cfg: Config, b: Book, a: Action)
    requires Perform(cfg, b.st, a).1
    ensures var b' := Act(cfg, b, a);
            var leaves, consumed := |b'.st.leaves| - |b.st.leaves|, |b'.consumed| - |b.consumed|;
            && b.st.leaves <= b'.st.leaves && b.consumed <= b'.consumed
            && (a.DoDeposit? ==> leaves == 1 && consumed == 0)
            && (a.DoUnshield? ==> leaves == 1 && consumed == 1)
            && (a.DoTransfer? ==> leaves == 2 && consumed == 1)
            && (a.DoTransferN? ==> leaves == 2 && consumed == |a.nfs| && (consumed == 2 || consumed == 4))
            && (a.MoveTokens? ==> leaves == 0 && consumed == 0)
  {
    hide KnownRoot, Accepts, FirstFault, Spent, Moved, SpendHolds;
    if IsSpend(a) {
      SpendAccepted(cfg, b.st, a);
      SameCount(cfg, b.st, SpendOf(cfg, a).value);
    }
  }

  /** Every admissible action keeps the invariant, unless it exhibits a collision. */
  lemma ActKeeps(cfg: Config, b: Book, a: Action)
    requires Inv(cfg, b) && Admissible(cfg, a)
    requires CollisionFree(cfg.h, Act(cfg, b, a).pairs)
    ensures Inv(cfg, Act(cfg, b, a))
  {
    hide Act, Inv;
    match a
    case DoDeposit(_, _, _, _, _) => DepositKeeps(cfg, b, a);
    case MoveTokens(_, _, _) => MoveTokensKeeps(cfg, b, a);
    case _ => SpendKeeps(cfg, b, a);
  }

  /** The action takes effect although a word it shows spells a nullifier that is already
      registered, or that it shows twice. */
  ghost predicate Aliases(cfg: Config, b: Book, a: Action) {
    Perform(cfg, b.st, a).1 && SpendOf(cfg, a).Some? && !FieldFresh(b.st.spent, SpendOf(cfg, a).value.nfs)
  }

  /** One action consumes no leaf or twin again exactly when it does not alias. */
  lemma ActOnce(cfg: Config, b: Book, a: Action)
    requires Inv(cfg, b)
    requires CollisionFree(cfg.h, Act(cfg, b, a).pairs)
    ensures var b' := Act(cfg, b, a);
            TwinsOnce(b'.notes, b'.consumed) <==> TwinsOnce(b.notes, b.consumed) && !Aliases(cfg, b, a)
  {
    hide Perform, SpendHolds, CollisionFree, AllInputPairs, AllNotePairs, LeavesOpen, SpentIsConsumed, Balanced, TwinsOnce, FieldFresh, Consumptions;
    var b' := Act(cfg, b, a);
    if IsSpend(a) && Perform(cfg, b.st, a).1 {
      SpendAccepted(cfg, b.st, a);
      SpendingOnce(cfg, b, b', SpendOf(cfg, a).value);
    } else {
      IndicesWithin(cfg, b);
      assert b'.consumed == b.consumed;
      if b'.notes != b.notes {
        TwinsOnceKept(b.notes, b'.notes[|b.notes|..], b.consumed);
        assert b'.notes == b.notes + b'.notes[|b.notes|..];
      }
    }
  }

  lemma PairsGrow(cfg: Config, b: Book, a: Action)
    ensures b.pairs <= Act(cfg, b, a).pairs
  {
  }

  // ---- whole runs ----

  /** The book after the first `i` actions. */
  ghost function After(cfg: Config, balances: map<Address, Balance>, actions: seq<Action>, i: nat): Book
    requires i <= |actions|
  {
    Run(cfg, Opened(balances), actions[..i])
  }

  /** The invariant holds after every run of admissible actions, from any starting
      balances that leave the pool empty, as long as no two pairs hashed in the run
      collide. */
  lemma {:induction false} RunKeeps(cfg: Config, balances: map<Address, Balance>, actions: seq<Action>)
    requires BalanceOf(balances, cfg.pool) == 0
    requires forall i :: 0 <= i < |actions| ==> Admissible(cfg, actions[i])
    requires CollisionFree(cfg.h, Run(cfg, Opened(balances), actions).pairs)
    ensures Inv(cfg, Run(cfg, Opened(balances), actions))
  {
    hide Act, Admissible;
    if actions != [] {
      var k := |actions| - 1;
      var b := Run(cfg, Opened(balances), actions[..k]);
      PairsGrow(cfg, b, actions[k]);
      RunKeeps(cfg, balances, actions[..k]);
      ActKeeps(cfg, b, actions[k]);
    }
  }

  /** `b` is the book of a run of admissible actions in which no two hashed pairs collide. */
  ghost predicate RunsTo(cfg: Config, balances: map<Address, Balance>, actions: seq<Action>, b: Book) {
    && BalanceOf(balances, cfg.pool) == 0
    && (forall i :: 0 <= i < |actions| ==> Admissible(cfg, actions[i]))
    && b == Run(cfg, Opened(balances), actions)
    && CollisionFree(cfg.h, b.pairs)
  }

  ghost predicate Reachable(cfg: Config, b: Book) {
    exists balances, actions :: RunsTo(cfg, balances, actions, b)
  }

  lemma ReachableInv(cfg: Config, b: Book)
    requires Reachable(cfg, b)
    ensures Inv(cfg, b)
  {
    hide Act, Inv;
    var balances, actions :| RunsTo(cfg, balances, actions, b);
    RunKeeps(cfg, balances, actions);
  }

  /** No action of the run takes effect on an aliased nullifier. */
  ghost predicate NeverAliases(cfg: Config, balances: map<Address, Balance>, actions: seq<Action>) {
    forall i :: 0 <= i < |actions| ==> !Aliases(cfg, After(cfg, balances, actions, i), actions[i])
  }

  lemma NeverAliasesStep(cfg: Config, balances: map<Address, Balance>, actions: seq<Action>)
    requires actions != []
    ensures var k := |actions| - 1;
            NeverAliases(cfg, balances, actions) <==>
              NeverAliases(cfg, balances, actions[..k]) && !Aliases(cfg, Run(cfg, Opened(balances), actions[..k]), actions[k])
  {
    hide Run, Aliases;
    var k := |actions| - 1;
    assert forall i :: 0 <= i < k ==> actions[..k][..i] == actions[..i];
  }

  lemma NothingTwice()
    ensures TwinsOnce([], [])
  {
  }

  /** Over a whole run, no leaf or twin is consumed twice if and only if no accepted
      nullifier was aliased. */
  lemma {:induction false} OnceIffNeverAliased(cfg: Config, balances: map<Address, Balance>, actions: seq<Action>, b: Book)
    requires RunsTo(cfg, balances, actions, b)
    ensures TwinsOnce(b.notes, b.consumed) <==> NeverAliases(cfg, balances, actions)
  {
    hide Act, Admissible, Aliases, TwinsOnce;
    if actions == [] {
      NothingTwice();
    } else {
      hide NeverAliases;
      var k := |actions| - 1;
      var before := Run(cfg, Opened(balances), actions[..k]);
      PairsGrow(cfg, before, actions[k]);
      OnceIffNeverAliased(cfg, balances, actions[..k], before);
      RunKeeps(cfg, balances, actions[..k]);
      ActOnce(cfg, before, actions[k]);
      NeverAliasesStep(cfg, balances, actions);
    }
  }

  ghost predicate AtMostOnce(consumed: seq<Consumption>) {
    forall i, j :: 0 <= i < j < |consumed| ==> consumed[i].index != consumed[j].index
  }

  /** Every note was made with its own owner and blinding. */
  ghost predicate NoTwins(notes: seq<Note>) {
    forall i, j :: 0 <= i < j < |notes| ==> !Twins(notes, i, j)
  }

  /** At most once. Unless an accepted nullifier was aliased no leaf is consumed twice, not
      by two spends and not by two inputs of one, even when proved against stale roots; and
      when no two notes share owner and blinding, only then. */
  lemma LeavesConsumedAtMostOnce(cfg: Config, balances: map<Address, Balance>, actions: seq<Action>, b: Book)
    requires RunsTo(cfg, balances, actions, b)
    ensures forall c :: c in b.consumed ==> c.index < |b.st.leaves|
    ensures NeverAliases(cfg, balances, actions) ==> AtMostOnce(b.consumed)
    ensures NoTwins(b.notes) ==> (AtMostOnce(b.consumed) <==> NeverAliases(cfg, balances, actions))
  {
    hide Act, Run, Balanced, NeverAliases, CollisionFree, SpentIsConsumed;
    RunKeeps(cfg, balances, actions);
    OnceIffNeverAliased(cfg, balances, actions, b);
    assert forall i :: 0 <= i < |b.consumed| ==> b.consumed[i] in b.consumed;
    if NoTwins(b.notes) && AtMostOnce(b.consumed) {
      forall i, j | 0 <= i < j < |b.consumed| ensures !Twins(b.notes, b.consumed[i].index, b.consumed[j].index) {
        var x, y := b.consumed[i].index, b.consumed[j].index;
        assert x != y && !Twins(b.notes, if x < y then x else y, if x < y then y else x);
      }
    }
  }

  /** Value conservation in every reachable state. The unconsumed notes are worth deposits
      minus withdrawals plus whatever was taken out of leaves that had been consumed
      before; the pool's balance is deposits minus withdrawals plus whatever was paid to
      its own address. */
  lemma ValueConserved(cfg: Config, b: Book)
    requires Reachable(cfg, b)
    ensures Unspent(b.notes, Indices(b.consumed)) == b.deposited - b.withdrawn + Repeated(b.notes, b.consumed)
    ensures BalanceOf(b.st.balances, cfg.pool) == b.deposited - b.withdrawn + b.surplus && b.surplus >= 0
    ensures Unspent(b.notes, Indices(b.consumed)) == b.deposited - b.withdrawn <==> NoValueTwice(b.notes, b.consumed)
  {
    hide Act, LeavesOpen, SpentIsConsumed, Unspent, Indices, Repeated, NoValueTwice, NoteTotal, ConsumedValue, Reachable;
    ReachableInv(cfg, b);
    IndicesWithin(cfg, b);
    UnspentAndRepeated(b.notes, b.consumed);
    RepeatedIff(b.notes, b.consumed);
  }

  /** Unless an accepted nullifier was aliased the unconsumed notes are worth exactly
      deposits minus withdrawals; and when no two notes share owner and blinding and no
      worthless note was consumed, only then. */
  lemma ConservedIffNeverAliased(cfg: Config, balances: map<Address, Balance>, actions: seq<Action>, b: Book)
    requires RunsTo(cfg, balances, actions, b)
    ensures NeverAliases(cfg, balances, actions) ==> Unspent(b.notes, Indices(b.consumed)) == b.deposited - b.withdrawn
    ensures NoTwins(b.notes) && (forall c :: c in b.consumed ==> ValueAt(b.notes, c.index) > 0) ==>
              (Unspent(b.notes, Indices(b.consumed)) == b.deposited - b.withdrawn <==> NeverAliases(cfg, balances, actions))
  {
    hide Run, NeverAliases, CollisionFree, Unspent, Indices, NoTwins, ValueAt;
    assert Reachable(cfg, b);
    ValueConserved(cfg, b);
    LeavesConsumedAtMostOnce(cfg, balances, actions, b);
    assert forall i :: 0 <= i < |b.consumed| ==> b.consumed[i] in b.consumed;
  }

  // ---- canonical words never alias ----

  ghost predicate AllCanonical(ws: set<Word>) {
    forall w :: w in ws ==> Canonical(w)
  }

  /** Fresh canonical words are fresh as field elements. */
  lemma CanonicalFieldFresh(spent: set<Word>, nfs: seq<Word>)
    requires AllCanonical(spent + ToSet(nfs)) && FirstFault(spent, nfs) == None
    ensures FieldFresh(spent, nfs)
  {
    NoFaultMeansFresh(spent, nfs);
    forall i | 0 <= i < |nfs| ensures Canonical(nfs[i]) && !Registered(spent, Decode(nfs[i])) {
      assert nfs[i] in spent + ToSet(nfs);
      WordGuardIsFieldGuard(nfs[i]);
      assert forall s :: s in spent ==> s in spent + ToSet(nfs);
    }
  }

  lemma OnlySpendsMark(cfg: Config, st: PoolState, a: Action)
    requires !IsSpend(a)
    ensures Perform(cfg, st, a).0.spent == st.spent && SpendOf(cfg, a) == None
  {
  }

  lemma CanonicalActNeverAliases(cfg: Config, b: Book, a: Action)
    ensures b.st.spent <= Act(cfg, b, a).st.spent
    ensures AllCanonical(Act(cfg, b, a).st.spent) ==> !Aliases(cfg, b, a)
  {
    hide Perform, KnownRoot, FieldFresh, FirstFault, Consumptions;
    if !Perform(cfg, b.st, a).1 {
      Refused(cfg, b.st, a);
    } else if IsSpend(a) {
      SpendAccepted(cfg, b.st, a);
      if AllCanonical(Act(cfg, b, a).st.spent) {
        CanonicalFieldFresh(b.st.spent, SpendOf(cfg, a).value.nfs);
      }
    } else {
      OnlySpendsMark(cfg, b.st, a);
    }
  }

  /** If every word in the registry is canonical, no accepted call of the run that built it
      ever aliased a nullifier. */
  lemma {:induction false} CanonicalNeverAliases(cfg: Config, balances: map<Address, Balance>, actions: seq<Action>)
    requires AllCanonical(Run(cfg, Opened(balances), actions).st.spent)
    ensures NeverAliases(cfg, balances, actions)
  {
    hide Act, Aliases;
    if actions != [] {
      hide NeverAliases;
      var k := |actions| - 1;
      CanonicalActNeverAliases(cfg, Run(cfg, Opened(balances), actions[..k]), actions[k]);
      CanonicalNeverAliases(cfg, balances, actions[..k]);
      NeverAliasesStep(cfg, balances, actions);
    }
  }

  /** A reachable state in whose history no accepted nullifier was aliased. */
  ghost predicate Unaliased(cfg: Config, b: Book) {
    exists balances, actions :: RunsTo(cfg, balances, actions, b) && NeverAliases(cfg, balances, actions)
  }

  lemma UnaliasedReachable(cfg: Config, b: Book)
    requires Unaliased(cfg, b)
    ensures Reachable(cfg, b)
    ensures Unspent(b.notes, Indices(b.consumed)) == b.deposited - b.withdrawn
  {
    hide RunsTo, NeverAliases, Unspent, Indices;
    var balances, actions :| RunsTo(cfg, balances, actions, b) && NeverAliases(cfg, balances, actions);
    ConservedIffNeverAliased(cfg, balances, actions, b);
  }

  lemma CanonicalUnaliased(cfg: Config, b: Book)
    requires Reachable(cfg, b) && AllCanonical(b.st.spent)
    ensures Unaliased(cfg, b)
  {
    hide Run, NeverAliases, CollisionFree, AllCanonical;
    var balances, actions :| RunsTo(cfg, balances, actions, b);
    CanonicalNeverAliases(cfg, balances, actions);
  }

  /** No one else can burn a note. The nullifier of a leaf's note is registered, in some
      spelling, exactly when the leaf or a twin was consumed. */
  lemma SpendableUnlessTwinConsumed(cfg: Config, b: Book, i: nat, sk: Fr)
    requires Reachable(cfg, b) && i < |b.notes| && OwnerPk(cfg.h, sk) == b.notes[i].ownerPk
    requires CollisionFree(cfg.h, b.pairs + {(sk, OWNER_PK_DOMAIN), (sk, b.notes[i].k)})
    ensures Registered(b.st.spent, Nullifier(cfg.h, sk, b.notes[i].k)) <==> TwinConsumed(b, i)
  {
    hide Reachable, LeavesOpen, Balanced, Registered, TwinConsumed, CollisionFree, ConsumedIsSpent, SpentIsConsumed;
    ReachableInv(cfg, b);
    RegisteredIffTwinConsumed(cfg, b, b.pairs + {(sk, OWNER_PK_DOMAIN), (sk, b.notes[i].k)}, i, sk);
  }

  // ---- when the balance equals deposits minus withdrawals ----

  /** The action takes effect and credits the pool without creating a note. */
  ghost predicate PaysPool(cfg: Config, b: Book, a: Action) {
    Perform(cfg, b.st, a).1 && Windfall(cfg, a) > 0
  }

  ghost predicate NeverPaysPool(cfg: Config, balances: map<Address, Balance>, actions: seq<Action>) {
    forall i :: 0 <= i < |actions| ==> !PaysPool(cfg, After(cfg, balances, actions, i), actions[i])
  }

  lemma SurplusStep(cfg: Config, b: Book, a: Action)
    ensures Act(cfg, b, a).surplus >= b.surplus
    ensures Act(cfg, b, a).surplus == b.surplus <==> !PaysPool(cfg, b, a)
  {
    hide KnownRoot, Accepts, FirstFault, Spent;
  }

  lemma NeverPaysPoolStep(cfg: Config, balances: map<Address, Balance>, actions: seq<Action>)
    requires actions != []
    ensures var k := |actions| - 1;
            NeverPaysPool(cfg, balances, actions) <==>
              NeverPaysPool(cfg, balances, actions[..k])
              && !PaysPool(cfg, Run(cfg, Opened(balances), actions[..k]), actions[k])
  {
    hide Run, PaysPool;
    var k := |actions| - 1;
    assert forall i :: 0 <= i < k ==> actions[..k][..i] == actions[..i];
  }

  lemma {:induction false} SurplusOfRun(cfg: Config, balances: map<Address, Balance>, actions: seq<Action>)
    ensures Run(cfg, Opened(balances), actions).surplus >= 0
    ensures Run(cfg, Opened(balances), actions).surplus == 0 <==> NeverPaysPool(cfg, balances, actions)
  {
    hide Act, PaysPool;
    if actions != [] {
      hide NeverPaysPool;
      var k := |actions| - 1;
      SurplusOfRun(cfg, balances, actions[..k]);
      SurplusStep(cfg, Run(cfg, Opened(balances), actions[..k]), actions[k]);
      NeverPaysPoolStep(cfg, balances, actions);
    }
  }

  /** The pool holds exactly deposits minus withdrawals if and only if no effective unshield
      named the pool itself as recipient and no outsider sent it tokens. Unless an accepted
      nullifier was aliased, the same goes for holding exactly what the unconsumed notes are
      worth. */
  lemma BalanceExactIff(cfg: Config, balances: map<Address, Balance>, actions: seq<Action>, b: Book)
    requires RunsTo(cfg, balances, actions, b)
    ensures BalanceOf(b.st.balances, cfg.pool) == b.deposited - b.withdrawn <==> NeverPaysPool(cfg, balances, actions)
    ensures NeverAliases(cfg, balances, actions) ==>
              (BalanceOf(b.st.balances, cfg.pool) == Unspent(b.notes, Indices(b.consumed)) <==> NeverPaysPool(cfg, balances, actions))
  {
    hide NeverPaysPool, Unspent, Indices, CollisionFree, Run, NeverAliases;
    assert Reachable(cfg, b);
    ValueConserved(cfg, b);
    ConservedIffNeverAliased(cfg, balances, actions, b);
    SurplusOfRun(cfg, balances, actions);
  }

  // ---- solvency ----

  /** Everything `unshield` checks before its first effect. */
  ghost predicate UnshieldValidated(cfg: Config, st: PoolState, proof: Proof, root: Word, nf: Word, recipient: Address,
                                    amount: I128, change: Word, claim: PrivacyLevel) {
    && amount > 0 && !claim.timing
    && (cfg.compliance.Some? ==> cfg.compliance.value(recipient))
    && Known(cfg, st, root)
    && nf !in st.spent
    && Accepts(cfg, UnshieldCircuit, proof, UnshieldPublics(cfg, root, nf, recipient, amount, change))
  }

  /** Solvency up to what was taken out of consumed leaves: in every reachable state a
      validated unshield whose word is fresh as a field element finds its amount in the
      pool, or the pool is short of it by no more than that. */
  lemma SolventUpToRepeated(cfg: Config, b: Book, proof: Proof, root: Word, nf: Word, recipient: Address, amount: I128, change: Word, claim: PrivacyLevel)
    requires Reachable(cfg, b) && !Registered(b.st.spent, Decode(nf))
    requires UnshieldValidated(cfg, b.st, proof, root, nf, recipient, amount, change, claim)
    requires CollisionFree(cfg.h, b.pairs + AllInputPairs(cfg.h, b.st.leaves, proof.unshield.spendSk, [proof.unshield.input]))
    ensures BalanceOf(b.st.balances, cfg.pool) + Repeated(b.notes, b.consumed) >= amount + b.surplus
  {
    hide KnownRoot, CollisionFree, AllInputPairs, Reachable, Registered, InputHolds, UnshieldHolds, Unspent, Repeated, Total, Values,
      LeavesOpen, ConsumedIsSpent, SpentIsConsumed, FirstFault, Balanced, AmountField;
    ReachableInv(cfg, b);
    ValueConserved(cfg, b);
    var w := proof.unshield;
    var s := Spend(root, [nf], [], w.spendSk, [w.input], []);
    UnshieldEvidence(cfg, w, root, nf, recipient, amount, change);
    OneInput(b.st.spent, w.input, nf);
    assert SpendHolds(cfg, b.st, s);
    var all := b.pairs + AllInputPairs(cfg.h, b.st.leaves, w.spendSk, [w.input]);
    InputAt(cfg, b, all, s, 0);
    AliasIffTwinConsumed(cfg, b, all, s, 0);
    NotConsumed(b, IndexOf(w.input.bits));
    UnspentHolds(b.notes, Indices(b.consumed), IndexOf(w.input.bits));
  }

  lemma NotConsumed(b: Book, i: nat)
    requires i < |b.notes| && !TwinConsumed(b, i)
    ensures i !in Indices(b.consumed)
  {
    if k :| 0 <= k < |b.consumed| && b.consumed[k].index == i {
      assert b.consumed[k] in b.consumed && Twins(b.notes, i, i);
    }
  }

  lemma UnspentHolds(notes: seq<Note>, gone: set<nat>, i: nat)
    requires i < |notes| && i !in gone
    ensures notes[i].v <= Unspent(notes, gone)
  {
    UnspentConsume(notes, gone, i);
  }

  /** Solvency. In every reachable state in whose history no accepted nullifier was aliased,
      a validated unshield whose own is not finds its amount in the pool, whatever other
      notes are still outstanding. */
  lemma Solvent(cfg: Config, b: Book, proof: Proof, root: Word, nf: Word, recipient: Address, amount: I128, change: Word, claim: PrivacyLevel)
    requires Unaliased(cfg, b) && !Registered(b.st.spent, Decode(nf))
    requires UnshieldValidated(cfg, b.st, proof, root, nf, recipient, amount, change, claim)
    requires CollisionFree(cfg.h, b.pairs + AllInputPairs(cfg.h, b.st.leaves, proof.unshield.spendSk, [proof.unshield.input]))
    ensures BalanceOf(b.st.balances, cfg.pool) >= amount
  {
    hide Unaliased, Reachable, UnshieldValidated, CollisionFree, AllInputPairs, Registered, Unspent, Indices, Repeated;
    UnaliasedReachable(cfg, b);
    ValueConserved(cfg, b);
    SolventUpToRepeated(cfg, b, proof, root, nf, recipient, amount, change, claim);
  }

  /** A validated unshield can only be undone by a full tree, a duplicate change
      commitment, a pool without the funds or a recipient whose balance cannot hold the
      payout. */
  lemma ValidatedOutcome(cfg: Config, st: PoolState, proof: Proof, root: Word, nf: Word, recipient: Address, amount: I128, change: Word, claim: PrivacyLevel)
    requires UnshieldValidated(cfg, st, proof, root, nf, recipient, amount, change, claim)
    ensures Unshield(cfg, st, proof, root, nf, recipient, amount, change, claim).1
         == if change in st.leaves || |st.leaves| >= Pow2(cfg.depth)
               || BalanceOf(st.balances, cfg.pool) < amount
               || (recipient != cfg.pool && BalanceOf(st.balances, recipient) + amount > I128_MAX)
            then Trapped else Done(Attested(claim, root))
  {
    hide KnownRoot, UnshieldHolds;
    NoFaultMeansFresh(st.spent, [nf]);
    ValidatedMarksSucceed(st.spent, [nf]);
    assert [change][..0] == [];
    assert InsertedAll(cfg.depth, st.leaves, []) == Ok(st.leaves);
    assert InsertedAll(cfg.depth, st.leaves, [change]) == Inserted(cfg.depth, st.leaves, change);
  }

  /** Where solvency holds, funds are never what is missing. */
  lemma UnshieldGoesThrough(cfg: Config, b: Book, proof: Proof, root: Word, nf: Word, recipient: Address, amount: I128, change: Word, claim: PrivacyLevel)
    requires Unaliased(cfg, b) && !Registered(b.st.spent, Decode(nf))
    requires UnshieldValidated(cfg, b.st, proof, root, nf, recipient, amount, change, claim)
    requires CollisionFree(cfg.h, b.pairs + AllInputPairs(cfg.h, b.st.leaves, proof.unshield.spendSk, [proof.unshield.input]))
    ensures Unshield(cfg, b.st, proof, root, nf, recipient, amount, change, claim).1
         == if change in b.st.leaves || |b.st.leaves| >= Pow2(cfg.depth)
               || (recipient != cfg.pool && BalanceOf(b.st.balances, recipient) + amount > I128_MAX)
            then Trapped else Done(Attested(claim, root))
  {
    hide Unaliased, UnshieldValidated, CollisionFree, AllInputPairs, Registered, Unshield;
    Solvent(cfg, b, proof, root, nf, recipient, amount, change, claim);
    ValidatedOutcome(cfg, b.st, proof, root, nf, recipient, amount, change, claim);
  }
}
