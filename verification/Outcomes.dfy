/** What each flow answers, as a table in the primitives: the hash, the leaves, the registry
    and the balances. Nothing here speaks through the circuits' relations, the specification's
    helper functions or its constants. */
module Outcomes {
  import opened Field
  import opened Wrappers
  import opened MerkleSpec
  import CommitmentTree
  import opened Notes
  import opened Relations
  import opened PoolSpec
  import Pool

  // ---- vocabulary ----

  /** The root after some number of insertions that at most 31 more have followed. */
  ghost predicate Recent(cfg: Config, st: PoolState, root: Word) {
    exists j: nat :: j <= |st.leaves| <= j + 31 && root == Root(cfg.h, DecodeAll(st.leaves[..j]), cfg.depth)
  }

  predicate Is64Bit(v: int) {
    0 <= v < 0x1_0000_0000_0000_0000
  }

  /** The note of this owner, blinding and value hashes to the word. */
  predicate Opens(h: Hasher, owner: Fr, k: Fr, v: Fr, cm: Word) {
    h(h(owner, k), v) == cm % R
  }

  /** The key's note hashes up to the root and its nullifier is the word. */
  predicate Shows(cfg: Config, sk: Fr, input: Input, root: Word, nf: Word) {
    && |input.siblings| == cfg.depth && |input.bits| == cfg.depth
    && Walk(cfg.h, cfg.h(cfg.h(cfg.h(sk, 0), input.k), input.v), input.siblings, input.bits) == root % R
    && cfg.h(sk, input.k) == nf % R
  }

  predicate CanPay(balances: map<Address, Balance>, from: Address, to: Address, amount: int) {
    && BalanceOf(balances, from) >= amount
    && (from == to || BalanceOf(balances, to) + amount <= 0x7fff_ffff_ffff_ffff_ffff_ffff_ffff_ffff)
  }

  /** The amount went from one to the other and nothing else moved. */
  ghost predicate Paid(before: map<Address, Balance>, after: map<Address, Balance>, from: Address, to: Address, amount: int) {
    forall a :: BalanceOf(after, a)
             == BalanceOf(before, a) - (if a == from then amount else 0) + (if a == to then amount else 0)
  }

  predicate RoomForOne(cfg: Config, leaves: seq<Word>, cm: Word) {
    cm !in leaves && |leaves| < Pow2(cfg.depth)
  }

  predicate RoomForTwo(cfg: Config, leaves: seq<Word>, cm1: Word, cm2: Word) {
    cm1 !in leaves && cm2 !in leaves && cm1 != cm2 && |leaves| + 1 < Pow2(cfg.depth)
  }

  /** A readable proof of the right kind whose evidence checks. */
  predicate DepositProven(cfg: Config, amount: I128, cm: Word, proof: Proof)
    requires amount > 0
  {
    && proof.OfDeposit? && Is64Bit(amount)
    && Opens(cfg.h, proof.deposit.ownerPk, proof.deposit.k, amount, cm)
  }

  predicate UnshieldProven(cfg: Config, root: Word, nf: Word, amount: I128, change: Word, proof: Proof) {
    && proof.OfUnshield?
    && var w := proof.unshield;
    && Shows(cfg, w.spendSk, w.input, root, nf)
    && Opens(cfg.h, cfg.h(w.spendSk, 0), w.k2, w.vc, change)
    && Is64Bit(amount) && Is64Bit(w.vc) && w.input.v == amount + w.vc
  }

  predicate OutputProven(h: Hasher, note: Note, cm: Word) {
    Opens(h, note.ownerPk, note.k, note.v, cm) && Is64Bit(note.v)
  }

  predicate TransferProven(cfg: Config, root: Word, nf: Word, out1: Word, out2: Word, proof: Proof) {
    && proof.OfTransfer?
    && var w := proof.transfer;
    && Shows(cfg, w.spendSk, w.input, root, nf)
    && OutputProven(cfg.h, w.out1, out1) && OutputProven(cfg.h, w.out2, out2)
    && w.input.v == w.out1.v + w.out2.v
  }

  predicate TransferNProven(cfg: Config, root: Word, nfs: seq<Word>, out1: Word, out2: Word, proof: Proof) {
    && proof.OfTransferN?
    && var w := proof.transferN;
    && |w.inputs| == |nfs|
    && (forall i :: 0 <= i < |nfs| ==> Shows(cfg, w.spendSk, w.inputs[i], root, nfs[i]) && Is64Bit(w.inputs[i].v))
    && OutputProven(cfg.h, w.out1, out1) && OutputProven(cfg.h, w.out2, out2)
    && (|nfs| == 2 ==> w.inputs[0].v + w.inputs[1].v == w.out1.v + w.out2.v)
    && (|nfs| == 4 ==> w.inputs[0].v + w.inputs[1].v + w.inputs[2].v + w.inputs[3].v == w.out1.v + w.out2.v)
  }

  // ---- the vocabulary and the specification's ----

  lemma RecentIsKnown(cfg: Config, st: PoolState, root: Word)
    ensures Known(cfg, st, root) <==> Recent(cfg, st, root)
  {
    CommitmentTree.KnownRootWindow(cfg.h, cfg.depth, st.leaves, root);
  }

  lemma OpensIsCommitment(h: Hasher, note: Note, cm: Word)
    ensures Opens(h, note.ownerPk, note.k, note.v, cm) <==> Commitment(h, note) == Decode(cm)
  {
  }

  lemma ShowsIsInputHolds(cfg: Config, sk: Fr, input: Input, root: Word, nf: Word)
    ensures Shows(cfg, sk, input, root, nf) <==> InputHolds(cfg.h, cfg.depth, sk, input, Decode(root), Decode(nf))
  {
  }

  lemma DepositProof(cfg: Config, amount: I128, cm: Word, proof: Proof)
    requires amount > 0
    ensures Accepts(cfg, DepositCircuit, proof, [cm, AmountField(amount)]) <==> DepositProven(cfg, amount, cm, proof)
  {
    var pub := DecodeAll([cm, AmountField(amount)]);
    assert pub == [Decode(cm), amount];
  }

  lemma UnshieldProof(cfg: Config, root: Word, nf: Word, recipient: Address, amount: I128, change: Word, proof: Proof)
    requires amount > 0
    ensures Accepts(cfg, UnshieldCircuit, proof, UnshieldPublics(cfg, root, nf, recipient, amount, change))
       <==> UnshieldProven(cfg, root, nf, amount, change, proof)
  {
    hide InputHolds, Shows, Opens, Commitment;
    var pub := DecodeAll(UnshieldPublics(cfg, root, nf, recipient, amount, change));
    assert pub == [Decode(root), Decode(nf), Decode(cfg.recipientField(recipient)), amount, Decode(change)];
    if proof.OfUnshield? {
      var w := proof.unshield;
      ShowsIsInputHolds(cfg, w.spendSk, w.input, root, nf);
      OpensIsCommitment(cfg.h, Note(cfg.h(w.spendSk, 0), w.k2, w.vc), change);
      if InRange(pub[3]) && InRange(w.vc) { TwoTermBalance(pub[3], w.vc, w.input.v); }
    }
  }

  lemma TransferProof(cfg: Config, root: Word, nf: Word, out1: Word, out2: Word, proof: Proof)
    ensures Accepts(cfg, TransferCircuit, proof, [root, nf, out1, out2]) <==> TransferProven(cfg, root, nf, out1, out2, proof)
  {
    hide InputHolds, Shows, Opens, Commitment, Add;
    assert DecodeAll([root, nf, out1, out2]) == [Decode(root), Decode(nf), Decode(out1), Decode(out2)];
    if proof.OfTransfer? {
      var w := proof.transfer;
      ShowsIsInputHolds(cfg, w.spendSk, w.input, root, nf);
      OpensIsCommitment(cfg.h, w.out1, out1);
      OpensIsCommitment(cfg.h, w.out2, out2);
      if InRange(w.out1.v) && InRange(w.out2.v) { TwoTermBalance(w.out1.v, w.out2.v, w.input.v); }
    }
  }

  lemma TotalOfFew(vs: seq<Fr>)
    ensures |vs| == 2 ==> Total(vs) == vs[0] as int + vs[1]
    ensures |vs| == 4 ==> Total(vs) == vs[0] as int + vs[1] + vs[2] + vs[3]
  {
    if |vs| == 2 { assert Total(vs[..1]) == vs[0] by { assert vs[..1][..0] == []; } }
    if |vs| == 4 {
      assert vs[..3][..2] == vs[..2];
      TotalOfFew(vs[..2]);
    }
  }

  lemma TransferNProof(cfg: Config, root: Word, nfs: seq<Word>, out1: Word, out2: Word, proof: Proof)
    requires |nfs| == 2 || |nfs| == 4
    ensures Accepts(cfg, TransferNCircuit(|nfs|), proof, TransferNPublics(root, nfs, out1, out2))
       <==> TransferNProven(cfg, root, nfs, out1, out2, proof)
  {
    hide InputHolds, Shows, Opens, Commitment, Add, Total, Sum;
    var n := |nfs|;
    var pub := DecodeAll(TransferNPublics(root, nfs, out1, out2));
    assert pub[0] == Decode(root) && pub[n + 1] == Decode(out1) && pub[n + 2] == Decode(out2);
    assert forall i :: 0 <= i < n ==> pub[1 + i] == Decode(nfs[i]);
    if proof.OfTransferN? && |proof.transferN.inputs| == n {
      var w := proof.transferN;
      forall i | 0 <= i < n
        ensures Shows(cfg, w.spendSk, w.inputs[i], root, nfs[i])
           <==> InputHolds(cfg.h, cfg.depth, w.spendSk, w.inputs[i], pub[0], pub[1 + i])
      {
        ShowsIsInputHolds(cfg, w.spendSk, w.inputs[i], root, nfs[i]);
      }
      OpensIsCommitment(cfg.h, w.out1, out1);
      OpensIsCommitment(cfg.h, w.out2, out2);
      TotalOfFew(Values(w.inputs));
      if (forall i :: 0 <= i < n ==> InRange(Values(w.inputs)[i])) && InRange(w.out1.v) && InRange(w.out2.v) {
        TransferNBalance(Values(w.inputs), w.out1.v, w.out2.v);
      }
    }
  }

  lemma PaidIsMoved(balances: map<Address, Balance>, from: Address, to: Address, amount: I128)
    requires amount > 0
    ensures Moved(balances, from, to, amount).Some? <==> CanPay(balances, from, to, amount)
    ensures Moved(balances, from, to, amount).Some? ==> Paid(balances, Moved(balances, from, to, amount).value, from, to, amount)
  {
    MovedConserves(balances, from, to, amount);
  }

  /** The effects of a validated spend on registry and tree. */
  lemma SpendsOne(cfg: Config, st: PoolState, nfs: seq<Word>, cm: Word)
    requires FirstFault(st.spent, nfs) == None
    ensures Spent(cfg, st, nfs, [cm])
         == if RoomForOne(cfg, st.leaves, cm) then Some(st.(leaves := st.leaves + [cm], spent := st.spent + ToSet(nfs))) else None
  {
    ValidatedMarksSucceed(st.spent, nfs);
    assert [cm][..0] == [];
    assert InsertedAll(cfg.depth, st.leaves, []) == Ok(st.leaves);
  }

  lemma SpendsTwo(cfg: Config, st: PoolState, nfs: seq<Word>, cm1: Word, cm2: Word)
    requires FirstFault(st.spent, nfs) == None
    ensures Spent(cfg, st, nfs, [cm1, cm2])
         == if RoomForTwo(cfg, st.leaves, cm1, cm2)
            then Some(st.(leaves := st.leaves + [cm1, cm2], spent := st.spent + ToSet(nfs))) else None
  {
    hide Pow2;
    ValidatedMarksSucceed(st.spent, nfs);
    Pool.OneByOne({}, cm1, cfg.depth, st.leaves, cm1, cm2);
    assert st.leaves + [cm1] + [cm2] == st.leaves + [cm1, cm2];
  }

  // ---- the tables ----

  /** Every answer of a deposit and when it is given. */
  lemma DepositOutcome(cfg: Config, st: PoolState, from: Address, authorized: bool, amount: I128, cm: Word, proof: Proof)
    ensures var (st', r) := Deposit(cfg, st, from, authorized, amount, cm, proof);
            var proven := amount > 0 && DepositProven(cfg, amount, cm, proof);
            && (r == Rejected(InvalidAmount) <==> authorized && amount <= 0)
            && (r == Rejected(InvalidProof) <==>
                 authorized && amount > 0 && !proven && proof != WrongLength && proof != NotOnCurve)
            && (r.Rejected? ==> r.error == InvalidAmount || r.error == InvalidProof)
            && (r.Done? <==> authorized && proven && CanPay(st.balances, from, cfg.pool, amount) && RoomForOne(cfg, st.leaves, cm))
            && (r.Done? ==>
                 && r.value == |st.leaves| && st'.leaves == st.leaves + [cm] && st'.spent == st.spent
                 && Paid(st.balances, st'.balances, from, cfg.pool, amount))
            && (!r.Done? ==> st' == st)
  {
    hide Moved, DepositProven, Accepts, Pow2;
    if amount > 0 {
      DepositProof(cfg, amount, cm, proof);
      PaidIsMoved(st.balances, from, cfg.pool, amount);
      NeedsItsKind(cfg, amount, cm, proof);
    }
  }

  lemma NeedsItsKind(cfg: Config, amount: I128, cm: Word, proof: Proof)
    requires amount > 0
    ensures DepositProven(cfg, amount, cm, proof) ==> !Unreadable(proof)
  {
  }

  /** Every answer of an unshield and when it is given, in the contract's order. */
  lemma UnshieldOutcome(cfg: Config, st: PoolState, proof: Proof, root: Word, nf: Word, recipient: Address,
                        amount: I128, change: Word, claim: PrivacyLevel)
    ensures var (st', r) := Unshield(cfg, st, proof, root, nf, recipient, amount, change, claim);
            var allowed := cfg.compliance.Some? ==> cfg.compliance.value(recipient);
            var asked := amount > 0 && !claim.timing && allowed;
            var unspent := asked && Recent(cfg, st, root) && nf !in st.spent;
            var proven := UnshieldProven(cfg, root, nf, amount, change, proof);
            && (r == Rejected(InvalidAmount) <==> amount <= 0)
            && (r == Rejected(UnsupportedLevelClaim) <==> amount > 0 && claim.timing)
            && (r == Rejected(RecipientNotAllowed) <==> amount > 0 && !claim.timing && !allowed)
            && (r == Rejected(UnknownRoot) <==> asked && !Recent(cfg, st, root))
            && (r == Rejected(NullifierAlreadySpent) <==> asked && Recent(cfg, st, root) && nf in st.spent)
            && (r == Rejected(InvalidProof) <==> unspent && !proven && proof != WrongLength && proof != NotOnCurve)
            && (r.Rejected? ==> r.error !in {UnsupportedArity, DuplicateNullifier})
            && (r.Done? <==> unspent && proven && RoomForOne(cfg, st.leaves, change) && CanPay(st.balances, cfg.pool, recipient, amount))
            && (r.Done? ==>
                 && st'.leaves == st.leaves + [change] && st'.spent == st.spent + {nf}
                 && Paid(st.balances, st'.balances, cfg.pool, recipient, amount)
                 && r.value.level == PrivacyLevel(true, claim.receiver, claim.amount, false, true)
                 && r.value.circuit == UnshieldCircuit && r.value.root == root)
            && (!r.Done? ==> st' == st)
  {
    hide Moved, UnshieldProven, Accepts, Recent, CommitmentTree.KnownRoot, Spent, Pow2;
    RecentIsKnown(cfg, st, root);
    if amount > 0 && nf !in st.spent {
      UnshieldProof(cfg, root, nf, recipient, amount, change, proof);
      PaidIsMoved(st.balances, cfg.pool, recipient, amount);
      NoFaultMeansFresh(st.spent, [nf]);
      SpendsOne(cfg, st, [nf], change);
      assert ToSet([nf]) == {nf};
      UnshieldNeedsItsKind(cfg, root, nf, amount, change, proof);
    }
  }

  lemma UnshieldNeedsItsKind(cfg: Config, root: Word, nf: Word, amount: I128, change: Word, proof: Proof)
    ensures UnshieldProven(cfg, root, nf, amount, change, proof) ==> !Unreadable(proof)
  {
  }

  /** Every answer of a one-input transfer and when it is given. */
  lemma TransferOutcome(cfg: Config, st: PoolState, proof: Proof, root: Word, nf: Word, out1: Word, out2: Word)
    ensures var (st', r) := Transfer(cfg, st, proof, root, nf, out1, out2);
            var unspent := Recent(cfg, st, root) && nf !in st.spent;
            var proven := TransferProven(cfg, root, nf, out1, out2, proof);
            && (r == Rejected(UnknownRoot) <==> !Recent(cfg, st, root))
            && (r == Rejected(NullifierAlreadySpent) <==> Recent(cfg, st, root) && nf in st.spent)
            && (r == Rejected(InvalidProof) <==> unspent && !proven && proof != WrongLength && proof != NotOnCurve)
            && (r.Rejected? ==> r.error in {UnknownRoot, NullifierAlreadySpent, InvalidProof})
            && (r.Done? <==> unspent && proven && RoomForTwo(cfg, st.leaves, out1, out2))
            && (r.Done? ==> st' == PoolState(st.leaves + [out1, out2], st.spent + {nf}, st.balances))
            && (!r.Done? ==> st' == st)
  {
    hide TransferProven, Accepts, Recent, CommitmentTree.KnownRoot, Spent, Pow2;
    RecentIsKnown(cfg, st, root);
    if nf !in st.spent {
      TransferProof(cfg, root, nf, out1, out2, proof);
      NoFaultMeansFresh(st.spent, [nf]);
      SpendsTwo(cfg, st, [nf], out1, out2);
      assert ToSet([nf]) == {nf};
      TransferNeedsItsKind(cfg, root, nf, out1, out2, proof);
    }
  }

  lemma TransferNeedsItsKind(cfg: Config, root: Word, nf: Word, out1: Word, out2: Word, proof: Proof)
    ensures TransferProven(cfg, root, nf, out1, out2, proof) ==> !Unreadable(proof)
  {
  }

  /** Some nullifier is shown twice, and nothing before its first showing is spent. */
  ghost predicate ReportsDuplicate(spent: set<Word>, nfs: seq<Word>) {
    exists i: nat :: i < |nfs| && ShownAgain(nfs, i) && NoneSpentBefore(spent, nfs, i)
  }

  /** Some nullifier is spent, and neither it nor any before it is shown again later. */
  ghost predicate ReportsSpent(spent: set<Word>, nfs: seq<Word>) {
    exists i: nat :: i < |nfs| && nfs[i] in spent && OnceUpTo(nfs, i)
  }

  /** Which fault the nested loop reports. */
  lemma {:induction false} FaultReported(spent: set<Word>, nfs: seq<Word>)
    ensures FirstFault(spent, nfs) == Some(DuplicateNullifier) <==> ReportsDuplicate(spent, nfs)
    ensures FirstFault(spent, nfs) == Some(NullifierAlreadySpent) <==> ReportsSpent(spent, nfs)
    ensures FirstFault(spent, nfs) in {None, Some(DuplicateNullifier), Some(NullifierAlreadySpent)}
  {
    if nfs != [] {
      var rest := nfs[1..];
      assert nfs == [nfs[0]] + rest;
      FaultReported(spent, rest);
      if nfs[0] in rest {
        var j :| 0 <= j < |rest| && rest[j] == nfs[0];
        assert nfs[0] == nfs[j + 1];
        assert ShownAgain(nfs, 0) && NoneSpentBefore(spent, nfs, 0);
      } else if nfs[0] in spent {
        SpentFirst(spent, nfs);
      } else {
        DuplicateShifts(spent, nfs[0], rest);
        SpentShifts(spent, nfs[0], rest);
      }
    }
  }

  lemma SpentFirst(spent: set<Word>, nfs: seq<Word>)
    requires nfs != [] && nfs[0] !in nfs[1..] && nfs[0] in spent
    ensures ReportsSpent(spent, nfs) && !ReportsDuplicate(spent, nfs)
  {
    forall j | 0 < j < |nfs| ensures nfs[0] != nfs[j] { assert nfs[1..][j - 1] == nfs[j]; }
    assert OnceUpTo(nfs, 0);
  }

  ghost predicate ShownAgain(nfs: seq<Word>, i: nat)
    requires i < |nfs|
  {
    exists j :: i < j < |nfs| && nfs[i] == nfs[j]
  }

  ghost predicate NoneSpentBefore(spent: set<Word>, nfs: seq<Word>, i: nat)
    requires i < |nfs|
  {
    forall k :: 0 <= k < i ==> nfs[k] !in spent
  }

  lemma DuplicateShiftsAt(spent: set<Word>, nf: Word, rest: seq<Word>, i: nat)
    requires nf !in spent && i < |rest|
    ensures ShownAgain([nf] + rest, i + 1) <==> ShownAgain(rest, i)
    ensures NoneSpentBefore(spent, [nf] + rest, i + 1) <==> NoneSpentBefore(spent, rest, i)
  {
    var nfs := [nf] + rest;
    assert forall k :: 0 <= k < |rest| ==> nfs[k + 1] == rest[k];
    if j :| i + 1 < j < |nfs| && nfs[i + 1] == nfs[j] { assert rest[j - 1] == rest[i]; }
    if j :| i < j < |rest| && rest[i] == rest[j] { assert nfs[j + 1] == nfs[i + 1]; }
    if NoneSpentBefore(spent, nfs, i + 1) {
      forall k | 0 <= k < i ensures rest[k] !in spent { assert nfs[k + 1] !in spent; }
    }
    if NoneSpentBefore(spent, rest, i) {
      forall k | 0 <= k < i + 1 ensures nfs[k] !in spent { if k > 0 { assert nfs[k] == rest[k - 1]; } }
    }
  }

  lemma DuplicateShifts(spent: set<Word>, nf: Word, rest: seq<Word>)
    requires nf !in rest && nf !in spent
    ensures ReportsDuplicate(spent, [nf] + rest) <==> ReportsDuplicate(spent, rest)
  {
    var nfs := [nf] + rest;
    assert !ShownAgain(nfs, 0) by { assert forall k :: 0 <= k < |rest| ==> nfs[k + 1] == rest[k]; }
    hide ShownAgain, NoneSpentBefore;
    if i: nat :| i < |nfs| && ShownAgain(nfs, i) && NoneSpentBefore(spent, nfs, i) {
      DuplicateShiftsAt(spent, nf, rest, i - 1);
    }
    if i: nat :| i < |rest| && ShownAgain(rest, i) && NoneSpentBefore(spent, rest, i) {
      DuplicateShiftsAt(spent, nf, rest, i);
    }
  }

  /** Shown once up to position i and never again. */
  ghost predicate OnceUpTo(nfs: seq<Word>, i: nat) {
    forall k, j :: 0 <= k <= i && k < j < |nfs| ==> nfs[k] != nfs[j]
  }

  lemma OnceShifts(nf: Word, rest: seq<Word>, i: nat)
    requires nf !in rest
    ensures OnceUpTo([nf] + rest, i + 1) <==> OnceUpTo(rest, i)
  {
    var nfs := [nf] + rest;
    assert forall k :: 0 <= k < |rest| ==> nfs[k + 1] == rest[k];
    if OnceUpTo(nfs, i + 1) {
      forall k, j | 0 <= k <= i && k < j < |rest| ensures rest[k] != rest[j] { assert nfs[k + 1] != nfs[j + 1]; }
    }
    if OnceUpTo(rest, i) {
      forall k, j | 0 <= k <= i + 1 && k < j < |nfs| ensures nfs[k] != nfs[j] {
        assert nfs[j] == rest[j - 1];
        if k > 0 { assert nfs[k] == rest[k - 1]; }
      }
    }
  }

  lemma SpentShifts(spent: set<Word>, nf: Word, rest: seq<Word>)
    requires nf !in rest && nf !in spent
    ensures ReportsSpent(spent, [nf] + rest) <==> ReportsSpent(spent, rest)
  {
    var nfs := [nf] + rest;
    assert forall k :: 0 <= k < |rest| ==> nfs[k + 1] == rest[k];
    hide OnceUpTo;
    if i: nat :| i < |nfs| && nfs[i] in spent && OnceUpTo(nfs, i) {
      OnceShifts(nf, rest, i - 1);
      assert rest[i - 1] in spent;
    }
    if i: nat :| i < |rest| && rest[i] in spent && OnceUpTo(rest, i) {
      OnceShifts(nf, rest, i);
      assert nfs[i + 1] in spent;
    }
  }

  /** Every answer of an N-input transfer and when it is given. */
  lemma TransferNOutcome(cfg: Config, st: PoolState, proof: Proof, root: Word, nfs: seq<Word>, out1: Word, out2: Word)
    ensures var (st', r) := TransferN(cfg, st, proof, root, nfs, out1, out2);
            var rooted := (|nfs| == 2 || |nfs| == 4) && Recent(cfg, st, root);
            var unspent := rooted && Distinct(nfs) && forall i :: 0 <= i < |nfs| ==> nfs[i] !in st.spent;
            var proven := TransferNProven(cfg, root, nfs, out1, out2, proof);
            && (r == Rejected(UnsupportedArity) <==> |nfs| != 2 && |nfs| != 4)
            && (r == Rejected(UnknownRoot) <==> (|nfs| == 2 || |nfs| == 4) && !Recent(cfg, st, root))
            && (r == Rejected(DuplicateNullifier) <==> rooted && ReportsDuplicate(st.spent, nfs))
            && (r == Rejected(NullifierAlreadySpent) <==> rooted && ReportsSpent(st.spent, nfs))
            && (r == Rejected(InvalidProof) <==> unspent && !proven && proof != WrongLength && proof != NotOnCurve)
            && (r.Rejected? ==> r.error !in {InvalidAmount, UnsupportedLevelClaim, RecipientNotAllowed})
            && (r.Done? <==> unspent && proven && RoomForTwo(cfg, st.leaves, out1, out2))
            && (r.Done? ==> st' == PoolState(st.leaves + [out1, out2], st.spent + ToSet(nfs), st.balances))
            && (!r.Done? ==> st' == st)
  {
    hide TransferNProven, Accepts, Recent, CommitmentTree.KnownRoot, Spent, FirstFault, ReportsDuplicate, ReportsSpent, Distinct, Pow2;
    RecentIsKnown(cfg, st, root);
    FaultReported(st.spent, nfs);
    NoFaultMeansFresh(st.spent, nfs);
    if |nfs| == 2 || |nfs| == 4 {
      TransferNProof(cfg, root, nfs, out1, out2, proof);
      TransferNNeedsItsKind(cfg, root, nfs, out1, out2, proof);
      if FirstFault(st.spent, nfs) == None {
        SpendsTwo(cfg, st, nfs, out1, out2);
      }
    }
  }

  lemma TransferNNeedsItsKind(cfg: Config, root: Word, nfs: seq<Word>, out1: Word, out2: Word, proof: Proof)
    ensures TransferNProven(cfg, root, nfs, out1, out2, proof) ==> !Unreadable(proof)
  {
  }

  // ---- what the public inputs bind ----

  /** The vector derived from a payout determines it: two payouts whose vectors the verifier
      reads alike pay the same amount, and agree, as field elements, on root, nullifier,
      recipient and change. */
  lemma PublicsBindPayout(cfg: Config, root: Word, nf: Word, recipient: Address, amount: I128, change: Word,
                          root': Word, nf': Word, recipient': Address, amount': I128, change': Word)
    requires amount > 0 && amount' > 0
    ensures DecodeAll(UnshieldPublics(cfg, root, nf, recipient, amount, change))
            == DecodeAll(UnshieldPublics(cfg, root', nf', recipient', amount', change'))
       <==> && amount == amount' && Decode(root) == Decode(root') && Decode(nf) == Decode(nf')
            && Decode(cfg.recipientField(recipient)) == Decode(cfg.recipientField(recipient'))
            && Decode(change) == Decode(change')
  {
    var one := DecodeAll(UnshieldPublics(cfg, root, nf, recipient, amount, change));
    var two := DecodeAll(UnshieldPublics(cfg, root', nf', recipient', amount', change'));
    assert one == [Decode(root), Decode(nf), Decode(cfg.recipientField(recipient)), amount, Decode(change)];
    assert two == [Decode(root'), Decode(nf'), Decode(cfg.recipientField(recipient')), amount', Decode(change')];
    if one == two {
      assert one[0] == two[0] && one[1] == two[1] && one[2] == two[2] && one[3] == two[3] && one[4] == two[4];
    }
  }
}
