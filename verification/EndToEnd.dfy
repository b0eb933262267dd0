/** Results that cross every layer: what a wallet builds, the pool accepts, and what the
    pool accepts is what the emitted circuits can satisfy. */
module EndToEnd {
  import opened Field
  import opened Wrappers
  import opened MerkleSpec
  import CommitmentTree
  import opened Notes
  import opened Relations
  import opened Poseidon
  import R1cs
  import Circuits
  import opened PoolSpec
  import Pool
  import Ledger
  import Wallet
  import opened Outcomes

  // ---- the ideal verifier is the emitted constraint system ----

  /** With Poseidon as the hash, some proof is accepted for given public inputs exactly
      when the emitted constraint system is satisfiable with them. */
  lemma DepositAcceptedIffSatisfiable(cfg: Config, p: Params, wires: seq<R1cs.Wire>, checks: seq<R1cs.Check>, slots: Circuits.Slots<nat>, publics: seq<Word>)
    requires cfg.h == PoseidonHasher(p) && Circuits.DepositSystem(p, wires, checks, slots)
    ensures (exists proof :: Accepts(cfg, DepositCircuit, proof, publics)) <==> Circuits.SatisfiableWith(wires, checks, DecodeAll(publics))
  {
    hide PoseidonHasher, DepositHolds, Circuits.DepositSystem, Circuits.SatisfiableWith;
    Circuits.DepositRealized(p, wires, checks, slots, DecodeAll(publics));
    if wit :| DepositHolds(PoseidonHasher(p), DecodeAll(publics), wit) {
      assert Accepts(cfg, DepositCircuit, OfDeposit(wit), publics);
    }
  }

  lemma UnshieldAcceptedIffSatisfiable(cfg: Config, p: Params, wires: seq<R1cs.Wire>, checks: seq<R1cs.Check>, slots: Circuits.Slots<nat>, publics: seq<Word>)
    requires cfg.h == PoseidonHasher(p) && Circuits.UnshieldSystem(p, cfg.depth, wires, checks, slots)
    ensures (exists proof :: Accepts(cfg, UnshieldCircuit, proof, publics)) <==> Circuits.SatisfiableWith(wires, checks, DecodeAll(publics))
  {
    hide PoseidonHasher, UnshieldHolds, Circuits.UnshieldSystem, Circuits.SatisfiableWith;
    Circuits.UnshieldRealized(p, cfg.depth, wires, checks, slots, DecodeAll(publics));
    if wit :| UnshieldHolds(PoseidonHasher(p), cfg.depth, DecodeAll(publics), wit) {
      assert Accepts(cfg, UnshieldCircuit, OfUnshield(wit), publics);
    }
  }

  lemma TransferAcceptedIffSatisfiable(cfg: Config, p: Params, wires: seq<R1cs.Wire>, checks: seq<R1cs.Check>, slots: Circuits.Slots<nat>, publics: seq<Word>)
    requires cfg.h == PoseidonHasher(p) && Circuits.TransferSystem(p, cfg.depth, wires, checks, slots)
    ensures (exists proof :: Accepts(cfg, TransferCircuit, proof, publics)) <==> Circuits.SatisfiableWith(wires, checks, DecodeAll(publics))
  {
    hide PoseidonHasher, TransferHolds, Circuits.TransferSystem, Circuits.SatisfiableWith;
    Circuits.TransferRealized(p, cfg.depth, wires, checks, slots, DecodeAll(publics));
    if wit :| TransferHolds(PoseidonHasher(p), cfg.depth, DecodeAll(publics), wit) {
      assert Accepts(cfg, TransferCircuit, OfTransfer(wit), publics);
    }
  }

  lemma TransferNAcceptedIffSatisfiable(cfg: Config, p: Params, n: nat, wires: seq<R1cs.Wire>, checks: seq<R1cs.Check>, slots: Circuits.Slots<nat>, publics: seq<Word>)
    requires cfg.h == PoseidonHasher(p) && Circuits.TransferNSystem(p, cfg.depth, n, wires, checks, slots)
    ensures (exists proof :: Accepts(cfg, TransferNCircuit(n), proof, publics)) <==> Circuits.SatisfiableWith(wires, checks, DecodeAll(publics))
  {
    hide PoseidonHasher, TransferNHolds, Circuits.TransferNSystem, Circuits.SatisfiableWith;
    Circuits.TransferNRealized(p, cfg.depth, n, wires, checks, slots, DecodeAll(publics));
    if wit :| TransferNHolds(PoseidonHasher(p), cfg.depth, n, DecodeAll(publics), wit) {
      assert Accepts(cfg, TransferNCircuit(n), OfTransferN(wit), publics);
    }
  }

  /** Each circuit, emitted from scratch, is satisfiable with exactly the public inputs for
      which the ideal verifier accepts some proof. */
  method EmitDeposit(cfg: Config, p: Params) returns (cs: R1cs.ConstraintSystem)
    requires cfg.h == PoseidonHasher(p)
    ensures fresh(cs)
    ensures forall publics :: Circuits.SatisfiableWith(cs.wires, cs.checks, DecodeAll(publics))
              <==> exists proof :: Accepts(cfg, DepositCircuit, proof, publics)
  {
    hide PoseidonHasher, Accepts, Circuits.SatisfiableWith, Circuits.DepositSystem;
    cs := new R1cs.ConstraintSystem();
    ghost var slots := Circuits.SynthesizeDeposit(cs, p);
    forall publics
      ensures Circuits.SatisfiableWith(cs.wires, cs.checks, DecodeAll(publics)) <==> exists proof :: Accepts(cfg, DepositCircuit, proof, publics)
    {
      DepositAcceptedIffSatisfiable(cfg, p, cs.wires, cs.checks, slots, publics);
    }
  }

  method EmitUnshield(cfg: Config, p: Params) returns (cs: R1cs.ConstraintSystem)
    requires cfg.h == PoseidonHasher(p)
    ensures fresh(cs)
    ensures forall publics :: Circuits.SatisfiableWith(cs.wires, cs.checks, DecodeAll(publics))
              <==> exists proof :: Accepts(cfg, UnshieldCircuit, proof, publics)
  {
    hide PoseidonHasher, Accepts, Circuits.SatisfiableWith, Circuits.UnshieldSystem;
    cs := new R1cs.ConstraintSystem();
    ghost var slots := Circuits.SynthesizeUnshield(cs, p, cfg.depth);
    forall publics
      ensures Circuits.SatisfiableWith(cs.wires, cs.checks, DecodeAll(publics)) <==> exists proof :: Accepts(cfg, UnshieldCircuit, proof, publics)
    {
      UnshieldAcceptedIffSatisfiable(cfg, p, cs.wires, cs.checks, slots, publics);
    }
  }

  method EmitTransfer(cfg: Config, p: Params) returns (cs: R1cs.ConstraintSystem)
    requires cfg.h == PoseidonHasher(p)
    ensures fresh(cs)
    ensures forall publics :: Circuits.SatisfiableWith(cs.wires, cs.checks, DecodeAll(publics))
              <==> exists proof :: Accepts(cfg, TransferCircuit, proof, publics)
  {
    hide PoseidonHasher, Accepts, Circuits.SatisfiableWith, Circuits.TransferSystem;
    cs := new R1cs.ConstraintSystem();
    ghost var slots := Circuits.SynthesizeTransfer(cs, p, cfg.depth);
    forall publics
      ensures Circuits.SatisfiableWith(cs.wires, cs.checks, DecodeAll(publics)) <==> exists proof :: Accepts(cfg, TransferCircuit, proof, publics)
    {
      TransferAcceptedIffSatisfiable(cfg, p, cs.wires, cs.checks, slots, publics);
    }
  }

  method EmitTransferN(cfg: Config, p: Params, n: nat) returns (cs: R1cs.ConstraintSystem)
    requires cfg.h == PoseidonHasher(p)
    ensures fresh(cs)
    ensures forall publics :: Circuits.SatisfiableWith(cs.wires, cs.checks, DecodeAll(publics))
              <==> exists proof :: Accepts(cfg, TransferNCircuit(n), proof, publics)
  {
    hide PoseidonHasher, Accepts, Circuits.SatisfiableWith, Circuits.TransferNSystem;
    cs := new R1cs.ConstraintSystem();
    ghost var slots := Circuits.SynthesizeTransferN(cs, p, cfg.depth, n);
    forall publics
      ensures Circuits.SatisfiableWith(cs.wires, cs.checks, DecodeAll(publics)) <==> exists proof :: Accepts(cfg, TransferNCircuit(n), proof, publics)
    {
      TransferNAcceptedIffSatisfiable(cfg, p, n, cs.wires, cs.checks, slots, publics);
    }
  }

  // ---- honest spends are accepted ----

  /** A root no more than 31 insertions old is still known. */
  lemma RecentRootKnown(cfg: Config, st: PoolState, j: nat)
    requires j <= |st.leaves| <= j + 31
    ensures Known(cfg, st, Root(cfg.h, DecodeAll(st.leaves[..j]), cfg.depth))
  {
    assert Root(cfg.h, DecodeAll(st.leaves[..j]), cfg.depth) == CommitmentTree.RootAt(cfg.h, cfg.depth, st.leaves, j);
  }

  lemma FieldWordsDecode(fs: seq<Fr>)
    ensures DecodeAll(fs) == fs
  {
  }

  /** An honest N-input transfer built over the leaves as they stood at most 31 insertions
      ago is accepted exactly when its nullifiers are pairwise distinct and unspent and its
      outputs are fresh, distinct and fit in the tree. */
  lemma HonestTransferNAccepted(cfg: Config, st: PoolState, j: nat, p: Wallet.TransferNParams, b: Wallet.Built<TransferNWitness>)
    requires j <= |st.leaves| <= j + 31 && p.leaves == st.leaves[..j]
    requires |p.inputs| == 2 || |p.inputs| == 4
    requires b.publics == Wallet.TransferNPublics(cfg.h, cfg.depth, p)
    requires TransferNHolds(cfg.h, cfg.depth, |p.inputs|, b.publics, b.evidence)
    ensures var n := |p.inputs|;
            var nfs := b.publics[1..n + 1];
            TransferN(cfg, st, OfTransferN(b.evidence), b.publics[0], nfs, b.publics[n + 1], b.publics[n + 2]).1 == Done(())
            <==> && Distinct(nfs) && (forall i :: 0 <= i < n ==> nfs[i] !in st.spent)
                 && RoomForTwo(cfg, st.leaves, b.publics[n + 1], b.publics[n + 2])
  {
    hide TransferNHolds, Commitment, Node, Pow2, FirstFault;
    var n := |p.inputs|;
    var pub := b.publics;
    var nfs := pub[1..n + 1];
    RecentRootKnown(cfg, st, j);
    assert [pub[0]] + nfs + [pub[n + 1], pub[n + 2]] == pub;
    FieldWordsDecode(pub);
    NoFaultMeansFresh(st.spent, nfs);
    if FirstFault(st.spent, nfs) == None {
      SpendsTwo(cfg, st, nfs, pub[n + 1], pub[n + 2]);
    }
  }

  lemma HonestTransferAccepted(cfg: Config, st: PoolState, j: nat, p: Wallet.TransferParams, b: Wallet.Built<TransferWitness>)
    requires j <= |st.leaves| <= j + 31 && p.leaves == st.leaves[..j]
    requires b.publics == Wallet.TransferPublics(cfg.h, cfg.depth, p)
    requires TransferHolds(cfg.h, cfg.depth, b.publics, b.evidence)
    ensures Transfer(cfg, st, OfTransfer(b.evidence), b.publics[0], b.publics[1], b.publics[2], b.publics[3]).1 == Done(())
       <==> b.publics[1] !in st.spent && RoomForTwo(cfg, st.leaves, b.publics[2], b.publics[3])
  {
    hide TransferHolds, Commitment, Node, Pow2, FirstFault;
    var pub := b.publics;
    RecentRootKnown(cfg, st, j);
    assert [pub[0], pub[1], pub[2], pub[3]] == pub;
    FieldWordsDecode(pub);
    NoFaultMeansFresh(st.spent, [pub[1]]);
    if pub[1] !in st.spent {
      SpendsTwo(cfg, st, [pub[1]], pub[2], pub[3]);
    }
  }

  /** An honest deposit is accepted exactly when the payer agreed and can pay a positive
      amount, the pool can hold it, the commitment is fresh and the tree has room. */
  lemma HonestDepositAccepted(cfg: Config, st: PoolState, ownerPk: Fr, k: Fr, amount: Wallet.U128, b: Wallet.Built<DepositWitness>,
                              from: Address, authorized: bool)
    requires b == Wallet.Built([Commitment(cfg.h, Note(ownerPk, k, amount)), amount], DepositWitness(ownerPk, k))
    requires Wallet.Fits(amount)
    ensures Deposit(cfg, st, from, authorized, amount, b.publics[0], OfDeposit(b.evidence)).1
         == if !authorized then Trapped
            else if amount == 0 then Rejected(InvalidAmount)
            else if && BalanceOf(st.balances, from) >= amount
                    && (from == cfg.pool || BalanceOf(st.balances, cfg.pool) + amount <= I128_MAX)
                    && b.publics[0] !in st.leaves && |st.leaves| < Pow2(cfg.depth)
            then Done(|st.leaves|) else Trapped
  {
    hide Commitment, Pow2;
    var pub := DecodeAll([b.publics[0], AmountField(amount)]);
    assert pub == b.publics;
  }

  /** The public inputs the pool derives for a payout are the ones the wallet proved. */
  lemma UnshieldPublicsAgree(cfg: Config, p: Wallet.UnshieldParams, recipient: Address)
    requires p.amount <= p.note.v && p.amount <= I128_MAX
    requires Decode(p.recipient) == Decode(cfg.recipientField(recipient))
    ensures var pub := Wallet.UnshieldPublics(cfg.h, cfg.depth, p);
            DecodeAll(UnshieldPublics(cfg, pub[0], pub[1], recipient, p.amount, pub[4])) == pub
  {
    hide Commitment, Node, Nullifier, Root;
  }

  /** An honest unshield is accepted exactly when the pool's own checks pass, the word of
      its nullifier is not registered, its change commitment is fresh, the tree has room,
      the pool has the funds and the recipient can hold the payout. */
  lemma HonestUnshieldAccepted(cfg: Config, st: PoolState, j: nat, p: Wallet.UnshieldParams, b: Wallet.Built<UnshieldWitness>,
                               recipient: Address, claim: PrivacyLevel)
    requires j <= |st.leaves| <= j + 31 && p.leaves == st.leaves[..j]
    requires 0 < p.amount <= p.note.v && p.amount <= I128_MAX
    requires Decode(p.recipient) == Decode(cfg.recipientField(recipient))
    requires b.publics == Wallet.UnshieldPublics(cfg.h, cfg.depth, p)
    requires UnshieldHolds(cfg.h, cfg.depth, b.publics, b.evidence)
    ensures Unshield(cfg, st, OfUnshield(b.evidence), b.publics[0], b.publics[1], recipient, p.amount, b.publics[4], claim).1.Done?
       <==> && !claim.timing && (cfg.compliance.Some? ==> cfg.compliance.value(recipient))
            && b.publics[1] !in st.spent
            && b.publics[4] !in st.leaves && |st.leaves| < Pow2(cfg.depth)
            && BalanceOf(st.balances, cfg.pool) >= p.amount
            && (recipient == cfg.pool || BalanceOf(st.balances, recipient) + p.amount <= I128_MAX)
  {
    hide UnshieldHolds, Commitment, Node, Pow2, CommitmentTree.KnownRoot, Moved, Spent;
    var pub := b.publics;
    RecentRootKnown(cfg, st, j);
    UnshieldPublicsAgree(cfg, p, recipient);
    var proof := OfUnshield(b.evidence);
    if !claim.timing && (cfg.compliance.Some? ==> cfg.compliance.value(recipient)) && pub[1] !in st.spent {
      assert Ledger.UnshieldValidated(cfg, st, proof, pub[0], pub[1], recipient, p.amount, pub[4], claim);
      Ledger.ValidatedOutcome(cfg, st, proof, pub[0], pub[1], recipient, p.amount, pub[4], claim);
    }
  }

  /** Leaf i is a note of this value and blinding that whoever has the owner's key can
      spend. */
  ghost predicate Receives(h: Hasher, leaves: seq<Word>, i: nat, to: Wallet.Output) {
    forall sk :: h(sk, 0) == to.ownerPk ==> Wallet.LeafMatches(h, sk, DecodeAll(leaves), Wallet.NoteRef(to.k, to.v, i))
  }

  lemma LeafReceives(h: Hasher, leaves: seq<Word>, i: nat, to: Wallet.Output)
    requires i < |leaves| && leaves[i] == h(h(to.ownerPk, to.k), to.v)
    ensures Receives(h, leaves, i, to)
  {
  }

  /** What a payment asks of the pool's state. */
  ghost predicate Payable(cfg: Config, st: PoolState, p: Wallet.TransferNParams) {
    var h := cfg.h;
    && (forall i, j :: 0 <= i < j < |p.inputs| ==> h(p.spendSk, p.inputs[i].k) != h(p.spendSk, p.inputs[j].k))
    && (forall i :: 0 <= i < |p.inputs| ==> h(p.spendSk, p.inputs[i].k) !in st.spent)
    && RoomForTwo(cfg, st.leaves, h(h(p.out1.ownerPk, p.out1.k), p.out1.v), h(h(p.out2.ownerPk, p.out2.k), p.out2.v))
  }

  /** What the pool makes of the proof the wallet built. */
  lemma PaymentOutcome(cfg: Config, st: PoolState, j: nat, n: nat, p: Wallet.TransferNParams, b: Wallet.Built<TransferNWitness>)
    requires (n == 2 || n == 4) && j <= |st.leaves| <= j + 31 && p.leaves == st.leaves[..j]
    requires |p.inputs| == n && |b.publics| == n + 3 && b.publics == Wallet.TransferNPublics(cfg.h, cfg.depth, p)
    requires TransferNHolds(cfg.h, cfg.depth, n, b.publics, b.evidence)
    ensures var (st', r) := TransferN(cfg, st, OfTransferN(b.evidence), b.publics[0], b.publics[1..n + 1], b.publics[n + 1], b.publics[n + 2]);
            && (r == Done(()) <==> Payable(cfg, st, p))
            && (r == Done(()) ==>
                 st'.leaves == st.leaves + [cfg.h(cfg.h(p.out1.ownerPk, p.out1.k), p.out1.v), cfg.h(cfg.h(p.out2.ownerPk, p.out2.k), p.out2.v)])
            && (r != Done(()) ==> st' == st)
  {
    hide TransferNHolds, Commitment, Root, Pow2, TransferN, RoomForTwo, CommitmentTree.KnownRoot, Accepts, Recent, TransferNProven,
      ReportsDuplicate, ReportsSpent, Wallet.TransferNPublics;
    var pub := b.publics;
    var nfs := pub[1..n + 1];
    Wallet.PublicsAt(cfg.h, cfg.depth, p);
    CommitmentInFull(cfg.h, Wallet.OutputNote(p.out1));
    CommitmentInFull(cfg.h, Wallet.OutputNote(p.out2));
    forall i | 0 <= i < n ensures nfs[i] == cfg.h(p.spendSk, p.inputs[i].k) {
      assert nfs[i] == pub[1 + i] == Wallet.Nullifiers(cfg.h, p.spendSk, p.inputs)[i];
    }
    HonestTransferNAccepted(cfg, st, j, p, b);
    TransferNOutcome(cfg, st, OfTransferN(b.evidence), pub[0], nfs, pub[n + 1], pub[n + 2]);
  }

  /** The whole path of a private payment, through either of the builders for two and four
      inputs: rebuild the tree from the leaves the indexer served, assemble the proof,
      submit it. It goes through exactly when the wallet finds no fault, the values have 64
      bits, the notes are unspent and distinct and the outputs fresh; and then both payees
      hold their notes. */
  method PayPrivately(pool: Pool.TransferPool, j: nat, n: nat, p: Wallet.TransferNParams) returns (r: Result<Outcome<(), Error>, Wallet.Error>)
    requires pool.Valid() && (n == 2 || n == 4)
    requires j <= |pool.State().leaves| <= j + 31 && p.leaves == pool.State().leaves[..j]
    modifies pool.tree, pool.registry, pool.token
    ensures pool.Valid()
    ensures r == Ok(Done(())) <==>
              Wallet.TransferNRefusal(pool.cfg.h, n, p) == None && Wallet.TransferNFits(p) && Payable(pool.cfg, old(pool.State()), p)
    ensures r == Ok(Done(())) ==>
              var leaves, before := pool.State().leaves, |old(pool.State()).leaves|;
              && |leaves| == before + 2 && leaves[..before] == old(pool.State()).leaves
              && Receives(pool.cfg.h, leaves, before, p.out1) && Receives(pool.cfg.h, leaves, before + 1, p.out2)
    ensures r != Ok(Done(())) ==> pool.State() == old(pool.State())
  {
    hide TransferNHolds, Commitment, Root, CommitmentTree.Represents, Receives, TransferN, Payable, Wallet.TransferNFits,
      Wallet.TransferNPublics, Wallet.TransferNRefusal, Wallet.HonestTransferN;
    var h, depth := pool.cfg.h, pool.cfg.depth;
    ghost var st := pool.State();
    LeavesFit(pool);
    var built := Wallet.TransferNProof(h, depth, n, p);
    if built.Err? {
      return Err(built.error);
    }
    var pub := built.value.publics;
    PaymentOutcome(pool.cfg, st, j, n, p, built.value);
    var answer := pool.TransferN(OfTransferN(built.value.evidence), pub[0], pub[1..n + 1], pub[n + 1], pub[n + 2]);
    if answer == Done(()) {
      LeafReceives(h, pool.State().leaves, |st.leaves|, p.out1);
      LeafReceives(h, pool.State().leaves, |st.leaves| + 1, p.out2);
    }
    return Ok(answer);
  }

  lemma LeavesFit(pool: Pool.TransferPool)
    requires pool.Valid()
    ensures |pool.State().leaves| <= Pow2(pool.cfg.depth)
  {
  }

  /** The same for the one-input payment. */
  method PayFromOne(pool: Pool.TransferPool, j: nat, p: Wallet.TransferParams) returns (r: Result<Outcome<(), Error>, Wallet.Error>)
    requires pool.Valid()
    requires j <= |pool.State().leaves| <= j + 31 && p.leaves == pool.State().leaves[..j]
    modifies pool.tree, pool.registry, pool.token
    ensures pool.Valid()
    ensures var h := pool.cfg.h;
            r == Ok(Done(())) <==>
              && Wallet.TransferRefusal(h, p) == None && Wallet.Fits(p.out1.v) && Wallet.Fits(p.out2.v)
              && h(p.spendSk, p.note.k) !in old(pool.State()).spent
              && RoomForTwo(pool.cfg, old(pool.State()).leaves, h(h(p.out1.ownerPk, p.out1.k), p.out1.v), h(h(p.out2.ownerPk, p.out2.k), p.out2.v))
    ensures r == Ok(Done(())) ==>
              var leaves, before := pool.State().leaves, |old(pool.State()).leaves|;
              && |leaves| == before + 2 && leaves[..before] == old(pool.State()).leaves
              && Receives(pool.cfg.h, leaves, before, p.out1) && Receives(pool.cfg.h, leaves, before + 1, p.out2)
    ensures r != Ok(Done(())) ==> pool.State() == old(pool.State())
  {
    hide TransferHolds, Commitment, Node, Pow2, FirstFault, Spent, CommitmentTree.Represents, CommitmentTree.KnownRoot, Accepts, Receives, Transfer,
      Wallet.TransferPublics, RoomForTwo;
    var h, depth := pool.cfg.h, pool.cfg.depth;
    ghost var st := pool.State();
    LeavesFit(pool);
    var built := Wallet.TransferProof(h, depth, p);
    if built.Err? {
      return Err(built.error);
    }
    var pub := built.value.publics;
    HonestTransferAccepted(pool.cfg, st, j, p, built.value);
    var answer := pool.Transfer(OfTransfer(built.value.evidence), pub[0], pub[1], pub[2], pub[3]);
    TransferOutcome(pool.cfg, st, OfTransfer(built.value.evidence), pub[0], pub[1], pub[2], pub[3]);
    if answer.Done? {
      LeafReceives(h, pool.State().leaves, |st.leaves|, p.out1);
      LeafReceives(h, pool.State().leaves, |st.leaves| + 1, p.out2);
    }
    return Ok(answer);
  }

  /** A deposit through the wallet's builder: it goes through exactly when the payer agreed
      and can pay a positive 64-bit amount, the pool can hold it and the commitment is
      fresh; and then the owner holds the note. */
  method Fund(pool: Pool.TransferPool, from: Address, authorized: bool, to: Wallet.Output) returns (r: Result<Outcome<nat, Error>, Wallet.Error>)
    requires pool.Valid()
    modifies pool.tree, pool.registry, pool.token
    ensures pool.Valid()
    ensures var st := old(pool.State());
            r == Ok(Done(|st.leaves|)) <==>
              && authorized && to.v > 0 && Is64Bit(to.v) && CanPay(st.balances, from, pool.cfg.pool, to.v)
              && RoomForOne(pool.cfg, st.leaves, pool.cfg.h(pool.cfg.h(to.ownerPk, to.k), to.v))
    ensures r.Ok? && r.value.Done? ==>
              && r.value.value == |old(pool.State()).leaves| && Receives(pool.cfg.h, pool.State().leaves, r.value.value, to)
    ensures !(r.Ok? && r.value.Done?) ==> pool.State() == old(pool.State())
  {
    hide CommitmentTree.Represents, Accepts, Receives, Deposit, RoomForOne, CanPay, Pow2;
    var built := Wallet.DepositProof(pool.cfg.h, to.ownerPk, to.k, to.v);
    if built.Err? {
      return Err(built.error);
    }
    var pub := built.value.publics;
    ghost var st := pool.State();
    var answer := pool.Deposit(from, authorized, pub[1], pub[0], OfDeposit(built.value.evidence));
    DepositOutcome(pool.cfg, st, from, authorized, pub[1], pub[0], OfDeposit(built.value.evidence));
    if answer.Done? {
      LeafReceives(pool.cfg.h, pool.State().leaves, |st.leaves|, to);
    }
    return Ok(answer);
  }

  /** The book's note at an owned leaf is what the wallet looks for there. */
  lemma OwnLeafMatches(cfg: Config, book: Ledger.Book, j: nat, spendSk: Fr, note: Wallet.NoteRef)
    requires Ledger.LeavesOpen(cfg, book)
    requires note.index < j <= |book.notes|
    requires book.notes[note.index] == Wallet.RefNote(cfg.h, spendSk, note)
    ensures Wallet.LeafMatches(cfg.h, spendSk, DecodeAll(book.st.leaves[..j]), note)
    ensures Wallet.Fits(note.v)
  {
  }

  /** An owner's request to cash a note in whole or in part, sound but for what spends may
      have done to the note and to the pool's funds. */
  ghost predicate Withdrawal(cfg: Config, book: Ledger.Book, j: nat, p: Wallet.UnshieldParams, recipient: Address, claim: PrivacyLevel) {
    && Ledger.Reachable(cfg, book)
    && j <= |book.st.leaves| <= j + 31 && p.leaves == book.st.leaves[..j]
    && p.note.index < j && p.note.index < |book.notes|
    && book.notes[p.note.index] == Wallet.RefNote(cfg.h, p.spendSk, p.note)
    && 0 < p.amount <= p.note.v
    && Decode(p.recipient) == Decode(cfg.recipientField(recipient))
    && !claim.timing && (cfg.compliance.Some? ==> cfg.compliance.value(recipient))
    && Commitment(cfg.h, Owned(cfg.h, p.spendSk, p.changeK, p.note.v - p.amount)) !in book.st.leaves
    && |book.st.leaves| < Pow2(cfg.depth)
    && (recipient == cfg.pool || BalanceOf(book.st.balances, recipient) + p.amount <= I128_MAX)
    && forall input :: Wallet.HonestInput(cfg.h, cfg.depth, DecodeAll(p.leaves), p.note, input)
         ==> CollisionFree(cfg.h, book.pairs + Ledger.AllInputPairs(cfg.h, book.st.leaves, p.spendSk, [input]))
  }

  lemma WithdrawalIsBuilt(cfg: Config, book: Ledger.Book, j: nat, p: Wallet.UnshieldParams, recipient: Address, claim: PrivacyLevel)
    requires Withdrawal(cfg, book, j, p, recipient, claim)
    ensures Wallet.UnshieldRefusal(cfg.h, p) == None && |p.leaves| <= Pow2(cfg.depth)
    ensures Wallet.Fits(p.amount) && Wallet.Fits(p.note.v - p.amount)
  {
    hide Ledger.Reachable, CollisionFree, Ledger.ConsumedIsSpent, Ledger.SpentIsConsumed, Ledger.Balanced, Wallet.HonestInput;
    Ledger.ReachableInv(cfg, book);
    OwnLeafMatches(cfg, book, j, p.spendSk, p.note);
  }

  /** When an owner's withdrawal takes effect. */
  ghost predicate Withdraws(cfg: Config, book: Ledger.Book, p: Wallet.UnshieldParams, done: bool) {
    // in every reachable state: exactly on an unregistered word and sufficient funds
    && (done <==> Nullifier(cfg.h, p.spendSk, p.note.k) !in book.st.spent && BalanceOf(book.st.balances, cfg.pool) >= p.amount)
    // where no accepted nullifier was aliased: whenever neither the leaf nor a twin was consumed
    && (Ledger.Unaliased(cfg, book) && !Ledger.TwinConsumed(book, p.note.index) ==> done)
    // where all registered words are canonical: only then, too
    && (Ledger.AllCanonical(book.st.spent) ==> (done <==> !Ledger.TwinConsumed(book, p.note.index)))
  }

  /** Every note can be cashed by its owner, in whole or in part, under the conditions of
      `Withdraws`. */
  lemma OwnerCanWithdraw(cfg: Config, book: Ledger.Book, j: nat, p: Wallet.UnshieldParams, recipient: Address, claim: PrivacyLevel,
                         b: Wallet.Built<UnshieldWitness>)
    requires Withdrawal(cfg, book, j, p, recipient, claim)
    requires Wallet.HonestUnshield(cfg.h, cfg.depth, p, b.evidence)
    requires b.publics == Wallet.UnshieldPublics(cfg.h, cfg.depth, p)
    requires UnshieldHolds(cfg.h, cfg.depth, b.publics, b.evidence)
    ensures Withdraws(cfg, book, p,
              Unshield(cfg, book.st, OfUnshield(b.evidence), b.publics[0], b.publics[1], recipient, p.amount, b.publics[4], claim).1.Done?)
  {
    hide Ledger.Reachable, CollisionFree, Wallet.HonestInput, UnshieldHolds, Unshield, Ledger.AllInputPairs, Ledger.TwinConsumed, Commitment,
      Root, Pow2, Nullifier, Ledger.Registered, Ledger.Unaliased, Ledger.AllCanonical;
    WithdrawalIsBuilt(cfg, book, j, p, recipient, claim);
    HonestUnshieldAccepted(cfg, book.st, j, p, b, recipient, claim);
    OwnNullifier(cfg, book, j, p, recipient, claim, b.evidence.input);
    if Ledger.AllCanonical(book.st.spent) {
      Ledger.CanonicalUnaliased(cfg, book);
      CanonicalRegistered(book.st.spent, Nullifier(cfg.h, p.spendSk, p.note.k));
    }
    if Ledger.Unaliased(cfg, book) && !Ledger.TwinConsumed(book, p.note.index) {
      OwnFunds(cfg, book, j, p, recipient, claim, b);
    }
  }

  /** Under canonical words registration is membership. */
  lemma CanonicalRegistered(spent: set<Word>, f: Fr)
    requires Ledger.AllCanonical(spent)
    ensures Ledger.Registered(spent, f) <==> f in spent
  {
    if f in spent { assert Decode(f) == f; }
  }

  /** The owner's nullifier is registered exactly when the leaf or a twin was consumed. */
  lemma OwnNullifier(cfg: Config, book: Ledger.Book, j: nat, p: Wallet.UnshieldParams, recipient: Address, claim: PrivacyLevel, input: Input)
    requires Withdrawal(cfg, book, j, p, recipient, claim)
    requires Wallet.HonestInput(cfg.h, cfg.depth, DecodeAll(p.leaves), p.note, input)
    ensures Ledger.Registered(book.st.spent, Nullifier(cfg.h, p.spendSk, p.note.k)) <==> Ledger.TwinConsumed(book, p.note.index)
    ensures Nullifier(cfg.h, p.spendSk, p.note.k) in book.st.spent ==> Ledger.Registered(book.st.spent, Nullifier(cfg.h, p.spendSk, p.note.k))
  {
    hide Ledger.Reachable, CollisionFree, Wallet.HonestInput, Ledger.AllInputPairs, Ledger.TwinConsumed, Commitment, Root, Pow2;
    var sk, k := p.spendSk, p.note.k;
    var all := book.pairs + Ledger.AllInputPairs(cfg.h, book.st.leaves, sk, [input]);
    assert CollisionFree(cfg.h, all);
    OwnKeysHashed(cfg, book, j, p, input);
    FewerPairsCollideLess(cfg.h, all, book.pairs + {(sk, OWNER_PK_DOMAIN), (sk, k)});
    Ledger.SpendableUnlessTwinConsumed(cfg, book, p.note.index, sk);
    assert Decode(Nullifier(cfg.h, sk, k)) == Nullifier(cfg.h, sk, k);
  }

  /** Where no accepted nullifier was aliased, the pool has the funds. */
  lemma OwnFunds(cfg: Config, book: Ledger.Book, j: nat, p: Wallet.UnshieldParams, recipient: Address, claim: PrivacyLevel,
                 b: Wallet.Built<UnshieldWitness>)
    requires Withdrawal(cfg, book, j, p, recipient, claim)
    requires Wallet.HonestUnshield(cfg.h, cfg.depth, p, b.evidence)
    requires b.publics == Wallet.UnshieldPublics(cfg.h, cfg.depth, p)
    requires UnshieldHolds(cfg.h, cfg.depth, b.publics, b.evidence)
    requires Ledger.Unaliased(cfg, book) && !Ledger.TwinConsumed(book, p.note.index)
    ensures Nullifier(cfg.h, p.spendSk, p.note.k) !in book.st.spent && BalanceOf(book.st.balances, cfg.pool) >= p.amount
  {
    hide Ledger.Reachable, CollisionFree, Wallet.HonestInput, UnshieldHolds, Ledger.AllInputPairs, Ledger.TwinConsumed, Commitment,
      Root, Pow2, Nullifier, Ledger.Registered, Ledger.Unaliased, CommitmentTree.KnownRoot;
    WithdrawalIsBuilt(cfg, book, j, p, recipient, claim);
    OwnNullifier(cfg, book, j, p, recipient, claim, b.evidence.input);
    RecentRootKnown(cfg, book.st, j);
    UnshieldPublicsAgree(cfg, p, recipient);
    var pub := b.publics;
    assert Decode(pub[1]) == pub[1];
    Ledger.Solvent(cfg, book, OfUnshield(b.evidence), pub[0], pub[1], recipient, p.amount, pub[4], claim);
  }

  lemma OwnKeysHashed(cfg: Config, book: Ledger.Book, j: nat, p: Wallet.UnshieldParams, input: Input)
    requires Wallet.HonestInput(cfg.h, cfg.depth, DecodeAll(p.leaves), p.note, input)
    ensures {(p.spendSk, OWNER_PK_DOMAIN), (p.spendSk, p.note.k)} <= Ledger.AllInputPairs(cfg.h, book.st.leaves, p.spendSk, [input])
  {
    Ledger.InputPairsWithin(cfg.h, book.st.leaves, p.spendSk, [input], 0);
    assert (p.spendSk, p.note.k) in Ledger.InputPairs(cfg.h, book.st.leaves, p.spendSk, input);
  }

  lemma FewerPairsCollideLess(h: Hasher, more: set<Pair>, fewer: set<Pair>)
    requires CollisionFree(h, more) && fewer <= more
    ensures CollisionFree(h, fewer)
  {
  }

  /** The owner's whole path back out of the pool: rebuild the tree, prove, submit. */
  method Withdraw(pool: Pool.TransferPool, ghost book: Ledger.Book, j: nat, p: Wallet.UnshieldParams, recipient: Address, claim: PrivacyLevel)
    returns (r: Outcome<Attestation, Error>)
    requires pool.Valid() && book.st == pool.State()
    requires Withdrawal(pool.cfg, book, j, p, recipient, claim)
    modifies pool.tree, pool.registry, pool.token
    ensures pool.Valid()
    ensures Withdraws(pool.cfg, book, p, r.Done?)
    ensures r.Done? && recipient != pool.cfg.pool ==>
              BalanceOf(pool.State().balances, recipient) == BalanceOf(book.st.balances, recipient) + p.amount
    ensures r.Done? ==>
              var change := Wallet.NoteRef(p.changeK, p.note.v - p.amount, |book.st.leaves|);
              Wallet.LeafMatches(pool.cfg.h, p.spendSk, DecodeAll(pool.State().leaves), change)
  {
    hide Withdrawal, Withdraws, Wallet.HonestUnshield, UnshieldHolds, Root, Pow2, Commitment, Spent, Accepts;
    WithdrawalIsBuilt(pool.cfg, book, j, p, recipient, claim);
    var built := Wallet.UnshieldProof(pool.cfg.h, pool.cfg.depth, p);
    var b := built.value;
    OwnerCanWithdraw(pool.cfg, book, j, p, recipient, claim, b);
    r := pool.Unshield(OfUnshield(b.evidence), b.publics[0], b.publics[1], recipient, p.amount, b.publics[4], claim);
    UnshieldOutcome(pool.cfg, book.st, OfUnshield(b.evidence), b.publics[0], b.publics[1], recipient, p.amount, b.publics[4], claim);
    if r.Done? {
      var change := Wallet.Output(pool.cfg.h(p.spendSk, 0), p.changeK, p.note.v - p.amount);
      LeafReceives(pool.cfg.h, pool.State().leaves, |book.st.leaves|, change);
    }
  }
}
