/** The pool's four flows as functions on its abstract state: the leaves in insertion
    order, the spent set and the token balances. Module Pool proves that the contract
    methods compute exactly these. */
module PoolSpec {
  import opened Field
  import opened Wrappers
  import opened MerkleSpec
  import opened CommitmentTree
  import opened Relations

  const I128_MAX: int := TWO_128 / 2 - 1

  type Balance = x: int | 0 <= x <= I128_MAX witness 0

  datatype Address = Address(id: nat)

  datatype Error =
    | UnknownRoot | NullifierAlreadySpent | InvalidProof | InvalidAmount
    | UnsupportedLevelClaim | RecipientNotAllowed | UnsupportedArity | DuplicateNullifier

  /** The wiring, fixed at initialization. `recipientField` stands for the hash of the
      recipient's address, `compliance` for the optional exit policy. */
  datatype Config = Config(
    h: Hasher, depth: nat, pool: Address,
    recipientField: Address -> Word, compliance: Option<Address -> bool>)

  datatype PrivacyLevel = PrivacyLevel(sender: bool, receiver: bool, amount: bool, timing: bool, linkability: bool)

  datatype Attestation = Attestation(level: PrivacyLevel, circuit: Circuit, root: Word)

  /** The circuit each configured verifying key belongs to. */
  datatype Circuit = DepositCircuit | UnshieldCircuit | TransferCircuit | TransferNCircuit(n: nat)

  /** An ideal proof carries the witness it was made from. Bytes of any other length than a
      proof's, and bytes that spell no points of the curve, make the verifier fail. */
  datatype Proof =
    | WrongLength
    | NotOnCurve
    | OfDeposit(deposit: DepositWitness)
    | OfUnshield(unshield: UnshieldWitness)
    | OfTransfer(transfer: TransferWitness)
    | OfTransferN(transferN: TransferNWitness)

  predicate Unreadable(proof: Proof) {
    proof.WrongLength? || proof.NotOnCurve?
  }

  datatype PoolState = PoolState(leaves: seq<Word>, spent: set<Word>, balances: map<Address, Balance>)

  // ---- collaborators ----

  /** An accepted proof is one whose witness satisfies the circuit of the named key on the
      public inputs as the verifier reads them. */
  predicate Accepts(cfg: Config, circuit: Circuit, proof: Proof, publics: seq<Word>) {
    var pub := DecodeAll(publics);
    match (circuit, proof)
    case (DepositCircuit, OfDeposit(w)) => DepositHolds(cfg.h, pub, w)
    case (UnshieldCircuit, OfUnshield(w)) => UnshieldHolds(cfg.h, cfg.depth, pub, w)
    case (TransferCircuit, OfTransfer(w)) => TransferHolds(cfg.h, cfg.depth, pub, w)
    case (TransferNCircuit(n), OfTransferN(w)) => TransferNHolds(cfg.h, cfg.depth, n, pub, w)
    case _ => false
  }

  function BalanceOf(balances: map<Address, Balance>, a: Address): Balance {
    if a in balances then balances[a] else 0
  }

  /** A token transfer debits, then credits; it fails on insufficient funds and on a
      credit past the largest representable balance. */
  function Moved(balances: map<Address, Balance>, from: Address, to: Address, amount: I128): Option<map<Address, Balance>> {
    if amount < 0 || BalanceOf(balances, from) < amount then None
    else
      var debited := balances[from := BalanceOf(balances, from) - amount];
      if BalanceOf(debited, to) + amount > I128_MAX then None
      else Some(debited[to := BalanceOf(debited, to) + amount])
  }

  /** A token transfer creates and destroys nothing: it takes the amount from one party and
      gives it to the other, touches nobody else, and fails exactly on a negative amount, a
      short balance or a credit the recipient's balance cannot hold. */
  lemma MovedConserves(balances: map<Address, Balance>, from: Address, to: Address, amount: I128)
    ensures Moved(balances, from, to, amount) == None <==>
              amount < 0 || BalanceOf(balances, from) < amount
              || (from != to && BalanceOf(balances, to) + amount > I128_MAX)
    ensures match Moved(balances, from, to, amount)
            case None => true
            case Some(moved) =>
              && (from == to ==> forall a :: BalanceOf(moved, a) == BalanceOf(balances, a))
              && (from != to ==>
                   && BalanceOf(moved, from) == BalanceOf(balances, from) - amount
                   && BalanceOf(moved, to) == BalanceOf(balances, to) + amount
                   && forall a :: a != from && a != to ==> BalanceOf(moved, a) == BalanceOf(balances, a))
  {
  }

  /** Tokens held by the listed addresses. */
  function Supply(balances: map<Address, Balance>, holders: seq<Address>): nat {
    if holders == [] then 0
    else Supply(balances, holders[..|holders| - 1]) + BalanceOf(balances, holders[|holders| - 1])
  }

  /** Among any holders, only what crosses their boundary changes their supply; if both
      parties are among them nothing does. */
  lemma {:induction false} SupplyConserved(balances: map<Address, Balance>, from: Address, to: Address, amount: I128, holders: seq<Address>)
    requires Moved(balances, from, to, amount).Some? && Distinct(holders)
    ensures Supply(Moved(balances, from, to, amount).value, holders)
         == Supply(balances, holders) + (if to in holders then amount else 0) - (if from in holders then amount else 0)
  {
    hide Moved;
    if holders != [] {
      var k := |holders| - 1;
      assert holders == holders[..k] + [holders[k]];
      assert holders[k] !in holders[..k];
      MovedConserves(balances, from, to, amount);
      SupplyConserved(balances, from, to, amount, holders[..k]);
    }
  }

  /** The first fault the validation loop reports: at each position a later duplicate is
      noticed before an earlier spend. */
  function FirstFault(spent: set<Word>, nfs: seq<Word>): Option<Error> {
    if nfs == [] then None
    else if nfs[0] in nfs[1..] then Some(DuplicateNullifier)
    else if nfs[0] in spent then Some(NullifierAlreadySpent)
    else FirstFault(spent, nfs[1..])
  }

  ghost predicate Distinct<T>(xs: seq<T>) {
    forall i, j :: 0 <= i < j < |xs| ==> xs[i] != xs[j]
  }

  /** Validation passes exactly on pairwise distinct, unspent nullifiers. */
  lemma {:induction false} NoFaultMeansFresh(spent: set<Word>, nfs: seq<Word>)
    ensures FirstFault(spent, nfs) == None <==> Distinct(nfs) && forall i :: 0 <= i < |nfs| ==> nfs[i] !in spent
  {
    if nfs != [] {
      var rest := nfs[1..];
      NoFaultMeansFresh(spent, rest);
      assert nfs == [nfs[0]] + rest;
      if Distinct(nfs) {
        assert forall i, j :: 0 <= i < j < |rest| ==> rest[i] == nfs[i + 1] && rest[j] == nfs[j + 1];
        assert nfs[0] !in rest;
      }
    }
  }

  /** Mark every nullifier spent, failing on one that is already there. */
  function Marked(spent: set<Word>, nfs: seq<Word>): Option<set<Word>> {
    if nfs == [] then Some(spent)
    else
      var k := |nfs| - 1;
      match Marked(spent, nfs[..k])
      case None => None
      case Some(s) => if nfs[k] in s then None else Some(s + {nfs[k]})
  }

  function ToSet<T>(xs: seq<T>): set<T> {
    set x | x in xs
  }

  /** Validation dominates effects: after it, marking cannot report a spent nullifier. */
  lemma {:induction false} ValidatedMarksSucceed(spent: set<Word>, nfs: seq<Word>)
    requires FirstFault(spent, nfs) == None
    ensures Marked(spent, nfs) == Some(spent + ToSet(nfs))
  {
    NoFaultMeansFresh(spent, nfs);
    DistinctMarksSucceed(spent, nfs);
  }

  lemma {:induction false} DistinctMarksSucceed(spent: set<Word>, nfs: seq<Word>)
    requires Distinct(nfs) && forall i :: 0 <= i < |nfs| ==> nfs[i] !in spent
    ensures Marked(spent, nfs) == Some(spent + ToSet(nfs))
  {
    if nfs == [] {
      assert spent + ToSet(nfs) == spent;
    } else {
      var k := |nfs| - 1;
      DistinctMarksSucceed(spent, nfs[..k]);
      assert nfs == nfs[..k] + [nfs[k]];
      assert ToSet(nfs) == ToSet(nfs[..k]) + {nfs[k]};
      assert nfs[k] !in nfs[..k];
      assert spent + ToSet(nfs) == spent + ToSet(nfs[..k]) + {nfs[k]};
    }
  }

  /** Insert the output commitments in order. */
  function InsertedAll(depth: nat, leaves: seq<Word>, cms: seq<Word>): Result<seq<Word>, CommitmentTree.Error> {
    if cms == [] then Ok(leaves)
    else
      match InsertedAll(depth, leaves, cms[..|cms| - 1])
      case Err(e) => Err(e)
      case Ok(ls) => Inserted(depth, ls, cms[|cms| - 1])
  }

  lemma {:induction false} InsertedAllAppends(depth: nat, leaves: seq<Word>, cms: seq<Word>)
    ensures match InsertedAll(depth, leaves, cms)
            case Ok(ls) => ls == leaves + cms && (|leaves| <= Pow2(depth) ==> |ls| <= Pow2(depth))
            case Err(_) => true
  {
    if cms == [] {
      assert leaves + cms == leaves;
    } else {
      var front := cms[..|cms| - 1];
      InsertedAllAppends(depth, leaves, front);
      assert leaves + cms == (leaves + front) + [cms[|cms| - 1]];
    }
  }

  /** The effects of a spend on the registry and the tree. */
  function Spent(cfg: Config, st: PoolState, nfs: seq<Word>, cms: seq<Word>): Option<PoolState> {
    match (Marked(st.spent, nfs), InsertedAll(cfg.depth, st.leaves, cms))
    case (Some(spent), Ok(leaves)) => Some(st.(spent := spent, leaves := leaves))
    case _ => None
  }

  ghost predicate Known(cfg: Config, st: PoolState, root: Word) {
    KnownRoot(cfg.h, cfg.depth, st.leaves, root)
  }

  // ---- the flows ----

  type Step<T> = (PoolState, Outcome<T, Error>)

  ghost function Deposit(cfg: Config, st: PoolState, from: Address, authorized: bool, amount: I128, cm: Word, proof: Proof): Step<nat> {
    if !authorized then (st, Trapped)
    else if amount <= 0 then (st, Rejected(InvalidAmount))
    else if Unreadable(proof) then (st, Trapped)
    else if !Accepts(cfg, DepositCircuit, proof, [cm, AmountField(amount)]) then (st, Rejected(InvalidProof))
    else
      match (Moved(st.balances, from, cfg.pool, amount), Inserted(cfg.depth, st.leaves, cm))
      case (Some(balances), Ok(leaves)) => (st.(balances := balances, leaves := leaves), Done(|st.leaves|))
      case _ => (st, Trapped)
  }

  function UnshieldPublics(cfg: Config, root: Word, nf: Word, recipient: Address, amount: I128, change: Word): seq<Word> {
    [root, nf, cfg.recipientField(recipient), AmountField(amount), change]
  }

  function Attested(claim: PrivacyLevel, root: Word): Attestation {
    Attestation(PrivacyLevel(true, claim.receiver, claim.amount, false, true), UnshieldCircuit, root)
  }

  ghost function Unshield(cfg: Config, st: PoolState, proof: Proof, root: Word, nf: Word, recipient: Address,
                          amount: I128, change: Word, claim: PrivacyLevel): Step<Attestation> {
    if amount <= 0 then (st, Rejected(InvalidAmount))
    else if claim.timing then (st, Rejected(UnsupportedLevelClaim))
    else if cfg.compliance.Some? && !cfg.compliance.value(recipient) then (st, Rejected(RecipientNotAllowed))
    else if !Known(cfg, st, root) then (st, Rejected(UnknownRoot))
    else if nf in st.spent then (st, Rejected(NullifierAlreadySpent))
    else if Unreadable(proof) then (st, Trapped)
    else if !Accepts(cfg, UnshieldCircuit, proof, UnshieldPublics(cfg, root, nf, recipient, amount, change)) then
      (st, Rejected(InvalidProof))
    else
      match (Spent(cfg, st, [nf], [change]), Moved(st.balances, cfg.pool, recipient, amount))
      case (Some(st'), Some(balances)) => (st'.(balances := balances), Done(Attested(claim, root)))
      case _ => (st, Trapped)
  }

  ghost function Transfer(cfg: Config, st: PoolState, proof: Proof, root: Word, nf: Word, out1: Word, out2: Word): Step<()> {
    if !Known(cfg, st, root) then (st, Rejected(UnknownRoot))
    else if nf in st.spent then (st, Rejected(NullifierAlreadySpent))
    else if Unreadable(proof) then (st, Trapped)
    else if !Accepts(cfg, TransferCircuit, proof, [root, nf, out1, out2]) then (st, Rejected(InvalidProof))
    else
      match Spent(cfg, st, [nf], [out1, out2])
      case Some(st') => (st', Done(()))
      case None => (st, Trapped)
  }

  function TransferNPublics(root: Word, nfs: seq<Word>, out1: Word, out2: Word): seq<Word> {
    [root] + nfs + [out1, out2]
  }

  ghost function TransferN(cfg: Config, st: PoolState, proof: Proof, root: Word, nfs: seq<Word>, out1: Word, out2: Word): Step<()> {
    if |nfs| != 2 && |nfs| != 4 then (st, Rejected(UnsupportedArity))
    else if !Known(cfg, st, root) then (st, Rejected(UnknownRoot))
    else if FirstFault(st.spent, nfs).Some? then (st, Rejected(FirstFault(st.spent, nfs).value))
    else if Unreadable(proof) then (st, Trapped)
    else if !Accepts(cfg, TransferNCircuit(|nfs|), proof, TransferNPublics(root, nfs, out1, out2)) then
      (st, Rejected(InvalidProof))
    else
      match Spent(cfg, st, nfs, [out1, out2])
      case Some(st') => (st', Done(()))
      case None => (st, Trapped)
  }
}
