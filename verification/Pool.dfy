/** The transfer contract: it composes the tree, the registry, the token and the verifier,
    and each method computes exactly its function in PoolSpec. */
module Pool {
  import opened Field
  import opened Wrappers
  import opened MerkleSpec
  import CommitmentTree
  import Nullifiers
  import opened PoolSpec

  /** The pool's token, as far as the pool uses it. */
  class Token {
    var balances: map<Address, Balance>

    constructor (balances: map<Address, Balance>)
      ensures this.balances == balances
    {
      this.balances := balances;
    }

    method Transfer(from: Address, to: Address, amount: I128) returns (ok: bool)
      modifies this
      ensures match Moved(old(balances), from, to, amount)
              case Some(b) => ok && balances == b
              case None => !ok && balances == old(balances)
    {
      if amount < 0 || BalanceOf(balances, from) < amount {
        return false;
      }
      var debited: map<Address, Balance> := balances[from := BalanceOf(balances, from) - amount];
      if BalanceOf(debited, to) + amount > I128_MAX {
        return false;
      }
      balances := debited[to := BalanceOf(debited, to) + amount];
      return true;
    }

    /** The host's rollback of an invocation that trapped. */
    method Restore(before: map<Address, Balance>)
      modifies this
      ensures balances == before
    {
      balances := before;
    }
  }

  class TransferPool {
    const cfg: Config
    const tree: CommitmentTree.Tree
    const registry: Nullifiers.Registry
    const token: Token

    ghost predicate Valid()
      reads this, tree, registry, token
    {
      tree.Valid() && tree.h == cfg.h && tree.depth == cfg.depth
    }

    ghost function State(): PoolState
      reads this, tree, registry, token
    {
      PoolState(tree.leaves, registry.spent, token.balances)
    }

    constructor (cfg: Config, token: Token)
      requires cfg.depth > 0
      ensures Valid() && fresh(tree) && fresh(registry)
      ensures this.cfg == cfg && this.token == token
      ensures State() == PoolState([], {}, token.balances)
    {
      this.cfg := cfg;
      this.token := token;
      tree := new CommitmentTree.Tree(cfg.h, cfg.depth);
      registry := new Nullifiers.Registry();
    }

    method RollBack(image: CommitmentTree.Image, spent: set<Word>, balances: map<Address, Balance>, ghost leaves: seq<Word>)
      requires tree.depth > 0 && tree.h == cfg.h && tree.depth == cfg.depth
      requires CommitmentTree.Represents(tree.h, tree.depth, leaves, image)
      modifies tree, registry, token
      ensures Valid() && State() == PoolState(leaves, spent, balances)
      ensures tree.Stored() == image
    {
      tree.Restore(image, leaves);
      registry.Restore(spent);
      token.Restore(balances);
    }

    method Deposit(from: Address, authorized: bool, amount: I128, cm: Word, proof: Proof) returns (r: Outcome<nat, Error>)
      requires Valid()
      modifies tree, registry, token
      ensures Valid()
      ensures (State(), r) == PoolSpec.Deposit(cfg, old(State()), from, authorized, amount, cm, proof)
      ensures !r.Done? ==> State() == old(State()) && tree.Stored() == old(tree.Stored())
    {
      hide CommitmentTree.Represents, Accepts, CommitmentTree.KnownRoot, Root, Pow2, Marked, InsertedAll, Moved;
      if !authorized {
        return Trapped;
      }
      if amount <= 0 {
        return Rejected(InvalidAmount);
      }
      if Unreadable(proof) {
        return Trapped;
      }
      if !Accepts(cfg, DepositCircuit, proof, [cm, AmountField(amount)]) {
        return Rejected(InvalidProof);
      }
      var image := tree.Stored();
      var spent, balances := registry.spent, token.balances;
      var paid := token.Transfer(from, cfg.pool, amount);
      if paid {
        var index := tree.Insert(cm);
        if index.Ok? {
          return Done(index.value);
        }
      }
      RollBack(image, spent, balances, old(tree.leaves));
      return Trapped;
    }

    method Unshield(proof: Proof, root: Word, nf: Word, recipient: Address, amount: I128, change: Word, claim: PrivacyLevel)
      returns (r: Outcome<Attestation, Error>)
      requires Valid()
      modifies tree, registry, token
      ensures Valid()
      ensures (State(), r) == PoolSpec.Unshield(cfg, old(State()), proof, root, nf, recipient, amount, change, claim)
      ensures !r.Done? ==> State() == old(State()) && tree.Stored() == old(tree.Stored())
    {
      hide CommitmentTree.Represents, Accepts, CommitmentTree.KnownRoot, Root, Pow2, Marked, InsertedAll, Moved;
      if amount <= 0 {
        return Rejected(InvalidAmount);
      }
      if claim.timing {
        return Rejected(UnsupportedLevelClaim);
      }
      if cfg.compliance.Some? && !cfg.compliance.value(recipient) {
        return Rejected(RecipientNotAllowed);
      }
      var known := tree.IsKnownRoot(root);
      if !known {
        return Rejected(UnknownRoot);
      }
      var seen := registry.IsSpent(nf);
      if seen {
        return Rejected(NullifierAlreadySpent);
      }
      if Unreadable(proof) {
        return Trapped;
      }
      if !Accepts(cfg, UnshieldCircuit, proof, UnshieldPublics(cfg, root, nf, recipient, amount, change)) {
        return Rejected(InvalidProof);
      }
      var image := tree.Stored();
      var spent, balances := registry.spent, token.balances;
      OneByOne(spent, nf, cfg.depth, tree.leaves, change, change);
      var marked := registry.MarkSpent(nf);
      assert marked.Ok?;
      var index := tree.Insert(change);
      if index.Ok? {
        var paid := token.Transfer(cfg.pool, recipient, amount);
        if paid {
          return Done(Attested(claim, root));
        }
      }
      RollBack(image, spent, balances, old(tree.leaves));
      return Trapped;
    }

    method Transfer(proof: Proof, root: Word, nf: Word, out1: Word, out2: Word) returns (r: Outcome<(), Error>)
      requires Valid()
      modifies tree, registry, token
      ensures Valid()
      ensures (State(), r) == PoolSpec.Transfer(cfg, old(State()), proof, root, nf, out1, out2)
      ensures !r.Done? ==> State() == old(State()) && tree.Stored() == old(tree.Stored())
    {
      hide CommitmentTree.Represents, Accepts, CommitmentTree.KnownRoot, Root, Pow2, Marked, InsertedAll, Moved;
      var known := tree.IsKnownRoot(root);
      if !known {
        return Rejected(UnknownRoot);
      }
      var seen := registry.IsSpent(nf);
      if seen {
        return Rejected(NullifierAlreadySpent);
      }
      if Unreadable(proof) {
        return Trapped;
      }
      if !Accepts(cfg, TransferCircuit, proof, [root, nf, out1, out2]) {
        return Rejected(InvalidProof);
      }
      var image := tree.Stored();
      var spent, balances := registry.spent, token.balances;
      OneByOne(spent, nf, cfg.depth, tree.leaves, out1, out2);
      var marked := registry.MarkSpent(nf);
      assert marked.Ok?;
      var index1 := tree.Insert(out1);
      if index1.Ok? {
        var index2 := tree.Insert(out2);
        if index2.Ok? {
          return Done(());
        }
      }
      RollBack(image, spent, balances, old(tree.leaves));
      return Trapped;
    }

    method TransferN(proof: Proof, root: Word, nfs: seq<Word>, out1: Word, out2: Word) returns (r: Outcome<(), Error>)
      requires Valid()
      modifies tree, registry, token
      ensures Valid()
      ensures (State(), r) == PoolSpec.TransferN(cfg, old(State()), proof, root, nfs, out1, out2)
      ensures !r.Done? ==> State() == old(State()) && tree.Stored() == old(tree.Stored())
    {
      hide CommitmentTree.Represents, Accepts, CommitmentTree.KnownRoot, Root, Pow2, Marked, InsertedAll, Moved;
      var n := |nfs|;
      if n != 2 && n != 4 {
        return Rejected(UnsupportedArity);
      }
      var known := tree.IsKnownRoot(root);
      if !known {
        return Rejected(UnknownRoot);
      }
      var fault := Validate(nfs);
      if fault.Some? {
        return Rejected(fault.value);
      }
      var publics: seq<Word> := [root];
      for i := 0 to n
        invariant publics == [root] + nfs[..i]
      {
        publics := publics + [nfs[i]];
      }
      publics := publics + [out1, out2];
      assert publics == TransferNPublics(root, nfs, out1, out2);
      if Unreadable(proof) {
        return Trapped;
      }
      if !Accepts(cfg, TransferNCircuit(n), proof, publics) {
        return Rejected(InvalidProof);
      }
      var image := tree.Stored();
      var spent, balances := registry.spent, token.balances;
      MarkAll(nfs);
      OneByOne(spent, root, cfg.depth, tree.leaves, out1, out2);
      var index1 := tree.Insert(out1);
      if index1.Ok? {
        var index2 := tree.Insert(out2);
        if index2.Ok? {
          return Done(());
        }
      }
      RollBack(image, spent, balances, old(tree.leaves));
      return Trapped;
    }

    /** The nested validation loop: each nullifier against the later ones, then against
        the registry. */
    method Validate(nfs: seq<Word>) returns (fault: Option<Error>)
      ensures fault == FirstFault(registry.spent, nfs)
    {
      var n := |nfs|;
      for i := 0 to n
        invariant FirstFault(registry.spent, nfs) == FirstFault(registry.spent, nfs[i..])
      {
        var nf := nfs[i];
        for j := i + 1 to n
          invariant nf !in nfs[i + 1..j]
        {
          if nf == nfs[j] {
            assert nfs[i..][1..] == nfs[i + 1..] && nfs[j] in nfs[i + 1..];
            return Some(DuplicateNullifier);
          }
        }
        assert nfs[i + 1..n] == nfs[i..][1..];
        var seen := registry.IsSpent(nf);
        if seen {
          return Some(NullifierAlreadySpent);
        }
        assert nfs[i..][1..] == nfs[i + 1..];
      }
      return None;
    }

    /** The effects loop over the registry. After validation no mark can be refused. */
    method MarkAll(nfs: seq<Word>)
      requires FirstFault(registry.spent, nfs) == None
      modifies registry
      ensures Marked(old(registry.spent), nfs) == Some(registry.spent)
    {
      NoFaultMeansFresh(registry.spent, nfs);
      for i := 0 to |nfs|
        invariant Marked(old(registry.spent), nfs[..i]) == Some(registry.spent)
        invariant forall k :: i <= k < |nfs| ==> nfs[k] !in registry.spent
      {
        assert nfs[..i + 1][..i] == nfs[..i];
        var m := registry.MarkSpent(nfs[i]);
        assert m.Ok?;
      }
      assert nfs[..|nfs|] == nfs;
    }
  }

  /** The specification's sequences of marks and insertions, unrolled for one nullifier
      and one or two outputs. */
  lemma OneByOne(spent: set<Word>, nf: Word, depth: nat, leaves: seq<Word>, out1: Word, out2: Word)
    ensures Marked(spent, [nf]) == if nf in spent then None else Some(spent + {nf})
    ensures InsertedAll(depth, leaves, [out1]) == CommitmentTree.Inserted(depth, leaves, out1)
    ensures InsertedAll(depth, leaves, [out1, out2])
         == match CommitmentTree.Inserted(depth, leaves, out1)
            case Err(e) => Err(e)
            case Ok(ls) => CommitmentTree.Inserted(depth, ls, out2)
  {
    assert [nf][..0] == [] && [out1][..0] == [] && [out1, out2][..1] == [out1];
    assert Marked(spent, []) == Some(spent);
    assert InsertedAll(depth, leaves, []) == Ok(leaves);
  }
}
