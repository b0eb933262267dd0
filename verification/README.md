# A verified model of the Hypertron shielded pool

This project models the shielded pool as one stack and proves properties that run through it:
the on-chain commitment tree, nullifier registry, transfer contract and Groth16 verifier; the
circuits and their Poseidon gadget; the off-chain tree reconstruction; and the wallet's proof
builders. `dafny verify dfyconfig.toml` checks everything.

| layer | modules |
|---|---|
| field, words, text | `Field`, `FieldLaws`, `Codec`, `Wrappers` |
| hash | `Poseidon`, `PoseidonBijection`, `PoseidonShape` |
| trees | `MerkleSpec` (the zero-padded tree), `CommitmentTree` (the contract), `OffchainMerkle` (the prover) |
| notes and circuits | `Notes`, `Relations`, `R1cs`, `HashGadget`, `Circuits` |
| contracts | `Nullifiers`, `PoolSpec`, `Pool`, `Outcomes`, `Groth16Verifier` |
| whole runs | `Ledger`, `Example` |
| wallet | `Wallet`, `EndToEnd` |

The main results are these.

- **Conservation over whole runs.** Under any interleaving of the four flows and outside token
  movements, with nullifiers spelt in any words, the value of the unconsumed leaves is deposits
  minus withdrawals plus what was taken out of leaves consumed before. No leaf, and no other with
  its owner and blinding, is consumed twice if and only if no accepted word spelt a nullifier that
  was already shown; then conservation is exact and the pool can pay every validated unshield.
  Nobody can register the nullifier of a note they do not own (`Ledger`).
- **Two tree algorithms, one tree.** The O(depth) insertion and the level-by-level
  reconstruction both compute the root of the zero-padded tree, and the root window is exact.
- **Circuits mean their relations.** Each circuit is emitted wire by wire and check by check;
  the emitted system is satisfiable for given public inputs exactly when some witness satisfies
  the relation. The 64-round hash gadget, the path walk, the selects and the range checks, down
  to the boolean witnesses of a decomposition and their packing equation, are all emitted.
- **Honest users get through.** A wallet's proof over leaves at most 31 insertions old is
  accepted exactly when its nullifiers and outputs are fresh and there is room, and then every
  payee holds a spendable note. In every reachable state the owner of a leaf can withdraw it
  exactly when its nullifier is unregistered and the pool has the funds, which it has unless an
  accepted nullifier was aliased.
- **Every answer, exactly.** `Outcomes` lists each flow's answers and when they are given, in
  terms of the hash, the leaves, the registry and the balances alone.
- **The verifier's pairing check is the Groth16 equation**, and its byte slices undo the
  printer.
- **Poseidon is a bijection** on its state over every prime p with 5 not dividing p - 1 and for
  every invertible matrix, through Fermat's little theorem, and it is 64 rounds of an integer
  formula in which the full and partial rounds stand where they should.

## Modelling decisions

- *Hash.* `Hasher` is an arbitrary function on pairs of field elements. No injectivity is
  assumed: membership either holds or `MerkleSpec.Extract` exhibits a collision. The run
  theorems assume that no two of the finitely many pairs hashed by accepted proofs, or along
  the tree paths those were checked against, collide or hash to zero. `Poseidon.PoseidonHasher`
  is the instance the circuits emit.
- *Proofs.* A proof carries its witness, and the verifier accepts it when the witness satisfies
  the circuit of the named key. The five configured key ids are taken to name the five intended
  circuits. The `...AcceptedIffSatisfiable` lemmas tie this to the emitted constraint systems.
- *Words.* A 32-byte value is the number its bytes spell (`Codec.WordBijection`). The contracts
  compare words (contracts/nullifier/src/lib.rs:67-71); the verifier and the hash read them
  modulo R (contracts/transfer/src/lib.rs:445-448). No submitted word is assumed canonical.
- *Aliased nullifiers.* `unshield`, `transfer` and `transfer_n` do not check that a nullifier is
  below R. A word of R or more spells the same field element as a smaller one, so the registry
  takes it for unspent although the proof is about a spent note: conservation, at-most-once
  consumption and solvency do not hold of every run, and `Example` shows a run in which they
  fail. `Ledger.AliasIffTwinConsumed` and `Ledger.OnceIffNeverAliased` state exactly when they
  do, as a comparison a caller can make before the call, and `Ledger.CanonicalNeverAliases` that
  refusing words of R or more is enough.
- *Failure.* `Rejected` is an error the pool returns itself; `Trapped` is a failing sub-call, on
  which the host undoes the invocation, modelled as restoring what was stored. Both leave
  everything as it was.
- *Balance.* The token balance exceeds deposits minus withdrawals by whatever is paid to the
  pool's own address, by an outsider or by an unshield that names the pool as recipient, which
  the contract does not refuse. `Ledger.BalanceExactIff` gives the exact condition and `Example`
  a run in which the two differ.
- *Documentation.* docs/PROTOCOL.md describes one-input transfers only; the model follows the
  code, which also has the two- and four-input `transfer_n`.

## Model

| member | source | states |
|---|---|---|
| MerkleSpec.MembershipOrCollision | prover/src/circuit.rs:88-107 | A walk that reaches a tree node starts at the leaf its bits spell, or the extracted pairs are distinct, hash alike, and come one from the walk and one from the tree |
| MerkleSpec.MembershipSound | prover/src/circuit.rs:88-107 | Over collision-free pairs, a hash that walks to the root of a leaf list is the leaf at a filled position |
| MerkleSpec.PathFolds | prover/src/merkle.rs:35-66 | From every position, filled or not, the path folds to that position's ancestor and its bits spell the position |
| MerkleSpec.PathReachesRoot | prover/src/merkle.rs:29-34 | For every index below 2^depth the path folds exactly to the root |
| MerkleSpec.NodeBeyondLeaves | prover/src/merkle.rs:49-60 | Every node right of the last leaf is the empty subtree of its height |
| MerkleSpec.NodeAppendElsewhere | contracts/commitment/src/lib.rs:142-152 | Appending a leaf changes only the ancestors of the new position |
| CommitmentTree.Tree.constructor | contracts/commitment/src/lib.rs:78-117 | A new tree satisfies the representation invariant for no leaves: its root is the empty tree's and it is the one known root |
| CommitmentTree.ClimbEven | contracts/commitment/src/lib.rs:142-152 | At an even index the insertion loop remembers the node and keeps its invariant with the empty sibling |
| CommitmentTree.ClimbOdd | contracts/commitment/src/lib.rs:142-152 | At an odd index the remembered subtree is the complete left sibling, and the invariant moves up one level |
| CommitmentTree.Tree.Insert | contracts/commitment/src/lib.rs:121-180 | After any number of insertions the stored root is the root of the zero-padded tree over all leaves in order, and the event carries index, leaf and root; a duplicate, before a full tree, is refused with nothing changed |
| CommitmentTree.RingExact | contracts/commitment/src/lib.rs:154-161 | A root sits in some slot of the ring exactly when it is one of the last 32 roots |
| CommitmentTree.KnownRootWindow | contracts/commitment/src/lib.rs:190-201 | The window in numbers: known exactly when it is the root after some insertions that at most 31 more have followed |
| CommitmentTree.RootExpires | contracts/commitment/src/lib.rs:154-161 | A root stays known for 31 further insertions and is forgotten at the 32nd, unless a root since is the same word |
| CommitmentTree.Tree.IsKnownRoot | contracts/commitment/src/lib.rs:190-201 | True exactly for the words that are the root after j insertions with j <= n <= j + 31 |
| CommitmentTree.CountersFit32Bits | contracts/commitment/src/lib.rs:133-156 | At depth 20 the counters of a tree in any represented state stay below 2^20 + 1, far inside 32 bits |
| OffchainMerkle.Zeros | prover/src/merkle.rs:11-19 | The list of empty-subtree roots |
| OffchainMerkle.Path | prover/src/merkle.rs:35-66 | The root is the zero-padded tree's, and siblings and bits are the tree's own along the index |
| OffchainMerkle.ComputeRoot | prover/src/merkle.rs:22-27 | The root of the zero-padded tree, the empty list included |
| OffchainMerkle.ReplayMatchesChain | contracts/commitment/src/lib.rs:172-177 | The leaves replayed from the events rebuild the root of the latest event |
| OffchainMerkle.AuditRoot | prover-wasm/src/lib.rs:106-114 | Rebuilding from a live contract's event log gives its stored root |
| Notes.CommitmentBinds | prover/src/note.rs:71-74 | Over collision-free pairs a commitment determines owner, blinding and value |
| Notes.OwnerBindsKey | prover/src/note.rs:66-68 | Over collision-free pairs an owner tag determines the spend key |
| Relations.SumIsTotal | prover/src/circuit.rs:393-403 | Accumulated 64-bit values add up as integers for any count below the field's capacity |
| Relations.TransferNBalance | prover/src/circuit.rs:415-417 | The N-input balance holds in the field exactly when it holds over the integers |
| Nullifiers.Registry.MarkSpent | contracts/nullifier/src/lib.rs:59-79 | Accepts exactly unspent nullifiers and adds just that one |
| PoolSpec.NoFaultMeansFresh | contracts/transfer/src/lib.rs:394-404 | The nested validation loop passes exactly on pairwise distinct, unspent nullifiers |
| PoolSpec.ValidatedMarksSucceed | contracts/transfer/src/lib.rs:419-421 | After validation no mark can report an already spent nullifier, and exactly the given ones are added |
| PoolSpec.InsertedAllAppends | contracts/transfer/src/lib.rs:422-423 | Inserting the outputs appends exactly them, in order |
| PoolSpec.SupplyConserved | contracts/transfer/src/lib.rs:214-218 | Among any set of holders a token payment changes the supply by exactly what crosses their boundary, so between two of them nothing is created or lost |
| Pool.TransferPool.Deposit | contracts/transfer/src/lib.rs:192-225 | Computes the specified new state and outcome; anything but success leaves all stored state as it was |
| Pool.TransferPool.Unshield | contracts/transfer/src/lib.rs:231-308 | The same, with the checks in the contract's order |
| Pool.TransferPool.Transfer | contracts/transfer/src/lib.rs:314-364 | The same for one input and two outputs |
| Pool.TransferPool.TransferN | contracts/transfer/src/lib.rs:370-435 | The same for two or four inputs |
| Pool.TransferPool.Validate | contracts/transfer/src/lib.rs:394-404 | Reports the first fault, a later duplicate of a nullifier before its being spent |
| Pool.TransferPool.MarkAll | contracts/transfer/src/lib.rs:419-421 | After validation every mark succeeds |
| Outcomes.DepositOutcome | contracts/transfer/src/lib.rs:192-225 | Every answer of a deposit, exactly when it is given, and the new state, in terms of the hash, the leaves and the balances |
| Outcomes.UnshieldOutcome | contracts/transfer/src/lib.rs:231-308 | The same for unshield, the attestation included |
| Outcomes.TransferOutcome | contracts/transfer/src/lib.rs:314-364 | The same for the one-input transfer |
| Outcomes.TransferNOutcome | contracts/transfer/src/lib.rs:370-435 | The same for the N-input transfer: it takes effect exactly for two or four distinct unspent nullifiers, a root in the window, a proof of notes under it worth the outputs, and fresh outputs that fit |
| Outcomes.FaultReported | contracts/transfer/src/lib.rs:394-404 | The nested loop reports a duplicate exactly when nothing spent stands before a repeated nullifier, and a spent one exactly when nothing up to it is repeated |
| Outcomes.PublicsBindPayout | contracts/transfer/src/lib.rs:265-278 | Two payouts have the same public inputs exactly when amounts are equal and root, nullifier, recipient and change are equal as field elements |
| Ledger.InputOpensLeaf | contracts/transfer/src/lib.rs:388-417 | An accepted input opens a leaf of the current tree, even when proved against a stale root, and is the very note behind it |
| Ledger.LeafFixesNullifier | prover/src/circuit.rs:390-402 | Every opening of a consumed leaf, under whatever key, shows a nullifier that is already registered in some spelling |
| Ledger.RegisteredIffTwinConsumed | prover/src/circuit.rs:77-85 | In any state that keeps the accounts, a leaf's nullifier is registered in some spelling exactly when the leaf, or one with its owner and blinding, was consumed |
| Ledger.AliasIffTwinConsumed | contracts/transfer/src/lib.rs:393-404 | The exact condition for consuming again: an accepted input opens a consumed leaf or a twin of one if and only if its word spells a registered nullifier, and two inputs of one call open one leaf or twins if and only if their words spell one nullifier |
| Ledger.SpendingOnce | contracts/transfer/src/lib.rs:393-421 | A spend consumes no leaf or twin again exactly when its words are fresh as field elements |
| Ledger.ConsumedValueGrows | prover/src/circuit.rs:393-417 | Consuming inputs adds exactly their total to the value consumed |
| Ledger.UnspentAndRepeated | prover/src/circuit.rs:393-417 | Value created and not taken out is what the unconsumed notes are worth, less what was taken out of leaves consumed before |
| Ledger.RepeatedIff | prover/src/circuit.rs:393-417 | Nothing was taken out twice exactly when only worthless leaves were consumed again |
| Ledger.ConsumeInputs | prover/src/circuit.rs:393-417 | An accepted spend's inputs are leaves of the tree and their values are exactly what it takes out |
| Ledger.SpendingKeeps | contracts/transfer/src/lib.rs:419-423 | The books after an accepted spend: leaves open, consumed leaves and registered nullifiers account for each other, value moves from inputs to outputs |
| Ledger.DepositKeeps | contracts/transfer/src/lib.rs:192-225 | A deposit keeps the invariant: the new leaf is worth the tokens paid in |
| Ledger.UnshieldAccepted | contracts/transfer/src/lib.rs:231-308 | An accepted unshield carries evidence for all it does: its input is worth the payout plus the change over the integers |
| Ledger.TransferAccepted | contracts/transfer/src/lib.rs:314-364 | The same for a one-input transfer, although its input value is not range-checked |
| Ledger.TransferNAccepted | contracts/transfer/src/lib.rs:370-435 | The same for an N-input transfer |
| Ledger.SpendKeeps | contracts/transfer/src/lib.rs:231-435 | Every spend keeps the invariant, whatever words its nullifiers are spelt with |
| Ledger.ActKeeps | contracts/transfer/src/lib.rs:192-435 | Every admissible action keeps the invariant |
| Ledger.AppendedPerAction | contracts/transfer/src/lib.rs:192-435 | In any book an effective deposit appends one leaf, an unshield one leaf and one consumption, a transfer two leaves and one, an N-input transfer two leaves and exactly two or four consumptions |
| Ledger.RunKeeps | contracts/transfer/src/lib.rs:192-435 | After every run of admissible actions each leaf opens to a 64-bit note, nullifiers and consumed leaves account for each other, and the books balance with each leaf counted as often as consumed |
| Ledger.ValueConserved | contracts/transfer/src/lib.rs:192-435 | In every reachable state the unconsumed leaves are worth deposits minus withdrawals plus what was taken out of leaves consumed before, so exactly deposits minus withdrawals if and only if no leaf of value was consumed twice; and the pool's balance is deposits minus withdrawals plus what was paid to its own address |
| Ledger.OnceIffNeverAliased | contracts/transfer/src/lib.rs:393-421 | Over every run, no leaf or twin is consumed twice if and only if no accepted call showed a word spelling an already shown nullifier |
| Ledger.LeavesConsumedAtMostOnce | contracts/transfer/src/lib.rs:393-421 | In every run whose accepted nullifiers are fresh as field elements no leaf is consumed twice; when notes differ in owner or blinding, only in those |
| Ledger.ConservedIffNeverAliased | contracts/transfer/src/lib.rs:192-435 | In those runs the unconsumed leaves are worth exactly deposits minus withdrawals; when notes differ in owner or blinding and consumed ones have value, only in those |
| Ledger.CanonicalNeverAliases | contracts/nullifier/src/lib.rs:67-71 | When every word in the registry is canonical, no call of the run that built it aliased a nullifier |
| Ledger.SpendableUnlessTwinConsumed | prover/src/circuit.rs:77-85 | In every reachable state a note's nullifier is registered, in some spelling, exactly when a leaf with its owner and blinding was consumed |
| Ledger.SurplusOfRun | contracts/transfer/src/lib.rs:288-292 | Nothing was paid to the pool's own address if and only if no effective action of the run did so |
| Ledger.BalanceExactIff | contracts/transfer/src/lib.rs:288-292 | The balance equals deposits minus withdrawals exactly when no effective unshield named the pool and no outsider sent it tokens; unless a nullifier was aliased, the same goes for the value of the unconsumed leaves |
| Ledger.SolventUpToRepeated | contracts/transfer/src/lib.rs:242-292 | In every reachable state a validated unshield that is fresh as a field element finds its amount in the pool, short by no more than what was taken out of leaves consumed before |
| Ledger.Solvent | contracts/transfer/src/lib.rs:242-292 | It finds its whole amount when no accepted nullifier was aliased before |
| Ledger.ValidatedOutcome | contracts/transfer/src/lib.rs:285-292 | A validated unshield succeeds unless the change is a duplicate, the tree is full, the pool is short or the recipient's balance cannot hold the payout |
| Ledger.UnshieldGoesThrough | contracts/transfer/src/lib.rs:285-292 | Where solvency holds, funds are never what a validated unshield lacks |
| Example.SelfPayoutKeepsTheBalance | contracts/transfer/src/lib.rs:288-292 | A concrete run of a deposit and an unshield to the pool itself, meeting every hypothesis, in which the balance is not deposits minus withdrawals |
| Example.AliasedNullifierConsumesTwice | contracts/transfer/src/lib.rs:255-283 | A concrete run, meeting every hypothesis, in which one nullifier is accepted as two words: its leaf is consumed twice and the pool is left with nothing although another note worth 5 was never consumed |
| Poseidon.Permute | prover/src/poseidon.rs:63-86 | The in-place permutation computes the 64 rounds on the old contents |
| Poseidon.Compress | prover/src/poseidon.rs:89-93 | The 2-to-1 compression |
| FieldLaws.NoZeroDivisors | prover/src/poseidon.rs:55-59 | For any prime modulus a product vanishes only if a factor does |
| FieldLaws.Fermat | prover/src/poseidon.rs:55-59 | Fermat's little theorem, for any prime modulus |
| PoseidonBijection.SBoxInverts | prover/src/poseidon.rs:55-59 | Over any prime p with 5 not dividing p - 1 the fifth power has an inverse on the whole field |
| PoseidonBijection.MixInverts | prover/src/poseidon.rs:78-84 | For any modulus an invertible matrix makes the linear layer invertible |
| PoseidonBijection.RoundInverts | prover/src/poseidon.rs:66-85 | Each full or partial round is undone from both sides |
| PoseidonBijection.PermutedIsBijection | prover/src/poseidon.rs:63-86 | Over any prime p with 5 not dividing p - 1, and any invertible matrix and constants, the permutation is a bijection of the state space with an explicit inverse |
| PoseidonBijection.FieldPermutedIsBijection | prover/src/poseidon.rs:63-86 | In particular over the program's field: 5 does not divide R - 1 |
| PoseidonShape.PermutedIsReference | prover/src/poseidon.rs:63-86 | The permutation is 64 rounds of an integer formula with the round numbers written out, for any modulus and tables |
| PoseidonShape.IdentityPermuted | prover/src/poseidon.rs:63-86 | Without constants and mixing, [x, y, z] becomes [x^(5^64), y^(5^8), z^(5^8)] |
| PoseidonShape.ShiftPermuted | prover/src/poseidon.rs:63-86 | Without constants and with the cells shifting down, [x, y, z] becomes [y^(5^27), z^(5^27), x^(5^26)], which shows where each full and partial round stands |
| PoseidonShape.ShiftCompressed | prover/src/poseidon.rs:89-93 | The compression of (a, b) is then a^(5^27) |
| R1cs.Fill | prover/src/circuit.rs:38-44 | Any choice of inputs and witnesses extends to an assignment consistent with every emitted wire |
| R1cs.ConstraintSystem.Times | prover/src/poseidon.rs:95-99 | Products fold constants, otherwise emit one wire, and evaluate to the product under every consistent assignment |
| R1cs.ConstraintSystem.Select | prover/src/circuit.rs:102-103 | A select on a boolean evaluates to the chosen branch |
| HashGadget.Pow5Var | prover/src/poseidon.rs:95-99 | Evaluates to the native fifth power |
| HashGadget.PermuteVar | prover/src/poseidon.rs:101-129 | Evaluates to the native permutation under every consistent assignment |
| HashGadget.Hash2Var | prover/src/poseidon.rs:132-141 | Evaluates to the native 2-to-1 hash under every consistent assignment |
| HashGadget.HighBitsZero | prover/src/circuit.rs:47-53 | A number is below 2^lo exactly when its bits from lo on are zero |
| HashGadget.PackedIsWeight | prover/src/circuit.rs:48-48 | The packing equation's linear combination is the number the bits spell, modulo R |
| HashGadget.PackedForces | prover/src/circuit.rs:47-53 | Boolean digits that pack to a value and vanish above are its canonical bits: the equation cannot wrap |
| HashGadget.CanonicalBits | prover/src/circuit.rs:47-53 | The canonical bits pass the decomposition's checks, and vanish from `bits` on exactly when the value is in range |
| HashGadget.RangeCheck | prover/src/circuit.rs:47-53 | The added checks force the decomposition's bits and pass exactly on values below 2^bits |
| Circuits.NoteCommitVar | prover/src/circuit.rs:56-65 | Evaluates to the native commitment |
| Circuits.WalkVar | prover/src/circuit.rs:88-107 | The checks make the bits boolean, and the result is the native walk |
| Circuits.SpendVar | prover/src/circuit.rs:207-211 | The constraints on an input are exactly membership under the root and its nullifier |
| Circuits.SynthesizeDeposit | prover/src/circuit.rs:135-148 | The emitted constraints force every decomposition, and an assignment so filled passes exactly when it satisfies the deposit relation |
| Circuits.SynthesizeUnshield | prover/src/circuit.rs:194-224 | The same for unshield |
| Circuits.SynthesizeTransfer | prover/src/circuit.rs:276-308 | The same for the one-input transfer |
| Circuits.InputLoop | prover/src/circuit.rs:393-403 | The loop enforces exactly the inputs' membership, nullifiers and ranges and accumulates their sum |
| Circuits.SynthesizeTransferN | prover/src/circuit.rs:378-419 | The same for the N-input transfer, for every N and depth |
| Circuits.Assign | prover/src/circuit.rs:42-44 | Some consistent assignment gives the public inputs and witnesses any chosen values |
| Circuits.DepositRealized | prover/src/circuit.rs:134-149 | Satisfiable with given public inputs if and only if some witness satisfies the relation |
| Circuits.UnshieldRealized | prover/src/circuit.rs:193-225 | The same for unshield |
| Circuits.TransferRealized | prover/src/circuit.rs:275-309 | The same for the one-input transfer |
| Circuits.TransferNRealized | prover/src/circuit.rs:377-420 | The same for the N-input transfer |
| Wallet.DepositProof | prover-wasm/src/lib.rs:183-206 | Succeeds exactly on 64-bit amounts, with the deposit relation satisfied |
| Wallet.UnshieldProof | prover-wasm/src/lib.rs:224-275 | Refuses for the stated reason, else succeeds exactly when amount and change have 64 bits, with the pool's public-input vector |
| Wallet.TransferProof | prover-wasm/src/lib.rs:303-371 | The same for both outputs, with the commitments to the payees' owner, blinding and value |
| Wallet.AssembleInputs | prover-wasm/src/lib.rs:437-460 | Paths, nullifiers and one root shared by all inputs |
| Wallet.AssembledIffFits | prover-wasm/src/lib.rs:419-476 | Once the wallet's checks pass, the assembled witness satisfies the circuit exactly when every value has 64 bits |
| Wallet.TransferNProof | prover-wasm/src/lib.rs:398-484 | Refuses for the first stated reason, else returns the honest witness and the public inputs root, nullifiers and the commitments to the payees' owner, blinding and value, in order |
| Wallet.TransferNRefusals | prover-wasm/src/lib.rs:400-446 | Every refusal of the N-input builder and exactly when it is given, the first mismatched leaf included |
| EndToEnd.DepositAcceptedIffSatisfiable | contracts/transfer/src/lib.rs:205-212 | A proof is accepted for given public inputs exactly when the emitted circuit is satisfiable with them |
| EndToEnd.UnshieldAcceptedIffSatisfiable | contracts/transfer/src/lib.rs:269-283 | The same for unshield |
| EndToEnd.TransferAcceptedIffSatisfiable | contracts/transfer/src/lib.rs:335-345 | The same for the one-input transfer |
| EndToEnd.TransferNAcceptedIffSatisfiable | contracts/transfer/src/lib.rs:406-417 | The same for the N-input transfer |
| EndToEnd.EmitDeposit | prover/src/circuit.rs:134-149 | The emitted circuit is satisfiable with exactly the public inputs for which some proof is accepted |
| EndToEnd.EmitUnshield | prover/src/circuit.rs:193-225 | The same for unshield |
| EndToEnd.EmitTransfer | prover/src/circuit.rs:275-309 | The same for the one-input transfer |
| EndToEnd.EmitTransferN | prover/src/circuit.rs:377-420 | The same for the N-input transfer, for every N and depth |
| EndToEnd.HonestTransferNAccepted | contracts/transfer/src/lib.rs:370-435 | A wallet's proof over leaves at most 31 insertions old is accepted exactly when nullifiers are distinct and unspent and the outputs are fresh and fit |
| EndToEnd.HonestTransferAccepted | contracts/transfer/src/lib.rs:314-364 | The same for the one-input transfer |
| EndToEnd.HonestUnshieldAccepted | contracts/transfer/src/lib.rs:231-308 | In any state, the same for unshield, with the claim, the exit policy, the pool's funds and the recipient's capacity |
| EndToEnd.UnshieldPublicsAgree | contracts/transfer/src/lib.rs:269-278 | The vector the pool derives from the payout is the one the wallet proved |
| EndToEnd.HonestDepositAccepted | contracts/transfer/src/lib.rs:192-225 | The exact outcome of a deposit with the wallet's proof: the new leaf's index, an invalid amount, or a failing sub-call, and when |
| EndToEnd.OwnerCanWithdraw | contracts/transfer/src/lib.rs:231-308 | In every reachable state the owner of a leaf can cash it, in whole or in part, if and only if its nullifier's word is unregistered and the pool has the funds; after unaliased runs whenever neither it nor a twin was consumed, and under canonical words only then |
| EndToEnd.Withdraw | prover-wasm/src/lib.rs:224-275 | Builder and pool composed: the same, the recipient is credited the amount, and the owner holds the change |
| EndToEnd.PayPrivately | prover-wasm/src/lib.rs:398-484 | Builder and pool composed, in any state: the payment goes through exactly when the wallet finds no fault, values fit, the notes are unspent and distinct and the outputs fresh; then both payees hold their notes at the new leaves |
| EndToEnd.PayFromOne | prover-wasm/src/lib.rs:303-371 | The same for the one-input payment |
| EndToEnd.Fund | prover-wasm/src/lib.rs:183-206 | The same for a deposit: exactly when it goes through, and then the owner holds the note |
| Groth16Verifier.PairingCheckIsGroth16 | contracts/verifier/src/lib.rs:146-166 | The multi-pairing with A negated by R - 1 vanishes exactly when the Groth16 equation holds |
| Groth16Verifier.EquationForFew | contracts/verifier/src/lib.rs:131-166 | For no, one and two public inputs the equation holds exactly when it does with IC[0], IC[1] and IC[2] written out |
| Groth16Verifier.CombinedAtZero | contracts/verifier/src/lib.rs:131-143 | With all public inputs zero the linear combination is IC[0] |
| Groth16Verifier.CombinedChange | contracts/verifier/src/lib.rs:131-143 | Changing public input i by d changes the combination by d times IC[i + 1] |
| Groth16Verifier.VkXIsCombined | contracts/verifier/src/lib.rs:131-143 | The verifier's multi-scalar multiplication computes that combination modulo R |
| Groth16Verifier.KeyRoundTrip | contracts/verifier/src/lib.rs:132-163 | A printed verifying key is read back point by point under its own names, and as no other |
| Groth16Verifier.Verifier.Verify | contracts/verifier/src/lib.rs:103-167 | Errors in order, then the Groth16 equation on the encoded points in integers modulo R, for any number of public inputs |
| Groth16Verifier.SlicingUndoesPrinting | contracts/verifier/src/lib.rs:125-128 | A printed proof is 384 bytes, A then B then C, and the slices recover exactly its three points |
| Groth16Verifier.VerifyPrinted | prover/src/groth16.rs:125-131 | A printed proof under a printed key is judged by the Groth16 equation |
| Codec.WordBijection | contracts/commitment/src/lib.rs:220-230 | Reading 32 bytes as a number is a bijection onto the 256-bit words |
| Codec.RightAlign | prover/src/lib.rs:34-36 | Right-aligning in a zeroed buffer keeps the number |
| Codec.FrBe32 | prover/src/groth16.rs:105-110 | The 32-byte form of a field element reads back as itself |
| Codec.AmountBytes | contracts/transfer/src/lib.rs:456-460 | A positive amount reads back as itself, below R |
| Codec.UnhexExact | prover/src/lib.rs:25-30 | Decoding succeeds exactly on even-length hexadecimal, and the bytes spell the digits' number |
| Codec.UnhexOfHex | prover/src/groth16.rs:130-130 | Hexadecimal is lossless |
| Codec.ParseFr | prover/src/lib.rs:22-44 | Parses to the number the digits spell modulo R, odd digit counts padded, with the exact errors |
| Codec.ParsedDecimal | prover/src/lib.rs:38-43 | A decimal, with or without a plus sign, parses to the number it spells up to 128 bits and is refused above |
| Codec.DecimalExact | prover/src/lib.rs:38-43 | A decimal is a nonempty run of digits and nothing else |
| Codec.DigitsExact | prover/src/lib.rs:25-30 | The hexadecimal digits in order, in either case, and only they |
| Codec.TrimExact | prover/src/lib.rs:22-23 | Trimming removes spaces, all at the ends and nothing else |
| Codec.Parsed32Exact | prover/src/lib.rs:47-56 | The fixed-width parser takes exactly 64 digits, prefixed or not, with the exact errors |
| Codec.ParseUndoesPrint | prover/src/lib.rs:22-44 | Printing then parsing gives the element back, with or without its leading zeros |
| Codec.Parse32UndoesPrint | prover/src/lib.rs:47-56 | The same for the fixed-width parser the leaves go through |

## Left out

- Groth16 setup, proving and knowledge soundness, curve arithmetic and the host's BLS12-381 functions: replaced by ideal proofs and by the exponent model of the groups.
- The comparison with the modulus that the library adds to a full bit decomposition: with the bits from 64 on forced to zero it follows (`HashGadget.PackedForces`).
- HashGadget.RangeCheck: takes bounds below the 255 bits of a full decomposition only, because the circuits check 64 and a bound of 255 or more adds no constraint.
- Note encryption, viewing keys and SHA-256: the blobs are not proof inputs and touch no pool state; the recipient's hash is a parameter.
- Concrete Poseidon tables, the primality of R and the inverse of the matrix: parameters or stated hypotheses.
- Time-to-live extension, archival, authorization by the host, initialization, key replacement and events other than CommitInserted: entries persist and the wiring is fixed.
- How the host's hash treats a leaf word of R or more: it is taken to reduce it, as the verifier does.
- The compliance contract: an arbitrary predicate on the recipient.
- Token contracts that do not move exactly the stated amount.
- The command-line prover, a near copy of the wallet builders; JSON and wasm plumbing; the parsing of builder arguments, which arrive here as values.
- Privacy, hiding and unlinkability.
