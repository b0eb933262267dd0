/** Value-committed notes with spend and view separation. */
module Notes {
  import opened Field
  import opened MerkleSpec

  const OWNER_PK_DOMAIN: Fr := 0

  datatype Note = Note(ownerPk: Fr, k: Fr, v: Fr)

  function OwnerPk(h: Hasher, spendSk: Fr): Fr {
    h(spendSk, OWNER_PK_DOMAIN)
  }

  function Nullifier(h: Hasher, spendSk: Fr, k: Fr): Fr {
    h(spendSk, k)
  }

  /** The two inputs of the outer hash of a commitment. */
  function CommitPair(h: Hasher, note: Note): Pair {
    (h(note.ownerPk, note.k), note.v)
  }

  function Commitment(h: Hasher, note: Note): Fr {
    HashPair(h, CommitPair(h, note))
  }

  function Owned(h: Hasher, spendSk: Fr, k: Fr, v: Fr): Note {
    Note(OwnerPk(h, spendSk), k, v)
  }

  /** Every pair hashed to form the commitment of `note`. */
  function NotePairs(h: Hasher, note: Note): set<Pair> {
    {(note.ownerPk, note.k), CommitPair(h, note)}
  }

  lemma CommitmentInFull(h: Hasher, note: Note)
    ensures Commitment(h, note) == h(h(note.ownerPk, note.k), note.v)
  {
  }

  /** A commitment determines its owner, blinding and value, or the two openings contain
      a collision. */
  lemma CommitmentBinds(h: Hasher, pairs: set<Pair>, a: Note, b: Note)
    requires CollisionFree(h, pairs)
    requires NotePairs(h, a) + NotePairs(h, b) <= pairs
    requires Commitment(h, a) == Commitment(h, b)
    ensures a == b
  {
    assert CommitPair(h, a) in NotePairs(h, a) && CommitPair(h, b) in NotePairs(h, b);
    assert HashPair(h, (a.ownerPk, a.k)) == HashPair(h, (b.ownerPk, b.k));
    assert (a.ownerPk, a.k) in NotePairs(h, a) && (b.ownerPk, b.k) in NotePairs(h, b);
  }

  /** An owner tag determines its spend key, hence the nullifier of each of its notes. */
  lemma OwnerBindsKey(h: Hasher, pairs: set<Pair>, sk: Fr, sk': Fr)
    requires CollisionFree(h, pairs)
    requires (sk, OWNER_PK_DOMAIN) in pairs && (sk', OWNER_PK_DOMAIN) in pairs
    requires OwnerPk(h, sk) == OwnerPk(h, sk')
    ensures sk == sk'
  {
    assert HashPair(h, (sk, OWNER_PK_DOMAIN)) == HashPair(h, (sk', OWNER_PK_DOMAIN));
  }
}
