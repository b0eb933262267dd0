/** The BLS12-381 scalar field and the 32-byte words the contracts store.

    A 32-byte value is modelled by the number its bytes spell in big-endian order;
    module Codec proves that reading to be a bijection. */
module Field {

  /** Order of the BLS12-381 scalar field. */
  const R: int := 0x73eda753299d7d483339d80809a1d80553bda402fffe5bfeffffffff00000001

  /** The order in terms of the curve's parameter z: it is z^4 - z^2 + 1. */
  lemma FieldOrder(z: int)
    requires z == 0xd201_0000_0001_0000
    ensures R == z * z * z * z - z * z + 1
  {
  }

  const TWO_64: int := 0x1_0000_0000_0000_0000
  const TWO_128: int := 0x1_0000_0000_0000_0000_0000_0000_0000_0000
  const TWO_256: int := 0x1_0000_0000_0000_0000_0000_0000_0000_0000_0000_0000_0000_0000_0000_0000_0000_0000

  type Fr = x: int | 0 <= x < R witness 0

  type Word = x: int | 0 <= x < TWO_256 witness 0

  /** Token amounts. */
  type I128 = x: int | -TWO_128 / 2 <= x < TWO_128 / 2 witness 0

  /** Big-endian two's complement of the amount, right-aligned in 32 bytes. */
  function AmountField(amount: I128): Word {
    amount % TWO_128
  }

  // ---- arithmetic modulo any q ----

  type Modulus = q: int | q >= 2 witness 2

  function AddIn(q: Modulus, a: int, b: int): int {
    (a + b) % q
  }

  function SubIn(q: Modulus, a: int, b: int): int {
    (a - b) % q
  }

  function MulIn(q: Modulus, a: int, b: int): int {
    (a * b) % q
  }

  // ---- arithmetic modulo R ----

  function Add(a: Fr, b: Fr): Fr {
    AddIn(R, a, b)
  }

  function Sub(a: Fr, b: Fr): Fr {
    SubIn(R, a, b)
  }

  function Mul(a: Fr, b: Fr): Fr {
    MulIn(R, a, b)
  }

  function Sum(vs: seq<Fr>): Fr {
    if vs == [] then 0 else Add(Sum(vs[..|vs| - 1]), vs[|vs| - 1])
  }

  /** The reduction the verifier host applies to a 32-byte value. */
  function Decode(w: Word): Fr {
    w % R
  }

  predicate Canonical(w: Word) {
    w < R
  }

  function DecodeAll(ws: seq<Word>): (fs: seq<Fr>)
    ensures |fs| == |ws|
    ensures forall i :: 0 <= i < |ws| ==> fs[i] == Decode(ws[i])
  {
    seq(|ws|, i requires 0 <= i < |ws| => Decode(ws[i]))
  }

  lemma DecodeAllAppend(ws: seq<Word>, w: Word)
    ensures DecodeAll(ws + [w]) == DecodeAll(ws) + [Decode(w)]
  {
  }

  /** A registry keyed by 32-byte words guards field elements exactly when the word
      is canonical: any set of registered words that misses `w` then also misses every
      other spelling of the same field element. */
  lemma WordGuardIsFieldGuard(w: Word)
    ensures (forall spent: set<Word> :: (forall s :: s in spent ==> Canonical(s)) && w !in spent
               ==> forall s :: s in spent ==> Decode(s) != Decode(w))
       <==> Canonical(w)
  {
    if !Canonical(w) {
      var s: Word := Decode(w);
      var spent := {s};
      assert s in spent && w !in spent && Decode(s) == Decode(w);
    }
  }
}
