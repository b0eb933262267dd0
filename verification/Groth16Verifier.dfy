/** The on-chain Groth16 verifier. The pairing groups have prime order R and are modelled
    by their exponents, so a pairing is a product and a pairing check asks whether a sum of
    products vanishes. */
module Groth16Verifier {
  import opened Field
  import opened Wrappers
  import opened FieldLaws
  import opened Codec

  const G1_LEN: nat := 96
  const G2_LEN: nat := 192
  const PROOF_LEN: nat := 384

  type Bytes = seq<byte>

  /** Uncompressed point encodings. Decoding a string that is no point traps. */
  datatype Curve = Curve(
    g1Bytes: Fr -> Bytes, g2Bytes: Fr -> Bytes,
    g1Point: Bytes -> Option<Fr>, g2Point: Bytes -> Option<Fr>)

  ghost predicate IsEncoding(c: Curve) {
    && (forall x: Fr :: |c.g1Bytes(x)| == G1_LEN && c.g1Point(c.g1Bytes(x)) == Some(x))
    && (forall x: Fr :: |c.g2Bytes(x)| == G2_LEN && c.g2Point(c.g2Bytes(x)) == Some(x))
  }

  datatype Error = VkNotFound | BadProofLength | PublicInputMismatch

  datatype VerifyingKey = VerifyingKey(alpha: Bytes, beta: Bytes, gamma: Bytes, delta: Bytes, ic: seq<Bytes>)

  /** A verifying key as group elements. */
  datatype Key = Key(alpha: Fr, beta: Fr, gamma: Fr, delta: Fr, ic: seq<Fr>)

  datatype ProofPoints = ProofPoints(a: Fr, b: Fr, c: Fr)

  ghost predicate KeyOf(c: Curve, vk: VerifyingKey, key: Key) {
    && c.g1Point(vk.alpha) == Some(key.alpha) && c.g2Point(vk.beta) == Some(key.beta)
    && c.g2Point(vk.gamma) == Some(key.gamma) && c.g2Point(vk.delta) == Some(key.delta)
    && PointsOf(c, vk.ic, key.ic)
  }

  ghost predicate PointsOf(c: Curve, bytes: seq<Bytes>, points: seq<Fr>) {
    |bytes| == |points| && forall i :: 0 <= i < |points| ==> c.g1Point(bytes[i]) == Some(points[i])
  }

  ghost predicate ProofOf(c: Curve, proof: Bytes, pts: ProofPoints) {
    && |proof| == PROOF_LEN
    && c.g1Point(proof[0..96]) == Some(pts.a) && c.g2Point(proof[96..288]) == Some(pts.b)
    && c.g1Point(proof[288..384]) == Some(pts.c)
  }

  /** Multi-scalar multiplication, as the host computes it. */
  function Msm(points: seq<Fr>, scalars: seq<Fr>): Fr
    requires |points| == |scalars|
  {
    if points == [] then 0
    else
      var k := |points| - 1;
      Add(Msm(points[..k], scalars[..k]), Mul(points[k], scalars[k]))
  }

  /** Exponent of the product of pairings. */
  function PairingSum(g1s: seq<Fr>, g2s: seq<Fr>): Fr
    requires |g1s| == |g2s|
  {
    Msm(g1s, g2s)
  }

  /** The integer IC[0] + sum of public_i * IC[i + 1]. */
  function Combined(ic: seq<Fr>, publics: seq<Fr>): int
    requires |ic| == |publics| + 1
  {
    if publics == [] then ic[0]
    else
      var k := |publics| - 1;
      Combined(ic[..k + 1], publics[..k]) + (publics[k] as int) * ic[k + 1]
  }

  /** The verifier's linear combination, starting from IC[0]. */
  function VkX(ic: seq<Fr>, publics: seq<Fr>): Fr
    requires |ic| == |publics| + 1
  {
    Add(ic[0], Msm(ic[1..], publics))
  }

  /** The Groth16 equation e(A, B) = e(alpha, beta) e(vk_x, gamma) e(C, delta). */
  predicate Groth16Holds(key: Key, publics: seq<Fr>, pts: ProofPoints)
    requires |key.ic| == |publics| + 1
  {
    Balances(key, pts, Combined(key.ic, publics))
  }

  /** The equation for a given combination x, in integers. */
  predicate Balances(key: Key, pts: ProofPoints, x: int) {
    ((pts.a as int) * pts.b) % R == ((key.alpha as int) * key.beta + x * key.gamma + (pts.c as int) * key.delta) % R
  }

  /** The equation in numbers, for no, one and two public inputs. */
  lemma EquationForFew(key: Key, p: Fr, p': Fr, pts: ProofPoints)
    ensures |key.ic| == 1 ==> (Groth16Holds(key, [], pts) <==> Balances(key, pts, key.ic[0]))
    ensures |key.ic| == 2 ==> (Groth16Holds(key, [p], pts) <==> Balances(key, pts, key.ic[0] as int + (p as int) * key.ic[1]))
    ensures |key.ic| == 3 ==> (Groth16Holds(key, [p, p'], pts) <==> Balances(key, pts, key.ic[0] as int + (p as int) * key.ic[1] + (p' as int) * key.ic[2]))
  {
    CombinedFew(key.ic, p, p');
  }

  lemma CombinedFew(ic: seq<Fr>, p: Fr, p': Fr)
    ensures |ic| == 1 ==> Combined(ic, []) == ic[0]
    ensures |ic| == 2 ==> Combined(ic, [p]) == ic[0] as int + (p as int) * ic[1]
    ensures |ic| == 3 ==> Combined(ic, [p, p']) == ic[0] as int + (p as int) * ic[1] + (p' as int) * ic[2]
  {
    if |ic| == 2 { assert [p][..0] == [] && Combined(ic[..1], []) == ic[0]; }
    if |ic| == 3 {
      assert [p, p'][..1] == [p];
      CombinedFew(ic[..2], p, p');
    }
  }

  /** With all public inputs zero the combination is IC[0]. */
  lemma {:induction false} CombinedAtZero(ic: seq<Fr>, publics: seq<Fr>)
    requires |ic| == |publics| + 1 && forall i :: 0 <= i < |publics| ==> publics[i] == 0
    ensures Combined(ic, publics) == ic[0]
  {
    if publics != [] { CombinedAtZero(ic[..|publics|], publics[..|publics| - 1]); }
  }

  /** Changing one public input by d changes the combination by d times its own IC point. */
  lemma {:induction false} CombinedChange(ic: seq<Fr>, publics: seq<Fr>, i: nat, d: int)
    requires |ic| == |publics| + 1 && i < |publics| && 0 <= publics[i] + d < R
    ensures Combined(ic, publics[i := publics[i] + d]) == Combined(ic, publics) + d * ic[i + 1]
  {
    var k := |publics| - 1;
    var changed := publics[i := publics[i] + d];
    if i < k {
      assert changed[..k] == publics[..k][i := publics[i] + d];
      CombinedChange(ic[..k + 1], publics[..k], i, d);
    } else {
      assert changed[..k] == publics[..k];
      assert (publics[k] as int + d) * ic[k + 1] == (publics[k] as int) * ic[k + 1] + d * ic[k + 1];
    }
  }

  /** The verifier's combination is the integer one, modulo R. */
  lemma {:induction false} VkXIsCombined(ic: seq<Fr>, publics: seq<Fr>)
    requires |ic| == |publics| + 1
    ensures VkX(ic, publics) == Combined(ic, publics) % R
  {
    hide Msm;
    if publics == [] {
      NoPoints();
      assert ic[1..] == [];
    } else {
      hide Add, Mul;
      var k := |publics| - 1;
      var c, t: int := Combined(ic[..k + 1], publics[..k]), publics[k] * (ic[k + 1] as int);
      assert ic[..k + 1][1..] == ic[1..][..k];
      VkXIsCombined(ic[..k + 1], publics[..k]);
      MsmLast(ic[1..], publics);
      AddAssociates(ic[0], Msm(ic[1..][..k], publics[..k]), Mul(ic[k + 1], publics[k]));
      AddReduced(c, t);
      MulFull(ic[k + 1], publics[k]);
    }
  }

  lemma NoPoints()
    ensures Msm([], []) == 0
  {
  }

  lemma MsmLast(points: seq<Fr>, scalars: seq<Fr>)
    requires |points| == |scalars| > 0
    ensures var k := |points| - 1;
            Msm(points, scalars) == Add(Msm(points[..k], scalars[..k]), Mul(points[k], scalars[k]))
  {
  }

  /** Adding residues is reducing the sum. */
  lemma AddReduced(x: int, y: int)
    ensures Add(x % R, y % R) == (x + y) % R
  {
    ModAdd(R, x, y);
  }

  lemma MulFull(x: Fr, y: Fr)
    ensures Mul(x, y) == ((x as int) * y) % R == ((y as int) * x) % R
  {
  }

  lemma MulInFull(x: int, y: int)
    ensures MulIn(R, x, y) == (x * y) % R
  {
  }

  lemma MulIsMulIn(x: Fr, y: Fr)
    ensures Mul(x, y) == MulIn(R, x, y)
  {
  }

  /** The equation on group elements is the one on integers. */
  lemma EquationReduced(key: Key, publics: seq<Fr>, pts: ProofPoints)
    requires |key.ic| == |publics| + 1
    ensures Groth16Holds(key, publics, pts) <==>
              Mul(pts.a, pts.b)
              == Add(Add(Mul(key.alpha, key.beta), Mul(VkX(key.ic, publics), key.gamma)), Mul(pts.c, key.delta))
  {
    hide Add, Mul, MulIn, VkX, Combined;
    var c := Combined(key.ic, publics);
    var u: int, v: int, w: int := (key.alpha as int) * key.beta, c * key.gamma, (pts.c as int) * key.delta;
    VkXIsCombined(key.ic, publics);
    MulFull(pts.a, pts.b);
    MulFull(key.alpha, key.beta);
    ModMul(R, c, key.gamma);
    MulIsMulIn(VkX(key.ic, publics), key.gamma);
    MulInFull(c, key.gamma);
    MulFull(pts.c, key.delta);
    AddReduced(u, v);
    AddReduced(u + v, w);
  }

  // ---- arithmetic modulo R ----

  /** Multiplying a point by R - 1 negates it in every pairing. */
  lemma NegatedPairing(a: Fr, b: Fr)
    ensures Mul(Mul(a, Sub(0, 1)), b) == Sub(0, Mul(a, b))
  {
    ModMul(R, a * (R - 1), b);
    assert (a * (R - 1)) * b == -(a * b) + (a * b) * R;
    ModShift(R, -(a * b), a * b);
    NegMod(a * b);
  }

  lemma NegMod(z: int)
    ensures (-z) % R == (0 - z % R) % R
  {
    var q := z / R;
    assert -z == -(z % R) + (-q) * R;
    ModShift(R, -(z % R), -q);
  }

  lemma Cancels(w: Fr, x: Fr)
    ensures Add(Sub(0, w), x) == 0 <==> w == x
  {
    assert Sub(0, w) == if w == 0 then 0 else R - w;
  }

  lemma SumOfFour(na: Fr, w: Fr, x: Fr, y: Fr, z: Fr)
    requires na == Sub(0, w)
    ensures Add(Add(Add(Add(0, na), x), y), z) == 0 <==> w == Add(Add(x, y), z)
  {
    assert Add(0, na) == na;
    hide Add, Sub;
    AddAssociates(na, x, y);
    AddAssociates(na, Add(x, y), z);
    Cancels(w, Add(Add(x, y), z));
  }

  lemma MsmAppend(points: seq<Fr>, scalars: seq<Fr>, p: Fr, s: Fr)
    requires |points| == |scalars|
    ensures Msm(points + [p], scalars + [s]) == Add(Msm(points, scalars), Mul(p, s))
  {
    assert (points + [p])[..|points|] == points && (scalars + [s])[..|points|] == scalars;
  }

  /** The single multi-pairing check is the Groth16 equation. */
  lemma PairingCheckIsGroth16(key: Key, publics: seq<Fr>, pts: ProofPoints, x: Fr)
    requires |key.ic| == |publics| + 1 && x == VkX(key.ic, publics)
    ensures PairingSum([Mul(pts.a, Sub(0, 1)), key.alpha, x, pts.c], [pts.b, key.beta, key.gamma, key.delta]) == 0
       <==> Groth16Holds(key, publics, pts)
  {
    hide Add, Mul, Sub, VkX, Groth16Holds;
    var na := Mul(pts.a, Sub(0, 1));
    var g1s: seq<Fr> := [na, key.alpha, x, pts.c];
    var g2s: seq<Fr> := [pts.b, key.beta, key.gamma, key.delta];
    MsmAppend([], [], na, pts.b);
    assert [] + [na] == [na] && [] + [pts.b] == [pts.b];
    MsmAppend([na], [pts.b], key.alpha, key.beta);
    assert [na] + [key.alpha] == [na, key.alpha] && [pts.b] + [key.beta] == [pts.b, key.beta];
    MsmAppend([na, key.alpha], [pts.b, key.beta], x, key.gamma);
    assert [na, key.alpha] + [x] == [na, key.alpha, x] && [pts.b, key.beta] + [key.gamma] == [pts.b, key.beta, key.gamma];
    MsmAppend([na, key.alpha, x], [pts.b, key.beta, key.gamma], pts.c, key.delta);
    assert [na, key.alpha, x] + [pts.c] == g1s && [pts.b, key.beta, key.gamma] + [key.delta] == g2s;
    NegatedPairing(pts.a, pts.b);
    EquationReduced(key, publics, pts);
    SumOfFour(Mul(na, pts.b), Mul(pts.a, pts.b), Mul(key.alpha, key.beta), Mul(x, key.gamma), Mul(pts.c, key.delta));
  }

  // ---- the contract ----

  class Verifier {
    const curve: Curve
    var keys: map<nat, VerifyingKey>

    constructor (curve: Curve)
      ensures this.curve == curve && keys == map[]
    {
      this.curve := curve;
      keys := map[];
    }

    /** Register or replace a key; no other key changes. */
    method RegisterVk(id: nat, vk: VerifyingKey)
      modifies this
      ensures keys == old(keys)[id := vk]
    {
      keys := keys[id := vk];
    }

    /** The errors come in this order; otherwise the answer is the Groth16 equation on the
        points the bytes encode, or a trap when some bytes encode no point. */
    method Verify(id: nat, proof: Bytes, publics: seq<Word>) returns (r: Outcome<bool, Error>)
      ensures id !in keys ==> r == Rejected(VkNotFound)
      ensures id in keys && |proof| != PROOF_LEN ==> r == Rejected(BadProofLength)
      ensures id in keys && |proof| == PROOF_LEN && |keys[id].ic| != |publics| + 1 ==> r == Rejected(PublicInputMismatch)
      ensures forall key, pts {:trigger KeyOf(curve, keys[id], key), ProofOf(curve, proof, pts)} ::
                id in keys && |keys[id].ic| == |publics| + 1 && KeyOf(curve, keys[id], key) && ProofOf(curve, proof, pts) ==>
                  r == Done(Groth16Holds(key, DecodeAll(publics), pts))
      ensures r.Done? ==> exists key, pts :: id in keys && KeyOf(curve, keys[id], key) && ProofOf(curve, proof, pts)
    {
      if id !in keys {
        return Rejected(VkNotFound);
      }
      var vk := keys[id];
      if |proof| != PROOF_LEN {
        return Rejected(BadProofLength);
      }
      if |vk.ic| != |publics| + 1 {
        return Rejected(PublicInputMismatch);
      }
      var a := curve.g1Point(proof[0..96]);
      var b := curve.g2Point(proof[96..288]);
      var c := curve.g1Point(proof[288..384]);
      var points, scalars := ReadInputs(vk, publics);
      var ic0 := curve.g1Point(vk.ic[0]);
      var alpha, beta := curve.g1Point(vk.alpha), curve.g2Point(vk.beta);
      var gamma, delta := curve.g2Point(vk.gamma), curve.g2Point(vk.delta);
      if a.None? || b.None? || c.None? || ic0.None? || points.None? || alpha.None? || beta.None? || gamma.None? || delta.None? {
        return Trapped;
      }
      var vkX := ic0.value;
      if |publics| > 0 {
        vkX := Add(vkX, Msm(points.value, scalars));
      }
      var key := Key(alpha.value, beta.value, gamma.value, delta.value, [ic0.value] + points.value);
      var pts := ProofPoints(a.value, b.value, c.value);
      assert key.ic[1..] == points.value && scalars == DecodeAll(publics);
      assert vkX == VkX(key.ic, scalars);
      var negOne := Sub(0, 1);
      var aNeg := Mul(a.value, negOne);
      PairingCheckIsGroth16(key, scalars, pts, vkX);
      var ok := PairingSum([aNeg, alpha.value, vkX, c.value], [b.value, beta.value, gamma.value, delta.value]) == 0;
      SameKey(curve, vk, key);
      assert KeyOf(curve, keys[id], key) && ProofOf(curve, proof, pts);
      return Done(ok);
    }

    /** The loop that pushes the points and scalars of the linear combination. */
    method ReadInputs(vk: VerifyingKey, publics: seq<Word>) returns (points: Option<seq<Fr>>, scalars: seq<Fr>)
      requires |vk.ic| == |publics| + 1
      ensures scalars == DecodeAll(publics)
      ensures points.Some? ==> PointsOf(curve, vk.ic[1..], points.value)
      ensures points.None? ==> exists b :: b in vk.ic && curve.g1Point(b).None?
    {
      points, scalars := Some([]), [];
      var i := 0;
      while i < |publics|
        invariant 0 <= i <= |publics| && |scalars| == i
        invariant forall k :: 0 <= k < i ==> scalars[k] == Decode(publics[k])
        invariant points.Some? ==> PointsOf(curve, vk.ic[1..i + 1], points.value)
        invariant points.None? ==> exists b :: b in vk.ic && curve.g1Point(b).None?
      {
        var p := curve.g1Point(vk.ic[i + 1]);
        assert vk.ic[1..i + 2] == vk.ic[1..i + 1] + [vk.ic[i + 1]] && vk.ic[i + 1] in vk.ic;
        points := if points.Some? && p.Some? then Some(points.value + [p.value]) else None;
        scalars := scalars + [Decode(publics[i])];
        i := i + 1;
      }
    }
  }

  /** A verifying key's bytes determine its group elements. */
  lemma SameKey(c: Curve, vk: VerifyingKey, key: Key)
    requires KeyOf(c, vk, key)
    ensures forall other :: KeyOf(c, vk, other) ==> other == key
  {
    forall other | KeyOf(c, vk, other) ensures other == key {
      assert other.ic == key.ic;
    }
  }

  // ---- printed proofs ----

  /** The 384-byte layout A, B, C. */
  function ProofBytes(c: Curve, pts: ProofPoints): Bytes {
    c.g1Bytes(pts.a) + c.g2Bytes(pts.b) + c.g1Bytes(pts.c)
  }

  /** The verifier's slices recover exactly the points that were printed, through the
      hexadecimal form as well, and no other points print the same. */
  lemma SlicingUndoesPrinting(c: Curve, pts: ProofPoints)
    requires IsEncoding(c)
    ensures Unhex(Hex(ProofBytes(c, pts))) == Some(ProofBytes(c, pts))
    ensures forall other :: ProofOf(c, ProofBytes(c, pts), other) <==> other == pts
    ensures var bytes := ProofBytes(c, pts);
            && |bytes| == 384
            && bytes[..96] == c.g1Bytes(pts.a) && bytes[96..288] == c.g2Bytes(pts.b) && bytes[288..] == c.g1Bytes(pts.c)
  {
    var bytes := ProofBytes(c, pts);
    UnhexOfHex(bytes);
    assert |c.g1Bytes(pts.a)| == 96 && |c.g2Bytes(pts.b)| == 192 && |c.g1Bytes(pts.c)| == 96;
    assert bytes[0..96] == c.g1Bytes(pts.a);
    assert bytes[96..288] == c.g2Bytes(pts.b);
    assert bytes[288..384] == c.g1Bytes(pts.c);
  }

  /** The bytes of a key, point by point under its own name. */
  function KeyBytes(c: Curve, key: Key): VerifyingKey {
    VerifyingKey(c.g1Bytes(key.alpha), c.g2Bytes(key.beta), c.g2Bytes(key.gamma), c.g2Bytes(key.delta),
                 seq(|key.ic|, i requires 0 <= i < |key.ic| => c.g1Bytes(key.ic[i])))
  }

  /** A printed key is read back as itself and as no other. */
  lemma KeyRoundTrip(c: Curve, key: Key)
    requires IsEncoding(c)
    ensures forall other :: KeyOf(c, KeyBytes(c, key), other) <==> other == key
  {
    assert KeyOf(c, KeyBytes(c, key), key);
    SameKey(c, KeyBytes(c, key), key);
  }

  /** A printed proof submitted under a printed key is judged by the Groth16 equation,
      for any number of public inputs. */
  method VerifyPrinted(v: Verifier, id: nat, key: Key, pts: ProofPoints, publics: seq<Word>) returns (r: Outcome<bool, Error>)
    requires IsEncoding(v.curve) && id in v.keys && v.keys[id] == KeyBytes(v.curve, key)
    requires |key.ic| == |publics| + 1
    ensures r == Done(Groth16Holds(key, DecodeAll(publics), pts))
  {
    SlicingUndoesPrinting(v.curve, pts);
    KeyRoundTrip(v.curve, key);
    assert KeyOf(v.curve, v.keys[id], key);
    assert ProofOf(v.curve, ProofBytes(v.curve, pts), pts);
    r := v.Verify(id, ProofBytes(v.curve, pts), publics);
  }
}
