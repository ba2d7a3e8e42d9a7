/** Membership proofs: what a prover sends, what a verifier recomputes, and what an accepted proof means. */
module TrieProofs {
  import opened Hashes
  import opened Commitments
  import opened TrieModel

  datatype ProofType = Membership | NonMembership

  datatype GasFeeWitness = GasFeeWitness(totalGasFee: nat, minerShare: nat, fullnodeShare: nat)

  /** `siblings` holds one digest for every child slot of every level, the level nearest the root first. */
  datatype VerkleProof = VerkleProof(
    proofType: ProofType,
    path: Path,
    siblings: seq<Digest>,
    leafValue: Option<Bytes>,
    root: Digest,
    gasFees: Option<GasFeeWitness>
  )

  const MINER_REWARD_PERCENT: nat := 80

  const TWO_TO_THE_128: nat := 0x1_0000_0000_0000_0000_0000_0000_0000_0000

  /** The miner's share as 128-bit arithmetic computes it: the product wraps around. */
  function MinerShare(totalGasFee: nat): (r: nat)
    ensures r <= totalGasFee
    ensures totalGasFee * MINER_REWARD_PERCENT < TWO_TO_THE_128 ==> r == totalGasFee * MINER_REWARD_PERCENT / 100
  {
    totalGasFee * MINER_REWARD_PERCENT % TWO_TO_THE_128 / 100
  }

  predicate WitnessSplits(w: GasFeeWitness) {
    w.minerShare == MinerShare(w.totalGasFee) && w.fullnodeShare == w.totalGasFee - w.minerShare
  }

  /** Lengths fit, and a value is present exactly in a membership proof. */
  predicate WellShaped(proof: VerkleProof) {
    |proof.path| == KEY_SIZE && |proof.siblings| == KEY_SIZE * RADIX &&
    (proof.proofType.Membership? <==> proof.leafValue.Some?)
  }

  /** The digest for child slot `i` at level `depth`. */
  function Slot(siblings: seq<Digest>, depth: nat, i: nat): Digest
    requires i < RADIX && (depth + 1) * RADIX <= |siblings|
  {
    siblings[depth * RADIX + i]
  }

  function LeafPoint(s: Scheme, v: Option<Bytes>): Point {
    if v.Some? then s.commit([s.valueScalar(v.value)]) else s.commit([])
  }

  /** The coefficients the verifier assembles at a level: the child on the path from below, the rest from the proof. */
  function ClimbRow(s: Scheme, proof: VerkleProof, depth: nat, child: Scalar): (r: seq<Scalar>)
    requires WellShaped(proof) && depth < KEY_SIZE
    ensures |r| == RADIX
    ensures forall i {:trigger r[i]} | 0 <= i < RADIX ::
      r[i] == if i == proof.path[depth] then child else s.toScalar(Slot(proof.siblings, depth, i))
  {
    seq(RADIX, (i: nat) requires i < RADIX =>
      if i == proof.path[depth] then child else s.toScalar(Slot(proof.siblings, depth, i)))
  }

  /** The commitment the verifier arrives at for the node at `depth` on the path. */
  function Climb(s: Scheme, proof: VerkleProof, depth: nat): Point
    requires WellShaped(proof) && depth <= KEY_SIZE
    decreases KEY_SIZE - depth
  {
    if depth == KEY_SIZE then LeafPoint(s, proof.leafValue)
    else s.commit(ClimbRow(s, proof, depth, Lift(s, Climb(s, proof, depth + 1))))
  }

  /** The layout of a proof, spelled out: at level `depth` the 256 digests from position `256 * depth` on are those of
      the children, child 0 first, of which the one on the path is replaced by what the climb below it arrived at. */
  lemma ProofLayout(s: Scheme, proof: VerkleProof, depth: nat)
    requires |proof.path| == 32 && |proof.siblings| == 8192 && (proof.proofType.Membership? <==> proof.leafValue.Some?)
    requires depth <= 32
    ensures depth == 32 && proof.leafValue.Some? ==>
      Climb(s, proof, depth) == s.commit([s.valueScalar(proof.leafValue.value)])
    ensures depth == 32 && proof.leafValue.None? ==> Climb(s, proof, depth) == s.commit([])
    ensures depth < 32 ==> exists row: seq<Scalar> {:trigger s.commit(row)} ::
      |row| == 256 && Climb(s, proof, depth) == s.commit(row) &&
      forall i {:trigger row[i]} | 0 <= i < 256 ::
        row[i] == s.toScalar(if i == proof.path[depth] then s.digest(Climb(s, proof, depth + 1))
                             else proof.siblings[256 * depth + i])
  {
    if depth < 32 {
      var row := ClimbRow(s, proof, depth, Lift(s, Climb(s, proof, depth + 1)));
      assert Climb(s, proof, depth) == s.commit(row);
      forall i {:trigger row[i]} | 0 <= i < 256
        ensures row[i] == s.toScalar(if i == proof.path[depth] then s.digest(Climb(s, proof, depth + 1))
                                     else proof.siblings[256 * depth + i])
      {
      }
    }
  }

  predicate Accepts(s: Scheme, proof: VerkleProof) {
    WellShaped(proof) && s.digest(Climb(s, proof, 0)) == proof.root &&
    (proof.gasFees.Some? ==> WitnessSplits(proof.gasFees.value))
  }

  /** The proof a prover that knows the map sends for a key. */
  ghost predicate IsHonest(s: Scheme, m: map<Path, Bytes>, key: Path, proof: VerkleProof) {
    |key| == KEY_SIZE &&
    WellShaped(proof) && proof.path == key && proof.leafValue == Lookup(m, key) &&
    proof.root == s.digest(Canon(s, m, [])) && HonestSlots(s, m, key, proof.siblings, KEY_SIZE)
  }

  /** The first `levels` rows of slots hold the tree's own digests. */
  ghost predicate HonestSlots(s: Scheme, m: map<Path, Bytes>, key: Path, siblings: seq<Digest>, levels: nat)
    requires levels <= KEY_SIZE && |key| == KEY_SIZE
  {
    |siblings| == levels * RADIX &&
    forall d: nat, i: nat | d < levels && i < RADIX ::
      Slot(siblings, d, i) == s.digest(Canon(s, m, key[..d] + [i]))
  }

  lemma HonestMeans(s: Scheme, m: map<Path, Bytes>, key: Path, proof: VerkleProof)
    requires IsHonest(s, m, key, proof)
    ensures proof.path == key && proof.root == s.digest(Canon(s, m, [])) && proof.leafValue == Lookup(m, key)
    ensures proof.proofType == if key in m then Membership else NonMembership
    ensures |proof.siblings| == 8192 && forall d: nat, i: nat | d < 32 && i < 256 ::
      proof.siblings[256 * d + i] == s.digest(Canon(s, m, key[..d] + [i]))
  {
    forall d: nat, i: nat | d < 32 && i < 256
      ensures proof.siblings[256 * d + i] == s.digest(Canon(s, m, key[..d] + [i]))
    {
      assert Slot(proof.siblings, d, i) == proof.siblings[256 * d + i];
    }
  }

  lemma OneMoreRow(s: Scheme, m: map<Path, Bytes>, key: Path, siblings: seq<Digest>, row: seq<Digest>, levels: nat)
    requires levels < KEY_SIZE && |key| == KEY_SIZE && HonestSlots(s, m, key, siblings, levels) && |row| == RADIX
    requires forall i | 0 <= i < RADIX :: row[i] == s.digest(Canon(s, m, key[..levels] + [i]))
    ensures HonestSlots(s, m, key, siblings + row, levels + 1)
  {
    forall d: nat, i: nat | d < levels + 1 && i < RADIX
      ensures Slot(siblings + row, d, i) == s.digest(Canon(s, m, key[..d] + [i]))
    {
      SlotOfLonger(siblings, row, levels, d, i);
    }
  }

  lemma SlotOfLonger(siblings: seq<Digest>, row: seq<Digest>, levels: nat, d: nat, i: nat)
    requires |siblings| == levels * RADIX && |row| == RADIX && d <= levels && i < RADIX
    ensures Slot(siblings + row, d, i) == if d == levels then row[i] else Slot(siblings, d, i)
  {
  }

  lemma LeafIsCanon(s: Scheme, m: map<Path, Bytes>, key: Path)
    requires IgnoresTrailingZeros(s) && |key| == KEY_SIZE
    ensures LeafPoint(s, Lookup(m, key)) == Canon(s, m, key)
  {
    ZeroLeafIsEmpty(s);
  }

  /** The verifier climbing an honest proof passes through the tree's own commitments. */
  lemma {:induction false} HonestClimb(s: Scheme, m: map<Path, Bytes>, key: Path, proof: VerkleProof, depth: nat)
    requires IgnoresTrailingZeros(s) && ValidKey(key) && IsHonest(s, m, key, proof) && depth <= KEY_SIZE
    ensures Climb(s, proof, depth) == Canon(s, m, key[..depth])
    decreases KEY_SIZE - depth
  {
    if depth == KEY_SIZE {
      assert key[..depth] == key;
      LeafIsCanon(s, m, key);
    } else {
      HonestClimb(s, m, key, proof, depth + 1);
      assert key[..depth] + [key[depth]] == key[..depth + 1];
      var row := ClimbRow(s, proof, depth, Lift(s, Climb(s, proof, depth + 1)));
      assert row == CanonRow(s, m, key[..depth]);
    }
  }

  /** Completeness: an honest proof is accepted, for a present key as for an absent one. */
  lemma HonestAccepted(s: Scheme, m: map<Path, Bytes>, key: Path, proof: VerkleProof)
    requires IgnoresTrailingZeros(s) && ValidKey(key) && IsHonest(s, m, key, proof)
    ensures Accepts(s, proof) <==> (proof.gasFees.Some? ==> WitnessSplits(proof.gasFees.value))
  {
    HonestClimb(s, m, key, proof, 0);
    assert key[..0] == [];
  }

  /** On its way through level `depth` this proof and this map confuse the scheme: two given coefficient lists with one
      commitment, two given points that lift alike, or, at the leaf, two given values that commit alike. */
  ghost predicate Confuses(s: Scheme, m: map<Path, Bytes>, proof: VerkleProof, depth: nat)
    requires WellShaped(proof) && depth <= KEY_SIZE
  {
    if depth == KEY_SIZE then
      proof.leafValue != Lookup(m, proof.path) && LeafPoint(s, proof.leafValue) == LeafPoint(s, Lookup(m, proof.path))
    else
      var child, known := Climb(s, proof, depth + 1), Canon(s, m, proof.path[..depth + 1]);
      var row, knownRow := ClimbRow(s, proof, depth, Lift(s, child)), CanonRow(s, m, proof.path[..depth]);
      (row != knownRow && s.commit(row) == s.commit(knownRow)) || (child != known && Lift(s, child) == Lift(s, known))
  }

  ghost predicate ConfusesRoot(s: Scheme, m: map<Path, Bytes>, proof: VerkleProof)
    requires WellShaped(proof)
  {
    Climb(s, proof, 0) != Canon(s, m, []) && s.digest(Climb(s, proof, 0)) == s.digest(Canon(s, m, []))
  }

  /** If the climb agrees with the tree at a level, it agrees one level further down the path, or confuses there. */
  lemma ClimbBindsBelow(s: Scheme, m: map<Path, Bytes>, proof: VerkleProof, depth: nat)
    requires WellShaped(proof) && ValidKey(proof.path) && depth < KEY_SIZE
    requires Climb(s, proof, depth) == Canon(s, m, proof.path[..depth]) && !Confuses(s, m, proof, depth)
    ensures Climb(s, proof, depth + 1) == Canon(s, m, proof.path[..depth + 1])
  {
    var i, p := proof.path[depth], proof.path[..depth];
    assert p + [i] == proof.path[..depth + 1];
    assert CanonRow(s, m, p)[i] == Lift(s, Canon(s, m, p + [i]));
    assert ClimbRow(s, proof, depth, Lift(s, Climb(s, proof, depth + 1)))[i] == Lift(s, Climb(s, proof, depth + 1));
  }

  lemma {:induction false} ClimbBinds(s: Scheme, m: map<Path, Bytes>, proof: VerkleProof, depth: nat)
    requires WellShaped(proof) && ValidKey(proof.path) && depth <= KEY_SIZE
    requires Climb(s, proof, depth) == Canon(s, m, proof.path[..depth])
    requires forall d {:trigger Confuses(s, m, proof, d)} | 0 <= d <= KEY_SIZE :: !Confuses(s, m, proof, d)
    ensures Climb(s, proof, KEY_SIZE) == Canon(s, m, proof.path)
    decreases KEY_SIZE - depth
  {
    if depth == KEY_SIZE {
      assert proof.path[..depth] == proof.path;
    } else {
      assert !Confuses(s, m, proof, depth);
      ClimbBindsBelow(s, m, proof, depth);
      ClimbBinds(s, m, proof, depth + 1);
    }
  }

  /** Soundness without idealising the scheme: any accepted proof against the tree's root reports exactly the tree's
      value at the key, or its true absence, no matter what siblings it carries; or the proof and the map themselves
      exhibit a collision, at the root or at some level of the path. */
  lemma AcceptedIsTrueOrConfuses(s: Scheme, m: map<Path, Bytes>, proof: VerkleProof)
    requires IgnoresTrailingZeros(s) && ValidKey(proof.path)
    requires Accepts(s, proof) && proof.root == s.digest(Canon(s, m, []))
    ensures proof.leafValue == Lookup(m, proof.path) || ConfusesRoot(s, m, proof) ||
      exists d {:trigger Confuses(s, m, proof, d)} :: 0 <= d <= KEY_SIZE && Confuses(s, m, proof, d)
  {
    if ConfusesRoot(s, m, proof) {
      return;
    }
    if forall d {:trigger Confuses(s, m, proof, d)} | 0 <= d <= KEY_SIZE :: !Confuses(s, m, proof, d) {
      assert proof.path[..0] == [];
      ClimbBinds(s, m, proof, 0);
      LeafIsCanon(s, m, proof.path);
      assert !Confuses(s, m, proof, KEY_SIZE);
    }
  }

  lemma NeverConfused(s: Scheme, m: map<Path, Bytes>, proof: VerkleProof, depth: nat)
    requires IgnoresTrailingZeros(s) && CollisionFree(s) && WellShaped(proof) && depth <= KEY_SIZE
    ensures !Confuses(s, m, proof, depth)
  {
    if Confuses(s, m, proof, depth) {
      if depth == KEY_SIZE {
        LeafPointBinds(s, proof.leafValue, Lookup(m, proof.path));
      } else {
        var child, known := Climb(s, proof, depth + 1), Canon(s, m, proof.path[..depth + 1]);
        var row, knownRow := ClimbRow(s, proof, depth, Lift(s, child)), CanonRow(s, m, proof.path[..depth]);
        if row != knownRow && s.commit(row) == s.commit(knownRow) {
          CommitInjective(s, row, knownRow);
        } else {
          LiftInjective(s, child, known);
        }
      }
    }
  }

  /** In particular an accepted proof is true when the scheme has no collisions at all. */
  lemma AcceptedIsTrue(s: Scheme, m: map<Path, Bytes>, proof: VerkleProof)
    requires IgnoresTrailingZeros(s) && CollisionFree(s) && ValidKey(proof.path)
    requires Accepts(s, proof) && proof.root == s.digest(Canon(s, m, []))
    ensures proof.leafValue == Lookup(m, proof.path)
    ensures proof.proofType.Membership? <==> proof.path in m
  {
    AcceptedIsTrueOrConfuses(s, m, proof);
    forall d: nat | d <= KEY_SIZE
      ensures !Confuses(s, m, proof, d)
    {
      NeverConfused(s, m, proof, d);
    }
    DigestInjective(s, Climb(s, proof, 0), Canon(s, m, []));
  }

  lemma LeafPointBinds(s: Scheme, v: Option<Bytes>, v': Option<Bytes>)
    requires IgnoresTrailingZeros(s) && CollisionFree(s) && LeafPoint(s, v) == LeafPoint(s, v')
    ensures v == v'
  {
    ZeroLeafIsEmpty(s);
    LeafBinds(s, v, v');
  }

  /** Soundness against a store: whatever the store holds, orphaned nodes included, an accepted proof
      with its root tells the truth about the map the store stands for. */
  lemma AcceptedAgainstStore(s: Scheme, st: Storage, proof: VerkleProof)
    requires IgnoresTrailingZeros(s) && CollisionFree(s) && [] in st && ValidKey(proof.path)
    requires Accepts(s, proof) && proof.root == Root(s, st)
    ensures proof.leafValue == Lookup(Represented(st), proof.path)
  {
    RootIsRepresented(s, st);
    AcceptedIsTrue(s, Represented(st), proof);
  }
}
