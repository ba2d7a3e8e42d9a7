/** The state trie: node store, commitment cache, and the marks that pruning leaves. */
module VerkleTrie {
  import opened Hashes
  import opened Commitments
  import opened TrieModel
  import opened TriePruning
  import opened TrieProofs

  datatype PruneError = KeyAbsent

  class VerkleTrie {
    const scheme: Scheme
    var storage: Storage
    var cache: map<Path, Point>
    var emptyRoots: seq<Digest>
    var emptyScalars: seq<Scalar>
    var rootCache: Option<Digest>
    var dirty: bool
    var prunedKeys: set<Path>

    /** Nodes and marks: what the calls below are about. */
    ghost function State(): TrieState
      reads this`storage, this`prunedKeys
    {
      TrieState(storage, prunedKeys)
    }

    /** Every cached commitment is the one computed from scratch. */
    ghost predicate CacheExact()
      reads this
    {
      forall p {:trigger cache[p]} | p in cache :: |p| <= KEY_SIZE && cache[p] == NodePoint(scheme, storage, p)
    }

    ghost predicate ConstantsExact()
      reads this
    {
      |emptyRoots| == KEY_SIZE + 1 && |emptyScalars| == KEY_SIZE + 1 &&
      forall d {:trigger emptyRoots[d]} {:trigger emptyScalars[d]} | 0 <= d <= KEY_SIZE ::
        emptyRoots[d] == scheme.digest(EmptyPoint(scheme, d)) && emptyScalars[d] == Lift(scheme, EmptyPoint(scheme, d))
    }

    /** Holds after every interleaving of inserts, prunes and root requests, whatever was marked before. */
    ghost predicate Valid()
      reads this
    {
      ConstantsExact() && CacheExact() && [] in storage &&
      (!dirty && rootCache.Some? ==> rootCache.value == Root(scheme, storage))
    }

    constructor (scheme: Scheme, storage: Storage)
      ensures Valid() && this.scheme == scheme
      ensures this.storage == if [] in storage then storage else storage[[] := None]
      ensures prunedKeys == {} && cache == map[]
    {
      var roots, scalars := EmptyConstants(scheme);
      this.scheme := scheme;
      this.storage := if [] in storage then storage else storage[[] := None];
      this.cache := map[];
      this.emptyRoots := roots;
      this.emptyScalars := scalars;
      this.rootCache := None;
      this.dirty := true;
      this.prunedKeys := {};
    }

    /** A copy with the same nodes and marks; the cache is not copied. */
    method Clone() returns (copy: VerkleTrie)
      requires [] in storage
      ensures fresh(copy) && copy.Valid() && copy.scheme == scheme
      ensures copy.storage == storage && copy.prunedKeys == prunedKeys
    {
      copy := new VerkleTrie(scheme, storage);
      copy.prunedKeys := prunedKeys;
    }

    static method EmptyConstants(s: Scheme) returns (roots: seq<Digest>, scalars: seq<Scalar>)
      ensures |roots| == KEY_SIZE + 1 && |scalars| == KEY_SIZE + 1
      ensures forall d {:trigger roots[d]} {:trigger scalars[d]} | 0 <= d <= KEY_SIZE ::
        roots[d] == s.digest(EmptyPoint(s, d)) && scalars[d] == Lift(s, EmptyPoint(s, d))
    {
      var point := s.commit([]);
      roots, scalars := [s.digest(point)], [Lift(s, point)];
      var depth := KEY_SIZE;
      while depth > 0
        invariant 0 <= depth <= KEY_SIZE && |roots| == KEY_SIZE + 1 - depth == |scalars|
        invariant forall d {:trigger roots[d]} {:trigger scalars[d]} | 0 <= d <= KEY_SIZE - depth ::
          roots[d] == s.digest(EmptyPoint(s, depth + d)) && scalars[d] == Lift(s, EmptyPoint(s, depth + d))
      {
        depth := depth - 1;
        point := s.commit(Repeated(scalars[0]));
        assert point == EmptyPoint(s, depth);
        roots, scalars := [s.digest(point)] + roots, [Lift(s, point)] + scalars;
      }
    }

    method EnsureNode(p: Path)
      modifies this`storage
      ensures storage == if p in old(storage) then old(storage) else old(storage)[p := None]
    {
      if p !in storage {
        storage := storage[p := None];
      }
    }

    method InvalidatePathCache(p: Path)
      modifies this`cache, this`rootCache
      ensures cache == map q | q in old(cache) && !(q <= p) :: old(cache)[q]
      ensures rootCache == None
    {
      for i := 0 to |p| + 1
        invariant cache == map q | q in old(cache) && !(q <= p && |q| < i) :: old(cache)[q]
      {
        cache := cache - {p[..i]};
        assert forall q: Path | q <= p && |q| == i :: q == p[..i];
      }
      rootCache := None;
    }

    method EnsurePath(key: Path)
      modifies this`storage
      ensures storage == PathEnsured(old(storage), key, |key|)
    {
      EnsureNode([]);
      EnsureRoot(old(storage), key);
      for i := 0 to |key|
        invariant storage == PathEnsured(old(storage), key, i)
      {
        EnsureNext(old(storage), key, i);
        EnsureNode(key[..i + 1]);
      }
    }

    /** Sets a key. Marks are left alone: a mark on the key's path stays there. */
    method Insert(key: Path, value: Bytes)
      requires Valid() && ValidKey(key)
      modifies this`storage, this`cache, this`rootCache, this`dirty
      ensures Valid() && storage == Inserted(old(storage), key, value)
      ensures State() == AfterOp(old(State()), Set(key, value))
    {
      dirty := true;
      EnsurePath(key);
      EnsureThenWrite(old(storage), key, value);
      storage := storage[key := Some(value)];
      InvalidatePathCache(key);
      CacheSurvives(scheme, old(storage), storage, key, cache);
    }

    method Get(key: Path) returns (r: Reading)
      ensures r == ReadingAt(storage, prunedKeys, key)
    {
      if key in prunedKeys {
        return Pruned;
      }
      return Value(ValueAt(storage, key));
    }

    method ComputeNodeCommitment(path: Path) returns (c: Point)
      requires ConstantsExact() && CacheExact() && |path| <= KEY_SIZE
      modifies this`cache
      ensures CacheExact() && c == NodePoint(scheme, storage, path)
      decreases KEY_SIZE - |path|
    {
      if path in cache {
        return cache[path];
      }
      if |path| == KEY_SIZE {
        c := scheme.commit([LeafScalar(scheme, ValueAt(storage, path))]);
      } else {
        var emptyScalar := emptyScalars[|path| + 1];
        var coeffs: seq<Scalar> := [];
        for i := 0 to RADIX
          invariant CacheExact() && |coeffs| == i
          invariant forall j | 0 <= j < i :: coeffs[j] == ChildScalar(scheme, storage, path, j)
        {
          var child := path + [i];
          if child in storage {
            var point := ComputeNodeCommitment(child);
            coeffs := coeffs + [Lift(scheme, point)];
          } else {
            coeffs := coeffs + [emptyScalar];
          }
        }
        assert coeffs == NodeRow(scheme, storage, path);
        c := scheme.commit(coeffs);
      }
      cache := cache[path := c];
    }

    method GetRoot() returns (root: Digest)
      requires Valid()
      modifies this`cache, this`rootCache, this`dirty
      ensures Valid() && root == Root(scheme, storage)
    {
      if !dirty && rootCache.Some? {
        return rootCache.value;
      }
      var point := ComputeNodeCommitment([]);
      root := scheme.digest(point);
      rootCache := Some(root);
      dirty := false;
    }

    /** The digests of all child slots of one node on the path, or of the empty node below the path's end. */
    method SlotDigests(path: Path, pathExists: bool, depth: nat) returns (row: seq<Digest>)
      requires IgnoresTrailingZeros(scheme) && ConstantsExact() && CacheExact() && [] in storage
      requires |path| == depth < KEY_SIZE && (pathExists <==> path in Visible(storage))
      modifies this`cache
      ensures CacheExact() && |row| == RADIX
      ensures forall i | 0 <= i < RADIX :: row[i] == scheme.digest(Canon(scheme, Represented(storage), path + [i]))
    {
      var emptyChildRoot := emptyRoots[depth + 1];
      row := [];
      for i := 0 to RADIX
        invariant CacheExact() && |row| == i
        invariant forall j | 0 <= j < i :: row[j] == scheme.digest(Canon(scheme, Represented(storage), path + [j]))
      {
        SlotIsCanonical(scheme, storage, path, i);
        if pathExists && path in storage && path + [i] in storage {
          var point := ComputeNodeCommitment(path + [i]);
          row := row + [scheme.digest(point)];
        } else {
          row := row + [emptyChildRoot];
        }
      }
    }

    /** Walks the key's path as far as it is stored, listing the slot digests of every level. */
    method CollectSlots(key: Path) returns (siblings: seq<Digest>, pathExists: bool)
      requires IgnoresTrailingZeros(scheme) && ConstantsExact() && CacheExact() && [] in storage && ValidKey(key)
      modifies this`cache
      ensures CacheExact() && HonestSlots(scheme, Represented(storage), key, siblings, KEY_SIZE)
      ensures pathExists <==> key in Visible(storage)
    {
      siblings := [];
      pathExists := true;
      for depth := 0 to KEY_SIZE
        invariant CacheExact() && HonestSlots(scheme, Represented(storage), key, siblings, depth)
        invariant pathExists <==> key[..depth] in Visible(storage)
      {
        var row := SlotDigests(key[..depth], pathExists, depth);
        OneMoreRow(scheme, Represented(storage), key, siblings, row, depth);
        siblings := siblings + row;
        VisibleStep(storage, key, depth);
        pathExists := pathExists && key[..depth + 1] in storage;
      }
      assert key[..KEY_SIZE] == key;
    }

    method GenerateProof(key: Path, gasWitness: Option<GasFeeWitness>) returns (proof: VerkleProof)
      requires IgnoresTrailingZeros(scheme) && Valid() && ValidKey(key)
      modifies this`cache, this`rootCache, this`dirty
      ensures Valid()
      ensures IsHonest(scheme, Represented(storage), key, proof) && proof.gasFees == gasWitness
      ensures proof.path == key && proof.root == Root(scheme, storage)
      ensures proof.leafValue == Lookup(Represented(storage), key)
      ensures proof.proofType == if key in Represented(storage) then Membership else NonMembership
      ensures |proof.siblings| == 8192 && forall d: nat, i: nat | d < 32 && i < 256 ::
        proof.siblings[256 * d + i] == scheme.digest(Canon(scheme, Represented(storage), key[..d] + [i]))
    {
      var siblings, pathExists := CollectSlots(key);
      var leafValue := if pathExists then ValueAt(storage, key) else None;
      assert leafValue == Lookup(Represented(storage), key);
      var root := GetRoot();
      RootIsRepresented(scheme, storage);
      proof := VerkleProof(
        if leafValue.Some? then Membership else NonMembership, key, siblings, leafValue, root, gasWitness);
      HonestMeans(scheme, Represented(storage), key, proof);
    }

    method VerifyProof(proof: VerkleProof) returns (ok: bool)
      requires ConstantsExact()
      ensures ok <==> Accepts(scheme, proof)
      ensures ok ==> |proof.path| == 32 && |proof.siblings| == 8192
      ensures ok ==> (proof.proofType == Membership <==> proof.leafValue != None)
      ensures ok ==> proof.root == scheme.digest(Climb(scheme, proof, 0))
      ensures ok && proof.gasFees.Some? ==>
        var w := proof.gasFees.value;
        w.minerShare + w.fullnodeShare == w.totalGasFee &&
        (w.totalGasFee * 80 < 0x1_0000_0000_0000_0000_0000_0000_0000_0000 ==>
           5 * w.minerShare <= 4 * w.totalGasFee < 5 * w.minerShare + 5)
    {
      if |proof.path| != KEY_SIZE || |proof.siblings| != KEY_SIZE * RADIX {
        return false;
      }
      if proof.proofType.Membership? != proof.leafValue.Some? {
        return false;
      }
      var current := if proof.leafValue.Some?
                     then Lift(scheme, scheme.commit([scheme.valueScalar(proof.leafValue.value)]))
                     else scheme.toScalar(emptyRoots[KEY_SIZE]);
      var computedRoot := emptyRoots[0];
      var depth := KEY_SIZE;
      while depth > 0
        invariant 0 <= depth <= KEY_SIZE && current == Lift(scheme, Climb(scheme, proof, depth))
        invariant depth < KEY_SIZE ==> computedRoot == scheme.digest(Climb(scheme, proof, depth))
      {
        depth := depth - 1;
        var coeffs := ClimbRow(scheme, proof, depth, current);
        computedRoot := scheme.digest(scheme.commit(coeffs));
        current := scheme.toScalar(computedRoot);
      }
      return computedRoot == proof.root && (proof.gasFees.Some? ==> WitnessSplits(proof.gasFees.value));
    }

    /** From the pruned leaf upwards, deletes and marks ancestors that have no live child; never the root. */
    method CleanupEmptyNodes(path: Path) returns (ghost cut: nat)
      requires path != [] && path !in storage && path in prunedKeys
      requires forall p | p in cache :: !(p <= path)
      modifies this`storage, this`cache, this`rootCache, this`prunedKeys
      ensures cache == old(cache) && (rootCache == None || rootCache == old(rootCache))
      ensures PrunedTo(old(storage), old(prunedKeys), path, storage, prunedKeys, cut)
    {
      var depth := |path|;
      PathFromLeaf(path);
      while depth > 1
        invariant 1 <= depth <= |path|
        invariant cache == old(cache) && (rootCache == None || rootCache == old(rootCache))
        invariant storage == old(storage) - PathFrom(path, depth)
        invariant prunedKeys == old(prunedKeys) + PathFrom(path, depth)
        invariant forall j {:trigger Barren(old(storage), old(prunedKeys), path, j)} | depth <= j < |path| ::
          Barren(old(storage), old(prunedKeys), path, j)
      {
        var parent := path[..depth - 1];
        var hasChildren := exists i :: 0 <= i < RADIX && parent + [i] in storage && parent + [i] !in prunedKeys;
        assert hasChildren == HasLiveChild(storage, prunedKeys, parent);
        if hasChildren {
          break;
        }
        PathFromUp(path, depth - 1);
        RemoveMarked(parent);
        depth := depth - 1;
      }
      cut := depth;
    }

    method RemoveMarked(p: Path)
      requires forall q | q in cache :: !(q <= p)
      modifies this`storage, this`cache, this`rootCache, this`prunedKeys
      ensures storage == old(storage) - {p} && prunedKeys == old(prunedKeys) + {p}
      ensures cache == old(cache) && rootCache == None
    {
      storage := storage - {p};
      prunedKeys := prunedKeys + {p};
      InvalidatePathCache(p);
    }

    /** Removes the key's leaf and marks it, then clears away ancestors left without live children. */
    method PruneKey(key: Path) returns (error: Option<PruneError>, ghost cut: nat)
      requires Valid() && ValidKey(key)
      modifies this`storage, this`cache, this`rootCache, this`dirty, this`prunedKeys
      ensures Valid()
      ensures error.Some? <==> key !in old(storage)
      ensures error.Some? ==> storage == old(storage) && prunedKeys == old(prunedKeys)
      ensures error.None? ==> PrunedTo(old(storage), old(prunedKeys), key, storage, prunedKeys, cut)
      ensures State() == AfterOp(old(State()), Forget(key))
    {
      dirty := true;
      cut := 0;
      if key !in storage {
        return Some(KeyAbsent), cut;
      }
      storage := storage - {key};
      prunedKeys := prunedKeys + {key};
      InvalidatePathCache(key);
      label leafGone:
      cut := CleanupEmptyNodes(key);
      LeafFirst(old(storage), old(prunedKeys), key, storage, prunedKeys, cut);
      PrunedIsForgotten(old(State()), key, storage, prunedKeys, cut);
      CacheSurvives(scheme, old(storage), storage, key, cache);
      error := None;
    }
  }

  lemma VisibleStep(st: Storage, key: Path, depth: nat)
    requires ValidKey(key) && depth < KEY_SIZE
    ensures key[..depth + 1] in Visible(st) <==> key[..depth] in Visible(st) && key[..depth + 1] in st
  {
    var p := key[..depth];
    assert key[..depth + 1] == p + [key[depth]];
    if p in Visible(st) {
      VisibleChild(st, p, key[depth]);
    } else {
      assert p <= key[..depth + 1];
      assert ValidPath(p);
    }
  }
}
