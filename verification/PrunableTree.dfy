/** The dirty-flag tree: commitments are cached per node, and pruning a leaf keeps the commitments above it. */
module PrunableTree {
  import opened Hashes
  import opened Commitments
  import opened TrieModel
  import opened KeptCommitments

  datatype CachedNode = CachedNode(commitment: Option<Point>, dirty: bool)

  class PrunableTree {
    const scheme: Scheme
    var storage: Storage
    var cache: map<Path, CachedNode>
    var emptyScalars: seq<Scalar>
    var rootCache: Option<Digest>
    var prunedKeys: set<Path>
    var prunedCommitments: map<Path, Point>

    ghost function Current(): View
      reads this`storage, this`prunedKeys, this`prunedCommitments
    {
      View(storage, prunedKeys, prunedCommitments)
    }

    /** Every clean cache entry is the commitment its node has. */
    ghost predicate CacheExact()
      reads this
    {
      forall p {:trigger cache[p]} | p in cache && !cache[p].dirty && cache[p].commitment.Some? ::
        |p| <= KEY_SIZE && cache[p].commitment.value == Effective(scheme, Current(), p)
    }

    ghost predicate ConstantsExact()
      reads this
    {
      |emptyScalars| == KEY_SIZE + 1 &&
      forall d {:trigger emptyScalars[d]} | 0 <= d <= KEY_SIZE :: emptyScalars[d] == Lift(scheme, EmptyPoint(scheme, d))
    }

    ghost predicate Valid()
      reads this
    {
      ConstantsExact() && CacheExact() && [] in storage &&
      (rootCache.Some? ==> rootCache.value == EffectiveRoot(scheme, Current()))
    }

    constructor (scheme: Scheme, storage: Storage)
      ensures Valid() && this.scheme == scheme && prunedKeys == {} && prunedCommitments == map[]
      ensures this.storage == if [] in storage then storage else storage[[] := None]
    {
      var scalars := EmptyConstants(scheme);
      this.scheme := scheme;
      this.storage := if [] in storage then storage else storage[[] := None];
      this.cache := map[];
      this.emptyScalars := scalars;
      this.rootCache := None;
      this.prunedKeys := {};
      this.prunedCommitments := map[];
    }

    static method EmptyConstants(s: Scheme) returns (scalars: seq<Scalar>)
      ensures |scalars| == KEY_SIZE + 1
      ensures forall d {:trigger scalars[d]} | 0 <= d <= KEY_SIZE :: scalars[d] == Lift(s, EmptyPoint(s, d))
    {
      scalars := [Lift(s, s.commit([]))];
      var depth := KEY_SIZE;
      while depth > 0
        invariant 0 <= depth <= KEY_SIZE && |scalars| == KEY_SIZE + 1 - depth
        invariant forall d {:trigger scalars[d]} | 0 <= d <= KEY_SIZE - depth ::
          scalars[d] == Lift(s, EmptyPoint(s, depth + d))
      {
        depth := depth - 1;
        var point := s.commit(Repeated(scalars[0]));
        assert point == EmptyPoint(s, depth);
        scalars := [Lift(s, point)] + scalars;
      }
    }

    // ----- commitments

    method GetNodeCommitment(path: Path) returns (c: Point)
      requires ConstantsExact() && CacheExact() && |path| <= KEY_SIZE
      modifies this`cache
      ensures CacheExact() && c == Effective(scheme, Current(), path)
      decreases KEY_SIZE - |path|, 1
    {
      if path in cache && !cache[path].dirty && cache[path].commitment.Some? {
        return cache[path].commitment.value;
      }
      if path in prunedCommitments {
        return prunedCommitments[path];
      }
      c := ComputeNodeCommitment(path);
      cache := cache[path := CachedNode(Some(c), false)];
    }

    method ComputeNodeCommitment(path: Path) returns (c: Point)
      requires ConstantsExact() && CacheExact() && |path| <= KEY_SIZE
      modifies this`cache
      ensures CacheExact() && c == Effective(scheme, Current(), path)
      decreases KEY_SIZE - |path|, 0
    {
      if path in cache && !cache[path].dirty && cache[path].commitment.Some? {
        return cache[path].commitment.value;
      }
      if path in prunedCommitments {
        return prunedCommitments[path];
      }
      if |path| == KEY_SIZE {
        return scheme.commit([LeafScalar(scheme, GetNodeValue(path))]);
      }
      var coeffs := CollectChildren(path);
      c := scheme.commit(coeffs);
    }

    method CollectChildren(path: Path) returns (coeffs: seq<Scalar>)
      requires ConstantsExact() && CacheExact() && |path| < KEY_SIZE
      modifies this`cache
      ensures CacheExact() && coeffs == EffectiveRow(scheme, Current(), path)
      decreases KEY_SIZE - |path| - 1, 2
    {
      coeffs := [];
      for i := 0 to RADIX
        invariant CacheExact() && |coeffs| == i
        invariant forall j | 0 <= j < i :: coeffs[j] == EffectiveChild(scheme, Current(), path, j)
      {
        var child := path + [i];
        var scalar := emptyScalars[|path| + 1];
        if child in storage {
          var point := GetNodeCommitment(child);
          scalar := Lift(scheme, point);
        }
        coeffs := coeffs + [scalar];
      }
    }

    function GetNodeValue(path: Path): Option<Bytes>
      reads this
    {
      if |path| == KEY_SIZE && path in prunedKeys then None else ValueAt(storage, path)
    }

    /** The root, whatever was inserted, pruned or cached before; asking for it changes no reading and no root. */
    method GetRoot() returns (root: Digest)
      requires Valid()
      modifies this`cache, this`rootCache
      ensures Valid() && root == EffectiveRoot(scheme, Current())
    {
      if rootCache.Some? {
        return rootCache.value;
      }
      var point := GetNodeCommitment([]);
      root := scheme.digest(point);
      rootCache := Some(root);
    }

    method Get(key: Path) returns (r: Reading)
      requires ValidKey(key)
      ensures r == ReadingAt(storage, prunedKeys, key)
    {
      if key in prunedKeys {
        return Reading.Pruned;
      }
      return Value(GetNodeValue(key));
    }

    method InvalidatePathCache(path: Path)
      modifies this`cache, this`rootCache
      ensures rootCache == None && cache.Keys == old(cache).Keys
      ensures forall q | q in cache :: cache[q].commitment == old(cache)[q].commitment
      ensures forall q | q in cache :: cache[q].dirty == (old(cache)[q].dirty || q <= path)
    {
      for i := 0 to |path| + 1
        invariant cache.Keys == old(cache).Keys
        invariant forall q | q in cache :: cache[q].commitment == old(cache)[q].commitment
        invariant forall q | q in cache :: cache[q].dirty == (old(cache)[q].dirty || (q <= path && |q| < i))
      {
        assert forall q: Path | q <= path && |q| == i :: q == path[..i];
        if path[..i] in cache {
          cache := cache[path[..i] := cache[path[..i]].(dirty := true)];
        }
      }
      rootCache := None;
    }

    // ----- pruning

    /** Records the commitments along the key's path, from the root down to the leaf. */
    method KeepPath(key: Path)
      requires ConstantsExact() && CacheExact() && ValidKey(key)
      modifies this`cache, this`prunedCommitments
      ensures CacheExact() && prunedCommitments == KeptAlong(scheme, old(Current()), key, |key| + 1)
    {
      ghost var before := Current();
      NothingKeptYet(scheme, before, key);
      for depth := 0 to |key| + 1
        invariant CacheExact() && prunedCommitments == KeptAlong(scheme, before, key, depth)
      {
        var commitment := GetNodeCommitment(key[..depth]);
        KeepingIsNeutral(scheme, before, key, depth, key[..depth]);
        assert Current() == before.(kept := KeptAlong(scheme, before, key, depth));
        KeepOneMore(scheme, before, key, depth);
        prunedCommitments := prunedCommitments[key[..depth] := commitment];
        CacheOutlivesKeeping(scheme, before, key, depth, cache);
        assert Current() == before.(kept := KeptAlong(scheme, before, key, depth + 1));
      }
    }

    /** Deletes a stored leaf and marks it; the root does not move. The source then looks the raw empty key up among
        the kept commitments, but all of those are filed under keys that start with a length byte. */
    method PruneKey(key: Path) returns (ok: bool)
      requires Valid() && ValidKey(key)
      modifies this`storage, this`cache, this`rootCache, this`prunedKeys, this`prunedCommitments
      ensures ok <==> key in old(storage)
      ensures Valid() && Current() == if ok then PrunedView(scheme, old(Current()), key) else old(Current())
      ensures EffectiveRoot(scheme, Current()) == old(EffectiveRoot(scheme, Current()))
    {
      if key !in storage {
        return false;
      }
      ghost var before := Current();
      KeepPath(key);
      storage := storage - {key};
      prunedKeys := prunedKeys + {key};
      assert Current() == PrunedView(scheme, before, key);
      CacheOutlivesPruning(scheme, before, key, cache);
      InvalidatePathCache(key);
      PruningIsNeutral(scheme, before, key, []);
      return true;
    }

    // ----- inserting

    method ClearPrunedState(key: Path)
      modifies this`prunedKeys, this`prunedCommitments, this`rootCache
      ensures prunedKeys == old(prunedKeys) - {key} && prunedCommitments == old(prunedCommitments) - Prefixes(key)
    {
      prunedKeys := prunedKeys - {key};
      for i := 0 to |key| + 1
        invariant prunedKeys == old(prunedKeys) - {key}
        invariant prunedCommitments == map q | q in old(prunedCommitments) && !(q <= key && |q| < i) ::
          old(prunedCommitments)[q]
      {
        assert forall q: Path | q <= key && |q| == i :: q == key[..i];
        prunedCommitments := prunedCommitments - {key[..i]};
      }
      rootCache := None;
    }

    method EnsureNode(p: Path)
      modifies this`storage
      ensures storage == if p in old(storage) then old(storage) else old(storage)[p := None]
    {
      if p !in storage {
        storage := storage[p := None];
      }
    }

    method EnsurePath(key: Path)
      modifies this`storage
      ensures storage == PathEnsured(old(storage), key, |key|)
    {
      EnsureNode([]);
      EnsureRoot(old(storage), key);
      for i := 0 to |key|
        invariant storage == PathEnsured(old(storage), key, i)
      {
        EnsureNext(old(storage), key, i);
        EnsureNode(key[..i + 1]);
      }
    }

    /** Sets a key and takes back its mark, so that it is read back, pruned before or not. */
    method Insert(key: Path, value: Bytes)
      requires Valid() && ValidKey(key)
      modifies this`storage, this`cache, this`rootCache, this`prunedKeys, this`prunedCommitments
      ensures Valid() && Current() == Written(old(Current()), key, value)
      ensures ReadingAt(storage, prunedKeys, key) == Value(Some(value))
    {
      ghost var before := Current();
      ClearPrunedState(key);
      EnsurePath(key);
      EnsureThenWrite(before.storage, key, value);
      assert [] in Prefixes(key);
      storage := storage[key := Some(value)];
      assert Current() == Written(before, key, value);
      InvalidatePathCache(key);
      CacheOutlivesWrite(scheme, before, key, value, cache);
    }
  }

  lemma NothingKeptYet(s: Scheme, v: View, key: Path)
    requires |key| <= KEY_SIZE
    ensures KeptAlong(s, v, key, 0) == v.kept
  {
  }

  lemma KeepOneMore(s: Scheme, v: View, key: Path, n: nat)
    requires n <= |key| <= KEY_SIZE
    ensures KeptAlong(s, v, key, n + 1) == KeptAlong(s, v, key, n)[key[..n] := Effective(s, v, key[..n])]
  {
    assert key[..n] in Prefixes(key);
    forall q | q in PathTo(key, n + 1)
      ensures q in PathTo(key, n) || q == key[..n]
    {
      assert q == key[..|q|];
    }
  }

  /** Clean entries of a cache are commitments of `v`. */
  ghost predicate Exact(s: Scheme, v: View, cache: map<Path, CachedNode>) {
    forall p {:trigger cache[p]} | p in cache && !cache[p].dirty && cache[p].commitment.Some? ::
      |p| <= KEY_SIZE && cache[p].commitment.value == Effective(s, v, p)
  }

  lemma CacheOutlivesKeeping(s: Scheme, v: View, key: Path, n: nat, cache: map<Path, CachedNode>)
    requires n <= |key| <= KEY_SIZE && Exact(s, v.(kept := KeptAlong(s, v, key, n)), cache)
    ensures Exact(s, v.(kept := KeptAlong(s, v, key, n + 1)), cache)
  {
    forall p | p in cache && !cache[p].dirty && cache[p].commitment.Some?
      ensures cache[p].commitment.value == Effective(s, v.(kept := KeptAlong(s, v, key, n + 1)), p)
    {
      KeepingIsNeutral(s, v, key, n, p);
      KeepingIsNeutral(s, v, key, n + 1, p);
    }
  }

  lemma CacheOutlivesPruning(s: Scheme, v: View, key: Path, cache: map<Path, CachedNode>)
    requires |key| <= KEY_SIZE && Exact(s, v.(kept := KeptAlong(s, v, key, |key| + 1)), cache)
    ensures Exact(s, PrunedView(s, v, key), cache)
  {
    forall p | p in cache && !cache[p].dirty && cache[p].commitment.Some?
      ensures cache[p].commitment.value == Effective(s, PrunedView(s, v, key), p)
    {
      KeepingIsNeutral(s, v, key, |key| + 1, p);
      PruningIsNeutral(s, v, key, p);
    }
  }

  lemma CacheOutlivesWrite(s: Scheme, v: View, key: Path, value: Bytes, cache: map<Path, CachedNode>)
    requires forall p | p in cache && p <= key :: cache[p].dirty
    requires Exact(s, v, cache)
    ensures Exact(s, Written(v, key, value), cache)
  {
    forall p | p in cache && !cache[p].dirty && cache[p].commitment.Some?
      ensures cache[p].commitment.value == Effective(s, Written(v, key, value), p)
    {
      WriteFrame(s, v, key, value, p);
    }
  }
}
