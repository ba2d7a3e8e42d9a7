/** Commitments kept for pruned paths, and what they do to the commitments of a tree. */
module KeptCommitments {
  import opened Hashes
  import opened Commitments
  import opened TrieModel

  /** The store, the keys marked pruned, and the commitments kept when they were pruned. */
  datatype View = View(storage: Storage, marks: set<Path>, kept: map<Path, Point>)

  /** A node's commitment: the kept one, or else the one its leaf value or its stored children give. */
  ghost function Effective(s: Scheme, v: View, p: Path): Point
    requires |p| <= KEY_SIZE
    decreases KEY_SIZE - |p|, 2
  {
    if p in v.kept then v.kept[p]
    else if |p| == KEY_SIZE then s.commit([LeafScalar(s, LeafValue(v, p))])
    else s.commit(EffectiveRow(s, v, p))
  }

  function LeafValue(v: View, p: Path): Option<Bytes> {
    if p in v.marks then None else ValueAt(v.storage, p)
  }

  ghost function EffectiveRow(s: Scheme, v: View, p: Path): (r: seq<Scalar>)
    requires |p| < KEY_SIZE
    ensures |r| == RADIX
    ensures forall i {:trigger r[i]} | 0 <= i < RADIX :: r[i] == EffectiveChild(s, v, p, i)
    decreases KEY_SIZE - |p|, 1
  {
    seq(RADIX, (i: nat) => EffectiveChild(s, v, p, i))
  }

  ghost function EffectiveChild(s: Scheme, v: View, p: Path, i: int): Scalar
    requires |p| < KEY_SIZE
    decreases KEY_SIZE - |p|, 0
  {
    if p + [i] in v.storage then Lift(s, Effective(s, v, p + [i])) else Lift(s, EmptyPoint(s, |p| + 1))
  }

  ghost function EffectiveRoot(s: Scheme, v: View): Digest {
    s.digest(Effective(s, v, []))
  }

  /** The same presence, reading and kept commitment at one address. */
  ghost predicate SameAt(v: View, w: View, q: Path) {
    (q in v.storage <==> q in w.storage) && LeafValue(v, q) == LeafValue(w, q) &&
    (q in v.kept <==> q in w.kept) && (q in v.kept ==> v.kept[q] == w.kept[q])
  }

  /** A commitment depends only on what lies at and under its node. */
  lemma {:induction false} EffectiveFrame(s: Scheme, v: View, w: View, p: Path)
    requires |p| <= KEY_SIZE && forall q {:trigger SameAt(v, w, q)} | p <= q :: SameAt(v, w, q)
    ensures Effective(s, v, p) == Effective(s, w, p)
    decreases KEY_SIZE - |p|
  {
    assert SameAt(v, w, p);
    if |p| < KEY_SIZE {
      var a, b := EffectiveRow(s, v, p), EffectiveRow(s, w, p);
      forall i | 0 <= i < RADIX
        ensures a[i] == b[i]
      {
        assert p <= p + [i] && SameAt(v, w, p + [i]);
        EffectiveFrame(s, v, w, p + [i]);
      }
      assert a == b;
    }
  }

  /** Without marks and kept commitments this is the plain trie's commitment: the two trees agree on every root. */
  lemma {:induction false} UnprunedIsPlain(s: Scheme, st: Storage, p: Path)
    requires |p| <= KEY_SIZE
    ensures Effective(s, View(st, {}, map[]), p) == NodePoint(s, st, p)
    decreases KEY_SIZE - |p|
  {
    if |p| < KEY_SIZE {
      var a, b := EffectiveRow(s, View(st, {}, map[]), p), NodeRow(s, st, p);
      forall i | 0 <= i < RADIX
        ensures a[i] == b[i]
      {
        UnprunedIsPlain(s, st, p + [i]);
      }
      assert a == b;
    }
  }

  // ----- pruning

  /** `key`'s leaf is deleted and marked, and the commitments of its path are kept. */
  ghost function PrunedView(s: Scheme, v: View, key: Path): View
    requires |key| <= KEY_SIZE
  {
    View(v.storage - {key}, v.marks + {key}, KeptAlong(s, v, key, |key| + 1))
  }

  /** The kept commitments once the first `n` nodes of the key's path, from the root down, are recorded. */
  ghost function KeptAlong(s: Scheme, v: View, key: Path, n: nat): map<Path, Point>
    requires |key| <= KEY_SIZE
  {
    map q | q in v.kept.Keys + PathTo(key, n) :: if q in PathTo(key, n) then Effective(s, v, q) else v.kept[q]
  }

  ghost function PathTo(key: Path, n: nat): (r: set<Path>)
    ensures forall q {:trigger q in r} | q in r :: |q| <= |key|
  {
    set q | q in Prefixes(key) && |q| < n
  }

  /** Deleting a leaf whose whole path is kept changes no commitment. */
  lemma DeletingIsHidden(s: Scheme, v: View, key: Path, p: Path)
    requires |p| <= KEY_SIZE && forall q | q in Prefixes(key) :: q in v.kept
    ensures Effective(s, v.(storage := v.storage - {key}, marks := v.marks + {key}), p) == Effective(s, v, p)
  {
    var w := v.(storage := v.storage - {key}, marks := v.marks + {key});
    if p !in v.kept {
      forall q {:trigger SameAt(w, v, q)} | p <= q
        ensures SameAt(w, v, q)
      {
      }
      EffectiveFrame(s, w, v, p);
    }
  }

  /** Keeping the commitments nodes have anyway changes no commitment. */
  lemma {:induction false} KeepingIsNeutral(s: Scheme, v: View, key: Path, n: nat, p: Path)
    requires |key| <= KEY_SIZE && |p| <= KEY_SIZE
    ensures Effective(s, v.(kept := KeptAlong(s, v, key, n)), p) == Effective(s, v, p)
    decreases KEY_SIZE - |p|
  {
    var w := v.(kept := KeptAlong(s, v, key, n));
    if p !in w.kept && |p| < KEY_SIZE {
      var a, b := EffectiveRow(s, w, p), EffectiveRow(s, v, p);
      forall i | 0 <= i < RADIX
        ensures a[i] == b[i]
      {
        KeepingIsNeutral(s, v, key, n, p + [i]);
      }
      assert a == b;
    }
  }

  /** Pruning leaves every commitment, and so the root, as it was. */
  lemma PruningIsNeutral(s: Scheme, v: View, key: Path, p: Path)
    requires |key| <= KEY_SIZE && |p| <= KEY_SIZE
    ensures Effective(s, PrunedView(s, v, key), p) == Effective(s, v, p)
  {
    var w := v.(kept := KeptAlong(s, v, key, |key| + 1));
    KeepingIsNeutral(s, v, key, |key| + 1, p);
    DeletingIsHidden(s, w, key, p);
    assert PrunedView(s, v, key) == w.(storage := w.storage - {key}, marks := w.marks + {key});
  }

  /** Prunes in a row; one of an absent key fails and changes nothing. */
  ghost function PruneAll(s: Scheme, v: View, keys: seq<Path>): View
    requires forall i | 0 <= i < |keys| :: |keys[i]| == KEY_SIZE
  {
    if keys == [] then v
    else
      var last := keys[|keys| - 1];
      var w := PruneAll(s, v, keys[..|keys| - 1]);
      if last in w.storage then PrunedView(s, w, last) else w
  }

  /** Over any run of prunes the root stands still, and a read fails on exactly the keys that were marked before or
      were stored and are among the pruned; every other read is as before. */
  lemma {:induction false} PrunesKeepTheRoot(s: Scheme, v: View, keys: seq<Path>, k: Path)
    requires forall i | 0 <= i < |keys| :: |keys[i]| == KEY_SIZE
    ensures EffectiveRoot(s, PruneAll(s, v, keys)) == EffectiveRoot(s, v)
    ensures ReadingAt(PruneAll(s, v, keys).storage, PruneAll(s, v, keys).marks, k) ==
      if k in v.marks || (k in keys && k in v.storage) then Reading.Pruned else Value(ValueAt(v.storage, k))
    ensures k in PruneAll(s, v, keys).storage <==> k in v.storage && k !in keys
    decreases |keys|
  {
    if keys != [] {
      var last, front := keys[|keys| - 1], keys[..|keys| - 1];
      assert keys == front + [last];
      PrunesKeepTheRoot(s, v, front, k);
      PrunesKeepTheRoot(s, v, front, last);
      PruningIsNeutral(s, PruneAll(s, v, front), last, []);
    }
  }

  // ----- inserting after a prune

  /** `key` is set: its mark and the commitments kept along its path go. */
  ghost function Written(v: View, key: Path, value: Bytes): View {
    View(Inserted(v.storage, key, value), v.marks - {key}, v.kept - Prefixes(key))
  }

  lemma WriteFrame(s: Scheme, v: View, key: Path, value: Bytes, p: Path)
    requires |p| <= KEY_SIZE && !(p <= key)
    ensures Effective(s, Written(v, key, value), p) == Effective(s, v, p)
  {
    var w := Written(v, key, value);
    forall q {:trigger SameAt(w, v, q)} | p <= q
      ensures SameAt(w, v, q)
    {
      assert q !in Prefixes(key);
    }
    EffectiveFrame(s, w, v, p);
  }

  /** A pruned key that parts from the written one above the last level still counts; one that does not is missed only
      if its leaf committed to something. */
  lemma {:induction false} PrunedStillCounts(s: Scheme, v: View, a: Path, b: Path, value: Bytes, p: Path)
    requires |a| == |b| == KEY_SIZE && |p| <= KEY_SIZE && a != b
    requires a[..KEY_SIZE - 1] != b[..KEY_SIZE - 1] || (a != p && Effective(s, v, a) == EmptyPoint(s, KEY_SIZE))
    ensures Effective(s, Written(PrunedView(s, v, a), b, value), p) == Effective(s, Written(v, b, value), p)
    decreases KEY_SIZE - |p|
  {
    var u, w := Written(PrunedView(s, v, a), b, value), Written(v, b, value);
    if p in u.kept {
      WriteFrame(s, v, b, value, p);
    } else if |p| < KEY_SIZE {
      var row, row' := EffectiveRow(s, u, p), EffectiveRow(s, w, p);
      WriteFrame(s, v, b, value, a);
      forall i | 0 <= i < RADIX
        ensures row[i] == row'[i]
      {
        assert p + [i] == a ==> p == a[..KEY_SIZE - 1];
        assert p <= b ==> p == b[..|p|];
        if p + [i] != a || a[..KEY_SIZE - 1] != b[..KEY_SIZE - 1] {
          PrunedStillCounts(s, v, a, b, value, p + [i]);
        }
      }
      assert row == row';
    }
  }

  /** A difference at a stored child shows at its parent. */
  lemma DifferenceClimbs(s: Scheme, u: View, w: View, p: Path, i: nat)
    requires CollisionFree(s) && |p| < KEY_SIZE && i < RADIX && p !in u.kept && p !in w.kept
    requires EffectiveChild(s, u, p, i) != EffectiveChild(s, w, p, i)
    ensures Effective(s, u, p) != Effective(s, w, p)
  {
    var a, b := EffectiveRow(s, u, p), EffectiveRow(s, w, p);
    assert a[i] != b[i];
    if s.commit(a) == s.commit(b) {
      CommitInjective(s, a, b);
    }
  }

  lemma {:induction false} DifferenceReachesTheRoot(s: Scheme, u: View, w: View, key: Path, n: nat)
    requires CollisionFree(s) && ValidKey(key) && n < KEY_SIZE
    requires forall q | q in Prefixes(key) && |q| <= n ::
      q in u.storage && q in w.storage && q !in u.kept && q !in w.kept
    requires EffectiveChild(s, u, key[..n], key[n]) != EffectiveChild(s, w, key[..n], key[n])
    ensures EffectiveRoot(s, u) != EffectiveRoot(s, w)
    decreases n
  {
    assert key[..n] in Prefixes(key);
    DifferenceClimbs(s, u, w, key[..n], key[n]);
    if n > 0 {
      assert key[..n] == key[..n - 1] + [key[n - 1]];
      if EffectiveChild(s, u, key[..n - 1], key[n - 1]) == EffectiveChild(s, w, key[..n - 1], key[n - 1]) {
        LiftInjective(s, Effective(s, u, key[..n]), Effective(s, w, key[..n]));
      }
      DifferenceReachesTheRoot(s, u, w, key, n - 1);
    }
  }

  /** A written key that shares the last node with a pruned one takes that one's value out of the root. */
  lemma PrunedNeighbourIsLost(s: Scheme, v: View, a: Path, b: Path, value: Bytes)
    requires CollisionFree(s) && ValidKey(a) && ValidKey(b) && a != b && a in v.storage
    requires a[..KEY_SIZE - 1] == b[..KEY_SIZE - 1] && Effective(s, v, a) != EmptyPoint(s, KEY_SIZE)
    ensures EffectiveRoot(s, Written(PrunedView(s, v, a), b, value)) != EffectiveRoot(s, Written(v, b, value))
  {
    var n := KEY_SIZE - 1;
    var u, w := Written(PrunedView(s, v, a), b, value), Written(v, b, value);
    assert a == a[..n] + [a[n]];
    forall q | q in Prefixes(a) && |q| <= n
      ensures q in u.storage && q in w.storage && q !in u.kept && q !in w.kept
    {
      assert q == a[..n][..|q|] == b[..n][..|q|] == b[..|q|];
      assert q in Prefixes(b);
    }
    assert a !in Prefixes(b) && a !in u.storage && a in w.storage;
    WriteFrame(s, v, b, value, a);
    if EffectiveChild(s, u, a[..n], a[n]) == EffectiveChild(s, w, a[..n], a[n]) {
      LiftInjective(s, EmptyPoint(s, KEY_SIZE), Effective(s, w, a));
    }
    DifferenceReachesTheRoot(s, u, w, a, n);
  }

  /** In any state: pruning `a` and then writing `b` gives the root of writing `b` alone if the two keys part above the
      last level or the leaf of `a` commits like an empty one; and without collisions only then. A write drops the kept
      commitments along its own path, and an only-kept leaf is then forgotten. */
  lemma WriteAfterPrune(s: Scheme, v: View, a: Path, b: Path, value: Bytes)
    requires ValidKey(a) && ValidKey(b) && a != b && a in v.storage
    ensures a[..KEY_SIZE - 1] != b[..KEY_SIZE - 1] || Effective(s, v, a) == EmptyPoint(s, KEY_SIZE) ==>
      EffectiveRoot(s, Written(PrunedView(s, v, a), b, value)) == EffectiveRoot(s, Written(v, b, value))
    ensures CollisionFree(s) ==>
      EffectiveRoot(s, Written(PrunedView(s, v, a), b, value)) == EffectiveRoot(s, Written(v, b, value)) ==>
      a[..KEY_SIZE - 1] != b[..KEY_SIZE - 1] || Effective(s, v, a) == EmptyPoint(s, KEY_SIZE)
  {
    if a[..KEY_SIZE - 1] != b[..KEY_SIZE - 1] || Effective(s, v, a) == EmptyPoint(s, KEY_SIZE) {
      PrunedStillCounts(s, v, a, b, value, []);
    } else if CollisionFree(s) {
      PrunedNeighbourIsLost(s, v, a, b, value);
    }
  }
}
