/** The trie on values: stored nodes, the commitment each one has, and the map they stand for. */
module TrieModel {
  import opened Hashes
  import opened Commitments

  const RADIX: nat := 256
  const KEY_SIZE: nat := 32

  /** A node's address: the bytes on the way to it. A key is a path of full length. */
  type Path = seq<int>

  /** A stored node: a value at a leaf, nothing at an internal node. */
  type Storage = map<Path, Option<Bytes>>

  predicate ValidPath(p: Path) {
    |p| <= KEY_SIZE && forall i | 0 <= i < |p| :: 0 <= p[i] < RADIX
  }

  predicate ValidKey(p: Path) {
    ValidPath(p) && |p| == KEY_SIZE
  }

  function ValueAt(st: Storage, p: Path): Option<Bytes> {
    if p in st then st[p] else None
  }

  /** The key-to-value map the stored leaves stand for. */
  ghost function Contents(st: Storage): map<Path, Bytes> {
    map k | k in st && |k| == KEY_SIZE && st[k].Some? :: st[k].value
  }

  function LeafScalar(s: Scheme, v: Option<Bytes>): Scalar {
    if v.Some? then s.valueScalar(v.value) else s.zero
  }

  function Repeated(c: Scalar): (r: seq<Scalar>)
    ensures |r| == RADIX && forall i | 0 <= i < RADIX :: r[i] == c
  {
    seq(RADIX, _ => c)
  }

  /** The constant for a subtree with nothing in it, by the depth of its top. */
  function EmptyPoint(s: Scheme, depth: nat): Point
    requires depth <= KEY_SIZE
    decreases KEY_SIZE - depth
  {
    if depth == KEY_SIZE then s.commit([])
    else s.commit(Repeated(Lift(s, EmptyPoint(s, depth + 1))))
  }

  /** A node's commitment computed from scratch from what is stored. */
  ghost function NodePoint(s: Scheme, st: Storage, p: Path): Point
    requires |p| <= KEY_SIZE
    decreases KEY_SIZE - |p|, 2
  {
    if |p| == KEY_SIZE then s.commit([LeafScalar(s, ValueAt(st, p))])
    else s.commit(NodeRow(s, st, p))
  }

  /** The coefficients of an internal node: a stored child's commitment, or the empty constant. */
  ghost function NodeRow(s: Scheme, st: Storage, p: Path): (r: seq<Scalar>)
    requires |p| < KEY_SIZE
    ensures |r| == RADIX
    ensures forall i {:trigger r[i]} | 0 <= i < RADIX :: r[i] == ChildScalar(s, st, p, i)
    decreases KEY_SIZE - |p|, 1
  {
    seq(RADIX, (i: nat) => ChildScalar(s, st, p, i))
  }

  ghost function ChildScalar(s: Scheme, st: Storage, p: Path, i: int): Scalar
    requires |p| < KEY_SIZE
    decreases KEY_SIZE - |p|, 0
  {
    if p + [i] in st then Lift(s, NodePoint(s, st, p + [i])) else Lift(s, EmptyPoint(s, |p| + 1))
  }

  ghost function Root(s: Scheme, st: Storage): Digest {
    s.digest(NodePoint(s, st, []))
  }

  /** The commitment a node would have in the full tree over a key-to-value map: no node is ever absent. */
  ghost function Canon(s: Scheme, m: map<Path, Bytes>, p: Path): Point
    requires |p| <= KEY_SIZE
    decreases KEY_SIZE - |p|, 1
  {
    if |p| == KEY_SIZE then s.commit([LeafScalar(s, Lookup(m, p))]) else s.commit(CanonRow(s, m, p))
  }

  ghost function CanonRow(s: Scheme, m: map<Path, Bytes>, p: Path): (r: seq<Scalar>)
    requires |p| < KEY_SIZE
    ensures |r| == RADIX
    ensures forall i {:trigger r[i]} | 0 <= i < RADIX :: r[i] == Lift(s, Canon(s, m, p + [i]))
    decreases KEY_SIZE - |p|, 0
  {
    seq(RADIX, (i: nat) => Lift(s, Canon(s, m, p + [i])))
  }

  function Lookup(m: map<Path, Bytes>, k: Path): Option<Bytes> {
    if k in m then Some(m[k]) else None
  }

  /** The root exists, every other node's parent exists, and addresses are at most key-long byte strings. */
  ghost predicate Rooted(st: Storage) {
    [] in st &&
    (forall p | p in st :: ValidPath(p)) &&
    forall p | p in st && p != [] :: p[..|p| - 1] in st
  }

  /** Nodes under an absent node are absent. */
  lemma {:induction false} NothingBelow(st: Storage, p: Path, q: Path)
    requires Rooted(st) && p !in st && p <= q
    ensures q !in st
    decreases |q|
  {
    if q != p {
      NothingBelow(st, p, q[..|q| - 1]);
    }
  }

  ghost predicate NoKeyUnder(m: map<Path, Bytes>, p: Path) {
    forall k | k in m :: !(p <= k)
  }

  lemma NoKeyUnderChild(m: map<Path, Bytes>, p: Path, i: int)
    requires NoKeyUnder(m, p)
    ensures NoKeyUnder(m, p + [i])
  {
    assert p <= p + [i];
  }

  /** A subtree no key of the map lies in has the empty constant. */
  lemma {:induction false} CanonOfNothing(s: Scheme, m: map<Path, Bytes>, p: Path)
    requires IgnoresTrailingZeros(s) && |p| <= KEY_SIZE && NoKeyUnder(m, p)
    ensures Canon(s, m, p) == EmptyPoint(s, |p|)
    decreases KEY_SIZE - |p|, 1
  {
    if |p| == KEY_SIZE {
      assert Lookup(m, p) == None;
      ZeroLeafIsEmpty(s);
    } else {
      RowOfNothing(s, m, p);
    }
  }

  lemma {:induction false} RowOfNothing(s: Scheme, m: map<Path, Bytes>, p: Path)
    requires IgnoresTrailingZeros(s) && |p| < KEY_SIZE && NoKeyUnder(m, p)
    ensures CanonRow(s, m, p) == Repeated(Lift(s, EmptyPoint(s, |p| + 1)))
    decreases KEY_SIZE - |p|, 0
  {
    forall i | 0 <= i < RADIX
      ensures CanonRow(s, m, p)[i] == Lift(s, EmptyPoint(s, |p| + 1))
    {
      var child, depth := p + [i], |p| + 1;
      NoKeyUnderChild(m, p, i);
      CanonOfNothing(s, m, child);
      assert |child| == depth;
      assert Canon(s, m, child) == EmptyPoint(s, depth);
    }
  }

  /** What is stored decides a node's commitment only through the map it stands for:
      insertion order, overwritten values and empty internal nodes leave no trace. */
  lemma {:induction false} NodeIsCanonical(s: Scheme, st: Storage, p: Path)
    requires IgnoresTrailingZeros(s) && Rooted(st) && |p| <= KEY_SIZE
    ensures NodePoint(s, st, p) == Canon(s, Contents(st), p)
    decreases KEY_SIZE - |p|
  {
    if |p| == KEY_SIZE {
      assert ValueAt(st, p) == Lookup(Contents(st), p);
    } else {
      var stored, canonical := NodeRow(s, st, p), CanonRow(s, Contents(st), p);
      forall i | 0 <= i < RADIX
        ensures stored[i] == canonical[i]
      {
        if p + [i] in st {
          NodeIsCanonical(s, st, p + [i]);
        } else {
          AbsentIsEmpty(s, st, p + [i]);
        }
      }
      assert stored == canonical;
    }
  }

  lemma AbsentIsEmpty(s: Scheme, st: Storage, p: Path)
    requires IgnoresTrailingZeros(s) && Rooted(st) && p !in st && |p| <= KEY_SIZE
    ensures Canon(s, Contents(st), p) == EmptyPoint(s, |p|)
  {
    forall k | k in Contents(st)
      ensures !(p <= k)
    {
      if p <= k {
        NothingBelow(st, p, k);
      }
    }
    assert NoKeyUnder(Contents(st), p);
    CanonOfNothing(s, Contents(st), p);
  }

  /** The root is a function of the key-to-value map alone. */
  lemma RootIsCanonical(s: Scheme, st: Storage)
    requires IgnoresTrailingZeros(s) && Rooted(st)
    ensures Root(s, st) == s.digest(Canon(s, Contents(st), []))
  {
    NodeIsCanonical(s, st, []);
  }

  /** The nodes that can be reached from the root; a node whose parent is gone is not one of them. */
  ghost function Visible(st: Storage): Storage {
    map p | p in st && ValidPath(p) && (forall q: Path | q <= p :: q in st) :: st[p]
  }

  /** The map a store stands for, whether or not it holds unreachable nodes. */
  ghost function Represented(st: Storage): map<Path, Bytes> {
    Contents(Visible(st))
  }

  lemma VisibleIsRooted(st: Storage)
    requires [] in st
    ensures Rooted(Visible(st))
    ensures Rooted(st) ==> Visible(st) == st
  {
    forall p | p in Visible(st) && p != []
      ensures p[..|p| - 1] in Visible(st)
    {
      assert p[..|p| - 1] <= p;
    }
    if Rooted(st) {
      forall p, q: Path | p in st && q <= p
        ensures q in st
      {
        if q !in st {
          NothingBelow(st, q, p);
        }
      }
    }
  }

  lemma VisibleChild(st: Storage, p: Path, i: int)
    requires p in Visible(st) && |p| < KEY_SIZE && 0 <= i < RADIX
    ensures p + [i] in st <==> p + [i] in Visible(st)
  {
    if p + [i] in st {
      forall q: Path | q <= p + [i]
        ensures q in st
      {
        if |q| <= |p| {
          assert q == (p + [i])[..|q|] == p[..|q|];
          assert q <= p;
        } else {
          assert q == p + [i];
        }
      }
    }
  }

  /** Commitments see only what can be reached. */
  lemma {:induction false} NodeSeesVisible(s: Scheme, st: Storage, p: Path)
    requires p in Visible(st)
    ensures NodePoint(s, st, p) == NodePoint(s, Visible(st), p)
    decreases KEY_SIZE - |p|
  {
    if |p| < KEY_SIZE {
      var all, seen := NodeRow(s, st, p), NodeRow(s, Visible(st), p);
      forall i | 0 <= i < RADIX
        ensures all[i] == seen[i]
      {
        VisibleChild(st, p, i);
        if p + [i] in st {
          NodeSeesVisible(s, st, p + [i]);
        }
      }
      assert all == seen;
    }
  }

  /** For every store that has a root node, the root digest is a function of the map it stands for. */
  lemma RootIsRepresented(s: Scheme, st: Storage)
    requires IgnoresTrailingZeros(s) && [] in st
    ensures Root(s, st) == s.digest(Canon(s, Represented(st), []))
  {
    VisibleIsRooted(st);
    NodeSeesVisible(s, st, []);
    RootIsCanonical(s, Visible(st));
  }

  /** The layout of the commitments, spelled out: a leaf commits to the scalar of its value alone, an absent leaf to
      nothing; any other node commits to 256 coefficients, child 0 first, each the scalar of that child's digest. */
  lemma CanonLayout(s: Scheme, m: map<Path, Bytes>, p: Path)
    requires IgnoresTrailingZeros(s) && |p| <= 32
    ensures |p| == 32 && p in m ==> Canon(s, m, p) == s.commit([s.valueScalar(m[p])])
    ensures |p| == 32 && p !in m ==> Canon(s, m, p) == s.commit([])
    ensures |p| < 32 ==> exists row: seq<Scalar> {:trigger s.commit(row)} ::
      |row| == 256 && Canon(s, m, p) == s.commit(row) &&
      forall i {:trigger row[i]} | 0 <= i < 256 :: row[i] == s.toScalar(s.digest(Canon(s, m, p + [i])))
  {
    if |p| == 32 {
      ZeroLeafIsEmpty(s);
    } else {
      var row := CanonRow(s, m, p);
      assert Canon(s, m, p) == s.commit(row);
      forall i {:trigger row[i]} | 0 <= i < 256
        ensures row[i] == s.toScalar(s.digest(Canon(s, m, p + [i])))
      {
      }
    }
  }

  /** What a node's slot `i` holds, seen from the map: the child's commitment, or the empty constant. */
  lemma SlotIsCanonical(s: Scheme, st: Storage, p: Path, i: int)
    requires IgnoresTrailingZeros(s) && [] in st && |p| < KEY_SIZE && 0 <= i < RADIX
    ensures p in Visible(st) && p + [i] in st ==> NodePoint(s, st, p + [i]) == Canon(s, Represented(st), p + [i])
    ensures p !in Visible(st) || p + [i] !in st ==> EmptyPoint(s, |p| + 1) == Canon(s, Represented(st), p + [i])
  {
    VisibleIsRooted(st);
    SlotIsVisible(st, p, i);
    if p + [i] in Visible(st) {
      NodeSeesVisible(s, st, p + [i]);
      NodeIsCanonical(s, Visible(st), p + [i]);
    } else {
      AbsentIsEmpty(s, Visible(st), p + [i]);
    }
  }

  lemma SlotIsVisible(st: Storage, p: Path, i: int)
    requires |p| < KEY_SIZE && 0 <= i < RADIX
    ensures p + [i] in Visible(st) <==> p in Visible(st) && p + [i] in st
  {
    if p in Visible(st) {
      VisibleChild(st, p, i);
    } else if p + [i] in Visible(st) {
      assert p <= p + [i];
      forall q: Path | q <= p
        ensures q in st
      {
        assert q <= p + [i];
      }
      assert ValidPath(p) by {
        assert forall j | 0 <= j < |p| :: p[j] == (p + [i])[j];
      }
    }
  }

  /** Stores that stand for the same map have the same root. */
  lemma SameContentsSameRoot(s: Scheme, st: Storage, st': Storage)
    requires IgnoresTrailingZeros(s) && Rooted(st) && Rooted(st') && Contents(st) == Contents(st')
    ensures Root(s, st) == Root(s, st')
  {
    RootIsCanonical(s, st);
    RootIsCanonical(s, st');
  }

  /** At `p` the two maps confuse the scheme: two coefficient lists, or at a leaf two values, with one commitment, or
      two commitments that lift alike. */
  ghost predicate MapsConfuse(s: Scheme, m: map<Path, Bytes>, m': map<Path, Bytes>, p: Path)
    requires |p| <= KEY_SIZE
  {
    if Canon(s, m, p) != Canon(s, m', p) then Lift(s, Canon(s, m, p)) == Lift(s, Canon(s, m', p))
    else if |p| == KEY_SIZE then Lookup(m, p) != Lookup(m', p)
    else CanonRow(s, m, p) != CanonRow(s, m', p)
  }

  ghost predicate NowhereConfused(s: Scheme, m: map<Path, Bytes>, m': map<Path, Bytes>) {
    forall p: Path {:trigger MapsConfuse(s, m, m', p)} | |p| <= KEY_SIZE :: !MapsConfuse(s, m, m', p)
  }

  /** Equal commitments over a key's subtree mean the maps agree on the key, unless they confuse the scheme. */
  lemma {:induction false} CanonBinds(s: Scheme, m: map<Path, Bytes>, m': map<Path, Bytes>, p: Path, k: Path)
    requires NowhereConfused(s, m, m') && ValidKey(k) && p <= k
    requires Canon(s, m, p) == Canon(s, m', p)
    ensures Lookup(m, k) == Lookup(m', k)
    decreases KEY_SIZE - |p|
  {
    assert !MapsConfuse(s, m, m', p);
    if |p| == KEY_SIZE {
      assert p == k;
    } else {
      ChildBinds(s, m, m', p, k[|p|]);
      assert p + [k[|p|]] == k[..|p| + 1];
      CanonBinds(s, m, m', p + [k[|p|]], k);
    }
  }

  lemma ChildBinds(s: Scheme, m: map<Path, Bytes>, m': map<Path, Bytes>, p: Path, i: int)
    requires |p| < KEY_SIZE && 0 <= i < RADIX && CanonRow(s, m, p) == CanonRow(s, m', p)
    requires !MapsConfuse(s, m, m', p + [i])
    ensures Canon(s, m, p + [i]) == Canon(s, m', p + [i])
  {
    assert CanonRow(s, m, p)[i] == CanonRow(s, m', p)[i];
  }

  lemma LeafBinds(s: Scheme, v: Option<Bytes>, v': Option<Bytes>)
    requires CollisionFree(s) && s.commit([LeafScalar(s, v)]) == s.commit([LeafScalar(s, v')])
    ensures v == v'
  {
    CommitInjective(s, [LeafScalar(s, v)], [LeafScalar(s, v')]);
    assert [LeafScalar(s, v)][0] == [LeafScalar(s, v')][0];
  }

  lemma NoCollisionNoConfusion(s: Scheme, m: map<Path, Bytes>, m': map<Path, Bytes>)
    requires CollisionFree(s)
    ensures NowhereConfused(s, m, m')
  {
    forall p: Path | |p| <= KEY_SIZE
      ensures !MapsConfuse(s, m, m', p)
    {
      if Canon(s, m, p) != Canon(s, m', p) {
        if Lift(s, Canon(s, m, p)) == Lift(s, Canon(s, m', p)) {
          LiftInjective(s, Canon(s, m, p), Canon(s, m', p));
        }
      } else if |p| == KEY_SIZE {
        LeafBinds(s, Lookup(m, p), Lookup(m', p));
      } else {
        CommitInjective(s, CanonRow(s, m, p), CanonRow(s, m', p));
      }
    }
  }

  /** Without idealising the scheme: two stores with one root, orphaned nodes and all, stand for the same map, or the
      two maps exhibit a collision, of the two root commitments under the digest or at some node. */
  lemma OneRootOneMapOrConfuses(s: Scheme, st: Storage, st': Storage)
    requires IgnoresTrailingZeros(s) && [] in st && [] in st' && Root(s, st) == Root(s, st')
    ensures
      var m, m' := Represented(st), Represented(st');
      m == m' || (Canon(s, m, []) != Canon(s, m', []) && s.digest(Canon(s, m, [])) == s.digest(Canon(s, m', []))) ||
      !NowhereConfused(s, m, m')
  {
    RootIsRepresented(s, st);
    RootIsRepresented(s, st');
    var m, m' := Represented(st), Represented(st');
    if Canon(s, m, []) == Canon(s, m', []) && NowhereConfused(s, m, m') {
      MapsBind(s, m, m');
    }
  }

  lemma MapsBind(s: Scheme, m: map<Path, Bytes>, m': map<Path, Bytes>)
    requires NowhereConfused(s, m, m') && Canon(s, m, []) == Canon(s, m', [])
    requires forall k | k in m.Keys + m'.Keys :: ValidKey(k)
    ensures m == m'
  {
    forall k | k in m.Keys + m'.Keys
      ensures Lookup(m, k) == Lookup(m', k)
    {
      CanonBinds(s, m, m', [], k);
    }
    LookupsDecide(m, m');
  }

  /** With collision-free maps the root determines the whole key-to-value map. */
  lemma RootBindsContents(s: Scheme, st: Storage, st': Storage)
    requires IgnoresTrailingZeros(s) && CollisionFree(s) && Rooted(st) && Rooted(st') && Root(s, st) == Root(s, st')
    ensures Contents(st) == Contents(st')
  {
    VisibleIsRooted(st);
    VisibleIsRooted(st');
    NoCollisionNoConfusion(s, Contents(st), Contents(st'));
    OneRootOneMapOrConfuses(s, st, st');
  }

  lemma MapsAgree(s: Scheme, m: map<Path, Bytes>, m': map<Path, Bytes>)
    requires CollisionFree(s) && Canon(s, m, []) == Canon(s, m', [])
    requires forall k | k in m.Keys + m'.Keys :: ValidKey(k)
    ensures m == m'
  {
    NoCollisionNoConfusion(s, m, m');
    MapsBind(s, m, m');
  }

  lemma LookupsDecide(m: map<Path, Bytes>, m': map<Path, Bytes>)
    requires forall k | k in m.Keys + m'.Keys :: Lookup(m, k) == Lookup(m', k)
    ensures m == m'
  {
    assert forall k :: k in m ==> k in m.Keys + m'.Keys;
    assert forall k :: k in m' ==> k in m.Keys + m'.Keys;
  }

  lemma DigestInjective(s: Scheme, p: Point, q: Point)
    requires CollisionFree(s) && s.digest(p) == s.digest(q)
    ensures p == q
  {
  }

  /** Storage changes that stay off a node's subtree leave its commitment alone. */
  lemma {:induction false} NodeFrame(s: Scheme, st: Storage, st': Storage, p: Path)
    requires |p| <= KEY_SIZE
    requires forall q | p <= q :: ValueAt(st, q) == ValueAt(st', q) && (q in st <==> q in st')
    ensures NodePoint(s, st, p) == NodePoint(s, st', p)
    decreases KEY_SIZE - |p|
  {
    if |p| < KEY_SIZE {
      var row, row' := NodeRow(s, st, p), NodeRow(s, st', p);
      forall i | 0 <= i < RADIX
        ensures row[i] == row'[i]
      {
        assert p <= p + [i];
        NodeFrame(s, st, st', p + [i]);
      }
      assert row == row';
    }
  }

  /** What the store holds after `key` is set: its path exists and its leaf has the value. */
  ghost function Inserted(st: Storage, key: Path, value: Bytes): Storage {
    map p | p in st.Keys + Prefixes(key) :: if p == key then Some(value) else ValueAt(st, p)
  }

  ghost function Prefixes(key: Path): (r: set<Path>)
    ensures forall p :: p in r <==> p <= key
  {
    assert forall p: Path | p <= key :: p == key[..|p|];
    set n: nat | n <= |key| :: key[..n]
  }

  lemma PrefixesGrow(key: Path, n: nat)
    requires n < |key|
    ensures Prefixes(key[..n + 1]) == Prefixes(key[..n]) + {key[..n + 1]}
  {
    forall p | p in Prefixes(key[..n + 1])
      ensures p in Prefixes(key[..n]) || p == key[..n + 1]
    {
      assert p == key[..n + 1][..|p|] == key[..|p|];
    }
  }

  /** The store once the first `n` nodes below the root on the key's path, and the root, are there. */
  ghost function PathEnsured(st: Storage, key: Path, n: nat): Storage
    requires n <= |key|
  {
    map p | p in st.Keys + Prefixes(key[..n]) :: ValueAt(st, p)
  }

  lemma EnsureNext(st: Storage, key: Path, n: nat)
    requires n < |key|
    ensures PathEnsured(st, key, n + 1) ==
      if key[..n + 1] in PathEnsured(st, key, n)
      then PathEnsured(st, key, n)
      else PathEnsured(st, key, n)[key[..n + 1] := None]
  {
    PrefixesGrow(key, n);
  }

  lemma EnsureRoot(st: Storage, key: Path)
    ensures PathEnsured(st, key, 0) == if [] in st then st else st[[] := None]
  {
    assert Prefixes(key[..0]) == {[]} by {
      assert [] in Prefixes([]);
    }
  }

  /** Writing the leaf after ensuring the path is the insert. */
  lemma EnsureThenWrite(st: Storage, key: Path, value: Bytes)
    ensures PathEnsured(st, key, |key|)[key := Some(value)] == Inserted(st, key, value)
  {
    assert key[..|key|] == key && key in Prefixes(key);
  }

  /** The two calls that change a trie. */
  datatype TrieOp = Set(key: Path, value: Bytes) | Forget(key: Path)

  datatype Reading = Pruned | Value(value: Option<Bytes>)

  function ReadingAt(st: Storage, marks: set<Path>, key: Path): Reading {
    if key in marks then Pruned else Value(ValueAt(st, key))
  }
}
