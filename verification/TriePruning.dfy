/** What inserts and prunes make of a trie's nodes and marks. */
module TriePruning {
  import opened Commitments
  import opened TrieModel

  /** No stored node carries a prune mark. */
  ghost predicate Unmarked(st: Storage, marks: set<Path>) {
    forall p | p in st :: p !in marks
  }

  /** Setting a key keeps the store rooted and updates exactly that key of the map. */
  lemma InsertSets(st: Storage, key: Path, value: Bytes)
    requires Rooted(st) && ValidKey(key)
    ensures Rooted(Inserted(st, key, value))
    ensures Contents(Inserted(st, key, value)) == Contents(st)[key := value]
  {
    InsertRooted(st, key, value);
    InsertContents(st, key, value);
  }

  lemma InsertContents(st: Storage, key: Path, value: Bytes)
    requires |key| == KEY_SIZE
    ensures Contents(Inserted(st, key, value)) == Contents(st)[key := value]
  {
    assert key in Prefixes(key);
    forall p | p in Prefixes(key) && |p| == KEY_SIZE
      ensures p == key
    {
    }
  }

  lemma InsertRooted(st: Storage, key: Path, value: Bytes)
    requires Rooted(st) && ValidKey(key)
    ensures Rooted(Inserted(st, key, value))
  {
    var st' := Inserted(st, key, value);
    forall p | p in st'
      ensures ValidPath(p) && (p != [] ==> p[..|p| - 1] in st')
    {
      if p in Prefixes(key) {
        assert p == key[..|p|];
        assert p != [] ==> p[..|p| - 1] in Prefixes(key);
      }
    }
  }

  /** An insert leaves the store free of marked nodes exactly when nothing on the key's path was marked. */
  lemma InsertStaysUnmarked(st: Storage, marks: set<Path>, key: Path, value: Bytes)
    requires Unmarked(st, marks)
    ensures Unmarked(Inserted(st, key, value), marks) <==> forall p | p <= key :: p !in marks
  {
    assert forall p | p <= key :: p in Inserted(st, key, value);
  }

  /** Changing nodes on one key's path only, and dropping that path from the cache, leaves the rest exact. */
  lemma CacheSurvives(s: Scheme, st: Storage, st': Storage, key: Path, cached: map<Path, Point>)
    requires forall p {:trigger cached[p]} | p in cached ::
      |p| <= KEY_SIZE && cached[p] == NodePoint(s, st, p) && !(p <= key)
    requires forall q: Path | !(q <= key) :: ValueAt(st, q) == ValueAt(st', q) && (q in st <==> q in st')
    ensures forall p {:trigger cached[p]} | p in cached :: cached[p] == NodePoint(s, st', p)
  {
    forall p | p in cached
      ensures cached[p] == NodePoint(s, st', p)
    {
      NodeFrame(s, st, st', p);
    }
  }

  /** Removing a node without stored children keeps the store rooted. */
  lemma RemoveChildless(st: Storage, p: Path)
    requires Rooted(st) && p != [] && forall i | 0 <= i < RADIX :: p + [i] !in st
    ensures Rooted(st - {p})
  {
    forall q | q in st - {p} && q != []
      ensures q[..|q| - 1] in st - {p}
    {
      assert q == q[..|q| - 1] + [q[|q| - 1]] && 0 <= q[|q| - 1] < RADIX;
    }
  }

  /** Whether any child of `p` is stored and not marked. */
  ghost predicate HasLiveChild(st: Storage, marks: set<Path>, p: Path) {
    exists i :: 0 <= i < RADIX && p + [i] in st && p + [i] !in marks
  }

  /** The nodes of the key's path from depth `cut` down to the leaf. */
  ghost function PathFrom(key: Path, cut: nat): set<Path> {
    set p | p in Prefixes(key) && |p| >= cut
  }

  lemma LeafHasNoChild(st: Storage, key: Path)
    requires Rooted(st) && |key| == KEY_SIZE
    ensures forall i :: key + [i] !in st
  {
    forall i
      ensures key + [i] !in st
    {
      assert !ValidPath(key + [i]);
    }
  }

  lemma PathFromKeepsOthers(key: Path, cut: nat)
    requires cut <= |key|
    ensures key in PathFrom(key, cut)
    ensures forall p | p in PathFrom(key, cut) :: p <= key && (|p| == |key| ==> p == key)
    ensures cut > 0 ==> [] !in PathFrom(key, cut)
  {
    assert key in Prefixes(key);
  }

  lemma PathFromLeaf(key: Path)
    ensures PathFrom(key, |key|) == {key}
  {
    assert forall p | p in Prefixes(key) && |p| >= |key| :: p == key;
  }

  lemma PathFromUp(key: Path, cut: nat)
    requires cut < |key|
    ensures PathFrom(key, cut) == PathFrom(key, cut + 1) + {key[..cut]}
  {
    assert forall p | p in Prefixes(key) && |p| == cut :: p == key[..cut];
    assert key[..cut] in Prefixes(key);
  }

  /** `key` was pruned: its path is gone, and marked, from depth `cut` on. Each ancestor that went had no
      live child left when its turn came, and the climb stopped at the root or at a live child. */
  ghost predicate PrunedTo(st: Storage, marks: set<Path>, key: Path, st': Storage, marks': set<Path>, cut: nat) {
    1 <= cut <= |key| && st' == st - PathFrom(key, cut) && marks' == marks + PathFrom(key, cut) &&
    (forall j {:trigger Barren(st, marks, key, j)} | cut <= j < |key| :: Barren(st, marks, key, j)) &&
    (cut > 1 ==> HasLiveChild(st', marks', key[..cut - 1]))
  }

  /** Once everything on the path below depth `j` is gone, the node there has no live child. */
  ghost predicate Barren(st: Storage, marks: set<Path>, key: Path, j: nat)
    requires j < |key|
  {
    !HasLiveChild(st - PathFrom(key, j + 1), marks + PathFrom(key, j + 1), key[..j])
  }

  /** Pruning a clean store leaves a clean store that stands for the same map without the key. */
  lemma PruneForgets(st: Storage, marks: set<Path>, key: Path, st': Storage, marks': set<Path>, cut: nat)
    requires Rooted(st) && Unmarked(st, marks) && ValidKey(key)
    requires PrunedTo(st, marks, key, st', marks', cut)
    ensures Rooted(st') && Unmarked(st', marks')
    ensures Contents(st') == Contents(st) - {key}
  {
    StaysRooted(st, marks, key, cut, cut);
    OneLeafLess(st, key, cut);
  }

  lemma OneLeafLess(st: Storage, key: Path, cut: nat)
    requires cut <= |key| == KEY_SIZE
    ensures Contents(st - PathFrom(key, cut)) == Contents(st) - {key}
  {
    PathFromKeepsOthers(key, cut);
  }

  lemma {:induction false} StaysRooted(st: Storage, marks: set<Path>, key: Path, cut: nat, j: nat)
    requires Rooted(st) && Unmarked(st, marks) && ValidKey(key) && 1 <= cut <= j <= |key|
    requires forall d {:trigger Barren(st, marks, key, d)} | cut <= d < |key| :: Barren(st, marks, key, d)
    ensures Rooted(st - PathFrom(key, j)) && Unmarked(st - PathFrom(key, j), marks + PathFrom(key, j))
    decreases |key| - j
  {
    if j == |key| {
      PathFromLeaf(key);
      LeafHasNoChild(st, key);
      RemoveChildless(st, key);
    } else {
      StaysRooted(st, marks, key, cut, j + 1);
      assert Barren(st, marks, key, j);
      RemoveBarren(st, marks, key, j);
    }
  }

  /** Removing and marking a node whose stored children, if any, are all marked. */
  lemma RemoveDead(st: Storage, marks: set<Path>, p: Path)
    requires Rooted(st) && Unmarked(st, marks) && p != [] && !HasLiveChild(st, marks, p)
    ensures Rooted(st - {p}) && Unmarked(st - {p}, marks + {p})
  {
    forall i | 0 <= i < RADIX
      ensures p + [i] !in st
    {
    }
    RemoveChildless(st, p);
  }

  lemma RemoveBarren(st: Storage, marks: set<Path>, key: Path, j: nat)
    requires 1 <= j < |key| && Barren(st, marks, key, j)
    requires Rooted(st - PathFrom(key, j + 1)) && Unmarked(st - PathFrom(key, j + 1), marks + PathFrom(key, j + 1))
    ensures Rooted(st - PathFrom(key, j)) && Unmarked(st - PathFrom(key, j), marks + PathFrom(key, j))
  {
    var below := PathFrom(key, j + 1);
    RemoveDead(st - below, marks + below, key[..j]);
    PathFromUp(key, j);
    RemoveOneMore(st, marks, below, key[..j]);
  }

  lemma RemoveOneMore(st: Storage, marks: set<Path>, gone: set<Path>, p: Path)
    ensures st - (gone + {p}) == st - gone - {p} && marks + (gone + {p}) == marks + gone + {p}
  {
  }

  /** Taking the leaf away before the climb is part of the same prune. */
  lemma LeafFirst(st: Storage, marks: set<Path>, key: Path, st': Storage, marks': set<Path>, cut: nat)
    requires |key| > 0 && PrunedTo(st - {key}, marks + {key}, key, st', marks', cut)
    ensures PrunedTo(st, marks, key, st', marks', cut)
    ensures [] in st ==> [] in st'
    ensures forall q: Path | !(q <= key) :: ValueAt(st, q) == ValueAt(st', q) && (q in st <==> q in st')
  {
    PathFromKeepsOthers(key, cut);
    assert st - {key} - PathFrom(key, cut) == st - PathFrom(key, cut);
    assert marks + {key} + PathFrom(key, cut) == marks + PathFrom(key, cut);
    forall j {:trigger Barren(st, marks, key, j)} | cut <= j < |key|
      ensures Barren(st, marks, key, j)
    {
      assert Barren(st - {key}, marks + {key}, key, j);
      BarrenWithoutLeaf(st, marks, key, j);
    }
  }

  lemma BarrenWithoutLeaf(st: Storage, marks: set<Path>, key: Path, j: nat)
    requires j < |key|
    ensures Barren(st - {key}, marks + {key}, key, j) == Barren(st, marks, key, j)
  {
    PathFromKeepsOthers(key, j + 1);
    assert st - {key} - PathFrom(key, j + 1) == st - PathFrom(key, j + 1);
    assert marks + {key} + PathFrom(key, j + 1) == marks + PathFrom(key, j + 1);
  }

  // ----- how far a prune climbs

  /** The depth from which on the path of `key` is gone, once it is gone from depth `j` on. */
  ghost function CutFrom(st: Storage, marks: set<Path>, key: Path, j: nat): (cut: nat)
    requires 1 <= j <= |key|
    ensures 1 <= cut <= j
  {
    if j > 1 && Barren(st, marks, key, j - 1) then CutFrom(st, marks, key, j - 1) else j
  }

  lemma {:induction false} CutIsFirst(st: Storage, marks: set<Path>, key: Path, j: nat)
    requires 1 <= j <= |key|
    ensures
      var cut := CutFrom(st, marks, key, j);
      (cut > 1 ==> !Barren(st, marks, key, cut - 1)) &&
      forall d {:trigger Barren(st, marks, key, d)} | cut <= d < j :: Barren(st, marks, key, d)
    decreases j
  {
    if j > 1 && Barren(st, marks, key, j - 1) {
      CutIsFirst(st, marks, key, j - 1);
    }
  }

  /** The climb ends at one depth only. */
  lemma CutIsUnique(st: Storage, marks: set<Path>, key: Path, st': Storage, marks': set<Path>, cut: nat)
    requires PrunedTo(st, marks, key, st', marks', cut)
    ensures cut == CutFrom(st, marks, key, |key|)
  {
    var first := CutFrom(st, marks, key, |key|);
    CutIsFirst(st, marks, key, |key|);
    assert first <= 1 || !Barren(st, marks, key, first - 1);
    assert cut <= 1 || !Barren(st, marks, key, cut - 1);
  }

  /** A stored, unmarked child of `key[..j]` off the key's path. */
  ghost predicate LiveBeside(st: Storage, marks: set<Path>, key: Path, j: nat)
    requires j < |key|
  {
    exists i :: 0 <= i < RADIX && i != key[j] && key[..j] + [i] in st && key[..j] + [i] !in marks
  }

  lemma ChildOnPath(key: Path, j: nat, i: int)
    requires j < |key|
    ensures key[..j] + [i] <= key <==> i == key[j]
  {
    assert (key[..j] + [i])[j] == i;
    assert key[..j + 1] == key[..j] + [key[j]];
  }

  lemma BarrenMeans(st: Storage, marks: set<Path>, key: Path, j: nat)
    requires j < |key|
    ensures Barren(st, marks, key, j) <==> !LiveBeside(st, marks, key, j)
  {
    forall i
      ensures key[..j] + [i] in PathFrom(key, j + 1) <==> i == key[j]
    {
      ChildOnPath(key, j, i);
    }
    if LiveBeside(st, marks, key, j) {
      var i :| 0 <= i < RADIX && i != key[j] && key[..j] + [i] in st && key[..j] + [i] !in marks;
      assert key[..j] + [i] in st - PathFrom(key, j + 1) && key[..j] + [i] !in marks + PathFrom(key, j + 1);
    }
  }

  /** A node of the key's path goes exactly when nothing lives beside the path from it downwards. */
  lemma CutMeans(st: Storage, marks: set<Path>, key: Path, d: nat)
    requires 1 <= d <= |key|
    ensures CutFrom(st, marks, key, |key|) <= d <==>
      forall j {:trigger LiveBeside(st, marks, key, j)} | d <= j < |key| :: !LiveBeside(st, marks, key, j)
  {
    var cut := CutFrom(st, marks, key, |key|);
    CutIsFirst(st, marks, key, |key|);
    forall j {:trigger LiveBeside(st, marks, key, j)} | cut <= j < |key|
      ensures !LiveBeside(st, marks, key, j)
    {
      assert Barren(st, marks, key, j);
      BarrenMeans(st, marks, key, j);
    }
    if cut > d {
      BarrenMeans(st, marks, key, cut - 1);
      assert LiveBeside(st, marks, key, cut - 1);
    }
  }

  // ----- calls as steps

  datatype TrieState = TrieState(storage: Storage, marks: set<Path>)

  /** The key's leaf is deleted and marked, and so is its path up to the first node with something live beside it. */
  ghost function Forgotten(t: TrieState, key: Path): TrieState
    requires key != []
  {
    var gone := PathFrom(key, CutFrom(t.storage, t.marks, key, |key|));
    TrieState(t.storage - gone, t.marks + gone)
  }

  lemma PrunedIsForgotten(t: TrieState, key: Path, st': Storage, marks': set<Path>, cut: nat)
    requires key != []
    ensures PrunedTo(t.storage, t.marks, key, st', marks', cut) <==>
      TrieState(st', marks') == Forgotten(t, key) && cut == CutFrom(t.storage, t.marks, key, |key|)
  {
    CutIsFirst(t.storage, t.marks, key, |key|);
    if PrunedTo(t.storage, t.marks, key, st', marks', cut) {
      CutIsUnique(t.storage, t.marks, key, st', marks', cut);
    }
  }

  /** One call: any insert, or a prune, which changes nothing when the leaf is absent. */
  ghost function AfterOp(t: TrieState, op: TrieOp): TrieState {
    match op
    case Set(key, value) => TrieState(Inserted(t.storage, key, value), t.marks)
    case Forget(key) => if key in t.storage && key != [] then Forgotten(t, key) else t
  }

  ghost function AfterOps(t: TrieState, ops: seq<TrieOp>): TrieState {
    if ops == [] then t else AfterOp(AfterOps(t, ops[..|ops| - 1]), ops[|ops| - 1])
  }

  ghost predicate ValidOps(ops: seq<TrieOp>) {
    forall i | 0 <= i < |ops| :: ValidKey(ops[i].key)
  }

  lemma AfterOneMore(t: TrieState, ops: seq<TrieOp>, op: TrieOp)
    ensures AfterOps(t, ops + [op]) == AfterOp(AfterOps(t, ops), op)
  {
    assert (ops + [op])[..|ops|] == ops;
  }

  // ----- what a prune takes out of the represented map

  lemma SharedPrefix(key: Path, k: Path, q: Path, cut: nat)
    requires q <= key && q <= k && cut <= |q|
    ensures key[..cut] <= k
  {
    assert key[..cut] == q[..cut] == k[..cut];
  }

  lemma ShorterToo(key: Path, k: Path, d: nat, e: nat)
    requires d <= e <= |key|
    ensures key[..e] <= k ==> key[..d] <= k
  {
    assert key[..d] == key[..e][..d];
  }

  lemma GoneExactly(st: Storage, key: Path, cut: nat, k: Path)
    requires 1 <= cut <= |key|
    ensures k in Represented(st - PathFrom(key, cut)) <==> k in Represented(st) && !(key[..cut] <= k)
    ensures k in Represented(st - PathFrom(key, cut)) ==> Represented(st - PathFrom(key, cut))[k] == Represented(st)[k]
  {
    var st' := st - PathFrom(key, cut);
    if key[..cut] <= k {
      assert key[..cut] in Prefixes(key);
      assert key[..cut] !in st';
    } else {
      forall q: Path | q <= k
        ensures q in st' <==> q in st
      {
        if q in PathFrom(key, cut) {
          SharedPrefix(key, k, q, cut);
        }
      }
    }
  }

  /** A prune takes exactly its own key out of the represented map if and only if every other reachable key under the
      first node of the path is kept by something live beside the path, above where the two keys part. */
  lemma PruneKeepsTheRest(t: TrieState, key: Path)
    requires ValidKey(key)
    ensures Represented(Forgotten(t, key).storage) == Represented(t.storage) - {key} <==>
      forall k | k in Represented(t.storage) && k != key && key[..1] <= k :: KeptBeside(t, key, k)
  {
    var cut := CutFrom(t.storage, t.marks, key, |key|);
    var st' := Forgotten(t, key).storage;
    forall k
      ensures k in Represented(st') <==> k in Represented(t.storage) && !(key[..cut] <= k)
      ensures k in Represented(st') ==> Represented(st')[k] == Represented(t.storage)[k]
    {
      GoneExactly(t.storage, key, cut, k);
    }
    forall k | k in Represented(t.storage) && k != key
      ensures !(key[..cut] <= k) <==> (key[..1] <= k ==> KeptBeside(t, key, k))
    {
      KeptMeans(t, key, k);
    }
    assert key[..cut] <= key;
    if Represented(st') == Represented(t.storage) - {key} {
      forall k | k in Represented(t.storage) && k != key && key[..1] <= k
        ensures KeptBeside(t, key, k)
      {
        assert k in Represented(st');
      }
    }
  }

  ghost predicate KeptBeside(t: TrieState, key: Path, k: Path) {
    exists j {:trigger LiveBeside(t.storage, t.marks, key, j)} ::
      1 <= j < |key| && LiveBeside(t.storage, t.marks, key, j) && !(key[..j + 1] <= k)
  }

  lemma KeptMeans(t: TrieState, key: Path, k: Path)
    requires ValidKey(key)
    ensures !(key[..CutFrom(t.storage, t.marks, key, |key|)] <= k) <==> (key[..1] <= k ==> KeptBeside(t, key, k))
  {
    var cut := CutFrom(t.storage, t.marks, key, |key|);
    if KeptBeside(t, key, k) {
      KeptIsAboveCut(t, key, k);
    } else if key[..1] <= k {
      NotKeptGoes(t, key, k);
    } else {
      SharedStart(key, k, cut);
    }
  }

  lemma SharedStart(key: Path, k: Path, cut: nat)
    requires 1 <= cut <= |key| && !(key[..1] <= k)
    ensures !(key[..cut] <= k)
  {
    ShorterToo(key, k, 1, cut);
  }

  lemma KeptIsAboveCut(t: TrieState, key: Path, k: Path)
    requires ValidKey(key) && KeptBeside(t, key, k)
    ensures !(key[..CutFrom(t.storage, t.marks, key, |key|)] <= k)
  {
    var cut := CutFrom(t.storage, t.marks, key, |key|);
    var j :| 1 <= j < |key| && LiveBeside(t.storage, t.marks, key, j) && !(key[..j + 1] <= k);
    CutMeans(t.storage, t.marks, key, j);
    assert j < cut;
    ShorterToo(key, k, j + 1, cut);
  }

  lemma NotKeptGoes(t: TrieState, key: Path, k: Path)
    requires ValidKey(key) && !KeptBeside(t, key, k) && key[..1] <= k
    ensures key[..CutFrom(t.storage, t.marks, key, |key|)] <= k
  {
    var cut := CutFrom(t.storage, t.marks, key, |key|);
    if cut > 1 {
      CutIsFirst(t.storage, t.marks, key, |key|);
      BarrenMeans(t.storage, t.marks, key, cut - 1);
      assert LiveBeside(t.storage, t.marks, key, cut - 1);
    }
  }
}
