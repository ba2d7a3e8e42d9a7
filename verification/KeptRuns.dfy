/** Runs of writes and prunes on the dirty-flag tree: which values its root counts. */
module KeptRuns {
  import opened Hashes
  import opened Commitments
  import opened TrieModel
  import opened TriePruning
  import opened TrieRuns
  import opened KeptCommitments

  ghost function AfterCall(s: Scheme, v: View, op: TrieOp): View
    requires |op.key| <= KEY_SIZE
  {
    match op
    case Set(key, value) => Written(v, key, value)
    case Forget(key) => if key in v.storage then PrunedView(s, v, key) else v
  }

  ghost function ViewOf(s: Scheme, ops: seq<TrieOp>): View
    requires ValidOps(ops)
  {
    if ops == [] then View(FRESH.storage, {}, map[])
    else
      Earlier(ops);
      AfterCall(s, ViewOf(s, ops[..|ops| - 1]), ops[|ops| - 1])
  }

  /** What a write leaves counted: itself, and of the rest all that is still set or lies under another last node. */
  function Recounted(before: map<Path, Bytes>, live: map<Path, Bytes>, key: Path, value: Bytes): map<Path, Bytes> {
    (map k | k in before && (k in live || !SameLastNode(k, key)) :: before[k])[key := value]
  }

  predicate SameLastNode(k: Path, key: Path) {
    |k| == |key| == KEY_SIZE && k[..KEY_SIZE - 1] == key[..KEY_SIZE - 1]
  }

  /** The values the root counts after the calls: a pruned value goes on counting until a write under its last node. */
  function Counted(ops: seq<TrieOp>): map<Path, Bytes> {
    if ops == [] then map[]
    else
      var front, op := ops[..|ops| - 1], ops[|ops| - 1];
      NextCounted(Counted(front), Meaning(front), op)
  }

  function NextCounted(before: map<Path, Bytes>, live: map<Path, Bytes>, op: TrieOp): map<Path, Bytes> {
    match op
    case Set(key, value) => Recounted(before, live, key, value)
    case Forget(key) => before
  }

  // ----- the state a run keeps

  ghost predicate Shaped(v: View) {
    WellFormed(v.storage) && (forall p, q | p in v.storage && q in Prefixes(p) :: q in v.storage) &&
    forall k | k in v.marks :: |k| == KEY_SIZE && k !in v.storage
  }

  /** Every counted key has its path stored, is stored with its value or lies under a kept last node. */
  ghost predicate Accounts(v: View, c: map<Path, Bytes>) {
    (forall k | k in c :: ValidKey(k) && CountedAt(v, c, k)) && forall k | k in Contents(v.storage) :: k in c
  }

  ghost predicate CountedAt(v: View, c: map<Path, Bytes>, k: Path)
    requires k in c && |k| == KEY_SIZE
  {
    (forall q | q in Prefixes(k) && q != k :: q in v.storage) &&
    if k in v.storage then v.storage[k] == Some(c[k]) else k[..KEY_SIZE - 1] in v.kept
  }

  /** Kept commitments of internal nodes are those of the counted map, and no stored leaf has one. */
  ghost predicate KeepsCounted(s: Scheme, v: View, c: map<Path, Bytes>) {
    forall p {:trigger v.kept[p]} | p in v.kept ::
      |p| <= KEY_SIZE && if |p| == KEY_SIZE then p !in v.storage else v.kept[p] == Canon(s, c, p)
  }

  ghost predicate Sound(s: Scheme, v: View, c: map<Path, Bytes>) {
    Shaped(v) && Accounts(v, c) && KeepsCounted(s, v, c)
  }

  /** Then every stored node commits as in the full tree over the counted map. */
  lemma {:induction false} EffectiveIsCounted(s: Scheme, v: View, c: map<Path, Bytes>, p: Path)
    requires IgnoresTrailingZeros(s) && Sound(s, v, c) && p in v.storage
    ensures Effective(s, v, p) == Canon(s, c, p)
    decreases KEY_SIZE - |p|
  {
    assert ValidPath(p);
    if p in v.kept {
      assert v.kept[p] == v.kept[p];
    } else if |p| == KEY_SIZE {
      LeafIsCounted(v, c, p);
    } else {
      forall i | 0 <= i < RADIX && p + [i] in v.storage
        ensures Effective(s, v, p + [i]) == Canon(s, c, p + [i])
      {
        EffectiveIsCounted(s, v, c, p + [i]);
      }
      RowIsCounted(s, v, c, p);
    }
  }

  lemma RowIsCounted(s: Scheme, v: View, c: map<Path, Bytes>, p: Path)
    requires IgnoresTrailingZeros(s) && Accounts(v, c) && |p| < KEY_SIZE && p !in v.kept
    requires forall i | 0 <= i < RADIX && p + [i] in v.storage :: Effective(s, v, p + [i]) == Canon(s, c, p + [i])
    ensures EffectiveRow(s, v, p) == CanonRow(s, c, p)
  {
    var row, known := EffectiveRow(s, v, p), CanonRow(s, c, p);
    forall i | 0 <= i < RADIX
      ensures row[i] == known[i]
    {
      if p + [i] !in v.storage {
        NothingCountedUnder(v, c, p, i);
        CanonOfNothing(s, c, p + [i]);
      }
    }
  }

  lemma LeafIsCounted(v: View, c: map<Path, Bytes>, p: Path)
    requires Shaped(v) && Accounts(v, c) && p in v.storage && |p| == KEY_SIZE
    ensures LeafValue(v, p) == Lookup(c, p)
  {
    assert p in Contents(v.storage) && CountedAt(v, c, p);
  }

  lemma NothingCountedUnder(v: View, c: map<Path, Bytes>, p: Path, i: int)
    requires Accounts(v, c) && |p| < KEY_SIZE && p !in v.kept && p + [i] !in v.storage
    ensures NoKeyUnder(c, p + [i])
  {
    forall k | k in c
      ensures !(p + [i] <= k)
    {
      assert CountedAt(v, c, k);
      assert p + [i] <= k <==> p + [i] in Prefixes(k);
      ParentOfLeaf(p, i, k);
    }
  }

  lemma ParentOfLeaf(p: Path, i: int, k: Path)
    requires |k| == KEY_SIZE
    ensures k == p + [i] ==> k[..KEY_SIZE - 1] == p
  {
  }

  // ----- one call keeps it

  lemma ForgetKeepsSound(s: Scheme, v: View, c: map<Path, Bytes>, key: Path)
    requires IgnoresTrailingZeros(s) && Sound(s, v, c) && ValidKey(key) && key in v.storage
    ensures Sound(s, PrunedView(s, v, key), c)
  {
    PruneKeepsShape(v, key, PrunedView(s, v, key));
    PruneKeepsAccounts(s, v, c, key);
    PruneKeepsCounted(s, v, c, key);
  }

  lemma PruneKeepsAccounts(s: Scheme, v: View, c: map<Path, Bytes>, key: Path)
    requires Accounts(v, c) && ValidKey(key)
    ensures Accounts(PrunedView(s, v, key), c)
  {
    var w := PrunedView(s, v, key);
    forall k | k in c
      ensures ValidKey(k) && CountedAt(w, c, k)
    {
      assert CountedAt(v, c, k);
      assert k[..KEY_SIZE - 1] in Prefixes(k) && (k == key ==> k[..KEY_SIZE - 1] in PathTo(key, |key| + 1));
    }
  }

  lemma PruneKeepsCounted(s: Scheme, v: View, c: map<Path, Bytes>, key: Path)
    requires IgnoresTrailingZeros(s) && Sound(s, v, c) && ValidKey(key) && key in v.storage
    ensures KeepsCounted(s, PrunedView(s, v, key), c)
  {
    var w := PrunedView(s, v, key);
    forall p | p in w.kept
      ensures |p| <= KEY_SIZE && if |p| == KEY_SIZE then p !in w.storage else w.kept[p] == Canon(s, c, p)
    {
      if p in PathTo(key, |key| + 1) {
        assert w.kept[p] == Effective(s, v, p) && p in v.storage;
        EffectiveIsCounted(s, v, c, p);
        assert |p| == |key| ==> p == key;
      } else {
        assert v.kept[p] == w.kept[p];
      }
    }
  }

  lemma PruneKeepsShape(v: View, key: Path, w: View)
    requires Shaped(v) && ValidKey(key) && w.storage == v.storage - {key} && w.marks == v.marks + {key}
    ensures Shaped(w)
  {
    forall p, q | p in w.storage && q in Prefixes(p)
      ensures q in w.storage
    {
      assert ValidPath(p) && q in v.storage;
      assert |q| == |p| ==> q == p;
    }
  }

  lemma {:induction false} CanonFrame(s: Scheme, c: map<Path, Bytes>, c': map<Path, Bytes>, p: Path)
    requires |p| <= KEY_SIZE && forall k: Path | p <= k && |k| == KEY_SIZE :: Lookup(c, k) == Lookup(c', k)
    ensures Canon(s, c, p) == Canon(s, c', p)
    decreases KEY_SIZE - |p|
  {
    if |p| < KEY_SIZE {
      var row, row' := CanonRow(s, c, p), CanonRow(s, c', p);
      forall i | 0 <= i < RADIX
        ensures row[i] == row'[i]
      {
        assert p <= p + [i];
        CanonFrame(s, c, c', p + [i]);
      }
      assert row == row';
    }
  }

  lemma SetKeepsSound(s: Scheme, v: View, c: map<Path, Bytes>, key: Path, value: Bytes)
    requires Sound(s, v, c) && ValidKey(key)
    ensures Sound(s, Written(v, key, value), Recounted(c, Contents(v.storage), key, value))
  {
    var w, c' := Written(v, key, value), Recounted(c, Contents(v.storage), key, value);
    InsertWellFormed(v.storage, key, value);
    WriteKeepsShape(v, key, value);
    forall k | k in c'
      ensures ValidKey(k) && CountedAt(w, c', k)
    {
      WriteKeepsCounted(v, c, key, value, k);
    }
    InsertContents(v.storage, key, value);
    forall p | p in w.kept
      ensures |p| <= KEY_SIZE && if |p| == KEY_SIZE then p !in w.storage else w.kept[p] == Canon(s, c', p)
    {
      assert v.kept[p] == w.kept[p] && p !in Prefixes(key);
      if |p| < KEY_SIZE {
        OffPathUnchanged(v, c, key, value, p);
        CanonFrame(s, c, c', p);
      }
    }
  }

  lemma WriteKeepsShape(v: View, key: Path, value: Bytes)
    requires Shaped(v) && ValidKey(key)
    ensures Shaped(Written(v, key, value))
  {
    var w := Written(v, key, value);
    InsertWellFormed(v.storage, key, value);
    forall p, q | p in w.storage && q in Prefixes(p)
      ensures q in w.storage
    {
      if p in Prefixes(key) {
        assert q <= key;
      }
    }
    forall k | k in w.marks
      ensures |k| == KEY_SIZE && k !in w.storage
    {
      assert k in Prefixes(key) ==> k == key;
    }
  }

  lemma WriteKeepsCounted(v: View, c: map<Path, Bytes>, key: Path, value: Bytes, k: Path)
    requires Shaped(v) && Accounts(v, c) && ValidKey(key) && k in Recounted(c, Contents(v.storage), key, value)
    ensures ValidKey(k)
    ensures CountedAt(Written(v, key, value), Recounted(c, Contents(v.storage), key, value), k)
  {
    if k != key {
      assert CountedAt(v, c, k);
      assert k !in Prefixes(key);
      if k !in v.storage {
        NodeOnPath(k, key);
      }
    } else {
      forall q | q in Prefixes(key)
        ensures q in Written(v, key, value).storage
      {
      }
      assert key in Prefixes(key);
    }
  }

  lemma NodeOnPath(k: Path, key: Path)
    requires |k| == |key| == KEY_SIZE
    ensures k[..KEY_SIZE - 1] in Prefixes(key) ==> SameLastNode(k, key)
  {
  }

  lemma OffPathUnchanged(v: View, c: map<Path, Bytes>, key: Path, value: Bytes, p: Path)
    requires |key| == KEY_SIZE && |p| < KEY_SIZE && !(p <= key)
    ensures forall k: Path | p <= k && |k| == KEY_SIZE ::
      Lookup(c, k) == Lookup(Recounted(c, Contents(v.storage), key, value), k)
  {
    forall k: Path | p <= k && |k| == KEY_SIZE
      ensures k != key && !SameLastNode(k, key)
    {
      UnderTheSameNode(p, k, key);
    }
  }

  lemma UnderTheSameNode(p: Path, k: Path, key: Path)
    requires |p| < KEY_SIZE && p <= k
    ensures SameLastNode(k, key) ==> p <= key
  {
    if SameLastNode(k, key) {
      assert p == k[..KEY_SIZE - 1][..|p|] == key[..KEY_SIZE - 1][..|p|] == key[..|p|];
    }
  }

  // ----- over every run

  lemma CallKeepsSound(s: Scheme, v: View, c: map<Path, Bytes>, op: TrieOp)
    requires IgnoresTrailingZeros(s) && Sound(s, v, c) && ValidKey(op.key)
    ensures Sound(s, AfterCall(s, v, op), NextCounted(c, Contents(v.storage), op))
  {
    match op
    case Set(key, value) =>
      SetKeepsSound(s, v, c, key, value);
    case Forget(key) =>
      if key in v.storage {
        ForgetKeepsSound(s, v, c, key);
      }
  }

  lemma CallMeans(s: Scheme, v: View, op: TrieOp)
    requires WellFormed(v.storage) && ValidKey(op.key)
    ensures Contents(AfterCall(s, v, op).storage) == NextMeaning(Contents(v.storage), op)
  {
    match op
    case Set(key, value) =>
      InsertContents(v.storage, key, value);
    case Forget(key) =>
  }

  lemma {:induction false} RunIsSound(s: Scheme, ops: seq<TrieOp>)
    requires IgnoresTrailingZeros(s) && ValidOps(ops)
    ensures Sound(s, ViewOf(s, ops), Counted(ops)) && Contents(ViewOf(s, ops).storage) == Meaning(ops)
    decreases |ops|
  {
    if ops == [] {
      FreshIsSound(s);
    } else {
      var front, op := ops[..|ops| - 1], ops[|ops| - 1];
      Earlier(ops);
      RunIsSound(s, front);
      CallKeepsSound(s, ViewOf(s, front), Counted(front), op);
      CallMeans(s, ViewOf(s, front), op);
    }
  }

  lemma FreshIsSound(s: Scheme)
    ensures Sound(s, View(FRESH.storage, {}, map[]), map[])
  {
  }

  /** Over every run of writes and prunes the root is that of the full tree over the counted values. */
  lemma RunRoot(s: Scheme, ops: seq<TrieOp>)
    requires IgnoresTrailingZeros(s) && ValidOps(ops)
    ensures EffectiveRoot(s, ViewOf(s, ops)) == s.digest(Canon(s, Counted(ops), []))
  {
    RunIsSound(s, ops);
    EffectiveIsCounted(s, ViewOf(s, ops), Counted(ops), []);
  }

  /** Over every run a read fails on exactly the keys pruned since they were last set. */
  lemma {:induction false} RunReads(s: Scheme, ops: seq<TrieOp>, key: Path)
    requires ValidOps(ops) && ValidKey(key) && IgnoresTrailingZeros(s)
    ensures ReadingAt(ViewOf(s, ops).storage, ViewOf(s, ops).marks, key) ==
      if PrunedLast(ops, key) then Reading.Pruned else Value(Lookup(Meaning(ops), key))
    decreases |ops|
  {
    RunIsSound(s, ops);
    if ops != [] {
      var front, op := ops[..|ops| - 1], ops[|ops| - 1];
      Earlier(ops);
      RunReads(s, front, key);
      RunIsSound(s, front);
    }
  }

  /** The key was pruned while set, and not set again since. */
  predicate PrunedLast(ops: seq<TrieOp>, key: Path) {
    ops != [] &&
    var front, op := ops[..|ops| - 1], ops[|ops| - 1];
    if op.key != key then PrunedLast(front, key)
    else op.Forget? && (key in Meaning(front) || PrunedLast(front, key))
  }

  /** The writes alone. */
  function WritesOf(ops: seq<TrieOp>): map<Path, Bytes> {
    if ops == [] then map[]
    else
      var before := WritesOf(ops[..|ops| - 1]);
      match ops[|ops| - 1]
      case Set(key, value) => before[key := value]
      case Forget(key) => before
  }

  /** Call `i` writes another key under the last node of `k` while `k` is pruned. */
  predicate DropsAt(ops: seq<TrieOp>, i: nat, k: Path)
    requires i < |ops|
  {
    ops[i].Set? && ops[i].key != k && SameLastNode(k, ops[i].key) && PrunedLast(ops[..i], k)
  }

  predicate WrittenAfter(ops: seq<TrieOp>, i: nat, k: Path) {
    exists j :: i < j < |ops| && ops[j].Set? && ops[j].key == k
  }

  /** Some call drops the pruned `k` from the root, and `k` is never written again. */
  predicate DroppedForGood(ops: seq<TrieOp>, k: Path) {
    exists i: nat {:trigger DropsAt(ops, i, k)} :: i < |ops| && DropsAt(ops, i, k) && !WrittenAfter(ops, i, k)
  }

  lemma DroppedStep(ops: seq<TrieOp>, k: Path)
    requires ops != []
    ensures
      var n := |ops| - 1;
      DroppedForGood(ops, k) <==>
        !(ops[n].Set? && ops[n].key == k) && (DroppedForGood(ops[..n], k) || DropsAt(ops, n, k))
  {
    var n := |ops| - 1;
    var front := ops[..n];
    forall i: nat | i < n
      ensures DropsAt(ops, i, k) == DropsAt(front, i, k)
      ensures WrittenAfter(ops, i, k) <==> WrittenAfter(front, i, k) || (ops[n].Set? && ops[n].key == k)
    {
      assert front[..i] == ops[..i];
      if j :| i < j < |front| && front[j].Set? && front[j].key == k {
        assert ops[j] == front[j];
      }
      if j :| i < j < |ops| && ops[j].Set? && ops[j].key == k {
        assert j < n ==> front[j] == ops[j];
      }
    }
    if DroppedForGood(front, k) {
      var i: nat :| i < |front| && DropsAt(front, i, k) && !WrittenAfter(front, i, k);
      assert DropsAt(ops, i, k);
    }
    if DroppedForGood(ops, k) {
      var i: nat :| i < |ops| && DropsAt(ops, i, k) && !WrittenAfter(ops, i, k);
      assert i < n ==> DropsAt(front, i, k);
    }
  }

  /** A key once written is either still set or pruned since. */
  lemma {:induction false} WrittenIsSetOrPruned(ops: seq<TrieOp>, k: Path)
    ensures k in WritesOf(ops) ==> (k in Meaning(ops) <==> !PrunedLast(ops, k))
    ensures k !in WritesOf(ops) ==> k !in Meaning(ops) && !PrunedLast(ops, k)
    decreases |ops|
  {
    if ops != [] {
      WrittenIsSetOrPruned(ops[..|ops| - 1], k);
    }
  }

  /** The root counts exactly the written keys that were not dropped for good, with the values written last. */
  lemma {:induction false} CountedExactly(ops: seq<TrieOp>, k: Path)
    requires ValidOps(ops)
    ensures Lookup(Counted(ops), k) == if DroppedForGood(ops, k) then None else Lookup(WritesOf(ops), k)
    ensures DroppedForGood(ops, k) ==> k in WritesOf(ops)
    decreases |ops|
  {
    if ops != [] {
      var n := |ops| - 1;
      Earlier(ops);
      CountedExactly(ops[..n], k);
      DroppedStep(ops, k);
      WrittenIsSetOrPruned(ops[..n], k);
    }
  }

  lemma CountedIsWritten(ops: seq<TrieOp>)
    requires ValidOps(ops)
    ensures Counted(ops) == WritesOf(ops) <==> forall k :: !DroppedForGood(ops, k)
  {
    forall k
      ensures Lookup(Counted(ops), k) == if DroppedForGood(ops, k) then None else Lookup(WritesOf(ops), k)
      ensures DroppedForGood(ops, k) ==> k in WritesOf(ops)
    {
      CountedExactly(ops, k);
    }
    if forall k :: !DroppedForGood(ops, k) {
      LookupsDecide(Counted(ops), WritesOf(ops));
    }
  }

  /** The prunes of a run are invisible in the root if no call drops a pruned key that is never written again; and
      without collisions only then. */
  lemma PrunesInvisibleExactlyWhen(s: Scheme, ops: seq<TrieOp>)
    requires IgnoresTrailingZeros(s) && ValidOps(ops)
    ensures (forall k :: !DroppedForGood(ops, k)) ==>
      EffectiveRoot(s, ViewOf(s, ops)) == s.digest(Canon(s, WritesOf(ops), []))
    ensures CollisionFree(s) && EffectiveRoot(s, ViewOf(s, ops)) == s.digest(Canon(s, WritesOf(ops), [])) ==>
      forall k :: !DroppedForGood(ops, k)
  {
    CountedIsWritten(ops);
    RunRoot(s, ops);
    RunIsSound(s, ops);
    WritesAreValid(ops);
    if CollisionFree(s) && EffectiveRoot(s, ViewOf(s, ops)) == s.digest(Canon(s, WritesOf(ops), [])) {
      DigestInjective(s, Canon(s, Counted(ops), []), Canon(s, WritesOf(ops), []));
      MapsAgree(s, Counted(ops), WritesOf(ops));
    }
  }

  lemma {:induction false} WritesAreValid(ops: seq<TrieOp>)
    requires ValidOps(ops)
    ensures forall k | k in WritesOf(ops) :: ValidKey(k)
    decreases |ops|
  {
    if ops != [] {
      Earlier(ops);
      WritesAreValid(ops[..|ops| - 1]);
    }
  }
}
