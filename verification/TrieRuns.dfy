/** Runs of inserts and prunes on a fresh trie, marked keys written again included. */
module TrieRuns {
  import opened Hashes
  import opened Commitments
  import opened TrieModel
  import opened TriePruning

  const FRESH: TrieState := TrieState(map[[] := None], {})

  ghost function RunOf(ops: seq<TrieOp>): TrieState {
    AfterOps(FRESH, ops)
  }

  /** The same calls on a plain map. */
  function Meaning(ops: seq<TrieOp>): map<Path, Bytes> {
    if ops == [] then map[] else NextMeaning(Meaning(ops[..|ops| - 1]), ops[|ops| - 1])
  }

  function NextMeaning(before: map<Path, Bytes>, op: TrieOp): map<Path, Bytes> {
    match op
    case Set(key, value) => before[key := value]
    case Forget(key) => before - {key}
  }

  lemma Earlier(ops: seq<TrieOp>)
    requires ops != [] && ValidOps(ops)
    ensures ValidOps(ops[..|ops| - 1]) && ValidKey(ops[|ops| - 1].key)
  {
  }

  // ----- leaves and marks, over every run

  /** Stored leaves have values, addresses are valid, and the root is there. */
  ghost predicate WellFormed(st: Storage) {
    [] in st && forall p | p in st :: ValidPath(p) && (|p| == KEY_SIZE ==> st[p].Some?)
  }

  lemma InsertWellFormed(st: Storage, key: Path, value: Bytes)
    requires WellFormed(st) && ValidKey(key)
    ensures WellFormed(Inserted(st, key, value))
  {
    assert [] in Prefixes(key);
  }

  lemma ForgetWellFormed(t: TrieState, key: Path)
    requires WellFormed(t.storage) && ValidKey(key)
    ensures WellFormed(Forgotten(t, key).storage)
    ensures Contents(Forgotten(t, key).storage) == Contents(t.storage) - {key}
  {
    var cut := CutFrom(t.storage, t.marks, key, |key|);
    PathFromKeepsOthers(key, cut);
    OneLeafLess(t.storage, key, cut);
  }

  /** Over every run the stored leaves are exactly the plain map of the calls. */
  lemma {:induction false} LeavesMean(ops: seq<TrieOp>)
    requires ValidOps(ops)
    ensures WellFormed(RunOf(ops).storage) && Contents(RunOf(ops).storage) == Meaning(ops)
    decreases |ops|
  {
    if ops != [] {
      var front, op := ops[..|ops| - 1], ops[|ops| - 1];
      Earlier(ops);
      LeavesMean(front);
      var t := RunOf(front);
      match op
      case Set(key, value) =>
        InsertWellFormed(t.storage, key, value);
        InsertContents(t.storage, key, value);
      case Forget(key) =>
        if key in t.storage {
          ForgetWellFormed(t, key);
        }
    }
  }

  lemma LeafStored(ops: seq<TrieOp>, key: Path)
    requires ValidOps(ops) && ValidKey(key)
    ensures key in RunOf(ops).storage <==> key in Meaning(ops)
    ensures ValueAt(RunOf(ops).storage, key) == Lookup(Meaning(ops), key)
  {
    LeavesMean(ops);
  }

  ghost predicate SetAt(ops: seq<TrieOp>, i: int, key: Path) {
    0 <= i < |ops| && ops[i].Set? && ops[i].key == key
  }

  ghost predicate ForgetAt(ops: seq<TrieOp>, j: int, key: Path) {
    0 <= j < |ops| && ops[j] == Forget(key)
  }

  /** The key was set at some call and pruned at some later one. */
  ghost predicate SetThenForgotten(ops: seq<TrieOp>, key: Path) {
    exists i, j {:trigger SetAt(ops, i, key), ForgetAt(ops, j, key)} ::
      i < j && SetAt(ops, i, key) && ForgetAt(ops, j, key)
  }

  lemma {:induction false} MeaningKnows(ops: seq<TrieOp>, key: Path)
    ensures key in Meaning(ops) ==> exists i :: SetAt(ops, i, key)
    ensures key !in Meaning(ops) && (exists i :: SetAt(ops, i, key)) ==> SetThenForgotten(ops, key)
    decreases |ops|
  {
    if ops != [] {
      var n := |ops| - 1;
      MeaningKnows(ops[..n], key);
      Prolonged(ops, key);
      if key in Meaning(ops[..n]) {
        var i :| SetAt(ops[..n], i, key);
        assert SetAt(ops, i, key);
      }
      if SetAt(ops, n, key) {
      } else if ForgetAt(ops, n, key) {
        if exists i :: SetAt(ops, i, key) {
          var i :| SetAt(ops, i, key);
          assert i < n && ForgetAt(ops, n, key);
        }
      } else if exists i :: SetAt(ops, i, key) {
        var i :| SetAt(ops, i, key);
        assert SetAt(ops[..n], i, key);
      }
    }
  }

  /** What a shorter run knew, the longer one knows. */
  lemma Prolonged(ops: seq<TrieOp>, key: Path)
    requires ops != []
    ensures forall i | SetAt(ops[..|ops| - 1], i, key) :: SetAt(ops, i, key)
    ensures forall j | ForgetAt(ops[..|ops| - 1], j, key) :: ForgetAt(ops, j, key)
    ensures SetThenForgotten(ops[..|ops| - 1], key) ==> SetThenForgotten(ops, key)
  {
    var front := ops[..|ops| - 1];
    if SetThenForgotten(front, key) {
      var i, j :| i < j && SetAt(front, i, key) && ForgetAt(front, j, key);
      assert SetAt(ops, i, key) && ForgetAt(ops, j, key);
    }
  }

  /** A key is marked exactly when it was set and later pruned, whatever happened since. */
  lemma {:induction false} MarkedExactly(ops: seq<TrieOp>, key: Path)
    requires ValidOps(ops) && ValidKey(key)
    ensures key in RunOf(ops).marks <==> SetThenForgotten(ops, key)
    decreases |ops|
  {
    if ops != [] {
      var n := |ops| - 1;
      var front, op := ops[..n], ops[n];
      Earlier(ops);
      MarkedExactly(front, key);
      Prolonged(ops, key);
      MeaningKnows(front, key);
      LeafStored(front, op.key);
      LastMarks(RunOf(front), op, key);
      if SetThenForgotten(ops, key) && !SetThenForgotten(front, key) {
        var i, j :| i < j && SetAt(ops, i, key) && ForgetAt(ops, j, key);
        assert SetAt(front, i, key);
        assert j == n || ForgetAt(front, j, key);
      }
      if op == Forget(key) && key in Meaning(front) {
        var i :| SetAt(front, i, key);
        assert SetAt(ops, i, key) && ForgetAt(ops, n, key);
      }
    }
  }

  lemma LastMarks(t: TrieState, op: TrieOp, key: Path)
    requires ValidKey(key) && ValidKey(op.key)
    ensures key in AfterOp(t, op).marks <==> key in t.marks || (op == Forget(key) && key in t.storage)
  {
    if op.Forget? && op.key in t.storage {
      PathFromKeepsOthers(op.key, CutFrom(t.storage, t.marks, op.key, |op.key|));
    }
  }

  /** Over every run: a key that was pruned after being set reads as pruned for ever, set again or not; any other key
      reads as in the plain map. */
  lemma ReadsExactly(ops: seq<TrieOp>, key: Path)
    requires ValidOps(ops) && ValidKey(key)
    ensures ReadingAt(RunOf(ops).storage, RunOf(ops).marks, key) ==
      if SetThenForgotten(ops, key) then Reading.Pruned else Value(Lookup(Meaning(ops), key))
  {
    MarkedExactly(ops, key);
    LeafStored(ops, key);
  }

  /** A rollback keeps the leaves and forgets the marks: every key then reads as in the plain map, and as it did before
      exactly when it was not pruned after being set. */
  lemma WithoutMarksReadsExactly(ops: seq<TrieOp>, key: Path)
    requires ValidOps(ops) && ValidKey(key)
    ensures ReadingAt(RunOf(ops).storage, {}, key) == Value(Lookup(Meaning(ops), key))
    ensures ReadingAt(RunOf(ops).storage, {}, key) == ReadingAt(RunOf(ops).storage, RunOf(ops).marks, key) <==>
      !SetThenForgotten(ops, key)
  {
    ReadsExactly(ops, key);
    LeafStored(ops, key);
  }

  // ----- which runs still stand for the plain map

  /** The call at `j` prunes a stored key and takes the node `p` of its path away. */
  ghost predicate Clears(ops: seq<TrieOp>, j: nat, p: Path)
    requires j < |ops|
  {
    ops[j].Forget? && TakesAway(RunOf(ops[..j]), ops[j].key, p)
  }

  ghost predicate TakesAway(t: TrieState, key: Path, p: Path) {
    key in t.storage && p <= key && p != [] &&
    forall m {:trigger LiveBeside(t.storage, t.marks, key, m)} | |p| <= m < |key| ::
      !LiveBeside(t.storage, t.marks, key, m)
  }

  /** A call after `j` inserts a key under `p`. */
  ghost predicate Recreated(ops: seq<TrieOp>, j: int, p: Path) {
    exists i {:trigger ops[i]} :: 0 <= i < |ops| && j < i && ops[i].Set? && p <= ops[i].key
  }

  ghost predicate Alive(ops: seq<TrieOp>, p: Path) {
    Recreated(ops, -1, p) &&
    forall j: nat {:trigger Clears(ops, j, p)} | j < |ops| && Clears(ops, j, p) :: Recreated(ops, j, p)
  }

  lemma TakenAwayMeans(t: TrieState, key: Path, p: Path)
    requires ValidKey(key) && key in t.storage && p != []
    ensures p in Forgotten(t, key).storage <==> p in t.storage && !TakesAway(t, key, p)
  {
    var cut := CutFrom(t.storage, t.marks, key, |key|);
    if p <= key {
      CutMeans(t.storage, t.marks, key, |p|);
      assert p in Prefixes(key);
    }
  }

  lemma RecreatedInFront(ops: seq<TrieOp>, j: int, p: Path)
    requires ops != []
    ensures
      var n := |ops| - 1;
      Recreated(ops, j, p) <==> Recreated(ops[..n], j, p) || (j < n && ops[n].Set? && p <= ops[n].key)
  {
    var n := |ops| - 1;
    var front := ops[..n];
    if Recreated(ops, j, p) {
      var i :| 0 <= i < |ops| && j < i && ops[i].Set? && p <= ops[i].key;
      assert i < n ==> front[i] == ops[i];
    }
    if Recreated(front, j, p) {
      var i :| 0 <= i < |front| && j < i && front[i].Set? && p <= front[i].key;
      assert ops[i] == front[i];
    }
  }

  lemma ClearsInFront(ops: seq<TrieOp>, j: nat, p: Path)
    requires j < |ops| - 1
    ensures Clears(ops, j, p) <==> Clears(ops[..|ops| - 1], j, p)
  {
    assert ops[..|ops| - 1][..j] == ops[..j];
  }

  lemma AliveStep(ops: seq<TrieOp>, p: Path)
    requires ops != []
    ensures
      var n := |ops| - 1;
      Alive(ops, p) <==>
        if ops[n].Set? && p <= ops[n].key then true else Alive(ops[..n], p) && !Clears(ops, n, p)
  {
    var n := |ops| - 1;
    var front := ops[..n];
    RecreatedInFront(ops, -1, p);
    forall j: nat | j < n
      ensures Clears(ops, j, p) <==> Clears(front, j, p)
      ensures Recreated(ops, j, p) <==> Recreated(front, j, p) || (ops[n].Set? && p <= ops[n].key)
    {
      ClearsInFront(ops, j, p);
      RecreatedInFront(ops, j, p);
    }
    RecreatedInFront(ops, n, p);
  }

  /** A node other than the root is stored exactly when some call inserted a key under it and every prune that took it
      away was followed by such a call. */
  lemma {:induction false} StoredExactly(ops: seq<TrieOp>, p: Path)
    requires ValidOps(ops) && p != []
    ensures p in RunOf(ops).storage <==> Alive(ops, p)
    decreases |ops|
  {
    if ops != [] {
      var n := |ops| - 1;
      Earlier(ops);
      StoredExactly(ops[..n], p);
      AliveStep(ops, p);
      if ops[n].Forget? && ops[n].key in RunOf(ops[..n]).storage {
        TakenAwayMeans(RunOf(ops[..n]), ops[n].key, p);
      }
    }
  }

  lemma TakenAwayIsMarked(t: TrieState, key: Path, p: Path)
    requires ValidKey(key) && key in t.storage
    ensures p in Forgotten(t, key).marks <==> p in t.marks || TakesAway(t, key, p)
  {
    if p <= key && p != [] {
      CutMeans(t.storage, t.marks, key, |p|);
    }
  }

  /** A node of any depth is marked exactly when some prune took it away; no insert takes a mark off again. */
  lemma {:induction false} NodesMarkedExactly(ops: seq<TrieOp>, p: Path)
    requires ValidOps(ops)
    ensures p in RunOf(ops).marks <==> exists j: nat {:trigger Clears(ops, j, p)} :: j < |ops| && Clears(ops, j, p)
    decreases |ops|
  {
    if ops != [] {
      var n := |ops| - 1;
      var front := ops[..n];
      Earlier(ops);
      NodesMarkedExactly(front, p);
      forall j: nat | j < n
        ensures Clears(ops, j, p) <==> Clears(front, j, p)
      {
        ClearsInFront(ops, j, p);
      }
      if ops[n].Forget? && ops[n].key in RunOf(front).storage {
        TakenAwayIsMarked(RunOf(front), ops[n].key, p);
      }
      assert Clears(ops, n, p) <==> ops[n].Forget? && TakesAway(RunOf(front), ops[n].key, p);
    }
  }

  /** The trie still stands for the plain map of the calls. */
  ghost predicate StandsFor(ops: seq<TrieOp>) {
    Represented(RunOf(ops).storage) == Meaning(ops)
  }

  /** Every node a prune took away above a key that is still set was created again by a later insert. */
  ghost predicate NothingOrphaned(ops: seq<TrieOp>) {
    forall k, p, j: nat {:trigger p in Prefixes(k), Clears(ops, j, p)} |
      k in Meaning(ops) && p in Prefixes(k) && j < |ops| && Clears(ops, j, p) :: Recreated(ops, j, p)
  }

  lemma ReachableMeans(st: Storage, k: Path)
    requires WellFormed(st)
    ensures k in Represented(st) <==> k in Contents(st) && forall p | p in Prefixes(k) :: p in st
    ensures k in Represented(st) ==> Represented(st)[k] == Contents(st)[k]
  {
  }

  /** Over every run: the represented map is the plain map of the calls if and only if no prune left a key orphaned. */
  lemma StandsExactlyWhen(ops: seq<TrieOp>)
    requires ValidOps(ops)
    ensures StandsFor(ops) <==> NothingOrphaned(ops)
  {
    var st := RunOf(ops).storage;
    LeavesMean(ops);
    if NothingOrphaned(ops) {
      forall k
        ensures k in Represented(st) <==> k in Meaning(ops)
        ensures k in Represented(st) ==> Represented(st)[k] == Meaning(ops)[k]
      {
        ReachableMeans(st, k);
        if k in Meaning(ops) {
          forall p | p in Prefixes(k)
            ensures p in st
          {
            NotOrphaned(ops, k, p);
          }
        }
      }
    }
    if StandsFor(ops) {
      forall k, p, j: nat | k in Meaning(ops) && p in Prefixes(k) && j < |ops| && Clears(ops, j, p)
        ensures Recreated(ops, j, p)
      {
        ReachableMeans(st, k);
        StoredExactly(ops, p);
      }
    }
  }

  lemma NotOrphaned(ops: seq<TrieOp>, k: Path, p: Path)
    requires ValidOps(ops) && NothingOrphaned(ops) && k in Meaning(ops) && p in Prefixes(k)
    ensures p in RunOf(ops).storage
  {
    LeavesMean(ops);
    if p != [] {
      StoredExactly(ops, p);
      MeaningKnows(ops, k);
      var i :| SetAt(ops, i, k);
      assert Recreated(ops, -1, p);
    }
  }

  /** Runs in which no insert meets a mark on its path. */
  ghost predicate MeetsNoMarks(ops: seq<TrieOp>) {
    forall i, p {:trigger ops[i], p in Prefixes(ops[i].key)} |
      0 <= i < |ops| && ops[i].Set? && p in Prefixes(ops[i].key) :: p !in RunOf(ops[..i]).marks
  }

  lemma FrontMeetsNoMarks(ops: seq<TrieOp>, n: nat)
    requires |ops| == n + 1 && MeetsNoMarks(ops)
    ensures MeetsNoMarks(ops[..n])
    ensures ops[n].Set? ==> forall p | p in Prefixes(ops[n].key) :: p !in RunOf(ops[..n]).marks
  {
    var front := ops[..n];
    forall i, p {:trigger front[i], p in Prefixes(front[i].key)} |
      0 <= i < |front| && front[i].Set? && p in Prefixes(front[i].key)
      ensures p !in RunOf(front[..i]).marks
    {
      assert front[i] == ops[i] && front[..i] == ops[..i];
    }
  }

  lemma {:induction false} CleanRuns(ops: seq<TrieOp>)
    requires ValidOps(ops) && MeetsNoMarks(ops)
    ensures Rooted(RunOf(ops).storage) && Unmarked(RunOf(ops).storage, RunOf(ops).marks)
    decreases |ops|
  {
    if ops != [] {
      var n := |ops| - 1;
      Earlier(ops);
      FrontMeetsNoMarks(ops, n);
      CleanRuns(ops[..n]);
      CleanStep(RunOf(ops[..n]), ops[n]);
      LastOp(ops, RunOf(ops[..n]));
    }
  }

  lemma CleanStep(t: TrieState, op: TrieOp)
    requires Rooted(t.storage) && Unmarked(t.storage, t.marks) && ValidKey(op.key)
    requires op.Set? ==> forall p | p in Prefixes(op.key) :: p !in t.marks
    ensures Rooted(AfterOp(t, op).storage) && Unmarked(AfterOp(t, op).storage, AfterOp(t, op).marks)
  {
    match op
    case Set(key, value) =>
      InsertRooted(t.storage, key, value);
    case Forget(key) =>
      if key in t.storage {
        var u, cut := Forgotten(t, key), CutFrom(t.storage, t.marks, key, |key|);
        PrunedIsForgotten(t, key, u.storage, u.marks, cut);
        PruneForgets(t.storage, t.marks, key, u.storage, u.marks, cut);
      }
  }

  /** Such runs always stand for the plain map. */
  lemma CleanRunsStand(ops: seq<TrieOp>)
    requires ValidOps(ops) && MeetsNoMarks(ops)
    ensures StandsFor(ops)
  {
    CleanRuns(ops);
    LeavesMean(ops);
    VisibleIsRooted(RunOf(ops).storage);
  }

  /** Any two runs: with collision-free maps the roots agree exactly when the represented maps do; the plain maps of the
      calls may stand in for those exactly when nothing was orphaned. */
  lemma RunsAgree(s: Scheme, ops: seq<TrieOp>, ops': seq<TrieOp>)
    requires IgnoresTrailingZeros(s) && ValidOps(ops) && ValidOps(ops')
    ensures Represented(RunOf(ops).storage) == Represented(RunOf(ops').storage) ==>
      Root(s, RunOf(ops).storage) == Root(s, RunOf(ops').storage)
    ensures CollisionFree(s) && Root(s, RunOf(ops).storage) == Root(s, RunOf(ops').storage) ==>
      Represented(RunOf(ops).storage) == Represented(RunOf(ops').storage)
    ensures NothingOrphaned(ops) && NothingOrphaned(ops') && Meaning(ops) == Meaning(ops') ==>
      Root(s, RunOf(ops).storage) == Root(s, RunOf(ops').storage)
  {
    var st, st' := RunOf(ops).storage, RunOf(ops').storage;
    LeavesMean(ops);
    LeavesMean(ops');
    RootIsRepresented(s, st);
    RootIsRepresented(s, st');
    StandsExactlyWhen(ops);
    StandsExactlyWhen(ops');
    if CollisionFree(s) && Root(s, st) == Root(s, st') {
      DigestInjective(s, Canon(s, Represented(st), []), Canon(s, Represented(st'), []));
      MapsAgree(s, Represented(st), Represented(st'));
    }
  }

  // ----- a run that orphans a key

  /** Two keys that part at the last byte are set, one is pruned and set again, then the other is pruned. */
  ghost function OrphaningRun(a: Path, v: Bytes, b: Path, w: Bytes): seq<TrieOp> {
    [Set(a, v), Set(b, w), Forget(a), Set(a, v), Forget(b)]
  }

  /** From the fresh trie: the key set twice is in the plain map and its leaf is stored, but the trie represents
      nothing, and has the root of the empty one. */
  lemma OrphanReached(s: Scheme, a: Path, v: Bytes, b: Path, w: Bytes)
    requires IgnoresTrailingZeros(s)
    requires ValidKey(a) && ValidKey(b) && a != b && a[..KEY_SIZE - 1] == b[..KEY_SIZE - 1]
    ensures Meaning(OrphaningRun(a, v, b, w)) == map[a := v]
    ensures Represented(RunOf(OrphaningRun(a, v, b, w)).storage) == map[]
    ensures Root(s, RunOf(OrphaningRun(a, v, b, w)).storage) == Root(s, FRESH.storage)
  {
    var ops := OrphaningRun(a, v, b, w);
    MeaningOfOrphaning(a, v, b, w);
    LeavesMean(ops);
    FirstNodeGone(a, v, b, w);
    assert b[..1] == a[..KEY_SIZE - 1][..1] == a[..1] && a[..1] in Prefixes(a);
    forall k
      ensures k !in Represented(RunOf(ops).storage)
    {
      ReachableMeans(RunOf(ops).storage, k);
    }
    assert Represented(FRESH.storage) == map[];
    RootIsRepresented(s, RunOf(ops).storage);
    RootIsRepresented(s, FRESH.storage);
  }

  lemma FirstNodeGone(a: Path, v: Bytes, b: Path, w: Bytes)
    requires ValidKey(a) && ValidKey(b) && a != b && a[..KEY_SIZE - 1] == b[..KEY_SIZE - 1]
    ensures b[..1] !in RunOf(OrphaningRun(a, v, b, w)).storage
  {
    var ops := OrphaningRun(a, v, b, w);
    var t := RunOf(ops[..4]);
    BeforeOrphaning(a, v, b, w);
    forall m {:trigger LiveBeside(t.storage, t.marks, b, m)} | 1 <= m < |b|
      ensures !LiveBeside(t.storage, t.marks, b, m)
    {
      NothingBeside(t, a, b, m);
    }
    assert TakesAway(t, b, b[..1]);
    TakenAwayMeans(t, b, b[..1]);
    LastOp(ops, t);
  }

  lemma LastOp(ops: seq<TrieOp>, t: TrieState)
    requires ops != [] && t == RunOf(ops[..|ops| - 1])
    ensures RunOf(ops) == AfterOp(t, ops[|ops| - 1])
  {
  }

  lemma MeaningOfOrphaning(a: Path, v: Bytes, b: Path, w: Bytes)
    requires a != b
    ensures Meaning(OrphaningRun(a, v, b, w)) == map[a := v]
    ensures b in Meaning(OrphaningRun(a, v, b, w)[..4])
  {
    var ops := OrphaningRun(a, v, b, w);
    assert Meaning([]) == map[];
    assert ops[..1] == [Set(a, v)] && ops[..1][..0] == [];
    assert Meaning(ops[..1]) == map[a := v];
    assert ops[..2][..1] == ops[..1];
    assert Meaning(ops[..2]) == map[a := v, b := w];
    assert ops[..3][..2] == ops[..2];
    assert Meaning(ops[..3]) == map[b := w];
    assert ops[..4][..3] == ops[..3];
    assert Meaning(ops[..4]) == map[b := w, a := v];
  }

  /** Before the last prune only the two paths are stored, and the key set again is marked. */
  lemma BeforeOrphaning(a: Path, v: Bytes, b: Path, w: Bytes)
    requires ValidKey(a) && ValidKey(b) && a != b
    ensures
      var t := RunOf(OrphaningRun(a, v, b, w)[..4]);
      t.storage.Keys <= {[]} + Prefixes(a) + Prefixes(b) && a in t.marks && b in t.storage
  {
    var ops := OrphaningRun(a, v, b, w);
    assert ops[..4][..3] == ops[..3] && ops[..3][..2] == ops[..2] && ops[..2][..1] == ops[..1] && ops[..1][..0] == [];
    assert SetAt(ops[..4], 0, a) && ForgetAt(ops[..4], 2, a);
    MarkedExactly(ops[..4], a);
    MeaningOfOrphaning(a, v, b, w);
    LeafStored(ops[..4], b);
    StoredUnderKeys(ops[..4], {a, b});
    assert forall p | p in RunOf(ops[..4]).storage :: UnderSome(p, {a, b});
  }

  lemma {:induction false} StoredUnderKeys(ops: seq<TrieOp>, keys: set<Path>)
    requires ValidOps(ops) && forall i | 0 <= i < |ops| :: ops[i].key in keys
    ensures forall p | p in RunOf(ops).storage :: UnderSome(p, keys)
    decreases |ops|
  {
    if ops != [] {
      var n := |ops| - 1;
      StoredUnderKeys(ops[..n], keys);
      forall p | p in RunOf(ops).storage
        ensures UnderSome(p, keys)
      {
        assert p in RunOf(ops[..n]).storage || p in Prefixes(ops[n].key);
      }
    }
  }

  ghost predicate UnderSome(p: Path, keys: set<Path>) {
    p == [] || exists k :: k in keys && p in Prefixes(k)
  }

  lemma NothingBeside(t: TrieState, a: Path, b: Path, m: nat)
    requires ValidKey(a) && ValidKey(b) && a != b && a[..KEY_SIZE - 1] == b[..KEY_SIZE - 1] && 1 <= m < KEY_SIZE
    requires t.storage.Keys <= {[]} + Prefixes(a) + Prefixes(b) && a in t.marks
    ensures !LiveBeside(t.storage, t.marks, b, m)
  {
    forall j | 0 <= j < KEY_SIZE - 1
      ensures a[j] == b[j]
    {
      assert a[j] == a[..KEY_SIZE - 1][j] && b[j] == b[..KEY_SIZE - 1][j];
    }
    assert b[..m] == a[..m] && a == a[..KEY_SIZE - 1] + [a[KEY_SIZE - 1]];
    forall i | 0 <= i < RADIX && i != b[m] && b[..m] + [i] in t.storage
      ensures b[..m] + [i] in t.marks
    {
      ChildOnPath(b, m, i);
      ChildOnPath(a, m, i);
    }
  }
}
