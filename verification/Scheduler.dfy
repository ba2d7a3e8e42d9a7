/** The first-fit scheduler: transactions in id order are packed into groups that are free of access conflicts. */
module Scheduler {
  import opened Hashes

  datatype AccessSet = AccessSet(readSet: set<Hash>, writeSet: set<Hash>)

  /** What the scheduler looks at: the id that orders a transaction, and the keys it touches. */
  datatype Tx = Tx(id: Hash, access: AccessSet)

  datatype Scheduled = Scheduled(tx: Tx, index: nat)

  type Group = seq<Scheduled>

  predicate HasConflict(a: AccessSet, b: AccessSet) {
    a.writeSet * b.readSet != {} || a.writeSet * b.writeSet != {} || b.writeSet * a.readSet != {}
  }

  /** Two access sets conflict when some key is touched by both and written by at least one. */
  lemma ConflictMeans(a: AccessSet, b: AccessSet)
    ensures HasConflict(a, b) <==>
      exists k :: k in a.readSet + a.writeSet && k in b.readSet + b.writeSet && k in a.writeSet + b.writeSet
    ensures HasConflict(a, b) == HasConflict(b, a)
  {
    var both := a.writeSet * b.readSet + a.writeSet * b.writeSet + b.writeSet * a.readSet;
    if both != {} {
      var k := Member(both);
      assert k in a.readSet + a.writeSet && k in b.readSet + b.writeSet && k in a.writeSet + b.writeSet;
    }
    forall k | k in a.readSet + a.writeSet && k in b.readSet + b.writeSet && k in a.writeSet + b.writeSet
      ensures both != {}
    {
      assert k in both;
    }
  }

  function Merge(a: AccessSet, b: AccessSet): AccessSet {
    AccessSet(a.readSet + b.readSet, a.writeSet + b.writeSet)
  }

  ghost predicate Rival(a: Scheduled, b: Scheduled) {
    HasConflict(a.tx.access, b.tx.access)
  }

  predicate Clashes(group: Group, candidate: Scheduled) {
    exists i | 0 <= i < |group| :: HasConflict(group[i].tx.access, candidate.tx.access)
  }

  // ----- one round

  /** The group one pass over the queue collects, and what it leaves behind. */
  function Picked(queue: Group): (r: Group)
    ensures |r| <= |queue| && (queue != [] ==> r != [])
  {
    if queue == [] then []
    else
      var n := |queue| - 1;
      var group := Picked(queue[..n]);
      if Clashes(group, queue[n]) then group else group + [queue[n]]
  }

  function Deferred(queue: Group): (r: Group)
    ensures |r| + |Picked(queue)| == |queue|
  {
    if queue == [] then []
    else
      var n := |queue| - 1;
      Deferred(queue[..n]) + (if Clashes(Picked(queue[..n]), queue[n]) then [queue[n]] else [])
  }

  lemma RoundStep(queue: Group, n: nat)
    requires |queue| == n + 1
    ensures Clashes(Picked(queue[..n]), queue[n]) ==>
      Picked(queue) == Picked(queue[..n]) && Deferred(queue) == Deferred(queue[..n]) + [queue[n]]
    ensures !Clashes(Picked(queue[..n]), queue[n]) ==>
      Picked(queue) == Picked(queue[..n]) + [queue[n]] && Deferred(queue) == Deferred(queue[..n])
  {
  }

  lemma {:induction false} RoundSplits(queue: Group)
    ensures multiset(Picked(queue)) + multiset(Deferred(queue)) == multiset(queue)
  {
    if queue != [] {
      var n := |queue| - 1;
      RoundSplits(queue[..n]);
      OneMoreQueued(queue[..n], queue[n]);
      assert queue == queue[..n] + [queue[n]];
    }
  }

  lemma OneMoreQueued(front: Group, last: Scheduled)
    requires multiset(Picked(front)) + multiset(Deferred(front)) == multiset(front)
    ensures multiset(Picked(front + [last])) + multiset(Deferred(front + [last])) == multiset(front + [last])
  {
    assert (front + [last])[..|front|] == front;
    RoundStep(front + [last], |front|);
    OneMoreSplits(Picked(front), Deferred(front), front, last);
  }

  lemma OneMoreSplits(a: Group, b: Group, s: Group, x: Scheduled)
    requires multiset(a) + multiset(b) == multiset(s)
    ensures multiset(a + [x]) + multiset(b) == multiset(s + [x])
    ensures multiset(a) + multiset(b + [x]) == multiset(s + [x])
  {
  }

  ghost predicate ConflictFree(group: Group) {
    forall i, j | 0 <= i < j < |group| :: !Rival(group[i], group[j])
  }

  lemma {:induction false} PickedIsConflictFree(queue: Group)
    ensures ConflictFree(Picked(queue))
  {
    if queue != [] {
      PickedIsConflictFree(queue[..|queue| - 1]);
    }
  }

  lemma {:induction false} DeferredForAReason(queue: Group, x: Scheduled)
    requires x in Deferred(queue)
    ensures exists y :: y in Picked(queue) && Rival(y, x)
  {
    var n := |queue| - 1;
    if x in Deferred(queue[..n]) {
      DeferredForAReason(queue[..n], x);
    } else {
      var group := Picked(queue[..n]);
      var i :| 0 <= i < |group| && HasConflict(group[i].tx.access, x.tx.access);
      assert group[i] in group && Rival(group[i], x);
    }
  }

  lemma {:induction false} NothingDeferred(queue: Group)
    ensures Deferred(queue) == [] <==> ConflictFree(queue)
    ensures Deferred(queue) == [] ==> Picked(queue) == queue
  {
    if queue != [] {
      var n := |queue| - 1;
      NothingDeferred(queue[..n]);
      assert queue == queue[..n] + [queue[n]];
      ConflictFreeExtends(queue[..n], queue[n]);
    }
  }

  lemma ConflictFreeExtends(group: Group, x: Scheduled)
    ensures ConflictFree(group + [x]) <==> ConflictFree(group) && !Clashes(group, x)
  {
    var all := group + [x];
    if ConflictFree(all) {
      forall i, j | 0 <= i < j < |group|
        ensures !Rival(group[i], group[j])
      {
        assert !Rival(all[i], all[j]);
      }
      forall i | 0 <= i < |group|
        ensures !Rival(group[i], x)
      {
        assert !Rival(all[i], all[|group|]);
      }
    }
  }

  // ----- all rounds

  function Groups(queue: Group): (r: seq<Group>)
    decreases |queue|
  {
    if queue == [] then [] else [Picked(queue)] + Groups(Deferred(queue))
  }

  function Flat(groups: seq<Group>): Group {
    if groups == [] then [] else groups[0] + Flat(groups[1..])
  }

  /** Every queued transaction is in exactly one group, as often as it was queued. */
  lemma {:induction false} GroupsPartition(queue: Group)
    ensures multiset(Flat(Groups(queue))) == multiset(queue)
    decreases |queue|
  {
    if queue != [] {
      RoundSplits(queue);
      GroupsPartition(Deferred(queue));
    }
  }

  lemma {:induction false} GroupsAreConflictFree(queue: Group, g: nat)
    requires g < |Groups(queue)|
    ensures Groups(queue)[g] != [] && ConflictFree(Groups(queue)[g])
    decreases |queue|
  {
    if g == 0 {
      PickedIsConflictFree(queue);
    } else {
      GroupsAreConflictFree(Deferred(queue), g - 1);
    }
  }

  lemma {:induction false} GroupedIsQueued(queue: Group, g: nat, x: Scheduled)
    requires g < |Groups(queue)| && x in Groups(queue)[g]
    ensures x in queue
    decreases |queue|
  {
    RoundSplits(queue);
    if g > 0 {
      GroupedIsQueued(Deferred(queue), g - 1, x);
      assert x in multiset(Deferred(queue));
    } else {
      assert x in multiset(Picked(queue));
    }
    assert x in multiset(queue);
  }

  /** First fit: a transaction is in a later group only because every earlier group holds a rival. */
  lemma {:induction false} EarlierGroupsConflict(queue: Group, g: nat, h: nat, x: Scheduled)
    requires g < h < |Groups(queue)| && x in Groups(queue)[h]
    ensures exists y :: y in Groups(queue)[g] && Rival(y, x)
    decreases |queue|
  {
    if g == 0 {
      GroupedIsQueued(Deferred(queue), h - 1, x);
      DeferredForAReason(queue, x);
    } else {
      EarlierGroupsConflict(Deferred(queue), g - 1, h - 1, x);
    }
  }

  // ----- how many groups

  ghost function Rivals(queue: Group, x: Scheduled): set<Scheduled> {
    set y | y in queue && y != x && Rival(y, x)
  }

  /** No occurrence is queued twice. */
  ghost predicate NoRepeats(queue: Group) {
    forall x | x in queue :: multiset(queue)[x] == 1
  }

  lemma DeferredApart(queue: Group)
    requires NoRepeats(queue)
    ensures NoRepeats(Deferred(queue))
    ensures forall y | y in Deferred(queue) :: y in queue && y !in Picked(queue)
    ensures forall y | y in Picked(queue) :: y in queue
  {
    RoundSplits(queue);
    var picked, later := multiset(Picked(queue)), multiset(Deferred(queue));
    forall y | y in Picked(queue) || y in Deferred(queue)
      ensures y in queue && picked[y] + later[y] == 1
    {
      assert y in picked || y in later;
      assert (picked + later)[y] == picked[y] + later[y];
      assert y in multiset(queue);
    }
  }

  lemma {:induction false} GroupDepth(queue: Group, h: nat, x: Scheduled)
    requires NoRepeats(queue) && h < |Groups(queue)| && x in Groups(queue)[h]
    ensures h <= |Rivals(queue, x)|
    decreases |queue|
  {
    if h > 0 {
      var later := Deferred(queue);
      DeferredApart(queue);
      GroupDepth(later, h - 1, x);
      GroupedIsQueued(later, h - 1, x);
      DeferredForAReason(queue, x);
      var y :| y in Picked(queue) && Rival(y, x);
      SubsetSize(Rivals(later, x) + {y}, Rivals(queue, x));
    }
  }

  /** At most one group more than the largest number of rivals any transaction has. */
  lemma GroupBound(queue: Group, degree: nat)
    requires NoRepeats(queue) && forall x | x in queue :: |Rivals(queue, x)| <= degree
    ensures |Groups(queue)| <= degree + 1
  {
    var n := |Groups(queue)|;
    if n > 0 {
      GroupsAreConflictFree(queue, n - 1);
      var x := Groups(queue)[n - 1][0];
      GroupedIsQueued(queue, n - 1, x);
      GroupDepth(queue, n - 1, x);
    }
  }

  // ----- input order does not matter

  function Tagged(txs: seq<Tx>): (r: Group)
    ensures |r| == |txs| && forall i | 0 <= i < |r| :: r[i] == Scheduled(txs[i], i)
  {
    seq(|txs|, i requires 0 <= i < |txs| => Scheduled(txs[i], i))
  }

  lemma TaggedNoRepeats(txs: seq<Tx>)
    ensures NoRepeats(Tagged(txs))
  {
    var queue := Tagged(txs);
    forall x | x in queue
      ensures multiset(queue)[x] == 1
    {
      var i :| 0 <= i < |queue| && queue[i] == x;
      assert queue == queue[..i] + [x] + queue[i + 1..];
      assert x !in queue[..i] && x !in queue[i + 1..];
    }
  }

  predicate IdOrder(a: Scheduled, b: Scheduled) {
    a.tx.id < b.tx.id || (a.tx.id == b.tx.id && a.index < b.index)
  }

  ghost predicate InIdOrder(s: Group) {
    forall i, j | 0 <= i < j < |s| :: IdOrder(s[i], s[j])
  }

  /** Inserts after every entry with the same or a smaller id, which is what makes the sort stable. */
  function Insert(s: Group, x: Scheduled): Group {
    if s == [] || s[|s| - 1].tx.id <= x.tx.id then s + [x] else Insert(s[..|s| - 1], x) + [s[|s| - 1]]
  }

  lemma {:induction false} InsertKeeps(s: Group, x: Scheduled)
    ensures multiset(Insert(s, x)) == multiset(s + [x])
  {
    if s != [] && s[|s| - 1].tx.id > x.tx.id {
      InsertKeeps(s[..|s| - 1], x);
      assert s == s[..|s| - 1] + [s[|s| - 1]];
    }
  }

  lemma {:induction false} InsertMeans(s: Group, x: Scheduled)
    requires InIdOrder(s) && forall i | 0 <= i < |s| :: s[i].index < x.index
    ensures InIdOrder(Insert(s, x))
  {
    if s != [] && s[|s| - 1].tx.id > x.tx.id {
      var front, last := s[..|s| - 1], s[|s| - 1];
      InsertMeans(front, x);
      InsertKeeps(front, x);
      BelowAll(Insert(front, x), front + [x], last);
    }
  }

  lemma BelowAll(r: Group, s: Group, last: Scheduled)
    requires multiset(r) == multiset(s) && forall i | 0 <= i < |s| :: IdOrder(s[i], last)
    ensures forall i | 0 <= i < |r| :: IdOrder(r[i], last)
  {
    forall i | 0 <= i < |r|
      ensures IdOrder(r[i], last)
    {
      assert r[i] in multiset(s);
    }
  }

  lemma OrderedFront(front: Group, last: Scheduled)
    requires InIdOrder(front + [last])
    ensures InIdOrder(front) && forall y | y in front :: IdOrder(y, last)
  {
    var all := front + [last];
    forall y | y in front
      ensures IdOrder(y, last)
    {
      var i :| 0 <= i < |front| && front[i] == y;
      assert IdOrder(all[i], all[|front|]);
    }
    forall i, j | 0 <= i < j < |front|
      ensures IdOrder(front[i], front[j])
    {
      assert IdOrder(all[i], all[j]);
    }
  }

  lemma OrderedLonger(s: Group, x: Scheduled)
    requires InIdOrder(s) && forall y | y in s :: IdOrder(y, x)
    ensures InIdOrder(s + [x])
  {
  }

  lemma {:induction false} RoundMembers(queue: Group)
    ensures forall y | y in Picked(queue) || y in Deferred(queue) :: y in queue
  {
    RoundSplits(queue);
    forall y | y in Picked(queue) || y in Deferred(queue)
      ensures y in queue
    {
      assert y in multiset(Picked(queue)) || y in multiset(Deferred(queue));
      assert y in multiset(queue);
    }
  }

  /** A round keeps the order of the queue, in what it picks and in what it defers. */
  lemma {:induction false} RoundKeepsOrder(queue: Group)
    requires InIdOrder(queue)
    ensures InIdOrder(Picked(queue)) && InIdOrder(Deferred(queue))
  {
    if queue != [] {
      var n := |queue| - 1;
      assert queue == queue[..n] + [queue[n]];
      OrderedFront(queue[..n], queue[n]);
      RoundKeepsOrder(queue[..n]);
      RoundMembers(queue[..n]);
      if Clashes(Picked(queue[..n]), queue[n]) {
        OrderedLonger(Deferred(queue[..n]), queue[n]);
      } else {
        OrderedLonger(Picked(queue[..n]), queue[n]);
      }
    }
  }

  lemma {:induction false} DeferredForAnEarlier(queue: Group, x: Scheduled)
    requires InIdOrder(queue) && x in Deferred(queue)
    ensures exists y :: y in Picked(queue) && Rival(y, x) && IdOrder(y, x)
  {
    var n := |queue| - 1;
    assert queue == queue[..n] + [queue[n]];
    OrderedFront(queue[..n], queue[n]);
    if x in Deferred(queue[..n]) {
      DeferredForAnEarlier(queue[..n], x);
    } else {
      var group := Picked(queue[..n]);
      var i :| 0 <= i < |group| && HasConflict(group[i].tx.access, x.tx.access);
      RoundMembers(queue[..n]);
      assert group[i] in group && Rival(group[i], x) && IdOrder(group[i], x);
    }
  }

  lemma {:induction false} GroupsAscend(queue: Group, g: nat)
    requires InIdOrder(queue) && g < |Groups(queue)|
    ensures InIdOrder(Groups(queue)[g])
    decreases |queue|
  {
    RoundKeepsOrder(queue);
    if g > 0 {
      GroupsAscend(Deferred(queue), g - 1);
    }
  }

  lemma {:induction false} EarlierRivals(queue: Group, g: nat, h: nat, x: Scheduled)
    requires InIdOrder(queue) && g < h < |Groups(queue)| && x in Groups(queue)[h]
    ensures exists y :: y in Groups(queue)[g] && Rival(y, x) && IdOrder(y, x)
    decreases |queue|
  {
    RoundKeepsOrder(queue);
    if g == 0 {
      GroupedIsQueued(Deferred(queue), h - 1, x);
      DeferredForAnEarlier(queue, x);
    } else {
      EarlierRivals(Deferred(queue), g - 1, h - 1, x);
    }
  }

  /** The library's stable sort by id. */
  function SortById(s: Group): Group {
    if s == [] then [] else Insert(SortById(s[..|s| - 1]), s[|s| - 1])
  }

  lemma {:induction false} SortMeans(s: Group)
    requires forall i, j | 0 <= i < j < |s| :: s[i].index < s[j].index
    ensures multiset(SortById(s)) == multiset(s) && InIdOrder(SortById(s))
  {
    if s != [] {
      var front, last := s[..|s| - 1], s[|s| - 1];
      assert s == front + [last];
      SortMeans(front);
      var r := SortById(front);
      forall i | 0 <= i < |r|
        ensures r[i].index < last.index
      {
        assert r[i] in multiset(front);
      }
      InsertMeans(r, last);
      InsertKeeps(r, last);
    }
  }

  function Schedule(txs: seq<Tx>): seq<Group> {
    Groups(SortById(Tagged(txs)))
  }

  function Untagged(s: Group): (r: seq<Tx>)
    ensures |r| == |s| && forall i | 0 <= i < |r| :: r[i] == s[i].tx
  {
    seq(|s|, i requires 0 <= i < |s| => s[i].tx)
  }

  /** The schedule holds every input once, in at most one group more than the largest number of rivals. */
  lemma ScheduleMeans(txs: seq<Tx>, degree: nat)
    requires forall x | x in Tagged(txs) :: |Rivals(Tagged(txs), x)| <= degree
    ensures multiset(Flat(Schedule(txs))) == multiset(Tagged(txs))
    ensures |Schedule(txs)| <= degree + 1
  {
    var tagged, sorted := Tagged(txs), SortById(Tagged(txs));
    SortMeans(tagged);
    GroupsPartition(sorted);
    TaggedNoRepeats(txs);
    forall x | x in sorted
      ensures x in tagged && multiset(sorted)[x] == 1 && Rivals(sorted, x) == Rivals(tagged, x)
    {
      forall y
        ensures y in sorted <==> y in tagged
      {
        assert y in multiset(sorted) <==> y in multiset(tagged);
      }
    }
    GroupBound(sorted, degree);
  }

  /** The queue is scanned by ascending id: every group ascends, by id and then by position in the input. */
  lemma ScheduleAscends(txs: seq<Tx>, h: nat, i: nat, j: nat)
    requires h < |Schedule(txs)| && i < j < |Schedule(txs)[h]|
    ensures
      var x, y := Schedule(txs)[h][i], Schedule(txs)[h][j];
      x.tx.id < y.tx.id || (x.tx.id == y.tx.id && x.index < y.index)
  {
    SortMeans(Tagged(txs));
    GroupsAscend(SortById(Tagged(txs)), h);
    assert IdOrder(Schedule(txs)[h][i], Schedule(txs)[h][j]);
  }

  /** And whatever is in a later group has in every earlier group a rival that comes before it. */
  lemma ScheduleIsFirstFit(txs: seq<Tx>, g: nat, h: nat, x: Scheduled) returns (y: Scheduled)
    requires g < h < |Schedule(txs)| && x in Schedule(txs)[h]
    ensures y in Schedule(txs)[g] && HasConflict(y.tx.access, x.tx.access)
    ensures y.tx.id < x.tx.id || (y.tx.id == x.tx.id && y.index < x.index)
  {
    var queue := SortById(Tagged(txs));
    SortMeans(Tagged(txs));
    EarlierRivals(queue, g, h, x);
    y :| y in Groups(queue)[g] && Rival(y, x) && IdOrder(y, x);
  }

  /** Equal but for the recorded indices. */
  ghost predicate SameTxs(a: Group, b: Group) {
    |a| == |b| && forall i | 0 <= i < |a| :: a[i].tx == b[i].tx
  }

  lemma ClashIgnoresIndex(a: Group, b: Group, x: Scheduled, y: Scheduled)
    requires SameTxs(a, b) && x.tx == y.tx
    ensures Clashes(a, x) == Clashes(b, y)
  {
  }

  lemma {:induction false} RoundIgnoresIndex(a: Group, b: Group)
    requires SameTxs(a, b)
    ensures SameTxs(Picked(a), Picked(b)) && SameTxs(Deferred(a), Deferred(b))
    decreases |a|
  {
    if a != [] {
      var n := |a| - 1;
      RoundIgnoresIndex(a[..n], b[..n]);
      ClashIgnoresIndex(Picked(a[..n]), Picked(b[..n]), a[n], b[n]);
      OneMoreAlike(Picked(a[..n]), Picked(b[..n]), a[n], b[n]);
      OneMoreAlike(Deferred(a[..n]), Deferred(b[..n]), a[n], b[n]);
      RoundStep(a, n);
      RoundStep(b, n);
    }
  }

  lemma OneMoreAlike(a: Group, b: Group, x: Scheduled, y: Scheduled)
    requires SameTxs(a, b) && x.tx == y.tx
    ensures SameTxs(a + [x], b + [y])
  {
  }

  lemma GroupAt(queue: Group, g: nat)
    requires queue != [] && g < |Groups(queue)|
    ensures |Groups(queue)| == |Groups(Deferred(queue))| + 1
    ensures Groups(queue)[g] == if g == 0 then Picked(queue) else Groups(Deferred(queue))[g - 1]
  {
  }

  lemma {:induction false} GroupsIgnoreIndex(a: Group, b: Group)
    requires SameTxs(a, b)
    ensures |Groups(a)| == |Groups(b)|
    ensures forall g | 0 <= g < |Groups(a)| :: SameTxs(Groups(a)[g], Groups(b)[g])
    decreases |a|
  {
    if a != [] {
      RoundIgnoresIndex(a, b);
      GroupsIgnoreIndex(Deferred(a), Deferred(b));
      forall g | 0 <= g < |Groups(a)|
        ensures SameTxs(Groups(a)[g], Groups(b)[g])
      {
        GroupAt(a, g);
        GroupAt(b, g);
      }
    }
  }

  ghost predicate DistinctIds(txs: seq<Tx>) {
    forall i, j | 0 <= i < j < |txs| :: txs[i].id != txs[j].id
  }

  ghost predicate IdsAscend(txs: seq<Tx>) {
    forall i, j | 0 <= i < j < |txs| :: txs[i].id < txs[j].id
  }

  lemma {:induction false} IdsAscendOnce(s: seq<Tx>, t: seq<Tx>)
    requires IdsAscend(s) && IdsAscend(t) && Elements(s) == Elements(t)
    ensures s == t
    decreases |s|
  {
    if |t| > 0 {
      MemberOf(t, 0);
    }
    if |s| > 0 {
      MemberOf(s, 0);
      assert s[0] == t[0];
      assert s == [s[0]] + s[1..] && t == [t[0]] + t[1..];
      assert Elements(s[1..]) == Elements(s) - {s[0]};
      assert Elements(t[1..]) == Elements(t) - {t[0]};
      IdsAscendOnce(s[1..], t[1..]);
    }
  }

  lemma SameEntries(a: Group, b: Group)
    requires multiset(a) == multiset(b)
    ensures Elements(Untagged(a)) <= Elements(Untagged(b))
  {
    forall x | x in Untagged(a)
      ensures x in Untagged(b)
    {
      var i :| 0 <= i < |a| && Untagged(a)[i] == x;
      assert a[i] in multiset(b);
      var j :| 0 <= j < |b| && b[j] == a[i];
      assert Untagged(b)[j] == x;
    }
  }

  lemma SortedTxs(txs: seq<Tx>)
    requires DistinctIds(txs)
    ensures IdsAscend(Untagged(SortById(Tagged(txs))))
    ensures Elements(Untagged(SortById(Tagged(txs)))) == Elements(txs)
  {
    var tagged := Tagged(txs);
    var sorted := SortById(tagged);
    SortMeans(tagged);
    SameEntries(sorted, tagged);
    SameEntries(tagged, sorted);
    assert Untagged(tagged) == txs;
    forall i, j | 0 <= i < j < |sorted|
      ensures Untagged(sorted)[i].id < Untagged(sorted)[j].id
    {
      assert sorted[i] in multiset(tagged) && sorted[j] in multiset(tagged) && IdOrder(sorted[i], sorted[j]);
    }
  }

  lemma SortedAlike(txs: seq<Tx>, permuted: seq<Tx>)
    requires DistinctIds(txs) && DistinctIds(permuted) && Elements(txs) == Elements(permuted)
    ensures SameTxs(SortById(Tagged(txs)), SortById(Tagged(permuted)))
  {
    SortedTxs(txs);
    SortedTxs(permuted);
    var a, b := SortById(Tagged(txs)), SortById(Tagged(permuted));
    IdsAscendOnce(Untagged(a), Untagged(b));
    assert |a| == |Untagged(a)| && forall i | 0 <= i < |a| :: a[i].tx == Untagged(a)[i] == b[i].tx;
  }

  /** With distinct ids, permuting the input changes nothing but the recorded indices. */
  lemma ScheduleIgnoresInputOrder(txs: seq<Tx>, permuted: seq<Tx>)
    requires DistinctIds(txs) && DistinctIds(permuted) && Elements(txs) == Elements(permuted)
    ensures |Schedule(txs)| == |Schedule(permuted)|
    ensures forall g | 0 <= g < |Schedule(txs)| :: SameTxs(Schedule(txs)[g], Schedule(permuted)[g])
  {
    SortedAlike(txs, permuted);
    GroupsIgnoreIndex(SortById(Tagged(txs)), SortById(Tagged(permuted)));
  }

  // ----- the loops

  ghost predicate Positions(positions: seq<int>, length: nat) {
    (forall i, j | 0 <= i < j < |positions| :: positions[i] < positions[j]) &&
    forall i | 0 <= i < |positions| :: 0 <= positions[i] < length
  }

  /** Removing positions from the back, so that earlier positions stay valid. */
  ghost function Without(queue: Group, positions: seq<int>): (r: Group)
    requires Positions(positions, |queue|)
  {
    if positions == [] then queue
    else
      var m := |positions| - 1;
      Without(queue[..positions[m]] + queue[positions[m] + 1..], positions[..m])
  }

  lemma {:induction false} WithoutAppend(queue: Group, positions: seq<int>, x: Scheduled)
    requires Positions(positions, |queue|)
    ensures Without(queue + [x], positions) == Without(queue, positions) + [x]
    decreases |positions|
  {
    if positions != [] {
      var m := |positions| - 1;
      var p := positions[m];
      assert (queue + [x])[..p] + (queue + [x])[p + 1..] == queue[..p] + queue[p + 1..] + [x];
      WithoutAppend(queue[..p] + queue[p + 1..], positions[..m], x);
    }
  }

  lemma WithoutLast(queue: Group, positions: seq<int>, x: Scheduled)
    requires Positions(positions, |queue|)
    ensures Without(queue + [x], positions + [|queue|]) == Without(queue, positions)
  {
    var all := positions + [|queue|];
    assert all[..|positions|] == positions;
    assert (queue + [x])[..|queue|] + (queue + [x])[|queue| + 1..] == queue;
  }

  lemma PassStep(queue: Group, i: nat, positions: seq<int>)
    requires i < |queue| && Positions(positions, i) && Without(queue[..i], positions) == Deferred(queue[..i])
    ensures Clashes(Picked(queue[..i]), queue[i]) ==> Picked(queue[..i + 1]) == Picked(queue[..i])
    ensures Clashes(Picked(queue[..i]), queue[i]) ==> Without(queue[..i + 1], positions) == Deferred(queue[..i + 1])
    ensures !Clashes(Picked(queue[..i]), queue[i]) ==> Picked(queue[..i + 1]) == Picked(queue[..i]) + [queue[i]]
    ensures !Clashes(Picked(queue[..i]), queue[i]) ==>
      Without(queue[..i + 1], positions + [i]) == Deferred(queue[..i + 1])
  {
    assert queue[..i + 1] == queue[..i] + [queue[i]];
    assert queue[..i + 1][..i] == queue[..i];
    if Clashes(Picked(queue[..i]), queue[i]) {
      WithoutAppend(queue[..i], positions, queue[i]);
    } else {
      WithoutLast(queue[..i], positions, queue[i]);
    }
  }

  /** What a pass has collected after its first `i` candidates. */
  ghost predicate Swept(queue: Group, i: nat, group: Group, positions: seq<int>)
    requires i <= |queue|
  {
    group == Picked(queue[..i]) && Positions(positions, i) && Without(queue[..i], positions) == Deferred(queue[..i])
  }

  method ConsiderCandidate(queue: Group, i: nat, group: Group, positions: seq<int>) returns (g: Group, p: seq<int>)
    requires i < |queue| && Swept(queue, i, group, positions)
    ensures Swept(queue, i + 1, g, p)
  {
    PassStep(queue, i, positions);
    g, p := group, positions;
    if !Clashes(group, queue[i]) {
      g := group + [queue[i]];
      p := positions + [i];
    }
  }

  /** One pass: collects the group and the positions to remove. */
  method CollectGroup(queue: Group) returns (group: Group, positions: seq<int>)
    ensures group == Picked(queue)
    ensures Positions(positions, |queue|) && Without(queue, positions) == Deferred(queue)
  {
    group, positions := [], [];
    for i := 0 to |queue|
      invariant Swept(queue, i, group, positions)
    {
      group, positions := ConsiderCandidate(queue, i, group, positions);
    }
    assert queue[..|queue|] == queue;
  }

  method RemovePositions(queue: Group, positions: seq<int>) returns (r: Group)
    requires Positions(positions, |queue|)
    ensures r == Without(queue, positions)
  {
    r := queue;
    var m := |positions|;
    assert positions[..m] == positions;
    while m > 0
      invariant 0 <= m <= |positions|
      invariant Positions(positions[..m], |r|) && Without(r, positions[..m]) == Without(queue, positions)
    {
      m := m - 1;
      assert positions[..m + 1][..m] == positions[..m] && positions[..m + 1][m] == positions[m];
      r := r[..positions[m]] + r[positions[m] + 1..];
    }
  }

  method PackGroups(queue: Group) returns (groups: seq<Group>)
    ensures groups == Groups(queue)
  {
    var remaining := queue;
    groups := [];
    while remaining != []
      invariant groups + Groups(remaining) == Groups(queue)
      decreases |remaining|
    {
      var group, positions := CollectGroup(remaining);
      var rest := RemovePositions(remaining, positions);
      if group == [] {
        assert false; // the first of the queue always fits
      }
      groups := groups + [group];
      remaining := rest;
    }
  }

  method ScheduleTransactions(txs: seq<Tx>) returns (groups: seq<Group>)
    ensures groups == Schedule(txs)
  {
    groups := PackGroups(SortById(Tagged(txs)));
  }

  // ----- conflicts between groups

  ghost predicate GroupsConflict(g: Group, h: Group) {
    exists x, y :: x in g && y in h && Rival(x, y)
  }

  function Combined(group: Group): AccessSet {
    if group == [] then AccessSet({}, {}) else Merge(Combined(group[..|group| - 1]), group[|group| - 1].tx.access)
  }

  lemma {:induction false} CombinedKeys(group: Group, k: Hash)
    ensures k in Combined(group).readSet <==> exists x :: x in group && k in x.tx.access.readSet
    ensures k in Combined(group).writeSet <==> exists x :: x in group && k in x.tx.access.writeSet
  {
    if group != [] {
      CombinedKeys(group[..|group| - 1], k);
      assert group == group[..|group| - 1] + [group[|group| - 1]];
    }
  }

  lemma CombinedConflict(g: Group, h: Group)
    ensures HasConflict(Combined(g), Combined(h)) <==> GroupsConflict(g, h)
  {
    var a, b := Combined(g), Combined(h);
    ConflictMeans(a, b);
    if HasConflict(a, b) {
      var k :| k in a.readSet + a.writeSet && k in b.readSet + b.writeSet && k in a.writeSet + b.writeSet;
      CombinedKeys(g, k);
      CombinedKeys(h, k);
      var x :| x in g && k in x.tx.access.readSet + x.tx.access.writeSet &&
               (k in a.writeSet ==> k in x.tx.access.writeSet);
      var y :| y in h && k in y.tx.access.readSet + y.tx.access.writeSet &&
               (k in b.writeSet ==> k in y.tx.access.writeSet);
      ConflictMeans(x.tx.access, y.tx.access);
      assert Rival(x, y);
    }
    if GroupsConflict(g, h) {
      var x, y :| x in g && y in h && Rival(x, y);
      ConflictMeans(x.tx.access, y.tx.access);
      var k :| k in x.tx.access.readSet + x.tx.access.writeSet && k in y.tx.access.readSet + y.tx.access.writeSet &&
        k in x.tx.access.writeSet + y.tx.access.writeSet;
      CombinedKeys(g, k);
      CombinedKeys(h, k);
      assert k in a.readSet + a.writeSet && k in b.readSet + b.writeSet && k in a.writeSet + b.writeSet;
    }
  }

  method CombineGroup(group: Group) returns (combined: AccessSet)
    ensures combined == Combined(group)
  {
    combined := AccessSet({}, {});
    for i := 0 to |group|
      invariant combined == Combined(group[..i])
    {
      assert group[..i + 1][..i] == group[..i];
      combined := Merge(combined, group[i].tx.access);
    }
    assert group[..|group|] == group;
  }

  /** Pairs before (i, j) in the order the nested loops visit them. */
  ghost predicate NoConflictBefore(groups: seq<Group>, i: int, j: int) {
    forall a, b | 0 <= a < b < |groups| && (a < i || (a == i && b < j)) :: !GroupsConflict(groups[a], groups[b])
  }

  /** Reports the first pair of groups, in loop order, that touch a common key with a write among them. */
  method DetectGroupConflicts(groups: seq<Group>) returns (r: Option<(nat, nat)>)
    ensures r.None? <==> NoConflictBefore(groups, |groups|, 0)
    ensures r.Some? ==> r.value.0 < r.value.1 < |groups| && GroupsConflict(groups[r.value.0], groups[r.value.1])
    ensures r.Some? ==> NoConflictBefore(groups, r.value.0, r.value.1)
  {
    var combined: seq<AccessSet> := [];
    for i := 0 to |groups|
      invariant |combined| == i && forall k | 0 <= k < i :: combined[k] == Combined(groups[k])
    {
      var c := CombineGroup(groups[i]);
      combined := combined + [c];
    }
    for i := 0 to |combined|
      invariant NoConflictBefore(groups, i, 0)
    {
      for j := i + 1 to |combined|
        invariant NoConflictBefore(groups, i, j)
      {
        CombinedConflict(groups[i], groups[j]);
        if HasConflict(combined[i], combined[j]) {
          return Some((i, j));
        }
      }
    }
    return None;
  }

  /** On the scheduler's own groups detection stays silent exactly when no two transactions conflict, and then there
      is at most one group: whatever needed a second group is reported as a conflict between groups. */
  lemma SilentExactlyWhenConflictFree(queue: Group)
    ensures NoConflictBefore(Groups(queue), |Groups(queue)|, 0) <==> ConflictFree(queue)
    ensures |Groups(queue)| <= 1 <==> ConflictFree(queue)
  {
    var groups := Groups(queue);
    NothingDeferred(queue);
    if |groups| > 1 {
      GroupsAreConflictFree(queue, 1);
      var x := groups[1][0];
      EarlierGroupsConflict(queue, 0, 1, x);
      assert GroupsConflict(groups[0], groups[1]);
    }
  }
}
