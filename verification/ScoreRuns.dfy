/** Whole runs of the engine from an empty DAG: every arriving block is added and processed at once. */
module ScoreRuns {
  import opened Hashes
  import opened Graph
  import opened BlockDag
  import opened Scoring
  import opened ScoreInvariant

  /** A block that arrives, and the cluster bound in force when it does. */
  datatype Arrival = Arrival(id: Hash, node: BlockNode, k: nat)

  /** A refused block leaves no trace; an accepted one is linked in and processed.
      Its own score fields may hold anything, its child set is empty. */
  ghost predicate Step(b: Blocks, a: Arrival, b': Blocks) {
    a.node.children == {} &&
    if Refusal(b, a.id, a.node.parents).Some? then b' == b
    else Processed(Added(b, a.id, a.node), a.k, a.id, b')
  }

  /** `b` is what some run holds after these arrivals. */
  ghost predicate Reached(b: Blocks, arrivals: seq<Arrival>)
    decreases |arrivals|
  {
    if arrivals == [] then
      b == map[]
    else
      var n := |arrivals| - 1;
      exists previous :: Reached(previous, arrivals[..n]) && Step(previous, arrivals[n], b)
  }

  ghost predicate Healthy(b: Blocks) {
    WellLinked(b) && Scored(b)
  }

  /** The affected region is stored, and holds every child of its members. */
  lemma AffectedIsDownwardClosed(b: Blocks, id: Hash)
    requires Closed(Shape(b)) && id in b
    ensures Affected(Shape(b), id) <= b.Keys
    ensures forall x, c | x in Affected(Shape(b), id) && c in b && x in b[c].parents :: c in Affected(Shape(b), id)
    ensures b[id].parents != {} ==> id in Affected(Shape(b), id)
  {
    var g := Shape(b);
    assert forall c | c in b :: Shape(b)[c] <= b.Keys;
    forall x, c | x in Affected(g, id) && c in b && x in b[c].parents
      ensures c in Affected(g, id)
    {
      BeforeEdge(g, x, c);
      if p :| p in g[id] && (x == p || Before(g, p, x)) {
        if x != p {
          BeforeTrans(g, p, x, c);
        }
        assert p in g[id] && Before(g, p, c);
      }
    }
    if b[id].parents != {} {
      var p := Inhabited(b[id].parents);
      BeforeEdge(g, p, id);
    }
  }

  /** A record keeps fitting in a larger store that gives the block and its parents the same scores. */
  lemma StillFits(b: Blocks, b1: Blocks, h: Hash)
    requires Fits(b, h) && b.Keys <= b1.Keys && b[h].parents <= b.Keys
    requires b1[h] == b[h].(children := b1[h].children)
    requires forall p | p in b[h].parents :: b1[p].blueScore == b[p].blueScore
    ensures Fits(b1, h)
  {
  }

  /** Linking in a block disturbs no other block's record of its selection. */
  lemma AddedFits(b: Blocks, id: Hash, node: BlockNode)
    requires Closed(Shape(b)) && Scored(b) && id !in b
    ensures forall h | h in b :: Fits(Added(b, id, node), h)
  {
    var b1 := Added(b, id, node);
    assert forall c | c in b :: Shape(b)[c] <= b.Keys;
    assert b.Keys <= b1.Keys;
    forall h | h in b
      ensures Fits(b1, h)
    {
      StillFits(b, b1, h);
    }
  }

  /** Scoring the new block itself makes every stored block fit. */
  lemma FirstFits(b: Blocks, id: Hash, k: nat)
    requires id in b && b[id].parents <= b.Keys && id !in b[id].parents
    requires forall h | h in b && h != id :: Fits(b, h) && id !in b[h].parents
    ensures Scored(First(b, k, id)) && SameLinks(b, First(b, k, id))
  {
    if b[id].parents == {} {
      GenesisFits(b, id, k);
    } else {
      RecomputeFirst(b, id, k);
    }
  }

  lemma GenesisFits(b: Blocks, id: Hash, k: nat)
    requires id in b && b[id].parents == {} && forall h | h in b && h != id :: Fits(b, h) && id !in b[h].parents
    ensures Scored(First(b, k, id)) && SameLinks(b, First(b, k, id))
  {
    forall h | h in b && h != id
      ensures Fits(First(b, k, id), h)
    {
      FitsFrame(b, First(b, k, id), h);
    }
  }

  lemma RecomputeFirst(b: Blocks, id: Hash, k: nat)
    requires id in b && b[id].parents != {} && b[id].parents <= b.Keys && id !in b[id].parents
    requires forall h | h in b && h != id :: Fits(b, h) && id !in b[h].parents
    ensures Scored(Recomputed(b, k, id)) && SameLinks(b, Recomputed(b, k, id))
  {
    forall p | p in b[id].parents
      ensures b[p].blueSet <= b.Keys
    {
      assert Fits(b, p);
    }
    RecomputedFits(b, k, id);
    forall h | h in b && h != id
      ensures Fits(Recomputed(b, k, id), h)
    {
      OthersUndisturbed(b, k, id, h);
    }
  }

  /** Replaying the affected region of a fitting store settles all of it and keeps the rest fitting. */
  lemma ReplayKeepsHealth(b: Blocks, k: nat, id: Hash, order: seq<Hash>)
    requires Healthy(b) && id in b && Topological(Shape(b), Affected(Shape(b), id), order)
    ensures Healthy(Replayed(b, k, order)) && Shape(Replayed(b, k, order)) == Shape(b)
    ensures forall h | h in Affected(Shape(b), id) :: Settled(Replayed(b, k, order), k, h)
  {
    AffectedIsDownwardClosed(b, id);
    ReplaySettles(b, k, Affected(Shape(b), id), order, |order|);
    assert order[..|order|] == order && order[|order|..] == [];
    ReplayKeepsLinks(b, k, order);
    LinksCarryOver(b, Replayed(b, k, order));
    assert forall h | h in Affected(Shape(b), id) :: h in order;
  }

  /** An accepted block, once its own record is computed, leaves a healthy store. */
  lemma LinkedAndScored(b: Blocks, a: Arrival)
    requires Healthy(b) && Refusal(b, a.id, a.node.parents) == None && a.node.children == {}
    ensures Shape(Added(b, a.id, a.node)) == Shape(b)[a.id := a.node.parents]
    ensures Healthy(First(Added(b, a.id, a.node), a.k, a.id))
    ensures Shape(First(Added(b, a.id, a.node), a.k, a.id)) == Shape(Added(b, a.id, a.node))
  {
    var b1 := Added(b, a.id, a.node);
    AddKeepsLinks(b, a.id, a.node);
    NoChildrenYet(b, a.id);
    AddedFits(b, a.id, a.node);
    FirstFits(b1, a.id, a.k);
    LinksCarryOver(b1, First(b1, a.k, a.id));
  }

  /** One step keeps the DAG healthy, and leaves every affected block where recomputing it changes nothing. */
  lemma StepKeepsHealth(b: Blocks, a: Arrival, b': Blocks)
    requires Healthy(b) && Step(b, a, b')
    ensures Healthy(b')
    ensures Refusal(b, a.id, a.node.parents) == None ==>
      Shape(b') == Shape(b)[a.id := a.node.parents] &&
      forall h | h in Affected(Shape(b'), a.id) :: Settled(b', a.k, h)
  {
    if Refusal(b, a.id, a.node.parents) == None {
      LinkedAndScored(b, a);
      var b1 := Added(b, a.id, a.node);
      var order :| Topological(Shape(b1), Affected(Shape(b1), a.id), order) &&
                   b' == Replayed(First(b1, a.k, a.id), a.k, order);
      ReplayKeepsHealth(First(b1, a.k, a.id), a.k, a.id, order);
    }
  }

  lemma EmptyIsHealthy()
    ensures Healthy(map[])
  {
    EmptyIsAcyclic();
  }

  /** The run invariant: whatever has arrived, the store is well linked and every record fits. */
  lemma {:induction false} RunIsHealthy(b: Blocks, arrivals: seq<Arrival>)
    requires Reached(b, arrivals)
    ensures Healthy(b)
    decreases |arrivals|
  {
    if arrivals == [] {
      EmptyIsHealthy();
    } else {
      var n := |arrivals| - 1;
      var previous :| Reached(previous, arrivals[..n]) && Step(previous, arrivals[n], b);
      RunIsHealthy(previous, arrivals[..n]);
      StepKeepsHealth(previous, arrivals[n], b);
    }
  }

  /** A block's selected parent is its best parent, so its score exceeds every parent's. */
  lemma ParentScoresLess(b: Blocks, p: Hash, h: Hash)
    requires Closed(Shape(b)) && Scored(b) && h in b && p in b[h].parents
    ensures p in b && b[p].blueScore < b[h].blueScore
  {
    assert forall c | c in b :: Shape(b)[c] <= b.Keys;
    assert Fits(b, h);
    var node := b[h];
    assert node.blueSet != {};
    assert |node.blueSet| > 0;
  }

  ghost predicate Rising(b: Blocks) {
    forall h, p | h in b && p in b[h].parents :: p in b && b[p].blueScore < b[h].blueScore
  }

  lemma ScoredRises(b: Blocks)
    requires Closed(Shape(b)) && Scored(b)
    ensures Rising(b)
  {
    forall h, p | h in b && p in b[h].parents
      ensures p in b && b[p].blueScore < b[h].blueScore
    {
      ParentScoresLess(b, p, h);
    }
  }

  lemma {:induction false} WalkScores(b: Blocks, x: Hash, y: Hash, n: nat)
    requires Rising(b) && Walk(Shape(b), x, y, n)
    ensures x in b && y in b && b[x].blueScore < b[y].blueScore
    decreases n
  {
    if n > 0 {
      var q :| q in Shape(b)[y] && Walk(Shape(b), x, q, n - 1);
      WalkScores(b, x, q, n - 1);
    }
  }

  /** Scores strictly increase from every ancestor to every descendant. */
  lemma ScoresRise(b: Blocks, x: Hash, y: Hash)
    requires Healthy(b) && Before(Shape(b), x, y)
    ensures x in b && y in b && b[x].blueScore < b[y].blueScore
  {
    ScoredRises(b);
    var n: nat :| Walk(Shape(b), x, y, n);
    WalkScores(b, x, y, n);
  }

  /** With `n` blocks stored a score is at most `1 + n` times the number of ancestors. */
  lemma {:induction false} ScoreWithinPast(b: Blocks, h: Hash)
    requires Healthy(b) && h in b
    ensures b[h].blueScore <= 1 + |b| * |Past(Shape(b), h)|
    decreases |Past(Shape(b), h)|
  {
    assert Fits(b, h);
    if b[h].parents != {} {
      var p := b[h].selectedParent.value;
      SelectedBefore(b, h);
      ScoreWithinPast(b, p);
      OneMore(|b|, |Past(Shape(b), p)|, |Past(Shape(b), h)|);
    }
  }

  lemma SelectedBefore(b: Blocks, h: Hash)
    requires Healthy(b) && h in b && b[h].parents != {}
    ensures b[h].selectedParent.Some? && b[h].selectedParent.value in b
    ensures Before(Shape(b), b[h].selectedParent.value, h)
    ensures |Past(Shape(b), b[h].selectedParent.value)| < |Past(Shape(b), h)|
    ensures b[h].blueScore <= b[b[h].selectedParent.value].blueScore + |b|
  {
    assert Fits(b, h);
    var p := b[h].selectedParent.value;
    assert p in Shape(b)[h];
    BeforeEdge(Shape(b), p, h);
    PastGrows(Shape(b), p, h);
    SubsetSize(b[h].blueSet, b.Keys);
    assert |b.Keys| == |b|;
  }

  lemma {:induction false} OneMore(n: nat, p: nat, q: nat)
    requires p < q
    ensures n * p + n <= n * q
    decreases q - p
  {
    if p + 1 < q {
      OneMore(n, p, q - 1);
    }
    assert n * q == n * (q - 1) + n;
  }

  /** No score in a DAG of `n` blocks exceeds `1 + n * n`. */
  lemma ScoreBound(b: Blocks, h: Hash)
    requires Healthy(b) && h in b
    ensures b[h].blueScore <= 1 + |b| * |b|
  {
    ScoreWithinPast(b, h);
    SubsetSize(Past(Shape(b), h), b.Keys);
    NoMore(|b|, |Past(Shape(b), h)|, |b.Keys|);
  }

  lemma NoMore(n: nat, p: nat, q: nat)
    requires p <= q
    ensures n * p <= n * q
  {
    if p < q {
      OneMore(n, p, q);
    }
  }
}
