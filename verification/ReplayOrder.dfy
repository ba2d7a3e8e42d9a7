/** The order in which the affected blocks are replayed does not matter. */
module ReplayOrder {
  import opened Hashes
  import opened Graph
  import opened BlockDag
  import opened Scoring
  import opened ScoreInvariant
  import opened ScoreRuns

  /** The replay leaves alone what it does not list, and what has no parents. */
  lemma {:induction false} ReplayLeaves(b: Blocks, k: nat, order: seq<Hash>, g: Hash)
    requires g in b && (g !in order || b[g].parents == {})
    ensures g in Replayed(b, k, order) && Replayed(b, k, order)[g] == b[g]
    decreases |order|
  {
    if order != [] {
      ReplayLeaves(b, k, order[..|order| - 1], g);
    }
  }

  /** Two stores that agree outside a region, and in which the region is settled, agree in it too. */
  lemma {:induction false} SettledStoresAgree(b: Blocks, one: Blocks, two: Blocks, k: nat, s: set<Hash>, g: Hash)
    requires Closed(Shape(b)) && Acyclic(Shape(b)) && SameLinks(b, one) && SameLinks(b, two)
    requires forall h | h in b && (h !in s || b[h].parents == {}) :: one[h] == two[h]
    requires forall h | h in s :: Settled(one, k, h) && Settled(two, k, h)
    requires g in b
    ensures one[g] == two[g]
    decreases |Past(Shape(b), g)|
  {
    if g in s && b[g].parents != {} {
      assert Shape(b)[g] == b[g].parents;
      forall p | p in b[g].parents
        ensures p in b && one[p] == two[p]
      {
        BeforeEdge(Shape(b), p, g);
        PastGrows(Shape(b), p, g);
        SettledStoresAgree(b, one, two, k, s, p);
      }
      SameRescored(b, one, two, k, g);
    }
  }

  lemma SameRescored(b: Blocks, one: Blocks, two: Blocks, k: nat, g: Hash)
    requires SameLinks(b, one) && SameLinks(b, two) && g in b && b[g].parents != {}
    requires forall p | p in b[g].parents :: p in b && one[p] == two[p]
    requires Settled(one, k, g) && Settled(two, k, g)
    ensures one[g] == two[g]
  {
    assert SameLinks(one, two);
    RescoredSame(one, two, k, g);
    SettledMeans(one, k, g);
    SettledMeans(two, k, g);
  }

  lemma ReplaysAgree(b: Blocks, k: nat, id: Hash, order: seq<Hash>, order': seq<Hash>)
    requires Healthy(b) && id in b
    requires Topological(Shape(b), Affected(Shape(b), id), order)
    requires Topological(Shape(b), Affected(Shape(b), id), order')
    ensures Replayed(b, k, order) == Replayed(b, k, order')
  {
    var s, one, two := Affected(Shape(b), id), Replayed(b, k, order), Replayed(b, k, order');
    ReplayKeepsHealth(b, k, id, order);
    ReplayKeepsHealth(b, k, id, order');
    ReplayKeepsLinks(b, k, order);
    ReplayKeepsLinks(b, k, order');
    forall h | h in b && (h !in s || b[h].parents == {})
      ensures one[h] == two[h]
    {
      assert h in order ==> h in Elements(order);
      assert h in order' ==> h in Elements(order');
      ReplayLeaves(b, k, order, h);
      ReplayLeaves(b, k, order', h);
    }
    forall g | g in b
      ensures one[g] == two[g]
    {
      SettledStoresAgree(b, one, two, k, s, g);
    }
  }

  /** One arrival has one outcome. */
  lemma StepIsUnique(b: Blocks, a: Arrival, one: Blocks, two: Blocks)
    requires Healthy(b) && Step(b, a, one) && Step(b, a, two)
    ensures one == two
  {
    if Refusal(b, a.id, a.node.parents) == None {
      LinkedAndScored(b, a);
      ProcessedIsUnique(Added(b, a.id, a.node), a.k, a.id, one, two);
    }
  }

  lemma ProcessedIsUnique(b: Blocks, k: nat, id: Hash, one: Blocks, two: Blocks)
    requires id in b && Healthy(First(b, k, id)) && Shape(First(b, k, id)) == Shape(b)
    requires Processed(b, k, id, one) && Processed(b, k, id, two)
    ensures one == two
  {
    var order: seq<Hash> :| Topological(Shape(b), Affected(Shape(b), id), order) &&
                            one == Replayed(First(b, k, id), k, order);
    var order': seq<Hash> :| Topological(Shape(b), Affected(Shape(b), id), order') &&
                             two == Replayed(First(b, k, id), k, order');
    ReplaysAgree(First(b, k, id), k, id, order, order');
  }

  /** So a run has one outcome: the store is a function of the blocks in the order in which they arrived. */
  lemma {:induction false} RunIsUnique(one: Blocks, two: Blocks, arrivals: seq<Arrival>)
    requires Reached(one, arrivals) && Reached(two, arrivals)
    ensures one == two
    decreases |arrivals|
  {
    if arrivals != [] {
      var n := |arrivals| - 1;
      var before: Blocks :| Reached(before, arrivals[..n]) && Step(before, arrivals[n], one);
      var before': Blocks :| Reached(before', arrivals[..n]) && Step(before', arrivals[n], two);
      RunIsUnique(before, before', arrivals[..n]);
      RunIsHealthy(before, arrivals[..n]);
      StepIsUnique(before, arrivals[n], one, two);
    }
  }
}
