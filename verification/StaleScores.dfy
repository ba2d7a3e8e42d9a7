/** Which stored colourings are still what recomputing them would give: outside the re-scored area some go stale. */
module StaleScores {
  import opened Hashes
  import opened Graph
  import opened BlockDag
  import opened Colouring
  import opened Scoring
  import opened ScoreInvariant
  import opened ScoreRuns
  import opened ReplayOrder

  // ----- what one arrival leaves alone

  /** The blocks an arrival gets re-scored. */
  ghost function Area(b: Blocks, a: Arrival): set<Hash> {
    WithFutures(Shape(b)[a.id := a.node.parents], a.node.parents)
  }

  /** What an accepted arrival makes of the store: the area is settled, every other record stands. */
  ghost predicate Arrived(b: Blocks, a: Arrival, b': Blocks) {
    Healthy(b) && Healthy(b') && Shape(b') == Shape(b)[a.id := a.node.parents] && b'.Keys == b.Keys + {a.id} &&
    a.id !in b && a.node.parents <= b.Keys &&
    (forall g | g in b && g !in Area(b, a) :: b'[g] == b[g]) &&
    forall g | g in Area(b, a) :: g in b' && Settled(b', a.k, g)
  }

  lemma ProcessedElsewhere(b: Blocks, k: nat, id: Hash, b': Blocks, g: Hash)
    requires id in b && Processed(b, k, id, b')
    requires g in b && g != id && g !in WithFutures(Shape(b), b[id].parents)
    ensures g in b' && b'[g] == b[g]
  {
    var order: seq<Hash> :| Topological(Shape(b), Affected(Shape(b), id), order) &&
                            b' == Replayed(First(b, k, id), k, order);
    assert Shape(b)[id] == b[id].parents;
    assert g !in Elements(order);
    ReplayLeaves(First(b, k, id), k, order, g);
  }

  lemma AddedElsewhere(b: Blocks, id: Hash, node: BlockNode, g: Hash)
    requires g in b && g != id && g !in node.parents
    ensures g in Added(b, id, node) && Added(b, id, node)[g] == b[g]
  {
  }

  lemma RecordStands(b: Blocks, a: Arrival, b': Blocks, g: Hash)
    requires a.id !in b && a.id !in a.node.parents && Processed(Added(b, a.id, a.node), a.k, a.id, b')
    requires g in b && g !in Area(b, a)
    ensures g in b' && b'[g] == b[g]
  {
    AddExtendsShape(b, a.id, a.node);
    AddedElsewhere(b, a.id, a.node, g);
    assert Added(b, a.id, a.node)[a.id].parents == a.node.parents;
    ProcessedElsewhere(Added(b, a.id, a.node), a.k, a.id, b', g);
  }

  lemma ArrivalMeans(b: Blocks, a: Arrival, b': Blocks)
    requires Healthy(b) && Step(b, a, b') && Refusal(b, a.id, a.node.parents) == None
    ensures Arrived(b, a, b')
  {
    StepKeepsHealth(b, a, b');
    AreaIsStored(b, a, b');
    forall g | g in b && g !in Area(b, a)
      ensures g in b' && b'[g] == b[g]
    {
      RecordStands(b, a, b', g);
    }
  }

  lemma AreaIsStored(b: Blocks, a: Arrival, b': Blocks)
    requires Shape(b') == Shape(b)[a.id := a.node.parents] && a.node.parents <= b.Keys
    ensures b'.Keys == b.Keys + {a.id} && Area(b, a) <= b'.Keys && a.id in Shape(b')
    ensures Affected(Shape(b'), a.id) == Area(b, a)
  {
    assert Shape(b').Keys == b'.Keys && Shape(b).Keys == b.Keys;
  }

  /** The parents of a block outside the area are outside it too. */
  lemma ParentsOutside(b: Blocks, a: Arrival, g: Hash)
    requires Closed(Shape(b)) && a.id !in b && g in b && g !in Area(b, a)
    ensures b[g].parents <= b.Keys && b[g].parents !! Area(b, a)
  {
    var g' := Shape(b)[a.id := a.node.parents];
    assert Shape(b)[g] == b[g].parents == g'[g];
    forall x | x in b[g].parents && x in Area(b, a)
      ensures false
    {
      BeforeEdge(g', x, g);
      if x !in a.node.parents {
        var p :| p in a.node.parents && Before(g', p, x);
        BeforeTrans(g', p, x, g);
      }
    }
  }

  // ----- colouring again after an arrival

  /** The greedy choice depends on neighbourhoods only inside the blocks it looks at. */
  lemma {:induction false} GreedyFrame(near: Hash -> set<Hash>, near': Hash -> set<Hash>, k: nat, candidates: seq<Hash>,
                                       inherited: set<Hash>, seen: set<Hash>)
    requires inherited + Elements(candidates) <= seen
    requires forall c | c in candidates :: near(c) * seen == near'(c) * seen
    ensures Greedy(near, k, candidates, inherited) == Greedy(near', k, candidates, inherited)
    decreases |candidates|
  {
    if candidates != [] {
      var n := |candidates| - 1;
      var c := candidates[n];
      ElementsSplit(candidates);
      GreedyFrame(near, near', k, candidates[..n], inherited, seen);
      GreedyCovers(near, k, candidates[..n], inherited);
      var blue := Greedy(near, k, candidates[..n], inherited).blue;
      assert near(c) * blue == near(c) * seen * blue == near'(c) * seen * blue == near'(c) * blue;
    }
  }

  /** An arrival is unordered with exactly the old blocks that are not before it, and orders no two old blocks. */
  lemma AnticoneAfter(g: Graph, id: Hash, parents: set<Hash>, x: Hash)
    requires Closed(g) && Acyclic(g) && id !in g && parents <= g.Keys && x in g
    ensures
      var g' := g[id := parents];
      Anticone(g', x) == Anticone(g, x) + if Before(g', x, id) then {} else {id}
    ensures Anticone(g[id := parents], x) * g.Keys == Anticone(g, x) * g.Keys
  {
    Extend(g, id, parents, g[id := parents]);
  }

  lemma GreedyAfter(g: Graph, id: Hash, parents: set<Hash>, k: nat, candidates: seq<Hash>, inherited: set<Hash>)
    requires Closed(g) && Acyclic(g) && id !in g && parents <= g.Keys
    requires inherited + Elements(candidates) <= g.Keys
    ensures Greedy(Near(g[id := parents]), k, candidates, inherited) == Greedy(Near(g), k, candidates, inherited)
  {
    var near, near' := Near(g), Near(g[id := parents]);
    forall c | c in candidates
      ensures near(c) * g.Keys == near'(c) * g.Keys
    {
      assert c in Elements(candidates);
      AnticoneAfter(g, id, parents, c);
    }
    GreedyFrame(near, near', k, candidates, inherited, g.Keys);
  }

  lemma ColoursRepeat(b: Blocks, id: Hash, parents: set<Hash>, b': Blocks, k: nat, s: Hash)
    requires Closed(Shape(b)) && Acyclic(Shape(b)) && id !in b && parents <= b.Keys && s in b && b[s].blueSet <= b.Keys
    requires Shape(b') == Shape(b)[id := parents] && s in b' && b'[s].blueSet == b[s].blueSet
    requires Before(Shape(b'), s, id)
    ensures ColoursUnder(b', k, s) == ColoursUnder(b, k, s)
  {
    AnticoneAfter(Shape(b), id, parents, s);
    var candidates := Sorted(Anticone(Shape(b), s));
    assert Anticone(Shape(b'), s) == Anticone(Shape(b), s) == Elements(candidates);
    SameKeys(b, s, candidates);
    GreedyAfter(Shape(b), id, parents, k, candidates, Inherited(b, s));
  }

  lemma SameKeys(b: Blocks, s: Hash, candidates: seq<Hash>)
    requires s in b && b[s].blueSet <= b.Keys && Elements(candidates) <= Shape(b).Keys
    ensures Inherited(b, s) + Elements(candidates) <= Shape(b).Keys
  {
    assert Shape(b).Keys == b.Keys;
  }

  // ----- one arrival

  /** Its selection, blue set, red set and score are what `s` as selected parent gives. */
  lemma SettledUnder(b: Blocks, k: nat, g: Hash, s: Hash)
    requires Healthy(b) && g in b && b[g].parents != {} && b[g].selectedParent == Some(s)
    ensures Settled(b, k, g) <==> ColoursUnder(b, k, s) == Colours(b[g].blueSet, b[g].redSet)
  {
    assert Shape(b)[g] == b[g].parents;
    assert Fits(b, g);
    SettledMeans(b, k, g);
    HasStoredParent(b, g);
    BestUnique(b, b, b[g].parents, s, Best(b, b[g].parents));
  }

  /** A record is what recomputing it would give exactly when its two colours are those of the turns by digest. */
  lemma SettledInTurn(b: Blocks, k: nat, g: Hash)
    requires Healthy(b) && g in b && b[g].parents != {}
    ensures b[g].selectedParent.Some?
    ensures Settled(b, k, g) <==> ColouredInTurn(b, k, b[g].selectedParent.value, b[g].blueSet, b[g].redSet)
  {
    assert Fits(b, g);
    SettledUnder(b, k, g, b[g].selectedParent.value);
    ColoursAreInTurn(b, k, b[g].selectedParent.value, b[g].blueSet, b[g].redSet);
  }

  /** A settled block outside the re-scored area stays settled if and only if its selected parent is before the new
      block; otherwise the new block is missing from its colours. */
  lemma StaysSettledExactlyWhen(b: Blocks, a: Arrival, b': Blocks, g: Hash)
    requires Healthy(b) && Step(b, a, b') && Refusal(b, a.id, a.node.parents) == None
    requires g in b && b[g].parents != {} && Settled(b, a.k, g)
    requires g !in WithFutures(Shape(b)[a.id := a.node.parents], a.node.parents)
    ensures b[g].selectedParent.Some?
    ensures Settled(b', a.k, g) <==> Before(Shape(b'), b[g].selectedParent.value, a.id)
  {
    ArrivalMeans(b, a, b');
    StaysSettled(b, a, b', g);
  }

  lemma StaysSettled(b: Blocks, a: Arrival, b': Blocks, g: Hash)
    requires Arrived(b, a, b') && g in b && g !in Area(b, a) && b[g].parents != {} && Settled(b, a.k, g)
    ensures b[g].selectedParent.Some?
    ensures Settled(b', a.k, g) <==> Before(Shape(b'), b[g].selectedParent.value, a.id)
  {
    ParentsOutside(b, a, g);
    assert Fits(b, g);
    var s := b[g].selectedParent.value;
    assert s in b[g].parents;
    SettledUnder(b, a.k, g, s);
    SettledUnder(b', a.k, g, s);
    if Before(Shape(b'), s, a.id) {
      assert Fits(b, s);
      ColoursRepeat(b, a.id, a.node.parents, b', a.k, s);
    } else {
      AnticoneAfter(Shape(b), a.id, a.node.parents, s);
      ColoursCover(b', a.k, s);
      assert a.id in Anticone(Shape(b'), s);
      assert a.id !in b[g].blueSet + b[g].redSet;
    }
  }

  // ----- whole runs

  /** Every block unordered with the selected parent has a colour in the record. */
  ghost predicate Covered(b: Blocks, g: Hash)
    requires g in b
  {
    b[g].selectedParent.Some? && Anticone(Shape(b), b[g].selectedParent.value) <= b[g].blueSet + b[g].redSet
  }

  lemma SettledCovers(b: Blocks, k: nat, g: Hash)
    requires Healthy(b) && g in b && b[g].parents != {} && Settled(b, k, g)
    ensures Covered(b, g)
  {
    assert Fits(b, g);
    var s := b[g].selectedParent.value;
    SettledUnder(b, k, g, s);
    ColoursCover(b, k, s);
  }

  lemma CoveredStaysSettled(b: Blocks, a: Arrival, b': Blocks, g: Hash)
    requires Arrived(b, a, b') && g in b && g !in Area(b, a) && b[g].parents != {}
    requires Covered(b', g) && (Covered(b, g) ==> Settled(b, a.k, g))
    ensures Settled(b', a.k, g)
  {
    ParentsOutside(b, a, g);
    assert Fits(b, g);
    var s := b[g].selectedParent.value;
    assert s in b[g].parents;
    AnticoneAfter(Shape(b), a.id, a.node.parents, s);
    assert a.id !in b[g].blueSet + b[g].redSet;
    assert Covered(b, g);
    StaysSettled(b, a, b', g);
  }

  ghost predicate CoveredAreSettled(b: Blocks, k: nat) {
    forall g | g in b && b[g].parents != {} && Covered(b, g) :: Settled(b, k, g)
  }

  lemma StepKeepsCovered(b: Blocks, a: Arrival, b': Blocks)
    requires Healthy(b) && Step(b, a, b') && CoveredAreSettled(b, a.k)
    ensures CoveredAreSettled(b', a.k)
  {
    if Refusal(b, a.id, a.node.parents) == None {
      ArrivalMeans(b, a, b');
      forall g | g in b' && b'[g].parents != {} && Covered(b', g)
        ensures Settled(b', a.k, g)
      {
        CoveredIsSettled(b, a, b', g);
      }
    }
  }

  lemma {:induction false} RunKeepsCovered(b: Blocks, arrivals: seq<Arrival>, k: nat)
    requires Reached(b, arrivals) && forall i | 0 <= i < |arrivals| :: arrivals[i].k == k
    ensures CoveredAreSettled(b, k)
    decreases |arrivals|
  {
    if arrivals != [] {
      var n := |arrivals| - 1;
      var previous: Blocks :| Reached(previous, arrivals[..n]) && Step(previous, arrivals[n], b);
      RunIsHealthy(previous, arrivals[..n]);
      RunKeepsCovered(previous, arrivals[..n], k);
      StepKeepsCovered(previous, arrivals[n], b);
    }
  }

  /** Over every run with one cluster bound a block's record is what recomputing it would give if and only if every
      block unordered with its selected parent has a colour in it. */
  lemma SettledExactlyWhenCovered(b: Blocks, arrivals: seq<Arrival>, k: nat, g: Hash)
    requires Reached(b, arrivals) && forall i | 0 <= i < |arrivals| :: arrivals[i].k == k
    requires g in b && b[g].parents != {}
    ensures Settled(b, k, g) <==> Covered(b, g)
  {
    RunIsHealthy(b, arrivals);
    RunKeepsCovered(b, arrivals, k);
    if Settled(b, k, g) {
      SettledCovers(b, k, g);
    }
  }

  lemma CoveredIsSettled(b: Blocks, a: Arrival, b': Blocks, g: Hash)
    requires Arrived(b, a, b') && g in b' && b'[g].parents != {} && Covered(b', g)
    requires g in b && b[g].parents != {} ==> (Covered(b, g) ==> Settled(b, a.k, g))
    ensures Settled(b', a.k, g)
  {
    if g !in Area(b, a) {
      OldUnlessInArea(b, a, b', g);
      CoveredStaysSettled(b, a, b', g);
    }
  }

  lemma OldUnlessInArea(b: Blocks, a: Arrival, b': Blocks, g: Hash)
    requires Arrived(b, a, b') && g in b' && b'[g].parents != {} && g !in Area(b, a)
    ensures g in b
  {
    assert Shape(b')[g] == b'[g].parents;
    if g == a.id {
      var p := Inhabited(a.node.parents);
      BeforeEdge(Shape(b'), p, g);
    }
  }

  // ----- a run that leaves a block stale

  /** Every set of blocks has a topological order: the block with the longest past can go last. */
  lemma {:induction false} TopologicalExists(g: Graph, s: set<Hash>) returns (order: seq<Hash>)
    requires Closed(g) && Acyclic(g)
    ensures Topological(g, s, order)
    decreases |s|
  {
    if s == {} {
      order := [];
    } else {
      var rank: map<Hash, int> := map h | h in s :: 0 - |Past(g, h)|;
      var last := HasFirst(rank, s);
      forall h | h in s && h != last
        ensures |Past(g, h)| <= |Past(g, last)|
      {
        assert Precedes(rank, last, h);
      }
      var front := TopologicalExists(g, s - {last});
      LastFits(g, s, front, last);
      order := front + [last];
    }
  }

  lemma LastFits(g: Graph, s: set<Hash>, front: seq<Hash>, last: Hash)
    requires Closed(g) && Acyclic(g) && last in s && Topological(g, s - {last}, front)
    requires forall h | h in s :: |Past(g, h)| <= |Past(g, last)|
    ensures Topological(g, s, front + [last])
  {
    var order := front + [last];
    assert last !in Elements(front);
    forall i, p | 0 <= i < |order| && order[i] in g && p in g[order[i]] && p in s
      ensures p in order[..i]
    {
      BeforeEdge(g, p, order[i]);
      PastGrows(g, p, order[i]);
      if i < |front| {
        MemberOf(front, i);
        assert order[i] == front[i] && order[..i] == front[..i];
        assert front[i] in s && p in s - {last};
      } else {
        assert order[..i] == front && p in Elements(front);
      }
    }
  }

  /** A block as it arrives, with these parents. */
  function Unscored(parents: set<Hash>): BlockNode {
    BlockNode(parents, {}, None, {}, {}, 0)
  }

  lemma StepExists(b: Blocks, a: Arrival) returns (b': Blocks)
    requires Healthy(b) && a.node.children == {} && Refusal(b, a.id, a.node.parents) == None
    ensures Step(b, a, b')
  {
    var b1 := Added(b, a.id, a.node);
    AddKeepsLinks(b, a.id, a.node);
    var order := TopologicalExists(Shape(b1), Affected(Shape(b1), a.id));
    b' := Replayed(First(b1, a.k, a.id), a.k, order);
  }

  lemma ReachedNext(b: Blocks, run: seq<Arrival>, i: nat, b': Blocks)
    requires i < |run| && Reached(b, run[..i]) && Step(b, run[i], b')
    ensures Reached(b', run[..i + 1])
  {
    assert run[..i + 1][..i] == run[..i];
  }

  /** The next block of a run can arrive, under any stored parents. */
  lemma Arrive(b: Blocks, run: seq<Arrival>, i: nat) returns (b': Blocks)
    requires i < |run| && Reached(b, run[..i]) && run[i].node.children == {}
    requires run[i].id !in b && run[i].node.parents <= b.Keys && (run[i].node.parents == {} ==> b.Keys == {})
    ensures Reached(b', run[..i + 1]) && Arrived(b, run[i], b')
  {
    RunIsHealthy(b, run[..i]);
    b' := StepExists(b, run[i]);
    ArrivalMeans(b, run[i], b');
    ReachedNext(b, run, i, b');
  }

  /** The parent links a run adds up to. */
  function Links(run: seq<Arrival>): Graph {
    if run == [] then map[]
    else
      var a := run[|run| - 1];
      Links(run[..|run| - 1])[a.id := a.node.parents]
  }

  /** No block of the run gives a reason to refuse it. */
  predicate Acceptable(run: seq<Arrival>) {
    run == [] ||
    var before, a := Links(run[..|run| - 1]), run[|run| - 1];
    Acceptable(run[..|run| - 1]) && a.node.children == {} && a.id !in before && a.node.parents <= before.Keys &&
    (a.node.parents == {} ==> before == map[])
  }

  /** Every such run can happen, and leaves its last block settled. */
  lemma {:induction false} RunExists(run: seq<Arrival>) returns (b: Blocks)
    requires Acceptable(run)
    ensures Reached(b, run) && Shape(b) == Links(run)
    ensures run != [] && run[|run| - 1].node.parents != {} ==> Settled(b, run[|run| - 1].k, run[|run| - 1].id)
    decreases |run|
  {
    b := map[];
    if run != [] {
      var n := |run| - 1;
      var previous := RunExists(run[..n]);
      assert Shape(previous).Keys == previous.Keys;
      b := Arrive(previous, run, n);
      assert run[..n + 1] == run;
      InOwnArea(previous, run[n]);
    }
  }

  /** The store before and after the last block of such a run. */
  lemma LastArrives(run: seq<Arrival>) returns (before: Blocks, after: Blocks)
    requires |run| > 1 && Acceptable(run)
    ensures
      var front := run[..|run| - 1];
      Shape(before) == Links(front) && Arrived(before, run[|run| - 1], after) && Reached(after, run) &&
      (front[|front| - 1].node.parents != {} ==> Settled(before, front[|front| - 1].k, front[|front| - 1].id))
  {
    var n := |run| - 1;
    before := RunExists(run[..n]);
    assert Shape(before).Keys == before.Keys;
    after := Arrive(before, run, n);
    assert run[..n + 1] == run;
  }

  lemma InOwnArea(b: Blocks, a: Arrival)
    ensures a.node.parents != {} ==> a.id in Area(b, a)
  {
    if a.node.parents != {} {
      var p := Inhabited(a.node.parents);
      BeforeEdge(Shape(b)[a.id := a.node.parents], p, a.id);
    }
  }

  lemma OneParent(g: Graph, x: Hash, y: Hash, q: Hash)
    requires y in g && g[y] == {q}
    ensures Before(g, q, y) && (Before(g, x, y) ==> x == q || Before(g, x, q))
  {
    BeforeEdge(g, q, y);
    if Before(g, x, y) {
      var p := BeforeLast(g, x, y);
    }
  }

  lemma NoParent(g: Graph, x: Hash, y: Hash)
    requires y in g && g[y] == {}
    ensures !Before(g, x, y)
  {
    if Before(g, x, y) {
      var p := BeforeLast(g, x, y);
    }
  }

  /** A genesis, two blocks on it, then a block on each of those. */
  function Forked(genesis: Hash, a: Hash, b: Hash, c: Hash, d: Hash, k: nat): seq<Arrival> {
    [Arrival(genesis, Unscored({}), k), Arrival(a, Unscored({genesis}), k), Arrival(b, Unscored({genesis}), k),
     Arrival(c, Unscored({a}), k), Arrival(d, Unscored({b}), k)]
  }

  predicate AllDiffer(genesis: Hash, a: Hash, b: Hash, c: Hash, d: Hash) {
    genesis !in {a, b, c, d} && a !in {b, c, d} && b !in {c, d} && c != d
  }

  lemma ForkShape(g: Graph, genesis: Hash, a: Hash, b: Hash, c: Hash, d: Hash)
    requires AllDiffer(genesis, a, b, c, d)
    requires g == map[genesis := {}, a := {genesis}, b := {genesis}, c := {a}, d := {b}]
    ensures !Before(g, a, d) && c !in WithFutures(g, {b}) && Before(g, a, c)
  {
    OneParent(g, a, d, b);
    OneParent(g, a, b, genesis);
    NoParent(g, a, genesis);
    OneParent(g, b, c, a);
    OneParent(g, b, a, genesis);
    NoParent(g, b, genesis);
    OneParent(g, a, c, a);
  }

  lemma LinksNext(run: seq<Arrival>, n: nat)
    requires n < |run| && Acceptable(run[..n]) && run[n].node.children == {}
    requires run[n].id !in Links(run[..n]) && run[n].node.parents <= Links(run[..n]).Keys
    requires run[n].node.parents == {} ==> n == 0
    ensures Acceptable(run[..n + 1]) && Links(run[..n + 1]) == Links(run[..n])[run[n].id := run[n].node.parents]
  {
    assert run[..n + 1][..n] == run[..n];
  }

  lemma ForkLinks(genesis: Hash, a: Hash, b: Hash, c: Hash, d: Hash, k: nat)
    requires AllDiffer(genesis, a, b, c, d)
    ensures
      var run := Forked(genesis, a, b, c, d, k);
      Acceptable(run) && Links(run[..4]) == map[genesis := {}, a := {genesis}, b := {genesis}, c := {a}]
  {
    var run := Forked(genesis, a, b, c, d, k);
    LinksNext(run, 0);
    LinksNext(run, 1);
    LinksNext(run, 2);
    LinksNext(run, 3);
    LinksNext(run, 4);
    assert run[..5] == run;
  }

  lemma OnlyParentSelected(b: Blocks, h: Hash, p: Hash)
    requires Healthy(b) && h in b && Shape(b)[h] == {p}
    ensures b[h].parents == {p} && b[h].selectedParent == Some(p)
  {
    assert Fits(b, h);
  }

  lemma FifthLeavesStale(before: Blocks, arrival: Arrival, store: Blocks, genesis: Hash, a: Hash, b: Hash, c: Hash)
    requires AllDiffer(genesis, a, b, c, arrival.id) && arrival.node.parents == {b}
    requires Shape(before) == map[genesis := {}, a := {genesis}, b := {genesis}, c := {a}]
    requires Arrived(before, arrival, store) && Settled(before, arrival.k, c)
    ensures c in store && !Settled(store, arrival.k, c)
  {
    assert c in Shape(before);
    ForkShape(Shape(store), genesis, a, b, c, arrival.id);
    OnlyParentSelected(before, c, a);
    StaysSettled(before, arrival, store, c);
  }

  /** A run that goes stale: with any bound and any five digests, once the fifth block is on the other branch,
      recomputing the fourth would change its record. */
  lemma StaleReached(genesis: Hash, a: Hash, b: Hash, c: Hash, d: Hash, k: nat) returns (store: Blocks)
    requires AllDiffer(genesis, a, b, c, d)
    ensures Reached(store, Forked(genesis, a, b, c, d, k))
    ensures c in store && !Settled(store, k, c)
  {
    var run := Forked(genesis, a, b, c, d, k);
    ForkLinks(genesis, a, b, c, d, k);
    var before, after := LastArrives(run);
    FifthLeavesStale(before, run[4], after, genesis, a, b, c);
    store := after;
  }
}
