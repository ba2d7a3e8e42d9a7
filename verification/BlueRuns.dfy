/** How wide blue sets are, over whole runs. */
module BlueRuns {
  import opened Hashes
  import opened Graph
  import opened BlockDag
  import opened Scoring
  import opened ScoreInvariant
  import opened ScoreRuns

  ghost predicate Unordered(g: Graph, s: set<Hash>) {
    forall x, y {:trigger Before(g, x, y)} | x in s && y in s && x != y :: !Before(g, x, y)
  }

  /** Ancestors of `h`, any two of them ordered. */
  ghost predicate ChainUnder(g: Graph, h: Hash, chain: set<Hash>) {
    (forall x | x in chain :: Before(g, x, h)) &&
    forall x, y {:trigger Before(g, x, y)} | x in chain && y in chain && x != y :: Before(g, x, y) || Before(g, y, x)
  }

  /** Off the chain, pairwise unordered members number at most `width + 1`. */
  ghost predicate NarrowOff(g: Graph, blues: set<Hash>, chain: set<Hash>, width: nat) {
    forall s | s <= blues && s !! chain && Unordered(g, s) :: |s| <= width + 1
  }

  /** Off some chain of ancestors the blue set is narrow. */
  ghost predicate Narrow(g: Graph, h: Hash, blues: set<Hash>, width: nat) {
    exists chain :: ChainUnder(g, h, chain) && NarrowOff(g, blues, chain, width)
  }

  // ----- one recomputation

  /** The chain grows by the selected parent. */
  lemma ChainGrows(g: Graph, p: Hash, h: Hash, chain: set<Hash>)
    requires ChainUnder(g, p, chain) && Before(g, p, h)
    ensures ChainUnder(g, h, chain + {p})
  {
    forall x | x in chain + {p}
      ensures Before(g, x, h)
    {
      if x != p {
        BeforeTrans(g, x, p, h);
      }
    }
  }

  /** Unordered blues are old ones, or few because one of them was just admitted. */
  lemma BluesStayNarrow(b: Blocks, k: nat, p: Hash, chain: set<Hash>, width: nat, s: set<Hash>)
    requires p in b && b[p].blueSet <= b.Keys && k <= width && NarrowOff(Shape(b), b[p].blueSet, chain, width)
    requires s <= ColoursUnder(b, k, p).blue && s !! chain + {p} && Unordered(Shape(b), s)
    ensures |s| <= width + 1
  {
    ColoursCover(b, k, p);
    var colours, inherited := ColoursUnder(b, k, p), Inherited(b, p);
    if c :| c in s && c !in inherited {
      assert c !in inherited * colours.red;
      assert c in Anticone(Shape(b), p) && c !in colours.red;
      assert s <= b.Keys;
      BlueClusterWidth(b, k, p, s, c);
    } else {
      assert s <= b[p].blueSet;
    }
  }

  lemma RescoredIsNarrow(b: Blocks, k: nat, h: Hash, width: nat)
    requires Recomputable(b, h) && k <= width
    requires forall p | p in b[h].parents :: b[p].blueSet <= b.Keys && Narrow(Shape(b), p, b[p].blueSet, width)
    ensures Narrow(Shape(b), h, Rescored(b, k, h).blueSet, width)
  {
    HasStoredParent(b, h);
    var p := Best(b, b[h].parents);
    var g := Shape(b);
    assert p in g[h];
    BeforeEdge(g, p, h);
    var chain :| ChainUnder(g, p, chain) && NarrowOff(g, b[p].blueSet, chain, width);
    ChainGrows(g, p, h, chain);
    forall s | s <= ColoursUnder(b, k, p).blue && s !! chain + {p} && Unordered(g, s)
      ensures |s| <= width + 1
    {
      BluesStayNarrow(b, k, p, chain, width, s);
    }
  }

  // ----- every step of a run

  ghost predicate NarrowAt(b: Blocks, h: Hash, width: nat)
    requires h in b
  {
    b[h].blueSet <= b.Keys && Narrow(Shape(b), h, b[h].blueSet, width)
  }

  ghost predicate AllNarrow(b: Blocks, width: nat) {
    forall h | h in b :: NarrowAt(b, h, width)
  }

  lemma NarrowCarriesOver(b: Blocks, b': Blocks, h: Hash, width: nat)
    requires h in b && NarrowAt(b, h, width)
    requires b'.Keys == b.Keys && Shape(b') == Shape(b) && b'[h].blueSet == b[h].blueSet
    ensures NarrowAt(b', h, width)
  {
  }

  lemma RecomputeKeepsNarrow(b: Blocks, k: nat, h: Hash, width: nat)
    requires k <= width && forall x | x in b && x != h :: NarrowAt(b, x, width)
    requires h in b ==> h !in b[h].parents && (Recomputable(b, h) || NarrowAt(b, h, width))
    ensures AllNarrow(Recomputed(b, k, h), width)
  {
    var b' := Recomputed(b, k, h);
    LinksCarryOver(b, b');
    forall x | x in b'
      ensures NarrowAt(b', x, width)
    {
      if x == h && Recomputable(b, h) {
        RescoredIsNarrow(b, k, h, width);
        RescoredFits(b, k, h);
      } else {
        NarrowCarriesOver(b, b', x, width);
      }
    }
  }

  lemma {:induction false} ReplayKeepsNarrow(b: Blocks, k: nat, order: seq<Hash>, width: nat)
    requires k <= width && AllNarrow(b, width) && Acyclic(Shape(b))
    ensures AllNarrow(Replayed(b, k, order), width)
    decreases |order|
  {
    if order != [] {
      var n := |order| - 1;
      ReplayKeepsNarrow(b, k, order[..n], width);
      ReplayKeepsLinks(b, k, order[..n]);
      var b1, h := Replayed(b, k, order[..n]), order[n];
      if h in b1 {
        NotItsOwnParent(b1, h);
      }
      RecomputeKeepsNarrow(b1, k, h, width);
    }
  }

  /** Old blocks are ordered as before when a block arrives. */
  lemma ArrivalKeepsNarrow(g: Graph, id: Hash, parents: set<Hash>, h: Hash, blues: set<Hash>, width: nat)
    requires Closed(g) && Acyclic(g) && id !in g && parents <= g.Keys && h in g && blues <= g.Keys
    requires Narrow(g, h, blues, width)
    ensures Narrow(g[id := parents], h, blues, width)
  {
    var g' := g[id := parents];
    Extend(g, id, parents, g');
    var chain :| ChainUnder(g, h, chain) && NarrowOff(g, blues, chain, width);
    forall x | x in chain
      ensures x in g
    {
      BeforeInGraph(g, x, h);
    }
    assert ChainUnder(g', h, chain);
    forall s | s <= blues && s !! chain && Unordered(g', s)
      ensures |s| <= width + 1
    {
      assert Unordered(g, s);
    }
  }

  lemma AddedKeepsNarrow(b: Blocks, id: Hash, node: BlockNode, width: nat)
    requires Closed(Shape(b)) && Acyclic(Shape(b)) && Refusal(b, id, node.parents) == None && AllNarrow(b, width)
    ensures forall h | h in b :: h in Added(b, id, node) && NarrowAt(Added(b, id, node), h, width)
  {
    AddExtendsShape(b, id, node);
    forall h | h in b
      ensures h in Added(b, id, node) && NarrowAt(Added(b, id, node), h, width)
    {
      assert Shape(b).Keys == b.Keys;
      ArrivalKeepsNarrow(Shape(b), id, node.parents, h, b[h].blueSet, width);
      assert Added(b, id, node)[h].blueSet == b[h].blueSet;
    }
  }

  lemma NothingIsNarrow(g: Graph, h: Hash, width: nat)
    ensures Narrow(g, h, {}, width)
  {
    assert ChainUnder(g, h, {}) && NarrowOff(g, {}, {}, width);
  }

  lemma FirstKeepsNarrow(b: Blocks, k: nat, id: Hash, width: nat)
    requires id in b && k <= width && b[id].parents <= b.Keys && id !in b[id].parents
    requires forall h | h in b && h != id :: NarrowAt(b, h, width)
    ensures AllNarrow(First(b, k, id), width)
  {
    if b[id].parents == {} {
      var b' := First(b, k, id);
      LinksCarryOver(b, b');
      NothingIsNarrow(Shape(b'), id, width);
      forall h | h in b' && h != id
        ensures NarrowAt(b', h, width)
      {
        NarrowCarriesOver(b, b', h, width);
      }
    } else {
      RecomputeKeepsNarrow(b, k, id, width);
    }
  }

  lemma StepKeepsNarrow(b: Blocks, a: Arrival, b': Blocks, width: nat)
    requires Healthy(b) && Step(b, a, b') && AllNarrow(b, width) && a.k <= width
    ensures AllNarrow(b', width)
  {
    if Refusal(b, a.id, a.node.parents) == None {
      var b1 := Added(b, a.id, a.node);
      AddKeepsLinks(b, a.id, a.node);
      AddedKeepsNarrow(b, a.id, a.node, width);
      assert b1.Keys == b.Keys + {a.id} && b1[a.id].parents == a.node.parents;
      FirstKeepsNarrow(b1, a.k, a.id, width);
      LinkedAndScored(b, a);
      var order: seq<Hash> :| b' == Replayed(First(b1, a.k, a.id), a.k, order);
      ReplayKeepsNarrow(First(b1, a.k, a.id), a.k, order, width);
    }
  }

  lemma {:induction false} RunIsNarrow(b: Blocks, arrivals: seq<Arrival>, width: nat)
    requires Reached(b, arrivals) && forall i | 0 <= i < |arrivals| :: arrivals[i].k <= width
    ensures AllNarrow(b, width)
    decreases |arrivals|
  {
    if arrivals != [] {
      var n := |arrivals| - 1;
      var previous: Blocks :| Reached(previous, arrivals[..n]) && Step(previous, arrivals[n], b);
      RunIsHealthy(previous, arrivals[..n]);
      RunIsNarrow(previous, arrivals[..n], width);
      StepKeepsNarrow(previous, arrivals[n], b, width);
    }
  }

  lemma OneOnChain(g: Graph, h: Hash, chain: set<Hash>, s: set<Hash>)
    requires ChainUnder(g, h, chain) && Unordered(g, s)
    ensures |s * chain| <= 1
  {
    if s * chain != {} {
      var x := Inhabited(s * chain);
      forall y | y in s * chain
        ensures y == x
      {
        assert y != x ==> !Before(g, x, y) && !Before(g, y, x);
      }
      assert s * chain == {x};
    }
  }

  lemma NarrowBounds(g: Graph, h: Hash, blues: set<Hash>, width: nat, s: set<Hash>)
    requires Narrow(g, h, blues, width) && s <= blues && Unordered(g, s)
    ensures |s| <= width + 2
  {
    var chain :| ChainUnder(g, h, chain) && NarrowOff(g, blues, chain, width);
    OneOnChain(g, h, chain, s);
    OffChain(g, blues, chain, width, s);
    SplitSize(s, chain);
  }

  lemma OffChain(g: Graph, blues: set<Hash>, chain: set<Hash>, width: nat, s: set<Hash>)
    requires NarrowOff(g, blues, chain, width) && s <= blues && Unordered(g, s)
    ensures |s - chain| <= width + 1
  {
    assert Unordered(g, s - chain);
  }

  lemma SplitSize(s: set<Hash>, t: set<Hash>)
    ensures |s| == |s * t| + |s - t|
  {
    assert s == s * t + (s - t);
  }

  /** Over every run in which no cluster bound exceeds `width`, pairwise unordered blocks of any stored blue set number
      at most `width + 2`. */
  lemma RunBlueWidth(b: Blocks, arrivals: seq<Arrival>, width: nat, h: Hash, s: set<Hash>)
    requires Reached(b, arrivals) && forall i | 0 <= i < |arrivals| :: arrivals[i].k <= width
    requires h in b && s <= b[h].blueSet && Unordered(Shape(b), s)
    ensures |s| <= width + 2
  {
    RunIsNarrow(b, arrivals, width);
    assert NarrowAt(b, h, width);
    NarrowBounds(Shape(b), h, b[h].blueSet, width, s);
  }
}
