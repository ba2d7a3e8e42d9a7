/** The virtual block over the tips, and the chain and order that scores induce. */
module VirtualSelection {
  import opened Hashes
  import opened Graph
  import opened BlockDag
  import opened Colouring
  import opened Scoring
  import opened ScoreInvariant
  import opened ScoreRuns

  datatype VirtualBlock = VirtualBlock(
    parents: set<Hash>,
    selectedParent: Option<Hash>,
    blueSet: set<Hash>,
    redSet: set<Hash>,
    blueScore: nat
  )

  lemma {:induction false} HasTop(b: Blocks) returns (top: Hash)
    requires b.Keys != {}
    ensures IsBest(b, b.Keys, top)
  {
    var p := Inhabited(b.Keys);
    top := BestExists(b, b.Keys);
  }

  /** Any block with a child is beaten by that child, so the best of the tips is the best of all. */
  lemma TopIsATip(b: Blocks)
    requires Closed(Shape(b)) && Scored(b) && b.Keys != {}
    ensures exists p :: p in Childless(b) && p in b
    ensures forall h :: IsBest(b, Childless(b), h) <==> IsBest(b, b.Keys, h)
  {
    ScoredRises(b);
    var top := HasTop(b);
    forall h | IsBest(b, b.Keys, h)
      ensures h in Childless(b) && IsBest(b, Childless(b), h)
    {
      forall c | c in b
        ensures h !in b[c].parents
      {
        assert b[c].blueScore <= b[h].blueScore;
      }
    }
    forall h | IsBest(b, Childless(b), h)
      ensures IsBest(b, b.Keys, h)
    {
      BestUnique(b, b, Childless(b), h, top);
    }
  }

  ghost function VirtualOf(b: Blocks, k: nat): VirtualBlock
    requires Closed(Shape(b)) && Scored(b)
  {
    if b.Keys == {} then
      VirtualBlock({}, None, {}, {}, 0)
    else if |b.Keys| == 1 then
      var only := Member(b.Keys);
      VirtualBlock(Childless(b), b[only].selectedParent, b[only].blueSet, b[only].redSet, b[only].blueScore)
    else
      TopIsATip(b);
      var selected := Best(b, Childless(b));
      var colours := ColoursUnder(b, k, selected);
      VirtualBlock(Childless(b), Some(selected), colours.blue, colours.red, b[selected].blueScore + |colours.blue|)
  }

  lemma VirtualOver(b: Blocks, k: nat, selected: Hash)
    requires Closed(Shape(b)) && Scored(b) && |b.Keys| > 1 && IsBest(b, Childless(b), selected)
    ensures
      var colours := ColoursUnder(b, k, selected);
      VirtualOf(b, k) ==
        VirtualBlock(Childless(b), Some(selected), colours.blue, colours.red, b[selected].blueScore + |colours.blue|)
  {
    TopIsATip(b);
    BestUnique(b, b, Childless(b), selected, Best(b, Childless(b)));
  }

  lemma OnlyWhenAlone(b: Blocks)
    requires |b.Keys| > 1
    ensures forall h :: b.Keys != {h}
  {
    forall h
      ensures b.Keys != {h}
    {
      assert |{h}| == 1;
    }
  }

  lemma OnlyOne(b: Blocks, only: Hash)
    requires |b.Keys| == 1 && only in b.Keys
    ensures b.Keys == {only}
  {
    assert |b.Keys - {only}| == 0;
  }

  /** With two blocks or more the virtual block hangs under the best of all blocks, and outscores them all. */
  lemma VirtualSelectsTop(b: Blocks, k: nat)
    requires Healthy(b)
    ensures |b.Keys| > 1 ==>
      VirtualOf(b, k).selectedParent.Some? && IsBest(b, b.Keys, VirtualOf(b, k).selectedParent.value) &&
      forall h | h in b :: b[h].blueScore < VirtualOf(b, k).blueScore
    ensures |b.Keys| <= 1 ==> VirtualOf(b, k).selectedParent == None
  {
    if |b.Keys| > 1 {
      TopIsATip(b);
      var selected := VirtualOf(b, k).selectedParent.value;
      GreedyCovers(Near(Shape(b)), k, Sorted(Anticone(Shape(b), selected)), Inherited(b, selected));
      var blue := VirtualOf(b, k).blueSet;
      assert selected in blue;
      assert |blue| > 0;
    } else if b.Keys != {} {
      var only := Inhabited(b.Keys);
      OnlyOne(b, only);
      assert Fits(b, only);
      AloneIsGenesis(b, only);
    }
  }

  lemma AloneIsGenesis(b: Blocks, only: Hash)
    requires Closed(Shape(b)) && Acyclic(Shape(b)) && b.Keys == {only}
    ensures b[only].parents == {}
  {
    assert Shape(b)[only] <= {only};
    if only in b[only].parents {
      BeforeEdge(Shape(b), only, only);
    }
  }

  lemma ProcessingKeepsTips(b: Blocks, k: nat, id: Hash, b': Blocks)
    requires id in b && Processed(b, k, id, b')
    ensures Childless(b') == Childless(b)
  {
    var order :| Topological(Shape(b), Affected(Shape(b), id), order) && b' == Replayed(First(b, k, id), k, order);
    ReplayKeepsLinks(First(b, k, id), k, order);
    assert SameLinks(b, b');
    forall h
      ensures h in Childless(b) <==> h in Childless(b')
    {
      assert forall c | c in b :: b'[c].parents == b[c].parents;
    }
  }

  lemma ParentsStored(b: Blocks, id: Hash)
    requires Closed(Shape(b)) && id in b
    ensures b[id].parents <= b.Keys
  {
    assert Shape(b)[id] == b[id].parents;
  }

  lemma SameLinksFirst(b: Blocks, k: nat, id: Hash)
    requires WellLinked(b) && id in b
    ensures WellLinked(First(b, k, id)) && Shape(First(b, k, id)) == Shape(b)
  {
    LinksCarryOver(b, First(b, k, id));
  }

  /** Each block of the chain is the selected parent of the next. */
  ghost predicate IsSelectedChain(b: Blocks, chain: seq<Hash>) {
    chain != [] && (forall i | 0 <= i < |chain| :: chain[i] in b) &&
    forall i | 0 < i < |chain| ::
      b[chain[i]].selectedParent == Some(chain[i - 1]) && chain[i - 1] in b[chain[i]].parents
  }

  /** The descent so far, and where it goes next. */
  ghost predicate IsSelectedDescent(b: Blocks, down: seq<Hash>, next: Option<Hash>) {
    (forall i | 0 <= i < |down| :: down[i] in b) &&
    (forall i | 0 < i < |down| ::
      b[down[i - 1]].selectedParent == Some(down[i]) && down[i] in b[down[i - 1]].parents) &&
    (down != [] ==> b[down[|down| - 1]].selectedParent == next)
  }

  lemma NextInDescent(b: Blocks, down: seq<Hash>, h: Hash)
    requires Closed(Shape(b)) && Scored(b) && h in b && IsSelectedDescent(b, down, Some(h))
    ensures IsSelectedDescent(b, down + [h], b[h].selectedParent)
    ensures b[h].selectedParent.Some? ==>
      b[h].selectedParent.value in b && b[b[h].selectedParent.value].blueScore < b[h].blueScore
    ensures b[h].selectedParent.None? ==> b[h].parents == {}
  {
    assert Fits(b, h);
    if b[h].parents != {} {
      ParentScoresLess(b, b[h].selectedParent.value, h);
    }
    if down != [] {
      assert Fits(b, down[|down| - 1]);
    }
  }

  function Reversed(s: seq<Hash>): (r: seq<Hash>)
    ensures |r| == |s| && forall i | 0 <= i < |s| :: r[i] == s[|s| - 1 - i]
  {
    if s == [] then [] else Reversed(s[1..]) + [s[0]]
  }

  lemma DescentReversed(b: Blocks, down: seq<Hash>)
    requires down != [] && Scored(b) && IsSelectedDescent(b, down, None)
    ensures IsSelectedChain(b, Reversed(down)) && b[Reversed(down)[0]].parents == {}
    ensures Reversed(down)[|down| - 1] == down[0]
  {
    var chain := Reversed(down);
    forall i | 0 < i < |chain|
      ensures b[chain[i]].selectedParent == Some(chain[i - 1]) && chain[i - 1] in b[chain[i]].parents
    {
      var j := |down| - i;
      assert chain[i] == down[j - 1] && chain[i - 1] == down[j];
    }
    assert Fits(b, chain[0]);
  }

  lemma PickFirst(rank: map<Hash, int>, ranked: seq<Hash>) returns (first: Hash)
    requires rank.Keys != {} && Elements(ranked) == rank.Keys && RanksUp(rank, ranked)
    ensures |ranked| > 0 && first == ranked[0] && first in rank
    ensures forall h | h in rank && h != first :: Precedes(rank, first, h)
  {
    var x := Inhabited(rank.Keys);
    assert x in ranked;
    first := ranked[0];
    MemberOf(ranked, 0);
    forall h | h in rank && h != first
      ensures Precedes(rank, first, h)
    {
      assert h in Elements(ranked);
      var i :| 0 <= i < |ranked| && ranked[i] == h;
    }
  }

  lemma LowerRankFirst(rank: map<Hash, int>, r: seq<Hash>, i: nat, j: nat)
    requires Elements(r) <= rank.Keys && RanksUp(rank, r)
    requires i < |r| && j < |r| && r[i] in rank && r[j] in rank && rank[r[i]] < rank[r[j]]
    ensures i < j
  {
  }

  /** Ordering by score puts every block after all its ancestors. */
  lemma RankingIsTopological(b: Blocks, rank: map<Hash, int>, ordering: seq<Hash>)
    requires Healthy(b) && rank.Keys == b.Keys && forall h | h in b :: rank[h] == b[h].blueScore
    requires Elements(ordering) == b.Keys && RanksUp(rank, ordering)
    ensures Topological(Shape(b), b.Keys, ordering)
    ensures forall i, j | 0 <= i < |ordering| && 0 <= j < |ordering| && Before(Shape(b), ordering[i], ordering[j]) ::
      i < j
  {
    forall i, j | 0 <= i < |ordering| && 0 <= j < |ordering| && Before(Shape(b), ordering[i], ordering[j])
      ensures i < j
    {
      ScoresRise(b, ordering[i], ordering[j]);
      LowerRankFirst(rank, ordering, i, j);
    }
    forall i, p | 0 <= i < |ordering| && ordering[i] in Shape(b) && p in Shape(b)[ordering[i]] && p in b.Keys
      ensures p in ordering[..i]
    {
      assert p in Elements(ordering);
      var n :| 0 <= n < |ordering| && ordering[n] == p;
      BeforeEdge(Shape(b), p, ordering[i]);
      assert ordering[..i][n] == p;
    }
  }
}
