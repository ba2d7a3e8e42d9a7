/** The virtual block is the block that would come next. */
module VirtualRecords {
  import opened Hashes
  import opened Graph
  import opened BlockDag
  import opened Scoring
  import opened ScoreInvariant
  import opened ScoreRuns
  import opened StaleScores
  import opened VirtualSelection

  /** Nothing a new block changes in the store bears on the choice among the tips. */
  lemma SameBestTip(b: Blocks, id: Hash, p: Hash)
    requires Healthy(b) && id !in b && IsBest(b, Childless(b), p)
    ensures IsBest(Added(b, id, Unscored(Childless(b))), Childless(b), p)
  {
    var b' := Added(b, id, Unscored(Childless(b)));
    forall q | q in b
      ensures q in b' && b'[q].blueScore == b[q].blueScore
    {
    }
  }

  lemma HangsUnderTips(b: Blocks, id: Hash)
    requires Healthy(b) && id !in b && b.Keys != {}
    ensures
      var b' := Added(b, id, Unscored(Childless(b)));
      Recomputable(b', id) && b'[id].parents == Childless(b) && Shape(b') == Shape(b)[id := Childless(b)] &&
      forall q | q in b :: q in b' && b'[q].blueScore == b[q].blueScore && b'[q].blueSet == b[q].blueSet
  {
    TopIsATip(b);
    AddExtendsShape(b, id, Unscored(Childless(b)));
  }

  /** With two blocks or more the virtual block has the parents, the selection, the colours and the score that any block
      arriving under all the tips would be given. */
  lemma VirtualIsNextRecord(b: Blocks, k: nat, id: Hash)
    requires Healthy(b) && |b.Keys| > 1 && id !in b
    ensures Recomputable(Added(b, id, Unscored(Childless(b))), id)
    ensures
      var v, node := VirtualOf(b, k), Rescored(Added(b, id, Unscored(Childless(b))), k, id);
      v.parents == node.parents && v.selectedParent == node.selectedParent &&
      v.blueSet == node.blueSet && v.redSet == node.redSet && v.blueScore == node.blueScore
  {
    var b' := Added(b, id, Unscored(Childless(b)));
    HangsUnderTips(b, id);
    HasStoredParent(b', id);
    var p := NextSelects(b, id);
    SameColoursNext(b, k, id, p);
  }

  lemma NextSelects(b: Blocks, id: Hash) returns (p: Hash)
    requires Healthy(b) && b.Keys != {} && id !in b
    requires exists q :: q in Childless(b) && q in Added(b, id, Unscored(Childless(b)))
    ensures exists q :: q in Childless(b) && q in b
    ensures p in Childless(b) && p == Best(b, Childless(b)) == Best(Added(b, id, Unscored(Childless(b))), Childless(b))
  {
    var b' := Added(b, id, Unscored(Childless(b)));
    TopIsATip(b);
    p := Best(b, Childless(b));
    SameBestTip(b, id, p);
    BestUnique(b', b', Childless(b), p, Best(b', Childless(b)));
  }

  lemma SameColoursNext(b: Blocks, k: nat, id: Hash, p: Hash)
    requires Healthy(b) && id !in b && p in Childless(b)
    ensures ColoursUnder(Added(b, id, Unscored(Childless(b))), k, p) == ColoursUnder(b, k, p)
  {
    var b' := Added(b, id, Unscored(Childless(b)));
    HangsUnderTips(b, id);
    assert p in Shape(b')[id];
    BeforeEdge(Shape(b'), p, id);
    assert Fits(b, p);
    ColoursRepeat(b, id, Childless(b), b', k, p);
  }
}
