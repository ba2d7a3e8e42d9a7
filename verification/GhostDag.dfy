/** The consensus object: it colours, selects and scores blocks of a DAG it is handed. */
module GhostDag {
  import opened Hashes
  import opened Graph
  import opened BlockDag
  import opened Colouring
  import opened Scoring
  import opened ScoreInvariant
  import opened ScoreRuns
  import opened VirtualSelection
  import opened Kahn

  const K_MIN: nat := 1
  const K_MAX: nat := 64

  class GhostDag {
    var k: nat

    constructor (k: nat)
      ensures this.k == if k < 1 then 1 else if k > 64 then 64 else k
    {
      this.k := if k < K_MIN then K_MIN else if k > K_MAX then K_MAX else k;
    }

    method SelectParent(dag: Dag, parents: seq<Hash>) returns (r: Option<Hash>)
      ensures r.None? <==> Elements(parents) !! dag.blocks.Keys
      ensures r.Some? ==> IsBest(dag.blocks, Elements(parents), r.value)
    {
      var stored := set h | h in parents && h in dag.blocks;
      if stored == {} {
        assert forall h | h in Elements(parents) && h in dag.blocks :: h in stored;
        return None;
      }
      // Descending score, then ascending digest.
      var rank: map<Hash, int> := map h | h in stored :: 0 - dag.blocks[h].blueScore;
      var ranked := SortByRank(rank);
      ghost var first := PickFirst(rank, ranked);
      r := Some(ranked[0]);
      forall q | q in Elements(parents) && q in dag.blocks && q != first
        ensures dag.blocks[q].blueScore < dag.blocks[first].blueScore
             || (dag.blocks[q].blueScore == dag.blocks[first].blueScore && first <= q)
      {
        assert Precedes(rank, first, q);
      }
    }

    method BuildBlueSet(dag: Dag, selected: Hash) returns (blue: set<Hash>, red: set<Hash>)
      requires Closed(Shape(dag.blocks)) && Mirrored(dag.blocks)
      ensures Colours(blue, red) == ColoursUnder(dag.blocks, k, selected)
      ensures ColouredInTurn(dag.blocks, k, selected, blue, red)
    {
      blue, red := {}, {};
      if selected in dag.blocks {
        blue := dag.blocks[selected].blueSet + {selected};
      }
      var candidates := dag.GetAnticone(selected);
      ghost var near, inherited := Near(Shape(dag.blocks)), blue;
      for i := 0 to |candidates|
        invariant Colours(blue, red) == Greedy(near, k, candidates[..i], inherited)
      {
        NextColour(near, k, candidates, inherited, i);
        blue, red := ColourOne(dag, candidates[i], blue, red);
      }
      assert candidates[..|candidates|] == candidates;
      ColoursAreInTurn(dag.blocks, k, selected, blue, red);
    }

    method ColourOne(dag: Dag, candidate: Hash, blue: set<Hash>, red: set<Hash>)
      returns (blue': set<Hash>, red': set<Hash>)
      requires Closed(Shape(dag.blocks)) && Mirrored(dag.blocks)
      ensures Colours(blue', red') == Coloured(Near(Shape(dag.blocks)), k, Colours(blue, red), candidate)
    {
      var unordered := dag.GetAnticone(candidate);
      var conflicts := set x | x in unordered && x in blue;
      assert conflicts == Near(Shape(dag.blocks))(candidate) * blue;
      blue', red' := blue, red;
      if |conflicts| <= k {
        blue' := blue + {candidate};
      } else {
        red' := red + {candidate};
      }
    }

    /** What the block's record becomes under its best parent. */
    method Rescore(dag: Dag, h: Hash, selected: Hash) returns (updated: BlockNode)
      requires Closed(Shape(dag.blocks)) && Mirrored(dag.blocks) && Recomputable(dag.blocks, h)
      requires IsBest(dag.blocks, dag.blocks[h].parents, selected)
      ensures updated == Rescored(dag.blocks, k, h)
      ensures updated.parents == dag.blocks[h].parents && updated.children == dag.blocks[h].children
      ensures updated.selectedParent == Some(selected)
      ensures ColouredInTurn(dag.blocks, k, selected, updated.blueSet, updated.redSet)
      ensures updated.blueScore == dag.blocks[selected].blueScore + |updated.blueSet|
    {
      HasStoredParent(dag.blocks, h);
      BestUnique(dag.blocks, dag.blocks, dag.blocks[h].parents, selected, Best(dag.blocks, dag.blocks[h].parents));
      var blue, red := BuildBlueSet(dag, selected);
      var score := dag.blocks[selected].blueScore + |blue|;
      updated := dag.blocks[h].(selectedParent := Some(selected), blueSet := blue, redSet := red, blueScore := score);
    }

    /** Recomputes one block's selection and score; tells whether anything changed. */
    method RecomputeBlock(dag: Dag, h: Hash) returns (changed: bool)
      requires Closed(Shape(dag.blocks)) && Mirrored(dag.blocks)
      modifies dag`blocks
      ensures dag.blocks == Recomputed(old(dag.blocks), k, h)
      ensures changed <==> dag.blocks != old(dag.blocks)
    {
      if h !in dag.blocks {
        return false;
      }
      var block := dag.blocks[h];
      if block.parents == {} || !(block.parents <= dag.blocks.Keys) {
        return false;
      }
      HasStoredParent(dag.blocks, h);
      var parents := Sort(block.parents);
      var choice := SelectParent(dag, parents);
      if choice.None? {
        return false;
      }
      changed := StoreRescored(dag, h, choice.value);
    }

    /** Stores the record the best parent gives, if it is not the one already there. */
    method StoreRescored(dag: Dag, h: Hash, selected: Hash) returns (changed: bool)
      requires Closed(Shape(dag.blocks)) && Mirrored(dag.blocks) && Recomputable(dag.blocks, h)
      requires IsBest(dag.blocks, dag.blocks[h].parents, selected)
      modifies dag`blocks
      ensures dag.blocks == Recomputed(old(dag.blocks), k, h)
      ensures changed <==> dag.blocks != old(dag.blocks)
    {
      var updated := Rescore(dag, h, selected);
      RecomputedMeans(dag.blocks, k, h, updated);
      if updated == dag.blocks[h] {
        return false;
      }
      dag.blocks := dag.blocks[h := updated];
      return true;
    }

    method ProcessBlock(dag: Dag, id: Hash)
      requires WellLinked(dag.blocks)
      modifies dag`blocks
      ensures id !in old(dag.blocks) ==> dag.blocks == old(dag.blocks)
      ensures id in old(dag.blocks) ==> Processed(old(dag.blocks), k, id, dag.blocks)
    {
      if id !in dag.blocks {
        return;
      }
      ghost var b := dag.blocks;
      var parents := dag.blocks[id].parents;
      ScoreFirst(dag, id);
      SameLinksFirst(b, k, id);
      ParentsStored(b, id);
      var affected := AffectedArea(dag, parents);
      assert affected == Affected(Shape(b), id);
      var nodes := Sort(affected);
      var order := TopologicalSort(dag, nodes);
      Replay(dag, order);
    }

    /** The new block's own score: fixed for a genesis, recomputed otherwise. */
    method ScoreFirst(dag: Dag, id: Hash)
      requires WellLinked(dag.blocks) && id in dag.blocks
      modifies dag`blocks
      ensures dag.blocks == First(old(dag.blocks), k, id)
    {
      var block := dag.blocks[id];
      if block.parents == {} {
        dag.blocks := dag.blocks[id := block.(selectedParent := None, blueSet := {}, redSet := {}, blueScore := 1)];
      } else {
        var changed := RecomputeBlock(dag, id);
      }
    }

    /** The given blocks and everything after them. */
    method AffectedArea(dag: Dag, parents: set<Hash>) returns (affected: set<Hash>)
      requires WellLinked(dag.blocks) && parents <= dag.blocks.Keys
      ensures affected == WithFutures(Shape(dag.blocks), parents)
    {
      affected := {};
      var g := Sort(parents);
      for i := 0 to |g|
        invariant affected == WithFutures(Shape(dag.blocks), Elements(g[..i]))
      {
        OneMoreElement(g, i);
        OneMoreFuture(Shape(dag.blocks), Elements(g[..i]), g[i]);
        var below := dag.GetDescendants(g[i]);
        assert (set x | x in below) == Elements(below);
        affected := affected + {g[i]} + set x | x in below;
      }
      assert g[..|g|] == g;
    }

    method Replay(dag: Dag, order: seq<Hash>)
      requires Closed(Shape(dag.blocks)) && Mirrored(dag.blocks)
      modifies dag`blocks
      ensures dag.blocks == Replayed(old(dag.blocks), k, order)
    {
      for i := 0 to |order|
        invariant dag.blocks == Replayed(old(dag.blocks), k, order[..i])
      {
        ReplayKeepsLinks(old(dag.blocks), k, order[..i]);
        LinksCarryOver(old(dag.blocks), dag.blocks);
        var changed := RecomputeBlock(dag, order[i]);
        assert order[..i + 1][..i] == order[..i];
      }
      assert order[..|order|] == order;
    }

    /** How a node takes in a block: link it, and if it is accepted, process it. */
    method Receive(dag: Dag, id: Hash, node: BlockNode) returns (refusal: Option<AddError>)
      requires dag.Valid() && Healthy(dag.blocks) && node.children == {}
      modifies dag
      ensures Step(old(dag.blocks), Arrival(id, node, k), dag.blocks)
      ensures dag.Valid() && Healthy(dag.blocks)
    {
      refusal := dag.AddBlock(id, node);
      ghost var b := dag.blocks;
      if refusal.None? {
        ProcessBlock(dag, id);
        ProcessingKeepsTips(b, k, id, dag.blocks);
      }
      StepKeepsHealth(old(dag.blocks), Arrival(id, node, k), dag.blocks);
    }

    method BuildVirtualBlock(dag: Dag) returns (v: VirtualBlock)
      requires dag.Valid() && Healthy(dag.blocks)
      ensures v == VirtualOf(dag.blocks, k)
      ensures dag.blocks.Keys == {} ==> v == VirtualBlock({}, None, {}, {}, 0)
      ensures forall h | dag.blocks.Keys == {h} ::
        var block := dag.blocks[h];
        v == VirtualBlock(dag.tips, block.selectedParent, block.blueSet, block.redSet, block.blueScore)
      ensures |dag.blocks.Keys| > 1 ==>
        v.parents == dag.tips && v.selectedParent.Some? && IsBest(dag.blocks, dag.tips, v.selectedParent.value) &&
        ColouredInTurn(dag.blocks, k, v.selectedParent.value, v.blueSet, v.redSet) &&
        v.blueScore == dag.blocks[v.selectedParent.value].blueScore + |v.blueSet|
    {
      if dag.blocks.Keys == {} {
        return VirtualBlock({}, None, {}, {}, 0);
      }
      if |dag.blocks.Keys| == 1 {
        var all := Sort(dag.blocks.Keys);
        ghost var member := Inhabited(dag.blocks.Keys);
        assert member in all;
        var only := all[0];
        OnlyOne(dag.blocks, only);
        var block := dag.blocks[only];
        return VirtualBlock(dag.tips, block.selectedParent, block.blueSet, block.redSet, block.blueScore);
      }
      OnlyWhenAlone(dag.blocks);
      v := BuildOverTips(dag);
    }

    /** The general case: selection and colours over the tips. */
    method BuildOverTips(dag: Dag) returns (v: VirtualBlock)
      requires dag.Valid() && Healthy(dag.blocks) && |dag.blocks.Keys| > 1
      ensures v == VirtualOf(dag.blocks, k)
      ensures v.parents == dag.tips && v.selectedParent.Some? && IsBest(dag.blocks, dag.tips, v.selectedParent.value)
      ensures ColouredInTurn(dag.blocks, k, v.selectedParent.value, v.blueSet, v.redSet)
      ensures v.blueScore == dag.blocks[v.selectedParent.value].blueScore + |v.blueSet|
    {
      var tips := Sort(dag.tips);
      var choice := SelectParent(dag, tips);
      TopIsATip(dag.blocks);
      // A DAG with blocks has tips, so the source's branch for an empty choice is never taken.
      assert choice.Some?;
      var selected := choice.value;
      var blue, red := BuildBlueSet(dag, selected);
      VirtualOver(dag.blocks, k, selected);
      v := VirtualBlock(dag.tips, Some(selected), blue, red, dag.blocks[selected].blueScore + |blue|);
    }

    /** The chain of selected parents down from the virtual block, oldest first. */
    method GetVirtualSelectedChain(dag: Dag) returns (chain: seq<Hash>)
      requires dag.Valid() && Healthy(dag.blocks)
      ensures |dag.blocks.Keys| <= 1 ==> chain == []
      ensures |dag.blocks.Keys| > 1 ==>
        IsSelectedChain(dag.blocks, chain) && dag.blocks[chain[0]].parents == {} &&
        IsBest(dag.blocks, dag.blocks.Keys, chain[|chain| - 1])
    {
      var v := BuildVirtualBlock(dag);
      VirtualSelectsTop(dag.blocks, k);
      var current := v.selectedParent;
      var downwards: seq<Hash> := [];
      while current.Some?
        invariant current.Some? ==> current.value in dag.blocks
        invariant IsSelectedDescent(dag.blocks, downwards, current)
        invariant downwards == [] ==> current == v.selectedParent
        invariant downwards != [] ==> Some(downwards[0]) == v.selectedParent
        decreases if current.Some? then dag.blocks[current.value].blueScore + 1 else 0
      {
        var h := current.value;
        NextInDescent(dag.blocks, downwards, h);
        downwards := downwards + [h];
        current := dag.blocks[h].selectedParent;
      }
      chain := Reversed(downwards);
      if downwards != [] {
        DescentReversed(dag.blocks, downwards);
      }
    }

    method GetVirtualBlock(dag: Dag, placeholder: Hash) returns (r: Option<Hash>)
      ensures dag.blocks.Keys == {} ==> r == Some(placeholder)
      ensures dag.blocks.Keys != {} ==> r.Some? && IsBest(dag.blocks, dag.blocks.Keys, r.value)
    {
      if dag.blocks.Keys == {} {
        return Some(placeholder);
      }
      var all := Sort(dag.blocks.Keys);
      r := SelectParent(dag, all);
    }

    /** All blocks by ascending score, then digest. */
    method GetOrdering(dag: Dag) returns (ordering: seq<Hash>)
      requires Healthy(dag.blocks)
      ensures Elements(ordering) == dag.blocks.Keys
      ensures forall i, j | 0 <= i < j < |ordering| ::
        dag.blocks[ordering[i]].blueScore < dag.blocks[ordering[j]].blueScore ||
        (dag.blocks[ordering[i]].blueScore == dag.blocks[ordering[j]].blueScore && ordering[i] < ordering[j])
      ensures Topological(Shape(dag.blocks), dag.blocks.Keys, ordering)
      ensures forall i, j | 0 <= i < |ordering| && 0 <= j < |ordering| ::
        Before(Shape(dag.blocks), ordering[i], ordering[j]) ==> i < j
    {
      var rank: map<Hash, int> := map h | h in dag.blocks :: dag.blocks[h].blueScore;
      ordering := SortByRank(rank);
      RankingIsTopological(dag.blocks, rank, ordering);
    }
  }
}
