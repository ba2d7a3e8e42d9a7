/** Scores as values: what recomputing one block, and replaying a region, makes of a block store. */
module Scoring {
  import opened Hashes
  import opened Graph
  import opened BlockDag
  import opened Colouring

  /** `h` has the highest score among the stored members of `parents`, and the smallest digest at that score. */
  ghost predicate IsBest(b: Blocks, parents: set<Hash>, h: Hash) {
    h in parents && h in b &&
    forall q | q in parents && q in b :: b[q].blueScore < b[h].blueScore || (b[q].blueScore == b[h].blueScore && h <= q)
  }

  lemma {:induction false} BestExists(b: Blocks, parents: set<Hash>) returns (h: Hash)
    requires exists p :: p in parents && p in b
    ensures IsBest(b, parents, h)
  {
    var stored: map<Hash, int> := map p | p in parents && p in b :: 0 - b[p].blueScore;
    assert stored.Keys != {} by {
      var p :| p in parents && p in b;
      assert p in stored.Keys;
    }
    h := HasFirst(stored, stored.Keys);
    forall q | q in parents && q in b && q != h
      ensures b[q].blueScore < b[h].blueScore || (b[q].blueScore == b[h].blueScore && h <= q)
    {
      assert q in stored.Keys;
      assert Precedes(stored, h, q);
    }
  }

  ghost function Best(b: Blocks, parents: set<Hash>): (h: Hash)
    requires exists p :: p in parents && p in b
    ensures IsBest(b, parents, h)
  {
    assert exists h :: IsBest(b, parents, h) by {
      var h := BestExists(b, parents);
    }
    var h :| IsBest(b, parents, h);
    h
  }

  ghost function Inherited(b: Blocks, selected: Hash): set<Hash> {
    if selected in b then b[selected].blueSet + {selected} else {}
  }

  ghost function Near(g: Graph): Hash -> set<Hash> {
    h => Anticone(g, h)
  }

  /** The colours a block with this selected parent gets. */
  ghost function ColoursUnder(b: Blocks, k: nat, selected: Hash): Colours {
    Greedy(Near(Shape(b)), k, Sorted(Anticone(Shape(b), selected)), Inherited(b, selected))
  }

  /** Blue and red together are the inherited blues, the selected parent and its whole anticone. */
  lemma ColoursCover(b: Blocks, k: nat, selected: Hash)
    ensures Inherited(b, selected) <= ColoursUnder(b, k, selected).blue
    ensures ColoursUnder(b, k, selected).blue + ColoursUnder(b, k, selected).red
         == Inherited(b, selected) + Anticone(Shape(b), selected)
    ensures ColoursUnder(b, k, selected).blue * ColoursUnder(b, k, selected).red
         == Inherited(b, selected) * ColoursUnder(b, k, selected).red
  {
    var candidates := Sorted(Anticone(Shape(b), selected));
    GreedyCovers(Near(Shape(b)), k, candidates, Inherited(b, selected));
    assert Distinct(candidates);
    OverlapIsInherited(Near(Shape(b)), k, candidates, Inherited(b, selected));
  }

  /** The colours a block gets under `selected`, spelled out: the blocks unordered with `selected` take their turns by
      digest, and one is red exactly when more than `k` of the inherited blues and of the earlier blocks that are not
      red are unordered with it. */
  ghost predicate ColouredInTurn(b: Blocks, k: nat, selected: Hash, blue: set<Hash>, red: set<Hash>) {
    var g := Shape(b);
    var inherited := if selected in b then b[selected].blueSet + {selected} else {};
    red <= Anticone(g, selected) && blue == inherited + (Anticone(g, selected) - red) &&
    forall c | c in Anticone(g, selected) ::
      c in red <==> |Anticone(g, c) * (inherited + NotRedBelow(Anticone(g, selected), red, c))| > k
  }

  /** That is what they are, and nothing else. */
  lemma ColoursAreInTurn(b: Blocks, k: nat, selected: Hash, blue: set<Hash>, red: set<Hash>)
    ensures Colours(blue, red) == ColoursUnder(b, k, selected) <==> ColouredInTurn(b, k, selected, blue, red)
  {
    var g := Shape(b);
    var candidates := Sorted(Anticone(g, selected));
    GreedyFollowsRule(Near(g), k, candidates, Inherited(b, selected));
    RuleIsInTurn(b, k, selected, Colours(blue, red));
    if ColouredInTurn(b, k, selected, blue, red) {
      RuleDecides(Near(g), k, Anticone(g, selected), Inherited(b, selected), Colours(blue, red),
                  ColoursUnder(b, k, selected));
    }
  }

  lemma RuleIsInTurn(b: Blocks, k: nat, selected: Hash, colours: Colours)
    ensures ByRule(Near(Shape(b)), k, Anticone(Shape(b), selected), Inherited(b, selected), colours) <==>
      ColouredInTurn(b, k, selected, colours.blue, colours.red)
  {
    var near := Near(Shape(b));
    assert forall c :: near(c) == Anticone(Shape(b), c);
  }

  /** Every red block is unordered with more than `k` blue ones. */
  lemma RedsOutvoted(b: Blocks, k: nat, selected: Hash, c: Hash)
    requires c in ColoursUnder(b, k, selected).red
    ensures |Anticone(Shape(b), c) * ColoursUnder(b, k, selected).blue| > k
  {
    RedsConflict(Near(Shape(b)), k, Sorted(Anticone(Shape(b), selected)), Inherited(b, selected), c);
  }

  /** At most `k + 1` pairwise unordered blocks are blue together once an admitted candidate is among them. */
  lemma BlueClusterWidth(b: Blocks, k: nat, selected: Hash, s: set<Hash>, c: Hash)
    requires s <= ColoursUnder(b, k, selected).blue && c in s && c in Anticone(Shape(b), selected)
    requires forall x, y | x in s && y in s && x != y :: !Before(Shape(b), x, y)
    requires s <= b.Keys && c !in ColoursUnder(b, k, selected).red
    ensures |s| <= k + 1
  {
    var near, inherited := Near(Shape(b)), Inherited(b, selected);
    var candidates := Sorted(Anticone(Shape(b), selected));
    assert c in Elements(candidates);
    var i :| 0 <= i < |candidates| && candidates[i] == c;
    NotRedIsAdmitted(near, k, candidates, inherited, i);
    assert PairwiseUnordered(near, s);
    BlueWidth(near, k, candidates, inherited, s, i);
  }

  /** Only a stored block whose parents are all stored, and which has some, can be recomputed. */
  ghost predicate Recomputable(b: Blocks, h: Hash) {
    h in b && b[h].parents != {} && b[h].parents <= b.Keys
  }

  lemma HasStoredParent(b: Blocks, h: Hash)
    requires Recomputable(b, h)
    ensures exists p :: p in b[h].parents && p in b
  {
    var p := Inhabited(b[h].parents);
  }

  ghost function Rescored(b: Blocks, k: nat, h: Hash): BlockNode
    requires Recomputable(b, h)
  {
    HasStoredParent(b, h);
    var selected := Best(b, b[h].parents);
    var colours := ColoursUnder(b, k, selected);
    b[h].(selectedParent := Some(selected), blueSet := colours.blue, redSet := colours.red,
          blueScore := b[selected].blueScore + |colours.blue|)
  }

  ghost function Recomputed(b: Blocks, k: nat, h: Hash): Blocks {
    if Recomputable(b, h) then b[h := Rescored(b, k, h)] else b
  }

  ghost function Replayed(b: Blocks, k: nat, order: seq<Hash>): Blocks {
    if order == [] then b
    else Recomputed(Replayed(b, k, order[..|order| - 1]), k, order[|order| - 1])
  }

  /** The given blocks and everything after them. */
  ghost function WithFutures(g: Graph, s: set<Hash>): set<Hash> {
    s + set x | x in g && exists p :: p in s && Before(g, p, x)
  }

  lemma OneMoreFuture(g: Graph, s: set<Hash>, p: Hash)
    ensures WithFutures(g, s + {p}) == WithFutures(g, s) + {p} + Future(g, p)
  {
  }

  /** The parents of `id` and everything after them, `id` included. */
  ghost function Affected(g: Graph, id: Hash): set<Hash>
    requires id in g
  {
    WithFutures(g, g[id])
  }

  /** `order` lists `s` without repeats, each block after all its parents in `s`. */
  ghost predicate Topological(g: Graph, s: set<Hash>, order: seq<Hash>) {
    Distinct(order) && Elements(order) == s &&
    forall i, p | 0 <= i < |order| && order[i] in g && p in g[order[i]] && p in s :: p in order[..i]
  }

  ghost function First(b: Blocks, k: nat, id: Hash): Blocks
    requires id in b
  {
    if b[id].parents == {} then
      b[id := b[id].(selectedParent := None, blueSet := {}, redSet := {}, blueScore := 1)]
    else
      Recomputed(b, k, id)
  }

  /** What processing block `id` may turn `b` into: any topological order of the affected region will do. */
  ghost predicate Processed(b: Blocks, k: nat, id: Hash, b': Blocks)
    requires id in b
  {
    exists order :: Topological(Shape(b), Affected(Shape(b), id), order) && b' == Replayed(First(b, k, id), k, order)
  }
}
