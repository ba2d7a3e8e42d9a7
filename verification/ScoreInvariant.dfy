/** What every run of adding and processing blocks keeps true of the stored scores. */
module ScoreInvariant {
  import opened Hashes
  import opened Graph
  import opened BlockDag
  import opened Scoring

  /** The stored selection and score of `h` fit the stored scores of its parents. */
  ghost predicate Fits(b: Blocks, h: Hash) {
    h in b &&
    var node := b[h];
    if node.parents == {} then
      node.selectedParent == None && node.blueSet == {} && node.redSet == {} && node.blueScore == 1
    else
      node.selectedParent.Some? &&
      IsBest(b, node.parents, node.selectedParent.value) &&
      node.selectedParent.value in node.blueSet && node.blueSet <= b.Keys && node.redSet <= b.Keys &&
      node.blueScore == b[node.selectedParent.value].blueScore + |node.blueSet|
  }

  ghost predicate Scored(b: Blocks) {
    forall h {:trigger Fits(b, h)} | h in b :: Fits(b, h)
  }

  /** Recomputing `h` would change nothing. */
  ghost predicate Settled(b: Blocks, k: nat, h: Hash) {
    Recomputed(b, k, h) == b
  }

  ghost predicate SameLinks(b: Blocks, b': Blocks) {
    b.Keys == b'.Keys && forall h | h in b :: b'[h].parents == b[h].parents && b'[h].children == b[h].children
  }

  lemma LinksCarryOver(b: Blocks, b': Blocks)
    requires SameLinks(b, b')
    ensures Shape(b') == Shape(b)
    ensures Mirrored(b) ==> Mirrored(b')
    ensures OneGenesis(b) ==> OneGenesis(b')
  {
    forall h | h in b
      ensures Shape(b')[h] == Shape(b)[h]
      ensures Mirrored(b) ==> b'[h].children == set c | c in b' && h in b'[c].parents
    {
      assert b'[h].parents == b[h].parents && b'[h].children == b[h].children;
      forall c
        ensures c in b && h in b[c].parents <==> c in b' && h in b'[c].parents
      {
        assert c in b ==> b'[c].parents == b[c].parents;
      }
    }
  }

  lemma {:induction false} ReplayKeepsLinks(b: Blocks, k: nat, order: seq<Hash>)
    ensures SameLinks(b, Replayed(b, k, order))
    ensures Shape(Replayed(b, k, order)) == Shape(b)
    decreases |order|
  {
    if order != [] {
      ReplayKeepsLinks(b, k, order[..|order| - 1]);
    }
    LinksCarryOver(b, Replayed(b, k, order));
  }

  lemma BestUnique(b: Blocks, b': Blocks, parents: set<Hash>, x: Hash, y: Hash)
    requires IsBest(b, parents, x) && IsBest(b', parents, y)
    requires forall p | p in parents :: (p in b <==> p in b') && (p in b ==> b[p].blueScore == b'[p].blueScore)
    ensures x == y
  {
  }

  /** Rescoring looks only at the shape and at the parents' records. */
  lemma RescoredSame(b: Blocks, b': Blocks, k: nat, h: Hash)
    requires SameLinks(b, b') && Recomputable(b, h)
    requires forall p | p in b[h].parents :: b'[p] == b[p]
    ensures Recomputable(b', h) && Rescored(b', k, h) == Rescored(b, k, h)
  {
    LinksCarryOver(b, b');
    HasStoredParent(b, h);
    HasStoredParent(b', h);
    var selected := Best(b, b[h].parents);
    BestUnique(b, b', b[h].parents, selected, Best(b', b'[h].parents));
    assert ColoursUnder(b', k, selected) == ColoursUnder(b, k, selected);
  }

  lemma RescoredFits(b: Blocks, k: nat, h: Hash)
    requires Recomputable(b, h) && forall p | p in b[h].parents :: b[p].blueSet <= b.Keys
    ensures
      var node := Rescored(b, k, h);
      node.selectedParent.Some? && IsBest(b, b[h].parents, node.selectedParent.value) &&
      node.selectedParent.value in node.blueSet && node.blueSet <= b.Keys && node.redSet <= b.Keys &&
      node.blueScore == b[node.selectedParent.value].blueScore + |node.blueSet|
  {
    HasStoredParent(b, h);
    var selected := Best(b, b[h].parents);
    ColoursCover(b, k, selected);
  }

  /** A recomputed block fits, as long as its parents' blue sets name stored blocks. */
  lemma RecomputedFits(b: Blocks, k: nat, h: Hash)
    requires Recomputable(b, h) && h !in b[h].parents
    requires forall p | p in b[h].parents :: b[p].blueSet <= b.Keys
    ensures Fits(Recomputed(b, k, h), h)
  {
    RescoredFits(b, k, h);
  }

  lemma RecomputedSettles(b: Blocks, k: nat, h: Hash)
    requires Recomputable(b, h) && h !in b[h].parents
    ensures Settled(Recomputed(b, k, h), k, h)
  {
    RescoredSame(b, Recomputed(b, k, h), k, h);
  }

  lemma SettledMeans(b: Blocks, k: nat, g: Hash)
    requires Recomputable(b, g)
    ensures Settled(b, k, g) <==> Rescored(b, k, g) == b[g]
  {
    assert b[g := Rescored(b, k, g)][g] == Rescored(b, k, g);
  }

  lemma RecomputedMeans(b: Blocks, k: nat, h: Hash, updated: BlockNode)
    requires Recomputable(b, h) && updated == Rescored(b, k, h)
    ensures Recomputed(b, k, h) == b[h := updated] && (updated == b[h] <==> Recomputed(b, k, h) == b)
  {
    SettledMeans(b, k, h);
  }

  lemma SettledFrame(b: Blocks, b': Blocks, k: nat, g: Hash)
    requires g in b && SameLinks(b, b') && b'[g] == b[g] && Settled(b, k, g)
    requires forall p | p in b[g].parents && p in b :: b'[p] == b[p]
    ensures Settled(b', k, g)
  {
    if Recomputable(b, g) {
      RescoredSame(b, b', k, g);
      SettledMeans(b, k, g);
      SettledMeans(b', k, g);
    }
  }

  lemma FitsFrame(b: Blocks, b': Blocks, g: Hash)
    requires g in b && b.Keys == b'.Keys && b'[g] == b[g] && Fits(b, g)
    requires forall p | p in b[g].parents && p in b :: b'[p] == b[p]
    ensures Fits(b', g)
  {
  }

  /** Recomputing `h` does not disturb a block that is neither `h` nor a child of `h`. */
  lemma OthersUndisturbed(b: Blocks, k: nat, h: Hash, g: Hash)
    requires g in b && g != h && h !in b[g].parents
    ensures Fits(b, g) ==> Fits(Recomputed(b, k, h), g)
    ensures Settled(b, k, g) ==> Settled(Recomputed(b, k, h), k, g)
  {
    var b' := Recomputed(b, k, h);
    assert SameLinks(b, b') && b'[g] == b[g];
    if Fits(b, g) {
      FitsFrame(b, b', g);
    }
    if Settled(b, k, g) {
      SettledFrame(b, b', k, g);
    }
  }

  /** Everything but the blocks still to come fits, and the first `n` blocks are settled. */
  ghost predicate SettledUpTo(b: Blocks, k: nat, order: seq<Hash>, n: nat)
    requires n <= |order|
  {
    (forall g | g in b && (g !in order[n..] || b[g].parents == {}) :: Fits(b, g)) &&
    forall g | g in order[..n] :: Settled(b, k, g)
  }

  lemma SettledAtStart(b: Blocks, k: nat, order: seq<Hash>)
    requires Scored(b)
    ensures SettledUpTo(b, k, order, 0)
  {
  }

  lemma ReplayedStep(b: Blocks, k: nat, order: seq<Hash>, m: nat)
    requires m < |order|
    ensures Replayed(b, k, order[..m + 1]) == Recomputed(Replayed(b, k, order[..m]), k, order[m])
  {
    assert order[..m + 1][..m] == order[..m];
  }

  /** After replaying the first `n` blocks of the order, everything but the blocks still to come fits,
      and the replayed blocks are settled. */
  lemma {:induction false} ReplaySettles(b: Blocks, k: nat, s: set<Hash>, order: seq<Hash>, n: nat)
    requires Closed(Shape(b)) && Acyclic(Shape(b)) && Scored(b)
    requires Topological(Shape(b), s, order) && n <= |order|
    requires s <= b.Keys && forall x, c | x in s && c in b && x in b[c].parents :: c in s
    ensures Shape(Replayed(b, k, order[..n])) == Shape(b)
    ensures SettledUpTo(Replayed(b, k, order[..n]), k, order, n)
    decreases n
  {
    ReplayKeepsLinks(b, k, order[..n]);
    if n > 0 {
      var m := n - 1;
      ReplaySettles(b, k, s, order, m);
      ReplayKeepsLinks(b, k, order[..m]);
      ReplayedStep(b, k, order, m);
      ReplayOne(b, k, s, order, m, Replayed(b, k, order[..m]));
    } else {
      assert order[..0] == [];
      SettledAtStart(b, k, order);
    }
  }

  lemma ReplayOne(b: Blocks, k: nat, s: set<Hash>, order: seq<Hash>, m: nat, b1: Blocks)
    requires Closed(Shape(b)) && Acyclic(Shape(b)) && SameLinks(b, b1)
    requires Topological(Shape(b), s, order) && m < |order|
    requires s <= b.Keys && forall x, c | x in s && c in b && x in b[c].parents :: c in s
    requires SettledUpTo(b1, k, order, m)
    ensures SettledUpTo(Recomputed(b1, k, order[m]), k, order, m + 1)
  {
    var b2 := Recomputed(b1, k, order[m]);
    forall g | g in b2 && (g !in order[m + 1..] || b2[g].parents == {})
      ensures Fits(b2, g)
    {
      ReplayedOne(b, k, s, order, m, b1, g);
    }
    forall g | g in order[..m + 1]
      ensures Settled(b2, k, g)
    {
      SplitDistinct(order, m + 1);
      assert g in Elements(order);
      ReplayedOne(b, k, s, order, m, b1, g);
    }
  }

  lemma ReplayedOne(b: Blocks, k: nat, s: set<Hash>, order: seq<Hash>, m: nat, b1: Blocks, g: Hash)
    requires Closed(Shape(b)) && Acyclic(Shape(b)) && SameLinks(b, b1)
    requires Topological(Shape(b), s, order) && m < |order|
    requires s <= b.Keys && forall x, c | x in s && c in b && x in b[c].parents :: c in s
    requires SettledUpTo(b1, k, order, m) && g in b && (g !in order[m + 1..] || b[g].parents == {})
    ensures Fits(Recomputed(b1, k, order[m]), g)
    ensures g in order[..m + 1] ==> Settled(Recomputed(b1, k, order[m]), k, g)
  {
    MemberOf(order, m);
    if g == order[m] {
      TurnSettles(b, k, s, order, m, b1);
    } else {
      OutOfTail(order, m, g);
      NotAChild(b, s, order, m, g);
      OthersUndisturbed(b1, k, order[m], g);
    }
  }

  lemma OutOfTail(order: seq<Hash>, m: nat, g: Hash)
    requires m < |order| && g != order[m]
    ensures g in order[m..] <==> g in order[m + 1..]
    ensures g in order[..m + 1] <==> g in order[..m]
  {
    assert order[m..] == [order[m]] + order[m + 1..];
    assert order[..m + 1] == order[..m] + [order[m]];
  }

  /** The block whose turn it is fits and is settled once it is recomputed. */
  lemma TurnSettles(b: Blocks, k: nat, s: set<Hash>, order: seq<Hash>, m: nat, b1: Blocks)
    requires Closed(Shape(b)) && Acyclic(Shape(b)) && SameLinks(b, b1)
    requires Topological(Shape(b), s, order) && m < |order| && order[m] in b
    requires SettledUpTo(b1, k, order, m)
    ensures Fits(Recomputed(b1, k, order[m]), order[m]) && Settled(Recomputed(b1, k, order[m]), k, order[m])
  {
    var h := order[m];
    ParentsDone(b, s, order, m);
    if Recomputable(b1, h) {
      forall p | p in b1[h].parents
        ensures b1[p].blueSet <= b1.Keys
      {
        assert Fits(b1, p);
      }
      NotItsOwnParent(b, h);
      RecomputedFits(b1, k, h);
      RecomputedSettles(b1, k, h);
    } else {
      assert b[h].parents == {};
    }
  }

  lemma NotItsOwnParent(b: Blocks, h: Hash)
    requires Acyclic(Shape(b)) && h in b
    ensures h !in b[h].parents
  {
    if h in b[h].parents {
      BeforeEdge(Shape(b), h, h);
    }
  }

  lemma ParentsDone(b: Blocks, s: set<Hash>, order: seq<Hash>, m: nat)
    requires Closed(Shape(b)) && Topological(Shape(b), s, order) && m < |order| && order[m] in b
    ensures forall p | p in b[order[m]].parents :: p in b && p !in order[m..]
  {
    var g := Shape(b);
    assert g[order[m]] == b[order[m]].parents;
    SplitDistinct(order, m);
    var h := order[m];
    assert forall c | c in b :: Shape(b)[c] <= b.Keys;
    forall p | p in b[order[m]].parents
      ensures p in b && p !in order[m..]
    {
      if p in s {
        assert p in order[..m];
      } else {
        assert p !in Elements(order);
      }
    }
  }

  /** No block that is out of the region, or already replayed, has the next block as a parent. */
  lemma NotAChild(b: Blocks, s: set<Hash>, order: seq<Hash>, m: nat, g: Hash)
    requires Topological(Shape(b), s, order) && m < |order| && g in b
    requires forall x, c | x in s && c in b && x in b[c].parents :: c in s
    requires g != order[m] && (g !in order[m + 1..] || b[g].parents == {})
    ensures order[m] !in b[g].parents
  {
    var h := order[m];
    MemberOf(order, m);
    if g in s && b[g].parents != {} {
      assert g in Elements(order);
      var j :| 0 <= j < |order| && order[j] == g;
      InSlice(order, m + 1, j);
      InSlice(order, j, m);
      SplitDistinct(order, j);
      assert Shape(b)[g] == b[g].parents;
      assert forall p | p in b[g].parents && p in s :: p in order[..j];
    }
  }

  lemma InSlice(s: seq<Hash>, n: nat, j: nat)
    requires n <= |s| && j < |s|
    ensures j >= n ==> s[j] in s[n..]
  {
    if j >= n {
      assert s[n..][j - n] == s[j];
    }
  }

  lemma SplitDistinct(s: seq<Hash>, n: nat)
    requires Distinct(s) && n <= |s|
    ensures forall x | x in s[..n] :: x !in s[n..]
  {
  }
}
