/** Which blocks a new block sees as blue: the greedy k-cluster over the selected parent's anticone. */
module Colouring {
  import opened Hashes

  // `near(h)` stands for the blocks unordered with `h`; the greedy choice depends on nothing else.

  datatype Colours = Colours(blue: set<Hash>, red: set<Hash>)

  /** A candidate turns blue when at most `k` blues so far are unordered with it. */
  ghost function Coloured(near: Hash -> set<Hash>, k: nat, before: Colours, candidate: Hash): Colours {
    if |near(candidate) * before.blue| <= k then
      before.(blue := before.blue + {candidate})
    else
      before.(red := before.red + {candidate})
  }

  /** The candidates coloured in order. */
  ghost function Greedy(near: Hash -> set<Hash>, k: nat, candidates: seq<Hash>, inherited: set<Hash>): Colours {
    if candidates == [] then Colours(inherited, {})
    else
      var n := |candidates| - 1;
      Coloured(near, k, Greedy(near, k, candidates[..n], inherited), candidates[n])
  }

  lemma NextColour(near: Hash -> set<Hash>, k: nat, candidates: seq<Hash>, inherited: set<Hash>, i: nat)
    requires i < |candidates|
    ensures Greedy(near, k, candidates[..i + 1], inherited)
         == Coloured(near, k, Greedy(near, k, candidates[..i], inherited), candidates[i])
  {
    assert candidates[..i + 1][..i] == candidates[..i];
  }

  /** The test candidate `i` met when its turn came. */
  ghost predicate Admitted(near: Hash -> set<Hash>, k: nat, candidates: seq<Hash>, inherited: set<Hash>, i: nat)
    requires i < |candidates|
  {
    |near(candidates[i]) * Greedy(near, k, candidates[..i], inherited).blue| <= k
  }

  ghost predicate PairwiseUnordered(near: Hash -> set<Hash>, s: set<Hash>) {
    forall x, y {:trigger x in near(y)} | x in s && y in s && x != y :: x in near(y)
  }

  /** Every candidate gets a colour, nothing else does, and inherited blues stay blue. */
  lemma {:induction false} GreedyCovers(near: Hash -> set<Hash>, k: nat, candidates: seq<Hash>, inherited: set<Hash>)
    ensures inherited <= Greedy(near, k, candidates, inherited).blue
    ensures Greedy(near, k, candidates, inherited).blue + Greedy(near, k, candidates, inherited).red
         == inherited + Elements(candidates)
    ensures Greedy(near, k, candidates, inherited).red <= Elements(candidates)
    decreases |candidates|
  {
    if candidates != [] {
      ElementsSplit(candidates);
      GreedyCovers(near, k, candidates[..|candidates| - 1], inherited);
    }
  }

  /** The two colours overlap only where a refused candidate had been inherited as blue. */
  lemma {:induction false} OverlapIsInherited(near: Hash -> set<Hash>, k: nat, candidates: seq<Hash>,
                                              inherited: set<Hash>)
    requires Distinct(candidates)
    ensures Greedy(near, k, candidates, inherited).blue * Greedy(near, k, candidates, inherited).red
         == inherited * Greedy(near, k, candidates, inherited).red
    decreases |candidates|
  {
    if candidates != [] {
      var n := |candidates| - 1;
      var c := candidates[n];
      var before := Greedy(near, k, candidates[..n], inherited);
      OverlapIsInherited(near, k, candidates[..n], inherited);
      GreedyCovers(near, k, candidates[..n], inherited);
      assert c !in candidates[..n];
      assert c !in before.red;
      assert c in before.blue <==> c in inherited;
      var after := Greedy(near, k, candidates, inherited);
      forall x
        ensures x in after.blue * after.red <==> x in inherited * after.red
      {
        assert x in before.blue * before.red <==> x in inherited * before.red;
      }
    }
  }

  /** A red block is unordered with more than `k` of the final blues. */
  lemma {:induction false} RedsConflict(near: Hash -> set<Hash>, k: nat, candidates: seq<Hash>, inherited: set<Hash>,
                                        c: Hash)
    requires c in Greedy(near, k, candidates, inherited).red
    ensures |near(c) * Greedy(near, k, candidates, inherited).blue| > k
    decreases |candidates|
  {
    var n := |candidates| - 1;
    var before := Greedy(near, k, candidates[..n], inherited);
    var after := Greedy(near, k, candidates, inherited);
    if c in before.red {
      RedsConflict(near, k, candidates[..n], inherited, c);
    }
    SubsetSize(near(c) * before.blue, near(c) * after.blue);
  }

  lemma {:induction false} NotRedIsAdmitted(near: Hash -> set<Hash>, k: nat, candidates: seq<Hash>,
                                            inherited: set<Hash>, i: nat)
    requires i < |candidates| && candidates[i] !in Greedy(near, k, candidates, inherited).red
    ensures Admitted(near, k, candidates, inherited, i)
    decreases |candidates|
  {
    var n := |candidates| - 1;
    if i < n {
      NotRedIsAdmitted(near, k, candidates[..n], inherited, i);
      SameTurn(near, k, candidates, inherited, i, n);
    }
  }

  /** Width bound: pairwise unordered blues with an admitted candidate among them number at most `k + 1`. */
  lemma {:induction false} BlueWidth(near: Hash -> set<Hash>, k: nat, candidates: seq<Hash>, inherited: set<Hash>,
                                     s: set<Hash>, i: nat)
    requires s <= Greedy(near, k, candidates, inherited).blue && PairwiseUnordered(near, s)
    requires i < |candidates| && candidates[i] in s && Admitted(near, k, candidates, inherited, i)
    ensures |s| <= k + 1
    decreases |candidates|
  {
    var n: nat := |candidates| - 1;
    var lastAdmitted := candidates[n] in s && Admitted(near, k, candidates, inherited, n);
    if lastAdmitted {
      AroundLast(near, k, candidates, inherited, s, n);
    } else {
      NotLast(near, k, candidates, inherited, s, i, n);
      BlueWidth(near, k, candidates[..n], inherited, s, i);
    }
  }

  lemma NotLast(near: Hash -> set<Hash>, k: nat, candidates: seq<Hash>, inherited: set<Hash>, s: set<Hash>, i: nat,
                n: nat)
    requires n + 1 == |candidates|
    requires s <= Greedy(near, k, candidates, inherited).blue
    requires i < |candidates| && candidates[i] in s && Admitted(near, k, candidates, inherited, i)
    requires !(candidates[n] in s && Admitted(near, k, candidates, inherited, n))
    ensures i < n && s <= Greedy(near, k, candidates[..n], inherited).blue
    ensures candidates[..n][i] == candidates[i]
    ensures Admitted(near, k, candidates[..n], inherited, i)
  {
    assert i != n;
    SameTurn(near, k, candidates, inherited, i, n);
  }

  /** A candidate's turn depends only on the candidates before it. */
  lemma SameTurn(near: Hash -> set<Hash>, k: nat, candidates: seq<Hash>, inherited: set<Hash>, i: nat, n: nat)
    requires i < n <= |candidates|
    ensures Admitted(near, k, candidates[..n], inherited, i) == Admitted(near, k, candidates, inherited, i)
  {
    assert candidates[..n][..i] == candidates[..i];
  }

  /** All other members of `s` were already blue when the last candidate was admitted. */
  lemma AroundLast(near: Hash -> set<Hash>, k: nat, candidates: seq<Hash>, inherited: set<Hash>, s: set<Hash>, n: nat)
    requires n + 1 == |candidates|
    requires s <= Greedy(near, k, candidates, inherited).blue && PairwiseUnordered(near, s)
    requires candidates[n] in s && Admitted(near, k, candidates, inherited, n)
    ensures |s| <= k + 1
  {
    var c := candidates[n];
    var blue := Greedy(near, k, candidates[..n], inherited).blue;
    forall x | x in s - {c}
      ensures x in near(c) * blue
    {
      assert x in near(c);
    }
    SubsetSize(s - {c}, near(c) * blue);
    assert |s - {c}| == |s| - 1;
  }

  // ----- the same colours without any turns

  /** Candidates with a smaller digest that are not red. */
  ghost function NotRedBelow(candidates: set<Hash>, red: set<Hash>, c: Hash): set<Hash> {
    set x | x in candidates && x < c && x !in red
  }

  /** A candidate is red exactly when more than `k` of the inherited blues and of the smaller candidates that are not
      red are unordered with it; all else is blue. */
  ghost predicate ByRule(near: Hash -> set<Hash>, k: nat, candidates: set<Hash>, inherited: set<Hash>,
                         colours: Colours) {
    colours.red <= candidates && colours.blue == inherited + (candidates - colours.red) &&
    forall c | c in candidates ::
      c in colours.red <==> |near(c) * (inherited + NotRedBelow(candidates, colours.red, c))| > k
  }

  /** Colouring candidates in ascending order follows the rule. */
  lemma {:induction false} GreedyFollowsRule(near: Hash -> set<Hash>, k: nat, candidates: seq<Hash>,
                                             inherited: set<Hash>)
    requires Ascending(candidates)
    ensures ByRule(near, k, Elements(candidates), inherited, Greedy(near, k, candidates, inherited))
    decreases |candidates|
  {
    if candidates != [] {
      var n := |candidates| - 1;
      GreedyFollowsRule(near, k, candidates[..n], inherited);
      ElementsSplit(candidates);
      LastTurn(near, k, Elements(candidates[..n]), candidates[n], inherited,
               Greedy(near, k, candidates[..n], inherited));
    }
  }

  lemma BelowLast(earlier: set<Hash>, last: Hash, red: set<Hash>, red': set<Hash>)
    requires red <= earlier && red <= red' <= red + {last} && forall x | x in earlier :: x < last
    ensures forall c | c in earlier :: NotRedBelow(earlier + {last}, red', c) == NotRedBelow(earlier, red, c)
    ensures NotRedBelow(earlier + {last}, red', last) == earlier - red
  {
  }

  lemma LastTurn(near: Hash -> set<Hash>, k: nat, earlier: set<Hash>, last: Hash, inherited: set<Hash>, before: Colours)
    requires ByRule(near, k, earlier, inherited, before) && forall x | x in earlier :: x < last
    ensures ByRule(near, k, earlier + {last}, inherited, Coloured(near, k, before, last))
  {
    var after := Coloured(near, k, before, last);
    BelowLast(earlier, last, before.red, after.red);
    assert after.blue == inherited + (earlier + {last} - after.red);
    forall c | c in earlier + {last}
      ensures c in after.red <==>
        |near(c) * (inherited + NotRedBelow(earlier + {last}, after.red, c))| > k
    {
      if c == last {
        assert inherited + (earlier - before.red) == before.blue;
      }
    }
  }

  /** And the rule leaves no choice. */
  lemma RuleDecides(near: Hash -> set<Hash>, k: nat, candidates: set<Hash>, inherited: set<Hash>, one: Colours,
                    two: Colours)
    requires ByRule(near, k, candidates, inherited, one) && ByRule(near, k, candidates, inherited, two)
    ensures one == two
  {
    forall c | c in candidates
      ensures c in one.red <==> c in two.red
    {
      SameColour(near, k, candidates, inherited, one, two, c);
    }
  }

  lemma {:induction false} SameColour(near: Hash -> set<Hash>, k: nat, candidates: set<Hash>, inherited: set<Hash>,
                                      one: Colours, two: Colours, c: Hash)
    requires ByRule(near, k, candidates, inherited, one) && ByRule(near, k, candidates, inherited, two)
    requires c in candidates
    ensures c in one.red <==> c in two.red
    decreases |set x | x in candidates && x < c|
  {
    forall x | x in candidates && x < c
      ensures x in one.red <==> x in two.red
    {
      FewerBelow(candidates, x, c);
      SameColour(near, k, candidates, inherited, one, two, x);
    }
    assert NotRedBelow(candidates, one.red, c) == NotRedBelow(candidates, two.red, c);
  }

  lemma FewerBelow(s: set<Hash>, x: Hash, c: Hash)
    requires x in s && x < c
    ensures |set y | y in s && y < x| < |set y | y in s && y < c|
  {
    SubsetSize((set y | y in s && y < x) + {x}, set y | y in s && y < c);
  }
}
