/** The parent relation of a block DAG on its own: paths, pasts, anticones. */
module Graph {
  import opened Hashes

  /** Each block's parent set, by digest. */
  type Graph = map<Hash, set<Hash>>

  /** Following parent links `n + 1` times from `y` can end at `x`. */
  ghost predicate Walk(g: Graph, x: Hash, y: Hash, n: nat)
    decreases n
  {
    y in g && if n == 0 then x in g[y] else exists q | q in g[y] :: Walk(g, x, q, n - 1)
  }

  /** `x` is a proper ancestor of `y`. */
  ghost predicate Before(g: Graph, x: Hash, y: Hash) {
    exists n: nat :: Walk(g, x, y, n)
  }

  ghost predicate Closed(g: Graph) {
    forall h | h in g :: g[h] <= g.Keys
  }

  ghost predicate Acyclic(g: Graph) {
    forall h :: !Before(g, h, h)
  }

  ghost function Past(g: Graph, h: Hash): (s: set<Hash>)
    ensures forall x :: x in s <==> x in g && Before(g, x, h)
  {
    set x | x in g && Before(g, x, h)
  }

  ghost function Future(g: Graph, h: Hash): (s: set<Hash>)
    ensures forall x :: x in s <==> x in g && Before(g, h, x)
  {
    set x | x in g && Before(g, h, x)
  }

  /** The blocks neither before nor after `h`. */
  ghost function Anticone(g: Graph, h: Hash): (s: set<Hash>)
    ensures forall x :: x in s <==> x in g && x != h && !Before(g, x, h) && !Before(g, h, x)
  {
    set x | x in g && x != h && !Before(g, x, h) && !Before(g, h, x)
  }

  lemma BeforeEdge(g: Graph, x: Hash, y: Hash)
    requires y in g && x in g[y]
    ensures Before(g, x, y)
  {
    assert Walk(g, x, y, 0);
  }

  lemma BeforeTrans(g: Graph, x: Hash, y: Hash, z: Hash)
    requires Before(g, x, y) && Before(g, y, z)
    ensures Before(g, x, z)
  {
    var m: nat :| Walk(g, x, y, m);
    var n: nat :| Walk(g, y, z, n);
    WalkTrans(g, x, y, z, m, n);
  }

  lemma {:induction false} WalkTrans(g: Graph, x: Hash, y: Hash, z: Hash, m: nat, n: nat)
    requires Walk(g, x, y, m) && Walk(g, y, z, n)
    ensures Walk(g, x, z, m + n + 1)
    decreases n
  {
    if n == 0 {
      assert y in g[z];
    } else {
      var q :| q in g[z] && Walk(g, y, q, n - 1);
      WalkTrans(g, x, y, q, m, n - 1);
      assert m + n + 1 - 1 == m + (n - 1) + 1;
    }
  }

  /** The walk up from `y` starts at one of `y`'s parents. */
  lemma BeforeLast(g: Graph, x: Hash, y: Hash) returns (q: Hash)
    requires Before(g, x, y)
    ensures y in g && q in g[y] && (x == q || Before(g, x, q))
  {
    var n: nat :| Walk(g, x, y, n);
    if n == 0 {
      q := x;
    } else {
      q :| q in g[y] && Walk(g, x, q, n - 1);
    }
  }

  /** A set of visited blocks with all their parents among them holds everything before `y`,
      and so the parents it has seen are all there is before `y`. */
  lemma {:induction false} ClosedUpwards(g: Graph, visited: set<Hash>, x: Hash, y: Hash, n: nat)
    requires Walk(g, x, y, n) && y in visited
    requires forall v | v in visited && v in g :: g[v] <= visited
    ensures exists c :: c in visited && c in g && x in g[c]
    decreases n
  {
    if n == 0 {
      assert x in g[y];
    } else {
      var q :| q in g[y] && Walk(g, x, q, n - 1);
      ClosedUpwards(g, visited, x, q, n - 1);
    }
  }

  /** A set that holds `x` and all children of its members holds everything after `x`. */
  lemma {:induction false} ClosedDownwards(g: Graph, visited: set<Hash>, x: Hash, y: Hash, n: nat)
    requires Walk(g, x, y, n) && x in visited
    requires forall v, c | v in visited && c in g && v in g[c] :: c in visited
    ensures y in visited
    decreases n
  {
    if n > 0 {
      var q :| q in g[y] && Walk(g, x, q, n - 1);
      ClosedDownwards(g, visited, x, q, n - 1);
    }
  }

  lemma {:induction false} WalkInGraph(g: Graph, x: Hash, y: Hash, n: nat)
    requires Closed(g) && Walk(g, x, y, n)
    ensures x in g && y in g
    decreases n
  {
    if n > 0 {
      var q :| q in g[y] && Walk(g, x, q, n - 1);
      WalkInGraph(g, x, q, n - 1);
    }
  }

  lemma BeforeInGraph(g: Graph, x: Hash, y: Hash)
    requires Closed(g) && Before(g, x, y)
    ensures x in g && y in g
  {
    var n: nat :| Walk(g, x, y, n);
    WalkInGraph(g, x, y, n);
  }

  /** The number of blocks before a block grows along every edge: the order's own rank. */
  lemma PastGrows(g: Graph, x: Hash, y: Hash)
    requires Closed(g) && Acyclic(g) && Before(g, x, y)
    ensures Past(g, x) + {x} <= Past(g, y)
    ensures |Past(g, x)| < |Past(g, y)|
  {
    BeforeInGraph(g, x, y);
    forall z | z in Past(g, x)
      ensures z in Past(g, y)
    {
      BeforeTrans(g, z, x, y);
    }
    assert x !in Past(g, x);
    SubsetSize(Past(g, x) + {x}, Past(g, y));
    assert |Past(g, x) + {x}| == |Past(g, x)| + 1;
  }

  /** Hanging a new block under existing ones adds no walk except up from the new block. */
  lemma Extend(g: Graph, id: Hash, parents: set<Hash>, g': Graph)
    requires g' == g[id := parents]
    requires Closed(g) && Acyclic(g) && id !in g && parents <= g.Keys
    ensures Closed(g') && Acyclic(g')
    ensures forall x, y | y != id :: Before(g', x, y) <==> Before(g, x, y)
    ensures forall x, y :: Before(g', x, y) ==> x != id
  {
    forall x, y | y != id
      ensures Before(g', x, y) <==> Before(g, x, y)
    {
      if n: nat :| Walk(g', x, y, n) {
        WalkUnder(g, id, parents, x, y, n);
      }
      if n: nat :| Walk(g, x, y, n) {
        WalkUnder(g, id, parents, x, y, n);
      }
    }
    forall y
      ensures !Before(g', id, y)
    {
      if Before(g', id, y) {
        var q := BeforeLast(g', id, y);
        if Before(g', id, q) {
          BeforeInGraph(g, id, q);
        }
      }
    }
    forall h
      ensures !Before(g', h, h)
    {
    }
  }

  lemma {:induction false} WalkUnder(g: Graph, id: Hash, parents: set<Hash>, x: Hash, y: Hash, n: nat)
    requires Closed(g) && id !in g && parents <= g.Keys && y != id
    ensures Walk(g[id := parents], x, y, n) <==> Walk(g, x, y, n)
    decreases n
  {
    if n > 0 && y in g {
      forall q | q in g[y]
        ensures Walk(g[id := parents], x, q, n - 1) <==> Walk(g, x, q, n - 1)
      {
        WalkUnder(g, id, parents, x, q, n - 1);
      }
      if Walk(g[id := parents], x, y, n) {
        var q :| q in g[y] && Walk(g[id := parents], x, q, n - 1);
        assert Walk(g, x, q, n - 1);
      }
      if Walk(g, x, y, n) {
        var q :| q in g[y] && Walk(g, x, q, n - 1);
        assert q in g[id := parents][y] && Walk(g[id := parents], x, q, n - 1);
      }
    }
  }

  /** A block, its past, its future and its anticone split the graph into disjoint parts. */
  lemma Partition(g: Graph, h: Hash)
    requires Closed(g) && Acyclic(g) && h in g
    ensures g.Keys == {h} + Past(g, h) + Future(g, h) + Anticone(g, h)
    ensures h !in Past(g, h) && h !in Future(g, h) && h !in Anticone(g, h)
    ensures Past(g, h) !! Future(g, h) !! Anticone(g, h)
    ensures forall x | x in g :: x in Anticone(g, h) <==> h in Anticone(g, x)
    ensures forall x | x in g :: x in Past(g, h) <==> h in Future(g, x)
  {
    forall x | x in Past(g, h) && x in Future(g, h)
      ensures false
    {
      BeforeTrans(g, x, h, x);
    }
  }
}
