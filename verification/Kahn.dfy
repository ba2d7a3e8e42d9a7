/** Kahn's algorithm on part of the DAG, with a stack of ready blocks. */
module Kahn {
  import opened Hashes
  import opened Graph
  import opened BlockDag
  import opened Scoring

  /** The parents of `h` inside `s` that are not yet emitted. */
  ghost function Pending(g: Graph, s: set<Hash>, emitted: set<Hash>, h: Hash): set<Hash> {
    if h in g then g[h] * s - emitted else {}
  }

  /** If every block still waiting waits for another one, nothing is waiting: an acyclic walk upwards ends. */
  lemma {:induction false} NoDeadlock(g: Graph, s: set<Hash>, emitted: set<Hash>, h: Hash)
    requires Closed(g) && Acyclic(g)
    requires forall x {:trigger Pending(g, s, emitted, x)} | x in s && x !in emitted :: Pending(g, s, emitted, x) != {}
    requires h in s && h !in emitted
    ensures false
    decreases |Past(g, h)|
  {
    var p := Inhabited(Pending(g, s, emitted, h));
    BeforeEdge(g, p, h);
    PastGrows(g, p, h);
    NoDeadlock(g, s, emitted, p);
  }

  /** The order so far: each emitted block comes after all its parents in `s`. */
  ghost predicate OrderedSoFar(g: Graph, s: set<Hash>, sorted: seq<Hash>) {
    Distinct(sorted) && Elements(sorted) <= s &&
    forall i {:trigger sorted[i]} | 0 <= i < |sorted| :: Pending(g, s, Elements(sorted[..i]), sorted[i]) == {}
  }

  /** Degrees count what is pending; exactly the ready blocks are queued. */
  ghost predicate Counted(g: Graph, s: set<Hash>, sorted: seq<Hash>, indegree: map<Hash, nat>, queue: seq<Hash>) {
    indegree.Keys == s && Distinct(queue) && Elements(queue) <= s &&
    (forall h {:trigger indegree[h]} | h in s :: indegree[h] == |Pending(g, s, Elements(sorted), h)|) &&
    forall h | h in s :: h in queue <==> h !in sorted && Pending(g, s, Elements(sorted), h) == {}
  }

  lemma Extended(g: Graph, s: set<Hash>, sorted: seq<Hash>, h: Hash)
    requires OrderedSoFar(g, s, sorted) && h in s && h !in sorted && Pending(g, s, Elements(sorted), h) == {}
    ensures OrderedSoFar(g, s, sorted + [h])
    ensures Elements(sorted + [h]) == Elements(sorted) + {h}
  {
    var longer := sorted + [h];
    forall i | 0 <= i < |longer|
      ensures Pending(g, s, Elements(longer[..i]), longer[i]) == {}
    {
      if i < |sorted| {
        assert longer[..i] == sorted[..i] && longer[i] == sorted[i];
      } else {
        assert longer[..i] == sorted;
      }
    }
  }

  /** Emitting `h` takes one off the count of each child, and changes no other count. */
  lemma PendingAfter(g: Graph, s: set<Hash>, emitted: set<Hash>, h: Hash, x: Hash)
    requires h in s && h !in emitted
    ensures x in g && h in g[x] ==> |Pending(g, s, emitted + {h}, x)| == |Pending(g, s, emitted, x)| - 1
    ensures !(x in g && h in g[x]) ==> Pending(g, s, emitted + {h}, x) == Pending(g, s, emitted, x)
  {
    if x in g && h in g[x] {
      assert Pending(g, s, emitted + {h}, x) == Pending(g, s, emitted, x) - {h};
      assert h in Pending(g, s, emitted, x);
    }
  }

  /** The finished order is a topological one of all of `s`. */
  lemma Complete(g: Graph, s: set<Hash>, sorted: seq<Hash>)
    requires Closed(g) && Acyclic(g) && OrderedSoFar(g, s, sorted)
    requires forall h | h in s && h !in sorted :: Pending(g, s, Elements(sorted), h) != {}
    ensures Topological(g, s, sorted)
  {
    forall h | h in s
      ensures h in sorted
    {
      if h !in sorted {
        NoDeadlock(g, s, Elements(sorted), h);
      }
    }
    forall i, p | 0 <= i < |sorted| && sorted[i] in g && p in g[sorted[i]] && p in s
      ensures p in sorted[..i]
    {
      assert Pending(g, s, Elements(sorted[..i]), sorted[i]) == {};
      assert p !in Pending(g, s, Elements(sorted[..i]), sorted[i]);
    }
  }

  /** Lowers the degree of each child by one and queues those that reach zero. */
  method Release(children: seq<Hash>, degrees: map<Hash, nat>, ready: seq<Hash>)
    returns (indegree: map<Hash, nat>, queue: seq<Hash>)
    requires Distinct(children) && Distinct(ready)
    requires forall c | c in children :: c in degrees && degrees[c] > 0 && c !in ready
    ensures indegree.Keys == degrees.Keys
    ensures forall h {:trigger indegree[h]} | h in degrees ::
      indegree[h] == if h in children then degrees[h] - 1 else degrees[h]
    ensures Distinct(queue) && forall h :: h in queue <==> h in ready || (h in children && degrees[h] == 1)
  {
    indegree, queue := degrees, ready;
    for i := 0 to |children|
      invariant indegree.Keys == degrees.Keys
      invariant forall h {:trigger indegree[h]} | h in degrees ::
        indegree[h] == if h in children[..i] then degrees[h] - 1 else degrees[h]
      invariant Distinct(queue) && forall h :: h in queue <==> h in ready || (h in children[..i] && degrees[h] == 1)
    {
      var child := children[i];
      assert child !in children[..i];
      assert children[..i + 1] == children[..i] + [child];
      if child in indegree {
        // The subtraction saturates in the source; the degree is positive, so it never does.
        indegree := indegree[child := if indegree[child] == 0 then 0 else indegree[child] - 1];
        if indegree[child] == 0 {
          queue := queue + [child];
        }
      }
    }
    assert children[..|children|] == children;
  }

  method CountDegrees(blocks: Blocks, nodes: seq<Hash>) returns (indegree: map<Hash, nat>)
    ensures indegree.Keys == Elements(nodes)
    ensures forall h {:trigger indegree[h]} | h in nodes ::
      indegree[h] == |Pending(Shape(blocks), Elements(nodes), {}, h)|
  {
    indegree := map[];
    var nodeSet := set h | h in nodes;
    for i := 0 to |nodes|
      invariant indegree.Keys == Elements(nodes[..i])
      invariant forall h {:trigger indegree[h]} | h in nodes[..i] ::
        indegree[h] == |Pending(Shape(blocks), nodeSet, {}, h)|
    {
      var h := nodes[i];
      assert nodes[..i + 1] == nodes[..i] + [h];
      var degree := 0;
      if h in blocks {
        degree := |blocks[h].parents * nodeSet|;
        assert Pending(Shape(blocks), nodeSet, {}, h) == blocks[h].parents * nodeSet;
      }
      indegree := indegree[h := degree];
    }
    assert nodes[..|nodes|] == nodes;
    assert nodeSet == Elements(nodes);
  }

  lemma ChildrenListed(blocks: Blocks, s: set<Hash>, h: Hash, children: seq<Hash>)
    requires Mirrored(blocks) && h in blocks && Ascending(children) && Elements(children) == blocks[h].children * s
    ensures ListsChildren(Shape(blocks), s, h, children) && Distinct(children)
  {
    AscendingDistinct(children);
  }

  lemma NoChildren(blocks: Blocks, s: set<Hash>, h: Hash)
    requires Closed(Shape(blocks)) && h !in blocks
    ensures ListsChildren(Shape(blocks), s, h, [])
  {
    assert forall c | c in blocks :: Shape(blocks)[c] <= blocks.Keys;
  }

  /** Tells the children of `h` that it has been emitted. */
  method Unlock(blocks: Blocks, nodeSet: set<Hash>, ghost sorted: seq<Hash>, h: Hash,
                degrees: map<Hash, nat>, ready: seq<Hash>)
    returns (indegree: map<Hash, nat>, queue: seq<Hash>)
    requires Closed(Shape(blocks)) && Mirrored(blocks)
    requires OrderedSoFar(Shape(blocks), nodeSet, sorted)
    requires Counted(Shape(blocks), nodeSet, sorted, degrees, ready + [h])
    requires h in nodeSet && h !in sorted && h !in ready && Distinct(ready) && Elements(ready) <= nodeSet
    ensures Counted(Shape(blocks), nodeSet, sorted + [h], indegree, queue)
  {
    ghost var g := Shape(blocks);
    indegree, queue := degrees, ready;
    if h in blocks {
      var children := Sort(blocks[h].children * nodeSet);
      ChildrenListed(blocks, nodeSet, h, children);
      ChildrenWait(g, nodeSet, sorted, h, children, degrees, ready);
      indegree, queue := Release(children, degrees, ready);
      CountsAfter(g, nodeSet, sorted, h, children, degrees, ready, indegree, queue);
    } else {
      NoChildren(blocks, nodeSet, h);
      CountsAfter(g, nodeSet, sorted, h, [], degrees, ready, indegree, queue);
    }
  }

  /** Emits ready blocks until none is left; whatever is not emitted then still waits. */
  method Drain(blocks: Blocks, nodeSet: set<Hash>, degrees: map<Hash, nat>, ready: seq<Hash>)
    returns (sorted: seq<Hash>)
    requires Closed(Shape(blocks)) && Mirrored(blocks)
    requires Counted(Shape(blocks), nodeSet, [], degrees, ready)
    ensures OrderedSoFar(Shape(blocks), nodeSet, sorted)
    ensures forall h | h in nodeSet && h !in sorted :: Pending(Shape(blocks), nodeSet, Elements(sorted), h) != {}
  {
    ghost var g := Shape(blocks);
    var indegree, queue := degrees, ready;
    sorted := [];
    while queue != []
      invariant OrderedSoFar(g, nodeSet, sorted) && Counted(g, nodeSet, sorted, indegree, queue)
      decreases nodeSet - Elements(sorted)
    {
      var current := queue[|queue| - 1];
      queue := queue[..|queue| - 1];
      IsNext(g, nodeSet, sorted, indegree, queue, current);
      indegree, queue := Unlock(blocks, nodeSet, sorted, current, indegree, queue);
      sorted := sorted + [current];
    }
  }

  method TopologicalSort(dag: Dag, nodes: seq<Hash>) returns (sorted: seq<Hash>)
    requires WellLinked(dag.blocks)
    ensures Topological(Shape(dag.blocks), Elements(nodes), sorted)
  {
    var nodeSet := set h | h in nodes;
    assert nodeSet == Elements(nodes);
    var indegree := CountDegrees(dag.blocks, nodes);
    var queue := Sort(set h | h in indegree && indegree[h] == 0);
    AscendingDistinct(queue);
    sorted := Drain(dag.blocks, nodeSet, indegree, queue);
    Complete(Shape(dag.blocks), nodeSet, sorted);
  }

  lemma IsNext(g: Graph, s: set<Hash>, sorted: seq<Hash>, indegree: map<Hash, nat>, queue: seq<Hash>, h: Hash)
    requires OrderedSoFar(g, s, sorted) && Counted(g, s, sorted, indegree, queue + [h])
    ensures h in s && h !in sorted && h !in queue && Distinct(queue) && Elements(queue) <= s
    ensures OrderedSoFar(g, s, sorted + [h]) && Elements(sorted + [h]) == Elements(sorted) + {h}
  {
    var whole := queue + [h];
    assert whole[|queue|] == h && h in Elements(whole);
    assert forall i | 0 <= i < |queue| :: whole[i] == queue[i] && whole[i] != whole[|queue|];
    assert forall i | 0 <= i < |queue| :: whole[i] in Elements(whole);
    Extended(g, s, sorted, h);
  }

  /** `children` lists the blocks of `s` that have `h` as a parent. */
  ghost predicate ListsChildren(g: Graph, s: set<Hash>, h: Hash, children: seq<Hash>) {
    forall c :: c in children <==> c in s && c in g && h in g[c]
  }

  /** While `h` is next, its children are counted as waiting for it and none is queued. */
  lemma ChildrenWait(g: Graph, s: set<Hash>, sorted: seq<Hash>, h: Hash, children: seq<Hash>,
                     degrees: map<Hash, nat>, queue: seq<Hash>)
    requires Counted(g, s, sorted, degrees, queue + [h]) && h in s && h !in sorted
    requires ListsChildren(g, s, h, children) && Elements(queue) <= s
    ensures forall c | c in children :: c in degrees && degrees[c] > 0 && c !in queue
  {
    forall c | c in children
      ensures c in degrees && degrees[c] > 0 && c !in queue
    {
      assert h in Pending(g, s, Elements(sorted), c);
    }
  }

  lemma NothingPending(g: Graph, s: set<Hash>, sorted: seq<Hash>, x: Hash)
    requires OrderedSoFar(g, s, sorted) && x in sorted
    ensures Pending(g, s, Elements(sorted), x) == {}
  {
    var i :| 0 <= i < |sorted| && sorted[i] == x;
    assert Pending(g, s, Elements(sorted), x) <= Pending(g, s, Elements(sorted[..i]), x);
  }

  lemma CountsAfter(g: Graph, s: set<Hash>, sorted: seq<Hash>, h: Hash, children: seq<Hash>,
                    degrees: map<Hash, nat>, ready: seq<Hash>, indegree: map<Hash, nat>, queue: seq<Hash>)
    requires OrderedSoFar(g, s, sorted) && Counted(g, s, sorted, degrees, ready + [h])
    requires h in s && h !in sorted && h !in ready
    requires ListsChildren(g, s, h, children)
    requires indegree.Keys == degrees.Keys && Distinct(queue)
    requires forall x {:trigger indegree[x]} | x in degrees ::
      degrees[x] == if x in children then indegree[x] + 1 else indegree[x]
    requires forall x :: x in queue <==> x in ready || (x in children && x in degrees && degrees[x] == 1)
    ensures Counted(g, s, sorted + [h], indegree, queue)
  {
    var after := sorted + [h];
    assert Elements(after) == Elements(sorted) + {h};
    assert forall x :: x in ready + [h] <==> x in ready || x == h;
    forall x | x in s
      ensures indegree[x] == |Pending(g, s, Elements(after), x)|
      ensures x in queue <==> x !in after && Pending(g, s, Elements(after), x) == {}
    {
      var was, now := Pending(g, s, Elements(sorted), x), Pending(g, s, Elements(after), x);
      PendingAfter(g, s, Elements(sorted), h, x);
      assert degrees[x] == |was| && (degrees[x] == 0 <==> was == {}) && (|now| == 0 <==> now == {});
      assert x in children ==> h in was;
      if x in sorted {
        NothingPending(g, s, sorted, x);
      }
      assert x == h ==> was == {};
    }
    forall x | x in queue
      ensures x in s
    {
      assert x in ready ==> x in Elements(ready + [h]);
    }
  }

  lemma AscendingDistinct(s: seq<Hash>)
    requires Ascending(s)
    ensures Distinct(s)
  {
  }
}
