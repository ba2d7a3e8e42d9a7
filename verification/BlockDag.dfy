/** The block store: blocks keyed by digest, linked both ways, and the set of tips. */
module BlockDag {
  import opened Hashes
  import opened Graph

  /** A stored block. Of the header only the parents matter to the DAG; the digest is the key. */
  datatype BlockNode = BlockNode(
    parents: set<Hash>,
    children: set<Hash>,
    selectedParent: Option<Hash>,
    blueSet: set<Hash>,
    redSet: set<Hash>,
    blueScore: nat
  )

  type Blocks = map<Hash, BlockNode>

  ghost function Shape(b: Blocks): Graph {
    map h | h in b :: b[h].parents
  }

  /** Child links are exactly the parent links read backwards. */
  ghost predicate Mirrored(b: Blocks) {
    forall h | h in b :: b[h].children == set c | c in b && h in b[c].parents
  }

  ghost predicate OneGenesis(b: Blocks) {
    forall x, y | x in b && y in b && b[x].parents == {} && b[y].parents == {} :: x == y
  }

  ghost predicate WellLinked(b: Blocks) {
    Closed(Shape(b)) && Acyclic(Shape(b)) && Mirrored(b) && OneGenesis(b)
  }

  ghost function Childless(b: Blocks): set<Hash> {
    set h | h in b && forall c | c in b :: h !in b[c].parents
  }

  datatype AddError = DuplicateBlock | SelfParent | SecondGenesis | InvalidParent

  /** The first reason for which the block is turned away. */
  function Refusal(b: Blocks, id: Hash, parents: set<Hash>): Option<AddError> {
    if id in b then Some(DuplicateBlock)
    else if id in parents then Some(SelfParent)
    else if parents == {} && b.Keys != {} then Some(SecondGenesis)
    else if !(parents <= b.Keys) then Some(InvalidParent)
    else None
  }

  /** `id` joins the children of each of `ps`. */
  ghost function Adopted(b: Blocks, ps: set<Hash>, id: Hash): Blocks {
    map h | h in b :: if h in ps then b[h].(children := b[h].children + {id}) else b[h]
  }

  ghost function Added(b: Blocks, id: Hash, node: BlockNode): Blocks {
    Adopted(b[id := node], node.parents, id)
  }

  /** An accepted block keeps the DAG well linked exactly when it arrives without children. */
  lemma AddKeepsLinks(b: Blocks, id: Hash, node: BlockNode)
    requires WellLinked(b) && Refusal(b, id, node.parents) == None
    ensures Shape(Added(b, id, node)) == Shape(b)[id := node.parents]
    ensures WellLinked(Added(b, id, node)) <==> node.children == {}
    ensures Childless(Added(b, id, node)) == Childless(b) - node.parents + {id}
  {
    AddExtendsShape(b, id, node);
    Extend(Shape(b), id, node.parents, Shape(Added(b, id, node)));
    NoChildrenYet(b, id);
    AddMirrors(b, id, node);
    AddKeepsGenesis(b, id, node);
    AddMovesTips(b, id, node);
  }

  lemma AddExtendsShape(b: Blocks, id: Hash, node: BlockNode)
    requires id !in b && id !in node.parents
    ensures Shape(Added(b, id, node)) == Shape(b)[id := node.parents]
  {
  }

  lemma AddKeepsGenesis(b: Blocks, id: Hash, node: BlockNode)
    requires OneGenesis(b) && id !in b && (node.parents == {} ==> b.Keys == {})
    ensures OneGenesis(Added(b, id, node))
  {
    forall x | x in Added(b, id, node)
      ensures Added(b, id, node)[x].parents == if x == id then node.parents else b[x].parents
    {
    }
  }

  lemma AddMovesTips(b: Blocks, id: Hash, node: BlockNode)
    requires id !in b && id !in node.parents && forall c | c in b :: id !in b[c].parents
    ensures Childless(Added(b, id, node)) == Childless(b) - node.parents + {id}
  {
    var b' := Added(b, id, node);
    assert forall c | c in b :: b'[c].parents == b[c].parents;
    assert b'[id].parents == node.parents;
  }

  lemma NoChildrenYet(b: Blocks, id: Hash)
    requires Closed(Shape(b)) && id !in b
    ensures forall c | c in b :: id !in b[c].parents
  {
    assert forall c | c in b :: b[c].parents == Shape(b)[c] <= b.Keys;
  }

  lemma AddMirrors(b: Blocks, id: Hash, node: BlockNode)
    requires Mirrored(b) && id !in b && id !in node.parents && forall c | c in b :: id !in b[c].parents
    ensures Mirrored(Added(b, id, node)) <==> node.children == {}
  {
    var b' := Added(b, id, node);
    assert b'[id].children == node.children;
    forall c | c in b'
      ensures id !in b'[c].parents
    {
      assert c in b || c == id;
    }
    forall h | h in b
      ensures b'[h].children == set c | c in b' && h in b'[c].parents
    {
      assert b[h].children == set c | c in b && h in b[c].parents;
    }
  }

  lemma OneMoreElement(s: seq<Hash>, i: nat)
    requires i < |s|
    ensures Elements(s[..i + 1]) == Elements(s[..i]) + {s[i]}
  {
    assert s[..i + 1] == s[..i] + [s[i]];
  }

  lemma Appended(s: seq<Hash>, x: Hash)
    ensures Elements(s + [x]) == Elements(s) + {x}
    ensures Distinct(s) && x !in Elements(s) ==> Distinct(s + [x])
  {
  }

  class Dag {
    var blocks: Blocks
    var tips: set<Hash>

    ghost predicate Valid()
      reads this
    {
      WellLinked(blocks) && tips == Childless(blocks)
    }

    constructor ()
      ensures Valid() && blocks == map[]
    {
      blocks := map[];
      tips := {};
      new;
      EmptyIsAcyclic();
      assert tips == Childless(blocks);
    }

    method AddBlock(id: Hash, node: BlockNode) returns (r: Option<AddError>)
      requires Valid()
      modifies this
      ensures r == old(Refusal(blocks, id, node.parents))
      ensures r == Some(DuplicateBlock) <==> id in old(blocks)
      ensures r == Some(SelfParent) <==> id !in old(blocks) && id in node.parents
      ensures r == Some(SecondGenesis) <==> id !in old(blocks) && node.parents == {} && old(blocks) != map[]
      ensures r == Some(InvalidParent) <==>
        id !in old(blocks) && id !in node.parents && !(node.parents <= old(blocks).Keys)
      ensures r.Some? ==> blocks == old(blocks) && tips == old(tips)
      ensures r.None? ==> blocks == old(Added(blocks, id, node)) && tips == old(tips) - node.parents + {id}
      ensures r.None? ==> blocks.Keys == old(blocks).Keys + {id} && blocks[id] == node
      ensures r.None? ==> forall h | h in old(blocks) ::
        blocks[h] == old(blocks)[h].(children := blocks[h].children) &&
        blocks[h].children == old(blocks)[h].children + if h in node.parents then {id} else {}
      ensures r.None? ==> (Valid() <==> node.children == {})
      ensures r.Some? ==> Valid()
    {
      if id in blocks {
        return Some(DuplicateBlock);
      }
      if id in node.parents {
        return Some(SelfParent);
      }
      if node.parents == {} && blocks.Keys != {} {
        return Some(SecondGenesis);
      }
      if exists p | p in node.parents :: p !in blocks {
        return Some(InvalidParent);
      }
      AddKeepsLinks(blocks, id, node);
      blocks := blocks[id := node];
      LinkChild(node.parents, id);
      tips := tips - node.parents + {id};
      return None;
    }

    method LinkChild(parents: set<Hash>, id: Hash)
      requires parents <= blocks.Keys
      modifies this`blocks
      ensures blocks == Adopted(old(blocks), parents, id)
    {
      var sortedParents := Sort(parents);
      for i := 0 to |sortedParents|
        invariant blocks == Adopted(old(blocks), Elements(sortedParents[..i]), id)
      {
        var p := sortedParents[i];
        assert sortedParents[..i + 1] == sortedParents[..i] + [p];
        MemberOf(sortedParents, i);
        blocks := blocks[p := blocks[p].(children := blocks[p].children + {id})];
      }
      assert sortedParents[..|sortedParents|] == sortedParents;
    }

    method IsAncestor(a: Hash, b: Hash) returns (r: bool)
      requires Closed(Shape(blocks))
      ensures r <==> a != b && Before(Shape(blocks), a, b)
    {
      ghost var g := Shape(blocks);
      if a == b {
        return false;
      }
      var visited: set<Hash> := {};
      var stack := [b];
      while stack != []
        invariant visited <= blocks.Keys + {b} && Elements(stack) <= blocks.Keys + {b}
        invariant b in visited + Elements(stack)
        invariant forall s | s in visited + Elements(stack) :: s == b || Before(g, s, b)
        invariant forall v | v in visited && v in g :: g[v] <= visited + Elements(stack) && a !in g[v]
        decreases blocks.Keys + {b} - visited, |stack|
      {
        var current := stack[|stack| - 1];
        assert Elements(stack) == Elements(stack[..|stack| - 1]) + {current};
        stack := stack[..|stack| - 1];
        if current in visited {
          continue;
        }
        visited := visited + {current};
        if current in blocks {
          var found;
          found, stack := SearchParents(blocks[current].parents, a, stack);
          BeforeAbove(g, current, b);
          if found {
            assert a in g[current];
            return true;
          }
        }
      }
      if n: nat :| Walk(g, a, b, n) {
        ClosedUpwards(g, visited, a, b, n);
      }
      return false;
    }

    method GetAncestors(id: Hash) returns (r: seq<Hash>)
      requires Closed(Shape(blocks))
      ensures r == Sorted(Past(Shape(blocks), id))
    {
      ghost var g := Shape(blocks);
      var ancestors: set<Hash> := {};
      var stack := [id];
      var visited: set<Hash> := {};
      while stack != []
        invariant visited <= blocks.Keys + {id} && Elements(stack) <= blocks.Keys + {id}
        invariant id in visited + Elements(stack)
        invariant forall s | s in visited + Elements(stack) :: s == id || Before(g, s, id)
        invariant forall v | v in visited && v in g :: g[v] <= ancestors
        invariant ancestors <= visited + Elements(stack)
        invariant forall x | x in ancestors :: x in g && Before(g, x, id)
        decreases blocks.Keys + {id} - visited, |stack|
      {
        var current := stack[|stack| - 1];
        assert Elements(stack) == Elements(stack[..|stack| - 1]) + {current};
        stack := stack[..|stack| - 1];
        if current in visited {
          continue;
        }
        visited := visited + {current};
        if current in blocks {
          ancestors, stack := CollectParents(blocks[current].parents, ancestors, stack);
          BeforeAbove(g, current, id);
        }
      }
      forall x | x in Past(g, id)
        ensures x in ancestors
      {
        var n: nat :| Walk(g, x, id, n);
        ClosedUpwards(g, visited, x, id, n);
      }
      assert ancestors == Past(g, id);
      r := Sort(ancestors);
    }

    /** Pushes the parents one by one, unless `a` turns up among them. */
    static method SearchParents(parents: set<Hash>, a: Hash, pending: seq<Hash>) returns (found: bool, stack: seq<Hash>)
      ensures found <==> a in parents
      ensures !found ==> Elements(stack) == Elements(pending) + parents
    {
      stack := pending;
      var sortedParents := Sort(parents);
      for i := 0 to |sortedParents|
        invariant a !in sortedParents[..i] && Elements(stack) == Elements(pending) + Elements(sortedParents[..i])
      {
        assert sortedParents[..i + 1] == sortedParents[..i] + [sortedParents[i]];
        if sortedParents[i] == a {
          assert a in Elements(sortedParents);
          return true, stack;
        }
        stack := stack + [sortedParents[i]];
      }
      assert sortedParents[..|sortedParents|] == sortedParents;
      assert a in parents ==> a in Elements(sortedParents);
      return false, stack;
    }

    static method CollectParents(parents: set<Hash>, known: set<Hash>, pending: seq<Hash>)
      returns (ancestors: set<Hash>, stack: seq<Hash>)
      ensures ancestors == known + parents && Elements(stack) == Elements(pending) + parents
    {
      ancestors, stack := known, pending;
      var sortedParents := Sort(parents);
      for i := 0 to |sortedParents|
        invariant ancestors == known + Elements(sortedParents[..i])
        invariant Elements(stack) == Elements(pending) + Elements(sortedParents[..i])
      {
        assert sortedParents[..i + 1] == sortedParents[..i] + [sortedParents[i]];
        ancestors := ancestors + {sortedParents[i]};
        stack := stack + [sortedParents[i]];
      }
      assert sortedParents[..|sortedParents|] == sortedParents;
    }

    /** A block is never listed among its own descendants, because it is visited from the start. */
    method GetDescendants(id: Hash) returns (r: seq<Hash>)
      requires Closed(Shape(blocks)) && Mirrored(blocks)
      ensures r == Sorted(Future(Shape(blocks), id) - {id})
    {
      ghost var g := Shape(blocks);
      var descendants: seq<Hash> := [];
      var stack := [id];
      var visited := {id};
      while stack != []
        invariant Distinct(descendants) && visited == {id} + Elements(descendants) && id !in descendants
        invariant visited <= blocks.Keys + {id} && Elements(stack) <= visited
        invariant forall v | v in visited :: v == id || Before(g, id, v)
        invariant forall v | v in visited && v !in stack && v in blocks :: blocks[v].children <= visited
        decreases blocks.Keys + {id} - visited, |stack|
      {
        var current := stack[|stack| - 1];
        assert Elements(stack) == Elements(stack[..|stack| - 1]) + {current};
        stack := stack[..|stack| - 1];
        if current in blocks {
          BeforeBelow(g, id, current);
          ghost var rest, seen := stack, visited;
          visited, descendants, stack := VisitChildren(blocks[current].children, visited, descendants, stack);
          assert Elements(stack) == Elements(rest) + (visited - seen);
        }
      }
      AllReached(blocks, visited, id);
      // No digest was listed twice, so sorting the list is sorting the set.
      assert (set h | h in descendants) == Future(g, id) - {id};
      r := Sort(set h | h in descendants);
    }

    /** Lists and pushes the children not visited before. */
    static method VisitChildren(children: set<Hash>, seen: set<Hash>, listed: seq<Hash>, pending: seq<Hash>)
      returns (visited: set<Hash>, descendants: seq<Hash>, stack: seq<Hash>)
      requires Distinct(listed) && Elements(listed) <= seen
      ensures visited == seen + children
      ensures Distinct(descendants) && Elements(descendants) == Elements(listed) + (children - seen)
      ensures Elements(stack) == Elements(pending) + (children - seen)
      ensures visited == seen ==> stack == pending
    {
      visited, descendants, stack := seen, listed, pending;
      var sortedChildren := Sort(children);
      for i := 0 to |sortedChildren|
        invariant visited == seen + Elements(sortedChildren[..i])
        invariant Distinct(descendants) && Elements(descendants) == Elements(listed) + (visited - seen)
        invariant Elements(stack) == Elements(pending) + (visited - seen)
        invariant visited == seen ==> stack == pending
      {
        var child := sortedChildren[i];
        OneMoreElement(sortedChildren, i);
        if child !in visited {
          Appended(descendants, child);
          Appended(stack, child);
          visited := visited + {child};
          descendants := descendants + [child];
          stack := stack + [child];
        }
      }
      assert sortedChildren[..|sortedChildren|] == sortedChildren;
    }

    method GetAnticone(id: Hash) returns (r: seq<Hash>)
      requires Closed(Shape(blocks)) && Mirrored(blocks)
      ensures r == Sorted(Anticone(Shape(blocks), id))
    {
      ghost var g := Shape(blocks);
      var ancestors := GetAncestors(id);
      var descendants := GetDescendants(id);
      var allHashes := Sort(blocks.Keys);
      r := [];
      for i := 0 to |allHashes|
        invariant Elements(r) == Elements(allHashes[..i]) * Anticone(g, id)
        invariant forall m, n | 0 <= m < n < |r| :: r[m] < r[n]
        invariant i < |allHashes| ==> forall x | x in Elements(r) :: x < allHashes[i]
      {
        var h := allHashes[i];
        assert allHashes[..i + 1] == allHashes[..i] + [h];
        assert h in Elements(allHashes);
        assert forall n | 0 <= n < |r| :: r[n] in Elements(r);
        if h != id && h !in ancestors && h !in descendants {
          r := r + [h];
        }
      }
      assert allHashes[..|allHashes|] == allHashes;
      AscendingUnique(r, Sorted(Anticone(g, id)));
    }
  }

  lemma EmptyIsAcyclic()
    ensures WellLinked(map[])
  {
    assert Shape(map[]) == map[];
    forall h, n: nat
      ensures !Walk(map[], h, h, n)
    {
    }
  }

  lemma AllReached(b: Blocks, visited: set<Hash>, id: Hash)
    requires Closed(Shape(b)) && Mirrored(b) && id in visited
    requires forall v | v in visited :: v == id || Before(Shape(b), id, v)
    requires forall v | v in visited && v in b :: b[v].children <= visited
    ensures visited - {id} == Future(Shape(b), id) - {id}
  {
    var g := Shape(b);
    forall x | x in Future(g, id)
      ensures x in visited
    {
      var n: nat :| Walk(g, id, x, n);
      ClosedDownwards(g, visited, id, x, n);
    }
    forall x | x in visited && x != id
      ensures x in g
    {
      BeforeInGraph(g, id, x);
    }
  }

  lemma BeforeAbove(g: Graph, v: Hash, y: Hash)
    requires Closed(g) && v in g && (v == y || Before(g, v, y))
    ensures forall p | p in g[v] :: p in g && Before(g, p, y)
  {
    forall p | p in g[v]
      ensures Before(g, p, y)
    {
      BeforeEdge(g, p, v);
      if v != y {
        BeforeTrans(g, p, v, y);
      }
    }
  }

  lemma BeforeBelow(g: Graph, x: Hash, v: Hash)
    requires v == x || Before(g, x, v)
    ensures forall c | c in g && v in g[c] :: Before(g, x, c)
  {
    forall c | c in g && v in g[c]
      ensures Before(g, x, c)
    {
      BeforeEdge(g, v, c);
      if v != x {
        BeforeTrans(g, x, v, c);
      }
    }
  }
}
