/** Block and transaction digests, and the sorted listings the engine iterates over. */
module Hashes {

  datatype Option<+T> = None | Some(value: T)

  /** A 32-byte digest. Its derived order is lexicographic on bytes, which is the numeric order
      of the big-endian number it spells; nothing else about the number is ever used. */
  type Hash = h: int | 0 <= h < 0x1_0000_0000_0000_0000_0000_0000_0000_0000_0000_0000_0000_0000_0000_0000_0000_0000

  predicate Distinct<T(==)>(s: seq<T>) {
    forall i, j | 0 <= i < j < |s| :: s[i] != s[j]
  }

  ghost function Elements<T(!new)>(s: seq<T>): (e: set<T>)
    ensures forall x :: x in e <==> x in s
  {
    set x | x in s
  }

  lemma SubsetSize<T>(a: set<T>, b: set<T>)
    requires a <= b
    ensures |a| <= |b|
    ensures |a| == |b| ==> a == b
  {
    assert b == a + (b - a);
    assert |b| == |a| + |b - a|;
  }

  lemma MemberOf<T(!new)>(s: seq<T>, i: nat)
    requires i < |s|
    ensures s[i] in Elements(s)
  {
  }

  lemma Inhabited<T>(s: set<T>) returns (x: T)
    requires s != {}
    ensures x in s
  {
    x :| x in s;
  }

  ghost function Member<T>(s: set<T>): (x: T)
    requires s != {}
    ensures x in s
  {
    var x :| x in s;
    x
  }

  lemma ElementsSplit<T(!new)>(s: seq<T>)
    requires |s| > 0
    ensures Elements(s) == Elements(s[..|s| - 1]) + {s[|s| - 1]}
  {
    assert s == s[..|s| - 1] + [s[|s| - 1]];
  }

  /** Ascending by rank, ties broken by the smaller digest. */
  predicate Precedes(rank: map<Hash, int>, x: Hash, y: Hash)
    requires x in rank && y in rank
  {
    rank[x] < rank[y] || (rank[x] == rank[y] && x < y)
  }

  ghost predicate RanksUp(rank: map<Hash, int>, r: seq<Hash>)
    requires Elements(r) <= rank.Keys
  {
    forall i, j | 0 <= i < j < |r| :: Precedes(rank, r[i], r[j])
  }

  ghost predicate Ascending(r: seq<Hash>) {
    forall i, j | 0 <= i < j < |r| :: r[i] < r[j]
  }

  lemma {:induction false} HasFirst(rank: map<Hash, int>, keys: set<Hash>) returns (m: Hash)
    requires keys != {}
    requires forall k | k in keys :: k in rank
    ensures m in keys && forall h | h in keys && h != m :: Precedes(rank, m, h)
    decreases |keys|
  {
    var x := Inhabited(keys);
    m := x;
    var rest := keys - {x};
    if rest != {} {
      var y := HasFirst(rank, rest);
      m := if Precedes(rank, x, y) then x else y;
    }
    forall h | h in keys && h != m
      ensures Precedes(rank, m, h)
    {
      assert h == x || h in rest;
    }
  }

  /** The library's stable sort by (rank, digest), as repeated extraction of the first key. */
  method SortByRank(rank: map<Hash, int>) returns (r: seq<Hash>)
    ensures Elements(r) == rank.Keys && RanksUp(rank, r)
  {
    r := [];
    var rest := rank.Keys;
    while rest != {}
      invariant rest <= rank.Keys && Elements(r) == rank.Keys - rest
      invariant RanksUp(rank, r)
      invariant forall x, y | x in r && y in rest :: Precedes(rank, x, y)
    {
      ghost var first := HasFirst(rank, rest);
      var m :| m in rest && forall h | h in rest && h != m :: Precedes(rank, m, h);
      assert forall i | 0 <= i < |r| :: r[i] in r;
      r := r + [m];
      rest := rest - {m};
    }
  }

  /** The library's sort of a set of digests. */
  method Sort(s: set<Hash>) returns (r: seq<Hash>)
    ensures r == Sorted(s)
  {
    var rank := map h | h in s :: 0;
    assert rank.Keys == s;
    r := SortByRank(rank);
    assert Ascending(r) by {
      forall i, j | 0 <= i < j < |r|
        ensures r[i] < r[j]
      {
        assert Precedes(rank, r[i], r[j]);
      }
    }
    AscendingUnique(r, Sorted(s));
  }

  lemma {:induction false} ListingExists(s: set<Hash>) returns (r: seq<Hash>)
    ensures Ascending(r) && Elements(r) == s
    decreases |s|
  {
    if s == {} {
      r := [];
    } else {
      var rank := map h | h in s :: 0;
      var m := HasFirst(rank, s);
      var tail := ListingExists(s - {m});
      forall i | 0 <= i < |tail|
        ensures m < tail[i]
      {
        assert tail[i] in Elements(tail);
        assert Precedes(rank, m, tail[i]);
      }
      r := [m] + tail;
    }
  }

  /** The ascending listing of a set. */
  ghost function Sorted(s: set<Hash>): (r: seq<Hash>)
    ensures Ascending(r) && Elements(r) == s
  {
    assert exists r: seq<Hash> :: Ascending(r) && Elements(r) == s by {
      var r := ListingExists(s);
    }
    var r: seq<Hash> :| Ascending(r) && Elements(r) == s;
    r
  }

  /** A set has one ascending listing. */
  lemma {:induction false} AscendingUnique(s: seq<Hash>, t: seq<Hash>)
    requires Ascending(s) && Ascending(t) && Elements(s) == Elements(t)
    ensures s == t
    decreases |s|
  {
    if |t| > 0 {
      MemberOf(t, 0);
    }
    if |s| > 0 {
      MemberOf(s, 0);
      assert s[0] == t[0];
      assert s == [s[0]] + s[1..] && t == [t[0]] + t[1..];
      assert Elements(s[1..]) == Elements(s) - {s[0]};
      assert Elements(t[1..]) == Elements(t) - {t[0]};
      AscendingUnique(s[1..], t[1..]);
    }
  }
}
