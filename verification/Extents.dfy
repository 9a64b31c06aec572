/** Half-open address ranges: which of them cover an address, and the sorted-neighbour test for disjointness. */
module Extents {

  datatype Extent<T> = Extent(start: int, length: int, item: T) {
    function End(): int {
      start + length
    }

    predicate Contains(a: int) {
      start <= a < start + length
    }
  }

  /** The indices below `n` of the extents that contain `a`, in order: the source's `matches` lists. */
  function Covering<T>(extents: seq<Extent<T>>, a: int, n: nat): (indices: seq<nat>)
    requires n <= |extents|
    ensures forall i: nat :: i in indices <==> i < n && extents[i].Contains(a)
  {
    if n == 0 then []
    else Covering(extents, a, n - 1) + if extents[n - 1].Contains(a) then [n - 1] else []
  }

  predicate StrictlyAscending(indices: seq<nat>) {
    forall j, k | 0 <= j < k < |indices| :: indices[j] < indices[k]
  }

  lemma {:induction false} CoveringIsStrict<T>(extents: seq<Extent<T>>, a: int, n: nat)
    requires n <= |extents|
    ensures StrictlyAscending(Covering(extents, a, n))
  {
    if n > 0 {
      CoveringIsStrict(extents, a, n - 1);
      var before := Covering(extents, a, n - 1);
      assert forall j | 0 <= j < |before| :: before[j] in before;
    }
  }

  /** One match means exactly one extent contains the address. */
  lemma OneMatch<T>(extents: seq<Extent<T>>, a: int, i: nat)
    requires i < |extents|
    ensures Covering(extents, a, |extents|) == [i] <==>
            extents[i].Contains(a) && forall j | 0 <= j < |extents| && extents[j].Contains(a) :: j == i
  {
    var c := Covering(extents, a, |extents|);
    CoveringIsStrict(extents, a, |extents|);
    if c == [i] {
      assert i in c;
    } else if extents[i].Contains(a) {
      assert i in c;
      var k :| 0 <= k < |c| && c[k] != i;
      assert c[k] in c;
    }
  }

  predicate Apart<T>(e: Extent<T>, f: Extent<T>) {
    e.End() <= f.start || f.End() <= e.start
  }

  predicate PairwiseApart<T>(extents: seq<Extent<T>>) {
    forall i, j | 0 <= i < j < |extents| :: Apart(extents[i], extents[j])
  }

  /** Stable insertion, standing for `sorted(..., key=start)`. */
  function Insert<T>(e: Extent<T>, sorted: seq<Extent<T>>): seq<Extent<T>> {
    if sorted == [] || e.start <= sorted[0].start then [e] + sorted
    else [sorted[0]] + Insert(e, sorted[1..])
  }

  function Sorted<T>(extents: seq<Extent<T>>): seq<Extent<T>> {
    if extents == [] then [] else Insert(extents[0], Sorted(extents[1..]))
  }

  /** `all(a.end <= b.start for a, b in zip(ordered, ordered[1:]))`. */
  predicate NeighboursApart<T>(ordered: seq<Extent<T>>) {
    forall i | 0 <= i < |ordered| - 1 :: ordered[i].End() <= ordered[i + 1].start
  }

  predicate Ascending<T>(extents: seq<Extent<T>>) {
    forall i, j | 0 <= i < j < |extents| :: extents[i].start <= extents[j].start
  }

  ghost predicate AllPositive<T>(extents: seq<Extent<T>>) {
    forall e | e in extents :: e.length > 0
  }

  ghost predicate ApartFromAll<T>(e: Extent<T>, s: seq<Extent<T>>) {
    forall f | f in s :: Apart(e, f)
  }

  lemma {:induction false} InsertOrders<T>(e: Extent<T>, s: seq<Extent<T>>)
    requires Ascending(s)
    ensures Ascending(Insert(e, s))
    ensures forall f :: f in Insert(e, s) <==> f == e || f in s
  {
    if s != [] && e.start > s[0].start {
      InsertOrders(e, s[1..]);
      assert s == [s[0]] + s[1..];
      AscendingCons(s[0], Insert(e, s[1..]), e, s[1..]);
    }
  }

  lemma AscendingCons<T>(head: Extent<T>, tail: seq<Extent<T>>, e: Extent<T>, rest: seq<Extent<T>>)
    requires Ascending(tail) && Ascending([head] + rest) && head.start <= e.start
    requires forall f :: f in tail <==> f == e || f in rest
    ensures Ascending([head] + tail)
  {
    var s := [head] + tail;
    forall i, j | 0 <= i < j < |s|
      ensures s[i].start <= s[j].start
    {
      assert s[j] == tail[j - 1] && tail[j - 1] in tail;
      if i > 0 {
        assert s[i] == tail[i - 1];
      } else if s[j] != e {
        assert s[i] == head && s[j] in rest;
        var k :| 0 <= k < |rest| && rest[k] == s[j];
        var before := [head] + rest;
        assert before[0] == head && before[k + 1] == s[j];
      } else {
        assert s[i] == head;
      }
    }
  }

  lemma {:induction false} InsertKeepsApart<T>(e: Extent<T>, s: seq<Extent<T>>)
    requires Ascending(s)
    ensures PairwiseApart(Insert(e, s)) <==> ApartFromAll(e, s) && PairwiseApart(s)
  {
    hide PairwiseApart, Ascending;
    var r := Insert(e, s);
    PairwiseApartCons(r);
    if s == [] || e.start <= s[0].start {
      assert r[1..] == s;
    } else {
      assert Ascending(s[1..]) by { AscendingTail(s); }
      InsertKeepsApart(e, s[1..]);
      InsertOrders(e, s[1..]);
      assert r[1..] == Insert(e, s[1..]);
      assert s == [s[0]] + s[1..];
      PairwiseApartCons(s);
      assert Apart(s[0], e) == Apart(e, s[0]);
      assert e in r[1..];
      assert ApartFromAll(s[0], r[1..]) == (Apart(s[0], e) && ApartFromAll(s[0], s[1..]));
      assert ApartFromAll(e, s) == (Apart(e, s[0]) && ApartFromAll(e, s[1..]));
    }
  }

  lemma AscendingTail<T>(s: seq<Extent<T>>)
    requires Ascending(s) && s != []
    ensures Ascending(s[1..])
  {
  }

  lemma PairwiseApartCons<T>(s: seq<Extent<T>>)
    requires s != []
    ensures PairwiseApart(s) <==> ApartFromAll(s[0], s[1..]) && PairwiseApart(s[1..])
  {
    var t := s[1..];
    assert forall j | 0 < j < |s| :: s[j] == t[j - 1];
    if ApartFromAll(s[0], t) && PairwiseApart(t) {
      forall i, j | 0 <= i < j < |s|
        ensures Apart(s[i], s[j])
      {
        assert t[j - 1] in t;
        if i > 0 {
          assert Apart(t[i - 1], t[j - 1]);
        }
      }
    }
    if PairwiseApart(s) {
      forall f | f in t
        ensures Apart(s[0], f)
      {
        var j :| 0 <= j < |t| && t[j] == f;
        assert Apart(s[0], s[j + 1]);
      }
      forall i, j | 0 <= i < j < |t|
        ensures Apart(t[i], t[j])
      {
        assert Apart(s[i + 1], s[j + 1]);
      }
    }
  }

  lemma {:induction false} SortedFacts<T>(s: seq<Extent<T>>)
    ensures Ascending(Sorted(s))
    ensures forall f :: f in Sorted(s) <==> f in s
    ensures PairwiseApart(Sorted(s)) <==> PairwiseApart(s)
  {
    if s != [] {
      SortedFacts(s[1..]);
      InsertOrders(s[0], Sorted(s[1..]));
      InsertKeepsApart(s[0], Sorted(s[1..]));
      PairwiseApartCons(s);
      assert s == [s[0]] + s[1..];
      assert ApartFromAll(s[0], s[1..]) == ApartFromAll(s[0], Sorted(s[1..]));
    }
  }

  lemma {:induction false} NeighboursReach<T>(s: seq<Extent<T>>, i: nat, j: nat)
    requires NeighboursApart(s) && Ascending(s) && i < j < |s|
    ensures s[i].End() <= s[j].start
  {
    assert s[i].End() <= s[i + 1].start;
  }

  /** Neighbours that do not overlap after sorting leave no overlapping pair. */
  lemma SortedNeighboursSuffice<T>(s: seq<Extent<T>>)
    requires NeighboursApart(Sorted(s))
    ensures PairwiseApart(s)
  {
    SortedFacts(s);
    var t := Sorted(s);
    forall i, j | 0 <= i < j < |t|
      ensures Apart(t[i], t[j])
    {
      NeighboursReach(t, i, j);
    }
  }

  /** For nonempty ranges, comparing neighbours after sorting decides disjointness of every pair. */
  lemma SortedNeighboursDecide<T>(s: seq<Extent<T>>)
    requires AllPositive(s)
    ensures NeighboursApart(Sorted(s)) <==> PairwiseApart(s)
  {
    SortedFacts(s);
    var t := Sorted(s);
    if NeighboursApart(t) {
      SortedNeighboursSuffice(s);
    }
    if PairwiseApart(t) {
      forall i | 0 <= i < |t| - 1
        ensures t[i].End() <= t[i + 1].start
      {
        assert Apart(t[i], t[i + 1]) && t[i + 1] in t;
        assert t[i + 1].length > 0;
      }
    }
  }
}
