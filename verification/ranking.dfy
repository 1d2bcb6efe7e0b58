/** `updateDetectedObjects`' ranking: `sortedBy { it.area() }.take(2)`, a stable sort by
    ascending area followed by keeping the first two. */
module Ranking {
  import opened Geometry
  import opened Detection

  /** How many objects the tracker keeps. */
  const TrackLimit := 2

  predicate SortedByArea(s: seq<DetectedObject>) {
    forall i, j :: 0 <= i < j < |s| ==> s[i].Area() <= s[j].Area()
  }

  /** The elements of area `a`, in their order in `s`. A sort is stable when it keeps this
      subsequence for every area. */
  function WithArea(s: seq<DetectedObject>, a: int): seq<DetectedObject> {
    if |s| == 0 then []
    else Tie(s[0], a) + WithArea(s[1..], a)
  }

  lemma {:induction false} WithAreaAppend(p: seq<DetectedObject>, q: seq<DetectedObject>, a: int)
    ensures WithArea(p + q, a) == WithArea(p, a) + WithArea(q, a)
  {
    if |p| > 0 {
      assert (p + q)[1..] == p[1..] + q;
      WithAreaAppend(p[1..], q, a);
    } else {
      assert p + q == q;
    }
  }

  /** Inserts `o` before the first element whose area is not smaller than its own. */
  function Insert(o: DetectedObject, s: seq<DetectedObject>): (r: seq<DetectedObject>)
    ensures multiset(r) == multiset(s) + multiset{o}
  {
    if |s| == 0 then [o]
    else if o.Area() <= s[0].Area() then [o] + s
    else
      assert s == [s[0]] + s[1..];
      [s[0]] + Insert(o, s[1..])
  }

  /** Putting `y` in front of a sorted sequence whose elements are all at least as large
      keeps it sorted. */
  lemma ConsSorted(y: DetectedObject, s: seq<DetectedObject>)
    requires SortedByArea(s)
    requires forall z :: z in s ==> y.Area() <= z.Area()
    ensures SortedByArea([y] + s)
  {
  }

  /** Insertion keeps a sorted sequence sorted. */
  lemma {:induction false} InsertSorted(o: DetectedObject, s: seq<DetectedObject>)
    requires SortedByArea(s)
    ensures SortedByArea(Insert(o, s))
  {
    if |s| > 0 && o.Area() > s[0].Area() {
      var rest := Insert(o, s[1..]);
      InsertSorted(o, s[1..]);
      forall y | y in rest
        ensures s[0].Area() <= y.Area()
      {
        assert y in multiset(rest);
        if y != o {
          assert y in multiset(s[1..]);
          var j :| 0 <= j < |s[1..]| && s[1..][j] == y;
          assert s[j + 1] == y;
        }
      }
      ConsSorted(s[0], rest);
    } else if |s| > 0 {
      forall z | z in s
        ensures o.Area() <= z.Area()
      {
        var j :| 0 <= j < |s| && s[j] == z;
      }
      ConsSorted(o, s);
    }
  }

  /** Kotlin's `sortedBy { it.area() }`: a permutation of the input in ascending area order. */
  function SortByArea(xs: seq<DetectedObject>): (r: seq<DetectedObject>)
    ensures multiset(r) == multiset(xs)
    ensures SortedByArea(r)
  {
    if |xs| == 0 then []
    else
      assert xs == [xs[0]] + xs[1..];
      InsertSorted(xs[0], SortByArea(xs[1..]));
      Insert(xs[0], SortByArea(xs[1..]))
  }

  /** `[x]` when `x` has area `a`, empty otherwise. */
  function Tie(x: DetectedObject, a: int): seq<DetectedObject> {
    if x.Area() == a then [x] else []
  }

  lemma WithAreaCons(x: DetectedObject, t: seq<DetectedObject>, a: int)
    ensures WithArea([x] + t, a) == Tie(x, a) + WithArea(t, a)
  {
  }

  /** Elements of different areas never both pass the same area filter, so their order
      does not matter to it. */
  lemma SwapTies(x: DetectedObject, y: DetectedObject, t: seq<DetectedObject>, a: int)
    requires x.Area() != y.Area()
    ensures Tie(x, a) + (Tie(y, a) + t) == Tie(y, a) + (Tie(x, a) + t)
  {
  }

  /** Insertion puts `o` ahead of every element of equal area that was already there,
      which is where an element earlier in the input belongs. */
  lemma {:induction false} InsertKeepsTies(o: DetectedObject, s: seq<DetectedObject>, a: int)
    ensures WithArea(Insert(o, s), a) == WithArea([o] + s, a)
  {
    if |s| > 0 && o.Area() > s[0].Area() {
      var head, rest := s[0], s[1..];
      var tail := Insert(o, rest);
      assert Insert(o, s) == [head] + tail;
      assert s == [head] + rest;
      calc {
        WithArea(Insert(o, s), a);
        { WithAreaCons(head, tail, a); }
        Tie(head, a) + WithArea(tail, a);
        { InsertKeepsTies(o, rest, a); }
        Tie(head, a) + WithArea([o] + rest, a);
        { WithAreaCons(o, rest, a); }
        Tie(head, a) + (Tie(o, a) + WithArea(rest, a));
        { SwapTies(head, o, WithArea(rest, a), a); }
        Tie(o, a) + (Tie(head, a) + WithArea(rest, a));
        { WithAreaCons(head, rest, a); }
        Tie(o, a) + WithArea(s, a);
        { WithAreaCons(o, s, a); }
        WithArea([o] + s, a);
      }
    }
  }

  /** The sort is stable: elements of equal area keep their input order, as Kotlin's
      `sortedBy` promises. */
  lemma {:induction false} SortByAreaIsStable(xs: seq<DetectedObject>, a: int)
    ensures WithArea(SortByArea(xs), a) == WithArea(xs, a)
  {
    if |xs| > 0 {
      SortByAreaIsStable(xs[1..], a);
      InsertKeepsTies(xs[0], SortByArea(xs[1..]), a);
      assert ([xs[0]] + SortByArea(xs[1..]))[1..] == SortByArea(xs[1..]);
    }
  }

  /** In a sorted sequence, the first `k` elements are no larger than anything after them. */
  lemma PrefixHoldsSmallest(s: seq<DetectedObject>, k: nat)
    requires SortedByArea(s) && k <= |s|
    ensures multiset(s) - multiset(s[..k]) == multiset(s[k..])
    ensures forall y, z :: y in s[..k] && z in s[k..] ==> y.Area() <= z.Area()
  {
    assert s == s[..k] + s[k..];
    forall y, z | y in s[..k] && z in s[k..]
      ensures y.Area() <= z.Area()
    {
      var i :| 0 <= i < k && s[..k][i] == y;
      var j :| 0 <= j < |s| - k && s[k..][j] == z;
      assert s[i] == y && s[k + j] == z;
    }
  }

  /** `sortedBy { it.area() }.take(2)`: `min(2, |xs|)` elements of `xs`, in ascending area
      order, none larger than any element left out. */
  function TakeSmallest(xs: seq<DetectedObject>): (r: seq<DetectedObject>)
    ensures |r| == Min(TrackLimit, |xs|)
    ensures SortedByArea(r)
    ensures multiset(r) <= multiset(xs)
    ensures forall y, z :: y in r && z in multiset(xs) - multiset(r) ==> y.Area() <= z.Area()
  {
    var s := SortByArea(xs);
    var k := Min(TrackLimit, |xs|);
    assert |s| == |xs| by {
      assert |multiset(s)| == |multiset(xs)|;
    }
    PrefixHoldsSmallest(s, k);
    assert s == s[..k] + s[k..];
    s[..k]
  }

  /** Among objects of equal area, the kept ones are the earliest in the input. */
  lemma TakeSmallestKeepsEarliestTies(xs: seq<DetectedObject>, a: int)
    ensures WithArea(TakeSmallest(xs), a) <= WithArea(xs, a)
  {
    var s := SortByArea(xs);
    var k := |TakeSmallest(xs)|;
    assert s == s[..k] + s[k..];
    assert TakeSmallest(xs) == s[..k];
    WithAreaAppend(s[..k], s[k..], a);
    SortByAreaIsStable(xs, a);
  }
}
