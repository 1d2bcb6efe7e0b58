/** `groupDiffPoints`: breadth-first flood fill of the sampled points into groups of
    mutually reachable neighbours, small groups dropped, one bounding box per survivor. */
module Clustering {
  import opened Geometry

  function Elems(s: seq<Point>): set<Point> {
    set p | p in s
  }

  predicate Distinct(s: seq<Point>) {
    forall i, j :: 0 <= i < j < |s| ==> s[i] != s[j]
  }

  /** Every point after the first is adjacent to an earlier one: the order in which a
      breadth-first search reached them, which makes the group connected. */
  ghost predicate Connected(g: seq<Point>) {
    forall i :: 0 < i < |g| ==> exists j :: 0 <= j < i && Adjacent(g[j], g[i])
  }

  /** `q` is adjacent to some point already in `g`. */
  ghost predicate HasParent(g: seq<Point>, q: Point) {
    exists j :: 0 <= j < |g| && Adjacent(g[j], q)
  }

  /** No input point adjacent to a member of `g` lies outside `g`. */
  ghost predicate Closed(g: set<Point>, points: seq<Point>) {
    forall p, q :: p in g && q in points && Adjacent(p, q) ==> q in g
  }

  /** `g` is one connected component of the adjacency graph over `points`, each point once. */
  ghost predicate IsComponent(g: seq<Point>, points: seq<Point>) {
    && |g| > 0
    && Distinct(g)
    && Elems(g) <= Elems(points)
    && Connected(g)
    && Closed(Elems(g), points)
  }

  /** `groups` sort the input points into components: each group is a component, every input
      point lies in some group, and no point lies in two groups. */
  ghost predicate IsPartition(groups: seq<seq<Point>>, points: seq<Point>) {
    && (forall g :: g in groups ==> IsComponent(g, points))
    && (forall p :: p in points ==> exists g :: g in groups && p in g)
    && (forall i, j :: 0 <= i < j < |groups| ==> Elems(groups[i]) !! Elems(groups[j]))
  }

  /** The index of the first occurrence of `p` in `s`. */
  function Pos(s: seq<Point>, p: Point): (i: nat)
    requires p in s
    ensures i < |s| && s[i] == p
  {
    if s[0] == p then 0 else 1 + Pos(s[1..], p)
  }

  lemma {:induction false} PosFirst(s: seq<Point>, p: Point, k: int)
    requires 0 <= k < |s| && s[k] == p
    ensures Pos(s, p) <= k
  {
    if s[0] != p {
      PosFirst(s[1..], p, k - 1);
    }
  }

  /** Where in the input the outer loop reaches group `g`: the index of its first point
      (-1 for a group that is empty or does not start with an input point). */
  ghost function Seed(g: seq<Point>, points: seq<Point>): int {
    if |g| > 0 && g[0] in points then Pos(points, g[0]) else -1
  }

  /** `g` starts with an input point, and no input point before it belongs to `g`. */
  ghost predicate StartsEarliest(g: seq<Point>, points: seq<Point>) {
    && |g| > 0 && g[0] in points
    && forall j :: 0 <= j < Seed(g, points) ==> points[j] !in g
  }

  /** The groups come in the order the outer loop over the input reaches them: each group
      starts with the member that occurs first in the input, and the groups' first points
      occur in the input in increasing order. */
  ghost predicate DiscoveryOrder(groups: seq<seq<Point>>, points: seq<Point>) {
    && (forall g :: g in groups ==> StartsEarliest(g, points))
    && SeedsIncreasing(groups, points)
  }

  ghost predicate SeedsIncreasing(groups: seq<seq<Point>>, points: seq<Point>) {
    forall a, b :: 0 <= a < b < |groups| ==> Seed(groups[a], points) < Seed(groups[b], points)
  }

  /** The body of the offset loops for one dequeued point `x`: every input point at offset
      `(dx, dy)` in `-2..2` (other than `(0, 0)`) that is not yet visited is marked visited and
      queued. Afterwards every input neighbour of `x` is visited; nothing else is added. */
  method VisitNeighbours(points: seq<Point>, x: Point, visited: set<Point>, queue: seq<Point>)
    returns (visited': set<Point>, queue': seq<Point>)
    ensures |queue| <= |queue'| && queue'[..|queue|] == queue
    ensures forall i :: |queue| <= i < |queue'| ==>
              queue'[i] in points && Adjacent(x, queue'[i]) && queue'[i] !in visited
    ensures Distinct(queue'[|queue|..])
    ensures visited' == visited + Elems(queue'[|queue|..])
    ensures forall q :: q in points && Adjacent(x, q) ==> q in visited'
  {
    visited', queue' := visited, queue;
    ghost var added: seq<Point> := [];
    var dx := -Radius;
    while dx <= Radius
      invariant -Radius <= dx <= Radius + 1
      invariant queue' == queue + added
      invariant forall i :: 0 <= i < |added| ==> added[i] in points && Adjacent(x, added[i]) && added[i] !in visited
      invariant Distinct(added)
      invariant visited' == visited + Elems(added)
      invariant forall q :: q in points && Adjacent(x, q) && q.x - x.x < dx ==> q in visited'
    {
      var dy := -Radius;
      while dy <= Radius
        invariant -Radius <= dy <= Radius + 1
        invariant queue' == queue + added
        invariant forall i :: 0 <= i < |added| ==> added[i] in points && Adjacent(x, added[i]) && added[i] !in visited
        invariant Distinct(added)
        invariant visited' == visited + Elems(added)
        invariant forall q :: q in points && Adjacent(x, q) && (q.x - x.x < dx || (q.x - x.x == dx && q.y - x.y < dy)) ==> q in visited'
      {
        if !(dx == 0 && dy == 0) {
          var neighbour := Point(x.x + dx, x.y + dy);
          if neighbour in points && neighbour !in visited' {
            visited' := visited' + {neighbour};
            queue' := queue' + [neighbour];
            added := added + [neighbour];
          }
        }
        dy := dy + 1;
      }
      dx := dx + 1;
    }
    assert queue'[|queue|..] == added;
  }

  lemma ElemsAppend(a: seq<Point>, b: seq<Point>)
    ensures Elems(a + b) == Elems(a) + Elems(b)
  {
  }

  lemma DistinctAppend(a: seq<Point>, b: seq<Point>)
    requires Distinct(a) && Distinct(b) && Elems(a) !! Elems(b)
    ensures Distinct(a + b)
  {
    forall i, j | 0 <= i < j < |a + b|
      ensures (a + b)[i] != (a + b)[j]
    {
      if j >= |a| && i < |a| {
        assert (a + b)[i] in Elems(a);
        assert (a + b)[j] == b[j - |a|] && b[j - |a|] in Elems(b);
      }
    }
  }

  lemma DistinctSplit(a: seq<Point>, b: seq<Point>)
    requires Distinct(a + b)
    ensures Distinct(a) && Distinct(b) && Elems(a) !! Elems(b)
  {
    assert forall i :: 0 <= i < |a| ==> (a + b)[i] == a[i];
    assert forall i :: 0 <= i < |b| ==> (a + b)[|a| + i] == b[i];
  }

  /** Moving the head `x` of the queue into the group and queueing its new neighbours keeps
      the group connected and gives every queued point a neighbour in the group. */
  lemma ParentStep(group: seq<Point>, x: Point, rest: seq<Point>, added: seq<Point>)
    requires Connected(group)
    requires |group| > 0 ==> HasParent(group, x)
    requires |group| > 0 ==> forall i :: 0 <= i < |rest| ==> HasParent(group, rest[i])
    requires |group| == 0 ==> rest == []
    requires forall i :: 0 <= i < |added| ==> Adjacent(x, added[i])
    ensures Connected(group + [x])
    ensures forall i :: 0 <= i < |rest + added| ==> HasParent(group + [x], (rest + added)[i])
  {
    var g := group + [x];
    assert g[..|group|] == group;
    forall i | 0 < i < |g|
      ensures exists j :: 0 <= j < i && Adjacent(g[j], g[i])
    {
      if i < |group| {
        var j :| 0 <= j < i && Adjacent(group[j], group[i]);
        assert g[j] == group[j] && g[i] == group[i];
      } else {
        var j :| 0 <= j < |group| && Adjacent(group[j], x);
        assert g[j] == group[j] && g[i] == x;
      }
    }
    forall i | 0 <= i < |rest + added|
      ensures HasParent(g, (rest + added)[i])
    {
      if i < |rest| {
        assert HasParent(group, rest[i]);
        var j :| 0 <= j < |group| && Adjacent(group[j], rest[i]);
        assert g[j] == group[j];
      } else {
        assert g[|group|] == x;
      }
    }
  }

  /** The state of one flood fill from `seed`: `group` holds the dequeued points, `queue` the
      discovered ones still waiting, `visited` both of them on top of the points `visited0`
      taken by earlier groups. */
  ghost predicate Frontier(points: seq<Point>, seed: Point, visited0: set<Point>,
                           group: seq<Point>, queue: seq<Point>, visited: set<Point>)
  {
    && visited == visited0 + Elems(group) + Elems(queue)
    && Distinct(group + queue)
    && Elems(group) + Elems(queue) <= Elems(points)
    && (Elems(group) + Elems(queue)) !! visited0
    && (|group| == 0 ==> queue == [seed])
    && (|group| > 0 ==> group[0] == seed)
    && Connected(group)
    && (|group| > 0 ==> forall i :: 0 <= i < |queue| ==> HasParent(group, queue[i]))
    && (forall p, q :: p in group && q in points && Adjacent(p, q) ==> q in visited)
  }

  /** One iteration of the flood fill keeps `Frontier` and takes one more input point into
      the group. */
  lemma GrowStep(points: seq<Point>, seed: Point, visited0: set<Point>,
                 group: seq<Point>, x: Point, rest: seq<Point>, visited: set<Point>,
                 added: seq<Point>, visited': set<Point>)
    requires Frontier(points, seed, visited0, group, [x] + rest, visited)
    requires forall i :: 0 <= i < |added| ==> added[i] in points && Adjacent(x, added[i]) && added[i] !in visited
    requires Distinct(added)
    requires visited' == visited + Elems(added)
    requires forall q :: q in points && Adjacent(x, q) ==> q in visited'
    ensures Frontier(points, seed, visited0, group + [x], rest + added, visited')
    ensures Elems(points) - Elems(group + [x]) < Elems(points) - Elems(group)
  {
    GrowStepSets(points, seed, visited0, group, x, rest, visited, added, visited');
    GrowStepLinks(points, seed, group, x, rest, visited, added, visited');
  }

  /** The set and order half of `GrowStep`: what is visited, what is distinct, where the
      seed sits, and the shrinking of the unvisited input. */
  lemma GrowStepSets(points: seq<Point>, seed: Point, visited0: set<Point>,
                     group: seq<Point>, x: Point, rest: seq<Point>, visited: set<Point>,
                     added: seq<Point>, visited': set<Point>)
    requires visited == visited0 + Elems(group) + Elems([x] + rest)
    requires Distinct(group + ([x] + rest))
    requires Elems(group) + Elems([x] + rest) <= Elems(points)
    requires (Elems(group) + Elems([x] + rest)) !! visited0
    requires |group| == 0 ==> [x] + rest == [seed]
    requires |group| > 0 ==> group[0] == seed
    requires forall i :: 0 <= i < |added| ==> added[i] in points && added[i] !in visited
    requires Distinct(added)
    requires visited' == visited + Elems(added)
    ensures visited' == visited0 + Elems(group + [x]) + Elems(rest + added)
    ensures Distinct((group + [x]) + (rest + added))
    ensures Elems(group + [x]) + Elems(rest + added) <= Elems(points)
    ensures (Elems(group + [x]) + Elems(rest + added)) !! visited0
    ensures (group + [x])[0] == seed
    ensures Elems(points) - Elems(group + [x]) < Elems(points) - Elems(group)
  {
    var queue := [x] + rest;
    assert Elems(added) !! visited && Elems(added) <= Elems(points) by {
      forall p | p in Elems(added) ensures p !in visited && p in points {
        var i :| 0 <= i < |added| && added[i] == p;
      }
    }
    assert Elems(group + queue) <= visited by {
      ElemsAppend(group, queue);
    }
    StepDistinct(group, x, rest, added, visited);
    StepSets(visited0, group, x, rest, added, visited, Elems(points));
    assert |group| == 0 ==> x == seed by {
      if |group| == 0 {
        assert queue[0] == x;
      }
    }
  }

  /** The adjacency half of `GrowStep`: the group stays connected, every queued point has a
      neighbour in it, and every input neighbour of a member is visited. */
  lemma GrowStepLinks(points: seq<Point>, seed: Point,
                      group: seq<Point>, x: Point, rest: seq<Point>, visited: set<Point>,
                      added: seq<Point>, visited': set<Point>)
    requires |group| == 0 ==> [x] + rest == [seed]
    requires Connected(group)
    requires |group| > 0 ==> forall i :: 0 <= i < |[x] + rest| ==> HasParent(group, ([x] + rest)[i])
    requires forall p, q :: p in group && q in points && Adjacent(p, q) ==> q in visited
    requires forall i :: 0 <= i < |added| ==> Adjacent(x, added[i])
    requires visited <= visited'
    requires forall q :: q in points && Adjacent(x, q) ==> q in visited'
    ensures Connected(group + [x])
    ensures forall i :: 0 <= i < |rest + added| ==> HasParent(group + [x], (rest + added)[i])
    ensures forall p, q :: p in group + [x] && q in points && Adjacent(p, q) ==> q in visited'
  {
    QueueParents(group, x, rest, seed);
    ParentStep(group, x, rest, added);
    StepClosed(points, group, x, visited, visited');
  }

  /** Splitting the queue into its head and the rest keeps each point's parent in the group. */
  lemma QueueParents(group: seq<Point>, x: Point, rest: seq<Point>, seed: Point)
    requires |group| == 0 ==> [x] + rest == [seed]
    requires |group| > 0 ==> forall i :: 0 <= i < |[x] + rest| ==> HasParent(group, ([x] + rest)[i])
    ensures |group| == 0 ==> rest == []
    ensures |group| > 0 ==> HasParent(group, x) && forall i :: 0 <= i < |rest| ==> HasParent(group, rest[i])
  {
    var queue := [x] + rest;
    if |group| > 0 {
      assert queue[0] == x;
      forall i | 0 <= i < |rest|
        ensures HasParent(group, rest[i])
      {
        assert queue[i + 1] == rest[i];
      }
    } else {
      assert |queue| == 1;
    }
  }

  lemma StepClosed(points: seq<Point>, group: seq<Point>, x: Point, visited: set<Point>, visited': set<Point>)
    requires forall p, q :: p in group && q in points && Adjacent(p, q) ==> q in visited
    requires visited <= visited'
    requires forall q :: q in points && Adjacent(x, q) ==> q in visited'
    ensures forall p, q :: p in group + [x] && q in points && Adjacent(p, q) ==> q in visited'
  {
  }

  lemma StepSets(visited0: set<Point>, group: seq<Point>, x: Point, rest: seq<Point>, added: seq<Point>,
                 visited: set<Point>, universe: set<Point>)
    requires visited == visited0 + Elems(group) + Elems([x] + rest)
    requires Elems(group) + Elems([x] + rest) <= universe
    requires (Elems(group) + Elems([x] + rest)) !! visited0
    requires Elems(added) !! visited && Elems(added) <= universe
    requires x !in Elems(group)
    ensures visited + Elems(added) == visited0 + Elems(group + [x]) + Elems(rest + added)
    ensures Elems(group + [x]) + Elems(rest + added) <= universe
    ensures (Elems(group + [x]) + Elems(rest + added)) !! visited0
    ensures universe - Elems(group + [x]) < universe - Elems(group)
  {
  }

  lemma StepDistinct(group: seq<Point>, x: Point, rest: seq<Point>, added: seq<Point>, visited: set<Point>)
    requires Distinct(group + ([x] + rest))
    requires Distinct(added)
    requires Elems(group + ([x] + rest)) <= visited
    requires Elems(added) !! visited
    ensures Distinct((group + [x]) + (rest + added))
    ensures x !in Elems(group)
  {
    var g := group + [x];
    assert group + ([x] + rest) == g + rest;
    DistinctSplit(group, [x] + rest);
    assert x in Elems([x] + rest);
    DistinctAppend(g + rest, added);
    assert (g + rest) + added == g + (rest + added);
  }

  /** The `while (queue.isNotEmpty())` loop started from `seed`: the returned group starts at
      the seed, holds only previously unvisited input points, each once, in an order in which
      each is adjacent to an earlier one, and every input neighbour of a member is visited. */
  method GrowComponent(points: seq<Point>, seed: Point, visited0: set<Point>)
    returns (group: seq<Point>, visited: set<Point>)
    requires seed in points && seed !in visited0
    ensures |group| > 0 && group[0] == seed
    ensures Distinct(group) && Elems(group) <= Elems(points)
    ensures Elems(group) !! visited0
    ensures visited == visited0 + Elems(group)
    ensures Connected(group)
    ensures forall p, q :: p in group && q in points && Adjacent(p, q) ==> q in visited
  {
    var queue := [seed];
    visited := visited0 + {seed};
    group := [];
    while |queue| > 0
      invariant Frontier(points, seed, visited0, group, queue, visited)
      decreases Elems(points) - Elems(group)
    {
      var x := queue[0];
      var rest := queue[1..];
      var visited', queue' := VisitNeighbours(points, x, visited, rest);
      ghost var added := queue'[|rest|..];
      HeadTail(queue);
      PrefixSuffix(queue', rest);
      GrowStep(points, seed, visited0, group, x, rest, visited, added, visited');
      group, queue, visited := group + [x], queue', visited';
    }
    assert group + queue == group;
  }

  lemma HeadTail(q: seq<Point>)
    requires |q| > 0
    ensures q == [q[0]] + q[1..]
  {
  }

  lemma PrefixSuffix(q: seq<Point>, p: seq<Point>)
    requires |p| <= |q| && q[..|p|] == p
    ensures q == p + q[|p|..]
  {
  }

  /** The bookkeeping of the outer loop survives adding a freshly grown group. */
  lemma AddGroup(points: seq<Point>, groups: seq<seq<Point>>, visited: set<Point>, g: seq<Point>, v: set<Point>)
    requires forall p :: p in visited <==> exists h :: h in groups && p in h
    requires Closed(visited, points)
    requires forall h :: h in groups ==> IsComponent(h, points)
    requires forall a, b :: 0 <= a < b < |groups| ==> Elems(groups[a]) !! Elems(groups[b])
    requires |g| > 0 && Distinct(g) && Elems(g) <= Elems(points) && Connected(g)
    requires Elems(g) !! visited && v == visited + Elems(g)
    requires forall p, q :: p in g && q in points && Adjacent(p, q) ==> q in v
    ensures forall p :: p in v <==> exists h :: h in groups + [g] && p in h
    ensures Closed(v, points)
    ensures forall h :: h in groups + [g] ==> IsComponent(h, points)
    ensures forall a, b :: 0 <= a < b < |groups + [g]| ==> Elems((groups + [g])[a]) !! Elems((groups + [g])[b])
  {
    assert Closed(Elems(g), points) by {
      forall p, q | p in Elems(g) && q in points && Adjacent(p, q)
        ensures q in Elems(g)
      {
        assert Adjacent(q, p) && p in points;
      }
    }
    forall h | h in groups
      ensures Elems(h) <= visited
    {
    }
    forall p | p in v
      ensures exists h :: h in groups + [g] && p in h
    {
      if p in visited {
        var h :| h in groups && p in h;
        assert h in groups + [g];
      } else {
        assert g in groups + [g];
      }
    }
  }

  /** A group grown from the `i`-th input point, when every earlier input point is already
      in an earlier group, keeps the groups in discovery order. */
  lemma AddGroupInOrder(points: seq<Point>, groups: seq<seq<Point>>, visited: set<Point>, i: int, g: seq<Point>)
    requires 0 <= i < |points|
    requires DiscoveryOrder(groups, points)
    requires forall h :: h in groups ==> Seed(h, points) < i
    requires forall k :: 0 <= k < i ==> points[k] in visited
    requires points[i] !in visited
    requires |g| > 0 && g[0] == points[i]
    requires Elems(g) !! visited
    ensures DiscoveryOrder(groups + [g], points)
    ensures forall h :: h in groups + [g] ==> Seed(h, points) < i + 1
  {
    PosFirst(points, points[i], i);
    assert Seed(g, points) == i;
    assert StartsEarliest(g, points) by {
      forall j | 0 <= j < i
        ensures points[j] !in g
      {
        assert points[j] in visited;
      }
    }
    var gs := groups + [g];
    forall a, b | 0 <= a < b < |gs|
      ensures Seed(gs[a], points) < Seed(gs[b], points)
    {
      if b == |groups| {
        assert gs[a] in groups;
      } else {
        assert gs[a] == groups[a] && gs[b] == groups[b];
      }
    }
  }

  /** The outer `for (point in points)` loop, before the size filter: one flood fill from
      every point not yet visited. The groups it builds partition the input into connected
      components, whatever the order of the input list. */
  method GroupComponents(points: seq<Point>) returns (groups: seq<seq<Point>>)
    ensures IsPartition(groups, points)
    ensures DiscoveryOrder(groups, points)
  {
    groups := [];
    var visited: set<Point> := {};
    for i := 0 to |points|
      invariant forall p :: p in visited <==> exists g :: g in groups && p in g
      invariant forall k :: 0 <= k < i ==> points[k] in visited
      invariant Closed(visited, points)
      invariant forall g :: g in groups ==> IsComponent(g, points)
      invariant forall a, b :: 0 <= a < b < |groups| ==> Elems(groups[a]) !! Elems(groups[b])
      invariant DiscoveryOrder(groups, points)
      invariant forall g :: g in groups ==> Seed(g, points) < i
    {
      ghost var before := visited;
      if points[i] !in visited {
        var g, v := GrowComponent(points, points[i], visited);
        AddGroupInOrder(points, groups, visited, i, g);
        AddGroup(points, groups, visited, g, v);
        assert g[0] in Elems(g);
        groups := groups + [g];
        visited := v;
      }
      VisitedPrefixGrows(points, i, before, visited);
    }
  }

  lemma VisitedPrefixGrows(points: seq<Point>, i: int, before: set<Point>, after: set<Point>)
    requires 0 <= i < |points|
    requires forall k :: 0 <= k < i ==> points[k] in before
    requires before <= after && points[i] in after
    ensures forall k :: 0 <= k < i + 1 ==> points[k] in after
  {
  }

  /** The groups with at least `minArea` points, in their original order. */
  function KeepLarge(groups: seq<seq<Point>>, minArea: int): (kept: seq<seq<Point>>)
    ensures forall g :: g in kept <==> g in groups && |g| >= minArea
  {
    if |groups| == 0 then []
    else if |groups[0]| >= minArea then [groups[0]] + KeepLarge(groups[1..], minArea)
    else KeepLarge(groups[1..], minArea)
  }

  /** Prepending a group reached before all the others keeps the seeds increasing. */
  lemma ConsSeedsIncreasing(g: seq<Point>, tail: seq<seq<Point>>, points: seq<Point>)
    requires SeedsIncreasing(tail, points)
    requires forall h :: h in tail ==> Seed(g, points) < Seed(h, points)
    ensures SeedsIncreasing([g] + tail, points)
  {
  }

  lemma {:induction false} KeepLargeSeedsIncreasing(groups: seq<seq<Point>>, points: seq<Point>, minArea: int)
    requires SeedsIncreasing(groups, points)
    ensures SeedsIncreasing(KeepLarge(groups, minArea), points)
  {
    if |groups| > 0 {
      var rest := groups[1..];
      assert SeedsIncreasing(rest, points) by {
        forall a, b | 0 <= a < b < |rest|
          ensures Seed(rest[a], points) < Seed(rest[b], points)
        {
          assert rest[a] == groups[a + 1] && rest[b] == groups[b + 1];
        }
      }
      KeepLargeSeedsIncreasing(rest, points, minArea);
      if |groups[0]| >= minArea {
        forall h | h in KeepLarge(rest, minArea)
          ensures Seed(groups[0], points) < Seed(h, points)
        {
          var c :| 0 <= c < |rest| && rest[c] == h;
          assert groups[c + 1] == h;
        }
        ConsSeedsIncreasing(groups[0], KeepLarge(rest, minArea), points);
      }
    }
  }

  /** Dropping small groups keeps the survivors in discovery order. */
  lemma KeepLargeKeepsOrder(groups: seq<seq<Point>>, points: seq<Point>, minArea: int)
    requires DiscoveryOrder(groups, points)
    ensures DiscoveryOrder(KeepLarge(groups, minArea), points)
  {
    KeepLargeSeedsIncreasing(groups, points, minArea);
  }

  lemma {:induction false} NothingLargeKeepsNothing(groups: seq<seq<Point>>, minArea: int)
    requires forall g :: g in groups ==> |g| < minArea
    ensures KeepLarge(groups, minArea) == []
  {
    if |groups| > 0 {
      assert groups[0] in groups;
      NothingLargeKeepsNothing(groups[1..], minArea);
    }
  }

  /** One bounding box per group, in order. */
  function Boxes(groups: seq<seq<Point>>): (rects: seq<Rect>)
    requires forall g :: g in groups ==> |g| > 0
    ensures |rects| == |groups|
    ensures forall i :: 0 <= i < |groups| ==> rects[i] == BoundingBox(groups[i])
  {
    if |groups| == 0 then [] else [BoundingBox(groups[0])] + Boxes(groups[1..])
  }

  /** `groupDiffPoints`: the rectangles are the bounding boxes, in discovery order, of exactly
      those components of the input that hold at least `minArea` points. `components` holds
      every component found, small ones included. */
  method GroupDiffPoints(points: seq<Point>, minArea: int) returns (rects: seq<Rect>, components: seq<seq<Point>>)
    ensures IsPartition(components, points)
    ensures DiscoveryOrder(components, points)
    ensures DiscoveryOrder(KeepLarge(components, minArea), points)
    ensures rects == Boxes(KeepLarge(components, minArea))
  {
    components := GroupComponents(points);
    KeepLargeKeepsOrder(components, points, minArea);
    rects := Boxes(KeepLarge(components, minArea));
  }

  lemma FirstTwoAdjacent(g: seq<Point>)
    requires Connected(g)
    ensures |g| > 1 ==> Adjacent(g[0], g[1]) && g[0] in Elems(g) && g[1] in Elems(g)
  {
  }

  /** When no two input points are neighbours, every component is a single point. */
  lemma IsolatedPointsFormSingletons(groups: seq<seq<Point>>, points: seq<Point>)
    requires IsPartition(groups, points)
    requires forall p, q :: p in points && q in points ==> !Adjacent(p, q)
    ensures forall g :: g in groups ==> |g| == 1
  {
    forall g | g in groups
      ensures |g| == 1
    {
      assert IsComponent(g, points);
      FirstTwoAdjacent(g);
    }
  }
}
