/** Ring detection (analysis/src/detectors/rings.py): closed vouch walks of
    length 3 to `max_length` found by a breadth-first search from each
    successor of a start node back to the start. */
module Rings {
  import opened Common
  import opened Dict
  import opened VouchGraph

  /** Consecutive entries are joined by an edge. */
  ghost predicate IsWalk(g: Graph, p: seq<int>) {
    forall i :: 0 <= i < |p| - 1 ==> (p[i], p[i + 1]) in g.attrs
  }

  /** A ring as the detector reports it: a walk of 3 to `maxLength` entries
      whose last entry has an edge back to the first. */
  ghost predicate IsRing(g: Graph, r: seq<int>, maxLength: int) {
    3 <= |r| <= maxLength && IsWalk(g, r) && (r[|r| - 1], r[0]) in g.attrs
  }

  /** A ring found from `start`: it begins at `start`, and it visits no node
      twice unless `start` vouches for itself. */
  ghost predicate RingFrom(g: Graph, start: int, r: seq<int>, maxLength: int) {
    && IsRing(g, r, maxLength)
    && r[0] == start
    && ((start, start) !in g.attrs ==> Distinct(r))
  }

  /** start -> n -> x -> start over three different nodes. */
  ghost predicate Triangle(g: Graph, s: int, n: int, x: int) {
    && (s, n) in g.attrs && (n, x) in g.attrs && (x, s) in g.attrs
    && s != n && n != x && x != s
  }

  /** What every entry `(current, path)` of the search queue satisfies. */
  ghost predicate QueueEntry(g: Graph, start: int, q: (int, seq<int>), visited: set<int>) {
    && |q.1| >= 2 && q.1[0] == start && q.1[|q.1| - 1] == q.0
    && IsWalk(g, q.1)
    && Members(q.1) <= visited
    && ((start, start) !in g.attrs ==> Distinct(q.1))
  }

  lemma ExtendEntry(g: Graph, start: int, q: (int, seq<int>), visited: set<int>, next: int)
    requires QueueEntry(g, start, q, visited)
    requires (q.0, next) in g.attrs && next !in visited
    ensures QueueEntry(g, start, (next, q.1 + [next]), visited + {next})
  {
    var p := q.1 + [next];
    assert Members(p) == Members(q.1) + {next};
    assert forall i :: 0 <= i < |q.1| ==> p[i] == q.1[i];
  }

  /** Visiting `next` from the entry `(current, path)` and queueing the
      extended path keeps every queue entry valid. */
  lemma EnqueueStep(g: Graph, start: int, current: int, path: seq<int>,
                    visited0: set<int>, visited: set<int>, queue: seq<(int, seq<int>)>, next: int)
    requires QueueEntry(g, start, (current, path), visited)
    requires (current, next) in g.attrs && next !in visited
    requires forall q :: q in queue ==> QueueEntry(g, start, q, visited)
    requires forall y :: y in visited ==> y in visited0 || (y, path + [y]) in queue
    ensures QueueEntry(g, start, (current, path), visited + {next})
    ensures forall q :: q in queue + [(next, path + [next])] ==> QueueEntry(g, start, q, visited + {next})
    ensures forall y :: y in visited + {next} ==> y in visited0 || (y, path + [y]) in queue + [(next, path + [next])]
  {
    ExtendEntry(g, start, (current, path), visited, next);
    assert forall q :: q in queue + [(next, path + [next])] ==> q in queue || q == (next, path + [next]);
  }

  lemma EntryToRing(g: Graph, start: int, q: (int, seq<int>), visited: set<int>, maxLength: int)
    requires QueueEntry(g, start, q, visited)
    requires 3 <= |q.1| <= maxLength && (q.0, start) in g.attrs
    ensures RingFrom(g, start, q.1, maxLength)
  {
  }

  /** One successor `nx` of `current`, after the successors `seen`: it
      either closes a ring (the start, once the path has 3 nodes) or, while
      the path is shorter than `maxLength` and `nx` is unvisited, is visited
      and queued with the path extended by it. */
  method ExpandStep(g: Graph, start: int, maxLength: int, current: int, path: seq<int>,
                    visited: set<int>, queue: seq<(int, seq<int>)>, seen: seq<int>, nx: int,
                    visited': set<int>, queue': seq<(int, seq<int>)>, found: seq<seq<int>>)
    returns (visited'': set<int>, queue'': seq<(int, seq<int>)>, found': seq<seq<int>>)
    requires Valid(g) && (current, nx) in g.edges
    requires visited <= visited' <= NodeSet(g)
    requires QueueEntry(g, start, (current, path), visited') && |path| <= maxLength
    requires queue <= queue' && (visited' == visited ==> queue' == queue)
    requires forall q :: q in queue' ==> QueueEntry(g, start, q, visited')
    requires forall y :: y in visited' ==> y in visited || (y, path + [y]) in queue'
    requires |path| < maxLength ==> forall y :: y in seen && y != start ==> y in visited'
    requires |path| >= 3 && start in seen ==> path in found
    requires forall r :: r in found ==> RingFrom(g, start, r, maxLength)
    ensures visited <= visited'' <= NodeSet(g)
    ensures QueueEntry(g, start, (current, path), visited'')
    ensures queue <= queue'' && (visited'' == visited ==> queue'' == queue)
    ensures forall q :: q in queue'' ==> QueueEntry(g, start, q, visited'')
    ensures forall y :: y in visited'' ==> y in visited || (y, path + [y]) in queue''
    ensures |path| < maxLength ==> forall y :: y in seen + [nx] && y != start ==> y in visited''
    ensures |path| >= 3 && start in seen + [nx] ==> path in found'
    ensures forall r :: r in found' ==> RingFrom(g, start, r, maxLength)
  {
    visited'', queue'', found' := visited', queue', found;
    if nx == start && |path| >= 3 {
      EntryToRing(g, start, (current, path), visited', maxLength);
      found' := found + [path];
    } else if nx !in visited' && |path| < maxLength {
      EnqueueStep(g, start, current, path, visited, visited', queue', nx);
      visited'' := visited' + {nx};
      queue'' := queue' + [(nx, path + [nx])];
    }
  }

  /** The body of the search loop for the entry `(current, path)`: every
      successor of `current` in turn goes through `ExpandStep`. */
  method ExpandPath(g: Graph, start: int, maxLength: int, current: int, path: seq<int>,
                    visited: set<int>, queue: seq<(int, seq<int>)>)
    returns (visited': set<int>, queue': seq<(int, seq<int>)>, found: seq<seq<int>>)
    requires Valid(g) && visited <= NodeSet(g)
    requires QueueEntry(g, start, (current, path), visited) && |path| <= maxLength
    requires forall q :: q in queue ==> QueueEntry(g, start, q, visited)
    ensures visited <= visited' <= NodeSet(g)
    ensures queue <= queue' && (visited' == visited ==> queue' == queue)
    ensures forall q :: q in queue' ==> QueueEntry(g, start, q, visited')
    ensures forall y :: y in visited' ==> y in visited || (y, path + [y]) in queue'
    ensures forall y :: y in Targets(g.edges, current) && y != start && |path| < maxLength ==> y in visited'
    ensures start in Targets(g.edges, current) && |path| >= 3 ==> path in found
    ensures forall r :: r in found ==> RingFrom(g, start, r, maxLength)
  {
    visited', queue', found := visited, queue, [];
    var next := Targets(g.edges, current);
    for k := 0 to |next|
      invariant visited <= visited' <= NodeSet(g)
      invariant QueueEntry(g, start, (current, path), visited')
      invariant queue <= queue' && (visited' == visited ==> queue' == queue)
      invariant forall q :: q in queue' ==> QueueEntry(g, start, q, visited')
      invariant forall y :: y in visited' ==> y in visited || (y, path + [y]) in queue'
      invariant |path| < maxLength ==> forall y :: y in next[..k] && y != start ==> y in visited'
      invariant |path| >= 3 && start in next[..k] ==> path in found
      invariant forall r :: r in found ==> RingFrom(g, start, r, maxLength)
    {
      TakeSnoc(next, k);
      visited', queue', found := ExpandStep(g, start, maxLength, current, path, visited, queue,
                                            next[..k], next[k], visited', queue', found);
    }
    assert next[..|next|] == next;
  }

  /** The breadth-first search from one successor `neighbor` of the start,
      with its own visited set. */
  method SearchFrom(g: Graph, start: int, neighbor: int, maxLength: int) returns (found: seq<seq<int>>)
    requires Valid(g) && (start, neighbor) in g.attrs
    ensures forall r :: r in found ==> RingFrom(g, start, r, maxLength)
    ensures 3 <= maxLength ==> forall x :: Triangle(g, start, neighbor, x) ==> [start, neighbor, x] in found
  {
    assert (start, neighbor) in g.edges;
    found := [];
    var visited := {start, neighbor};
    var queue := [(neighbor, [start, neighbor])];
    ghost var first := true;
    assert QueueEntry(g, start, queue[0], visited) by {
      assert Members([start, neighbor]) == visited;
    }
    while queue != []
      invariant visited <= NodeSet(g)
      invariant forall q :: q in queue ==> QueueEntry(g, start, q, visited)
      invariant forall r :: r in found ==> RingFrom(g, start, r, maxLength)
      invariant first ==> queue == [(neighbor, [start, neighbor])] && visited == {start, neighbor}
      invariant 3 <= maxLength ==> forall x :: Triangle(g, start, neighbor, x) ==>
        first || [start, neighbor, x] in found || (x, [start, neighbor, x]) in queue
      decreases NodeSet(g) - visited, |queue|
    {
      var current, path := queue[0].0, queue[0].1;
      ghost var popped := queue;
      queue := queue[1..];
      assert QueueEntry(g, start, (current, path), visited) by {
        assert popped[0] in popped;
      }
      if |path| > maxLength {
        first := false;
        continue;
      }
      ghost var visited0, found0 := visited, found;
      var more;
      visited, queue, more := ExpandPath(g, start, maxLength, current, path, visited, queue);
      found := found + more;
      if 3 <= maxLength {
        TrianglesTracked(g, start, neighbor, maxLength, first, current, path, popped,
                         visited0, visited, queue, found0, more);
      }
      first := false;
    }
  }

  /** After one entry is expanded, every triangle start -> neighbor -> x
      that was queued or found still is, and on the first entry, the path
      [start, neighbor], each such x is queued. */
  lemma TrianglesTracked(g: Graph, start: int, neighbor: int, maxLength: int, first: bool,
                         current: int, path: seq<int>, popped: seq<(int, seq<int>)>,
                         visited0: set<int>, visited: set<int>, queue: seq<(int, seq<int>)>,
                         found0: seq<seq<int>>, more: seq<seq<int>>)
    requires Valid(g) && 3 <= maxLength && |path| <= maxLength
    requires popped != [] && popped[0] == (current, path) && popped[1..] <= queue
    requires first ==> popped == [(neighbor, [start, neighbor])] && visited0 == {start, neighbor}
    requires forall x :: Triangle(g, start, neighbor, x) ==>
      first || [start, neighbor, x] in found0 || (x, [start, neighbor, x]) in popped
    requires forall y :: y in visited ==> y in visited0 || (y, path + [y]) in queue
    requires forall y :: y in Targets(g.edges, current) && y != start && |path| < maxLength ==> y in visited
    requires start in Targets(g.edges, current) && |path| >= 3 ==> path in more
    ensures forall x :: Triangle(g, start, neighbor, x) ==>
      [start, neighbor, x] in found0 + more || (x, [start, neighbor, x]) in queue
  {
    forall x | Triangle(g, start, neighbor, x)
      ensures [start, neighbor, x] in found0 + more || (x, [start, neighbor, x]) in queue
    {
      if first {
        assert x in Targets(g.edges, current) && x !in visited0;
        assert path + [x] == [start, neighbor, x];
      } else if (current, path) == (x, [start, neighbor, x]) {
        assert start in Targets(g.edges, current);
        assert path in more;
      } else if (x, [start, neighbor, x]) in popped {
        assert (x, [start, neighbor, x]) in popped[1..];
      } else {
        assert [start, neighbor, x] in found0;
      }
    }
  }

  /** `find_rings_around_node`: for each successor of the start, a fresh
      search that extends paths of fewer than `maxLength` nodes by one
      unvisited successor and reports a path of at least 3 nodes whose last
      node vouches for the start. The search is not exhaustive, but it finds
      every triangle through the start. */
  method FindRingsAroundNode(g: Graph, start: int, maxLength: int) returns (rings: seq<seq<int>>)
    requires Valid(g)
    ensures forall r :: r in rings ==> RingFrom(g, start, r, maxLength)
    ensures 3 <= maxLength ==> forall n, x :: Triangle(g, start, n, x) ==> [start, n, x] in rings
  {
    rings := [];
    var succ := Targets(g.edges, start);
    for i := 0 to |succ|
      invariant forall r :: r in rings ==> RingFrom(g, start, r, maxLength)
      invariant 3 <= maxLength ==> forall n, x :: n in succ[..i] && Triangle(g, start, n, x) ==> [start, n, x] in rings
    {
      var neighbor := succ[i];
      var found := SearchFrom(g, start, neighbor, maxLength);
      rings := rings + found;
      TakeSnoc(succ, i);
    }
    assert succ[..|succ|] == succ;
  }

  /** networkx's degree, as the key nodes are visited in. */
  function TotalDegree(g: Graph, n: int): real {
    (InDegree(g, n) + OutDegree(g, n)) as real
  }

  /** The member sets of the listed rings. */
  function RingKeys(rings: seq<seq<int>>): set<set<int>> {
    set r | r in rings :: Members(r)
  }

  lemma RingKeysSnoc(rings: seq<seq<int>>, r: seq<int>)
    ensures RingKeys(rings + [r]) == RingKeys(rings) + {Members(r)}
  {
    assert forall q :: q in rings + [r] <==> q in rings || q == r;
  }

  /** The inner loop of `find_rings`: keep each ring whose member set has
      not been seen, stopping as soon as `maxRings` rings are kept. */
  method KeepNewRings(g: Graph, maxLength: int, maxRings: int, rings: seq<seq<int>>,
                      seen: set<set<int>>, candidates: seq<seq<int>>)
    returns (rings': seq<seq<int>>, seen': set<set<int>>)
    requires seen == RingKeys(rings) && |rings| < maxRings
    requires AllRings(g, rings, maxLength) && UniqueKeys(rings)
    requires forall r :: r in candidates ==> IsRing(g, r, maxLength)
    ensures seen' == RingKeys(rings') && seen <= seen'
    ensures AllRings(g, rings', maxLength) && UniqueKeys(rings')
    ensures |rings'| <= maxRings
    ensures |rings'| < maxRings ==> forall r :: r in candidates ==> Members(r) in seen'
  {
    rings', seen' := rings, seen;
    var k := 0;
    while k < |candidates|
      invariant 0 <= k <= |candidates|
      invariant seen' == RingKeys(rings') && seen <= seen'
      invariant AllRings(g, rings', maxLength) && UniqueKeys(rings')
      invariant |rings'| < maxRings
      invariant forall j :: 0 <= j < k ==> Members(candidates[j]) in seen'
    {
      var key := Members(candidates[k]);
      if key !in seen' {
        assert candidates[k] in candidates;
        RingKeysSnoc(rings', candidates[k]);
        NewKeyDistinct(rings', candidates[k]);
        assert AllRings(g, rings' + [candidates[k]], maxLength) by {
          assert forall r :: r in rings' + [candidates[k]] ==> r in rings' || r == candidates[k];
        }
        seen' := seen' + {key};
        rings' := rings' + [candidates[k]];
        if |rings'| >= maxRings {
          break;
        }
      }
      k := k + 1;
    }
  }

  /** Every listed ring is a ring of `g` of at most `maxLength` nodes. */
  ghost predicate AllRings(g: Graph, rings: seq<seq<int>>, maxLength: int) {
    forall r :: r in rings ==> IsRing(g, r, maxLength)
  }

  /** No two listed rings have the same member set. */
  ghost predicate UniqueKeys(rings: seq<seq<int>>) {
    forall a, b :: 0 <= a < b < |rings| ==> Members(rings[a]) != Members(rings[b])
  }

  lemma NewKeyDistinct(rings: seq<seq<int>>, r: seq<int>)
    requires UniqueKeys(rings)
    requires Members(r) !in RingKeys(rings)
    ensures UniqueKeys(rings + [r])
  {
    forall a, b | 0 <= a < b < |rings + [r]|
      ensures Members((rings + [r])[a]) != Members((rings + [r])[b])
    {
      if b == |rings| {
        assert rings[a] in rings;
      }
    }
  }

  /** Every triangle through one of `starts` has its member set in `keys`. */
  ghost predicate Covered(g: Graph, starts: seq<int>, keys: set<set<int>>) {
    forall s, n, x :: s in starts && Triangle(g, s, n, x) ==> {s, n, x} in keys
  }

  lemma CoveredStep(g: Graph, starts: seq<int>, s: int, keys: set<set<int>>, keys': set<set<int>>, around: seq<seq<int>>)
    requires Covered(g, starts, keys) && keys <= keys'
    requires forall n, x :: Triangle(g, s, n, x) ==> [s, n, x] in around
    requires forall r :: r in around ==> Members(r) in keys'
    ensures Covered(g, starts + [s], keys')
  {
    forall s', n, x | s' in starts + [s] && Triangle(g, s', n, x) ensures {s', n, x} in keys' {
      if s' == s {
        assert [s, n, x] in around;
        assert Members([s, n, x]) == {s, n, x};
      } else {
        assert s' in starts;
      }
    }
  }

  lemma CoveredAll(g: Graph, order: seq<int>, keys: set<set<int>>)
    requires Valid(g) && multiset(order) == multiset(g.nodes)
    requires Covered(g, order, keys)
    ensures forall s, n, x :: Triangle(g, s, n, x) ==> {s, n, x} in keys
  {
    forall s, n, x | Triangle(g, s, n, x) ensures {s, n, x} in keys {
      assert (s, n) in g.edges;
      assert s in multiset(order);
    }
  }

  /** `find_rings` without the wall-clock timeout: nodes in decreasing order
      of degree, the rings around each, keeping the first ring of each member
      set, stopping once `maxRings` rings are kept. When the cap is not
      reached, every triangle of the graph is among the kept rings. */
  method FindRings(g: Graph, maxLength: int, maxRings: int) returns (rings: seq<seq<int>>)
    requires Valid(g)
    ensures forall r :: r in rings ==> IsRing(g, r, maxLength)
    ensures forall i, j :: 0 <= i < j < |rings| ==> Members(rings[i]) != Members(rings[j])
    ensures |rings| <= if maxRings < 0 then 0 else maxRings
    ensures 3 <= maxLength && |rings| < maxRings ==>
      forall s, n, x :: Triangle(g, s, n, x) ==> {s, n, x} in RingKeys(rings)
  {
    rings := [];
    var seen: set<set<int>> := {};
    var order := SortDesc(g.nodes, n => TotalDegree(g, n));
    var i := 0;
    while i < |order|
      invariant 0 <= i <= |order|
      invariant seen == RingKeys(rings)
      invariant AllRings(g, rings, maxLength)
      invariant UniqueKeys(rings)
      invariant |rings| <= if maxRings < 0 then 0 else maxRings
      invariant 3 <= maxLength && |rings| < maxRings ==> Covered(g, order[..i], seen)
    {
      if |rings| >= maxRings {
        break;
      }
      var s := order[i];
      var nodeRings := FindRingsAroundNode(g, s, maxLength);
      ghost var seen0 := seen;
      rings, seen := KeepNewRings(g, maxLength, maxRings, rings, seen, nodeRings);
      if 3 <= maxLength && |rings| < maxRings {
        CoveredStep(g, order[..i], s, seen0, seen, nodeRings);
      }
      TakeSnoc(order, i);
      i := i + 1;
    }
    if 3 <= maxLength && |rings| < maxRings {
      assert order[..i] == order;
      CoveredAll(g, order, seen);
    }
  }

  /** In a graph whose every edge climbs a ranking of the nodes, a walk
      climbs at least one step per edge. */
  lemma {:induction false} WalkClimbs(g: Graph, rank: int -> int, p: seq<int>)
    requires forall e :: e in g.attrs ==> rank(e.0) < rank(e.1)
    requires |p| >= 1 && IsWalk(g, p)
    ensures rank(p[0]) + |p| - 1 <= rank(p[|p| - 1])
  {
    if |p| > 1 {
      var init := p[..|p| - 1];
      assert IsWalk(g, init) by {
        forall i | 0 <= i < |init| - 1
          ensures (init[i], init[i + 1]) in g.attrs
        {
          assert init[i] == p[i] && init[i + 1] == p[i + 1];
        }
      }
      WalkClimbs(g, rank, init);
      assert (p[|p| - 2], p[|p| - 1]) in g.attrs;
    }
  }

  /** A walk of a graph whose edges all climb a ranking never closes. */
  lemma ClimbingNotRing(g: Graph, rank: int -> int, r: seq<int>, maxLength: int)
    requires forall e :: e in g.attrs ==> rank(e.0) < rank(e.1)
    ensures !IsRing(g, r, maxLength)
  {
    if |r| >= 3 && IsWalk(g, r) {
      WalkClimbs(g, rank, r);
    }
  }

  /** An acyclic graph (one whose edges all climb some ranking) has no
      ring, so `find_rings` reports none on it. */
  lemma AcyclicHasNoRings(g: Graph, rank: int -> int, maxLength: int)
    requires forall e :: e in g.attrs ==> rank(e.0) < rank(e.1)
    ensures forall r :: !IsRing(g, r, maxLength)
  {
    forall r: seq<int>
      ensures !IsRing(g, r, maxLength)
    {
      ClimbingNotRing(g, rank, r, maxLength);
    }
  }

  /** The next node round the cycle 1 -> 2 -> 3 -> 1. */
  function Round(x: int): int {
    if x == 1 then 2 else if x == 2 then 3 else 1
  }

  /** `k` steps round the cycle from `x`. */
  function Rounds(x: int, k: nat): int {
    if k == 0 then x else Round(Rounds(x, k - 1))
  }

  /** From any node of the cycle, 3 steps return to it, 4 or 5 do not. */
  lemma RoundsReturn(x: int, k: nat)
    requires x in {1, 2, 3} && 3 <= k <= 5
    ensures Rounds(x, k) == x <==> k == 3
  {
    if k == 3 {
      assert Rounds(x, 3) == Round(Round(Round(x)));
    } else if k == 4 {
      assert Rounds(x, 4) == Round(Round(Round(Round(x))));
    } else {
      assert Rounds(x, 5) == Round(Round(Round(Round(Round(x)))));
    }
  }

  /** In the graph whose only edges are 1 -> 2 -> 3 -> 1, entry `k` of a
      walk is `k` steps round the cycle from its first entry. */
  lemma {:induction false} TriangleWalk(g: Graph, r: seq<int>, k: nat)
    requires g.attrs.Keys == {(1, 2), (2, 3), (3, 1)}
    requires IsWalk(g, r) && k < |r|
    ensures r[k] == Rounds(r[0], k)
  {
    if k > 0 {
      TriangleWalk(g, r, k - 1);
      assert (r[k - 1], r[k]) in g.attrs;
    }
  }

  /** The only rings of up to 5 entries in that graph are its three
      rotations, each over the members {1, 2, 3}. */
  lemma TriangleRingMembers(g: Graph, r: seq<int>, maxLength: int)
    requires g.attrs.Keys == {(1, 2), (2, 3), (3, 1)} && maxLength <= 5
    requires IsRing(g, r, maxLength)
    ensures |r| == 3 && Members(r) == {1, 2, 3}
  {
    var x := r[0];
    assert (x, r[1]) in g.attrs;
    TriangleWalk(g, r, |r| - 1);
    assert (r[|r| - 1], x) in g.attrs;
    assert Rounds(x, |r|) == x;
    RoundsReturn(x, |r|);
    TriangleWalk(g, r, 1);
    TriangleWalk(g, r, 2);
    assert Members(r) == {x, Round(x), Round(Round(x))};
  }

  /** Rings with pairwise different member sets, all drawn from `keys`,
      number at most |keys|. */
  lemma {:induction false} UniqueKeysBound(rings: seq<seq<int>>, keys: set<set<int>>)
    requires UniqueKeys(rings)
    requires forall r :: r in rings ==> Members(r) in keys
    ensures |rings| <= |keys|
  {
    if rings != [] {
      var init, last := rings[..|rings| - 1], rings[|rings| - 1];
      assert UniqueKeys(init) by {
        forall a, b | 0 <= a < b < |init|
          ensures Members(init[a]) != Members(init[b])
        {
          assert init[a] == rings[a] && init[b] == rings[b];
        }
      }
      var k := Members(last);
      assert last in rings;
      forall r | r in init
        ensures Members(r) in keys - {k}
      {
        var a :| 0 <= a < |init| && init[a] == r;
        assert rings[a] == r;
      }
      UniqueKeysBound(init, keys - {k});
    }
  }

  /** `find_rings` on the triangle 1 -> 2 -> 3 -> 1 with rings of up to 5
      members: the postconditions of `FindRings` (rings are walks with a
      closing edge, member sets are distinct, every triangle is covered)
      leave exactly one ring, over {1, 2, 3}. */
  lemma TriangleHasOneRing(g: Graph, rings: seq<seq<int>>, maxLength: int)
    requires g.attrs.Keys == {(1, 2), (2, 3), (3, 1)} && 3 <= maxLength <= 5
    requires forall r :: r in rings ==> IsRing(g, r, maxLength)
    requires forall i, j :: 0 <= i < j < |rings| ==> Members(rings[i]) != Members(rings[j])
    requires forall s, n, x :: Triangle(g, s, n, x) ==> {s, n, x} in RingKeys(rings)
    ensures |rings| == 1 && Members(rings[0]) == {1, 2, 3}
  {
    assert Triangle(g, 1, 2, 3);
    assert {1, 2, 3} in RingKeys(rings);
    forall i | 0 <= i < |rings|
      ensures Members(rings[i]) == {1, 2, 3}
    {
      assert rings[i] in rings;
      TriangleRingMembers(g, rings[i], maxLength);
    }
    assert |rings| >= 1 by {
      var r :| r in rings && Members(r) == {1, 2, 3};
    }
    UniqueKeysBound(rings, {{1, 2, 3}});
  }

  /** `get_rings_for_profile`: the rings `find_rings` reports with its default
      cap that contain the profile. */
  method GetRingsForProfile(g: Graph, p: int, maxLength: int) returns (rings: seq<seq<int>>)
    requires Valid(g)
    ensures forall r :: r in rings ==> IsRing(g, r, maxLength) && p in r
  {
    var all := FindRings(g, maxLength, 10000);
    rings := RingsContaining(all, p);
  }

  /** The rings that contain `p`, in order. */
  function RingsContaining(rings: seq<seq<int>>, p: int): (r: seq<seq<int>>)
    ensures forall q :: q in r <==> q in rings && p in q
    ensures |r| <= |rings|
  {
    if rings == [] then []
    else
      var init := rings[..|rings| - 1];
      var last := rings[|rings| - 1];
      assert rings == init + [last];
      RingsContaining(init, p) + (if p in last then [last] else [])
  }

  /** Points a ring of the given size adds: 40 for 3 nodes, 30 for 4, 20 for 5. */
  function RingPoints(size: int): real {
    if size == 3 then 40.0 else if size == 4 then 30.0 else if size == 5 then 20.0 else 0.0
  }

  function TotalPoints(rings: seq<seq<int>>): real {
    if rings == [] then 0.0 else TotalPoints(rings[..|rings| - 1]) + RingPoints(|rings[|rings| - 1]|)
  }

  /** `calculate_ring_score` on a given list of rings. */
  function RingScore(rings: seq<seq<int>>, p: int): real {
    var mine := RingsContaining(rings, p);
    if mine == [] then 0.0 else Min(100.0, TotalPoints(mine))
  }

  lemma {:induction false} TotalPointsBounds(rings: seq<seq<int>>)
    ensures TotalPoints(rings) >= 0.0
    ensures TotalPoints(rings) == 0.0 <==> forall r :: r in rings ==> |r| < 3 || |r| > 5
  {
    if rings != [] {
      var init := rings[..|rings| - 1];
      TotalPointsBounds(init);
      assert rings == init + [rings[|rings| - 1]];
    }
  }

  /** The score lies in [0, 100], and it is 0 exactly when no ring of 3 to 5
      nodes contains the profile. */
  lemma RingScoreRange(rings: seq<seq<int>>, p: int)
    ensures 0.0 <= RingScore(rings, p) <= 100.0
    ensures RingScore(rings, p) == 0.0 <==> forall r :: r in rings && p in r ==> |r| < 3 || |r| > 5
  {
    TotalPointsBounds(RingsContaining(rings, p));
  }

  lemma {:induction false} TotalPointsMember(rings: seq<seq<int>>, r: seq<int>)
    requires r in rings
    ensures TotalPoints(rings) >= RingPoints(|r|)
  {
    var init := rings[..|rings| - 1];
    TotalPointsBounds(init);
    if r != rings[|rings| - 1] {
      assert rings == init + [rings[|rings| - 1]];
      TotalPointsMember(init, r);
    }
  }

  /** A profile in a triangle scores at least 40. */
  lemma RingScoreTriangle(rings: seq<seq<int>>, p: int, r: seq<int>)
    requires r in rings && p in r && |r| == 3
    ensures RingScore(rings, p) >= 40.0
  {
    TotalPointsMember(RingsContaining(rings, p), r);
  }

  /** More rings never lower the score. */
  lemma {:induction false} RingScoreMonotone(rings: seq<seq<int>>, more: seq<seq<int>>, p: int)
    ensures RingScore(rings, p) <= RingScore(rings + more, p)
  {
    TotalPointsBounds(RingsContaining(rings, p));
    TotalPointsBounds(RingsContaining(rings + more, p));
    ContainingAppend(rings, more, p);
    TotalPointsAppend(RingsContaining(rings, p), RingsContaining(more, p));
    TotalPointsBounds(RingsContaining(more, p));
  }

  lemma {:induction false} ContainingAppend(a: seq<seq<int>>, b: seq<seq<int>>, p: int)
    ensures RingsContaining(a + b, p) == RingsContaining(a, p) + RingsContaining(b, p)
  {
    if b == [] {
      assert a + b == a;
    } else {
      var init := b[..|b| - 1];
      var last := b[|b| - 1];
      ConcatInit(a, b);
      ContainingAppend(a, init, p);
      ConcatAssoc(RingsContaining(a, p), RingsContaining(init, p), if p in last then [last] else []);
    }
  }

  lemma {:induction false} TotalPointsAppend(a: seq<seq<int>>, b: seq<seq<int>>)
    ensures TotalPoints(a + b) == TotalPoints(a) + TotalPoints(b)
  {
    if b == [] {
      assert a + b == a;
    } else {
      var init := b[..|b| - 1];
      assert (a + b)[..|a + b| - 1] == a + init;
      TotalPointsAppend(a, init);
    }
  }

  /** `calculate_ring_score`: the loop over the rings that contain the
      profile, on the precomputed rings when given, else on the rings
      `get_rings_for_profile` finds. */
  method CalculateRingScore(g: Graph, p: int, maxLength: int, precomputed: Option<seq<seq<int>>>)
    returns (score: real)
    requires Valid(g)
    ensures 0.0 <= score <= 100.0
    ensures precomputed.Some? ==> score == RingScore(precomputed.value, p)
  {
    var mine: seq<seq<int>>;
    if precomputed.Some? {
      mine := RingsContaining(precomputed.value, p);
    } else {
      mine := GetRingsForProfile(g, p, maxLength);
    }
    if mine == [] {
      return 0.0;
    }
    score := 0.0;
    for i := 0 to |mine|
      invariant score == TotalPoints(mine[..i])
    {
      assert mine[..i + 1][..i] == mine[..i];
      score := score + RingPoints(|mine[i]|);
    }
    assert mine[..|mine|] == mine;
    TotalPointsBounds(mine);
    score := Min(100.0, score);
  }

  /** How many rings there are of each size, keyed in order of first appearance. */
  function SizeCounts(rings: seq<seq<int>>): seq<Entry<int, nat>> {
    if rings == [] then [] else Tally(SizeCounts(rings[..|rings| - 1]), |rings[|rings| - 1]|)
  }

  /** `by_size[size] = by_size.get(size, 0) + 1`. */
  function Tally(d: seq<Entry<int, nat>>, size: int): seq<Entry<int, nat>> {
    Put(d, size, Get(d, size).GetOr(0) + 1)
  }

  lemma TallyCounts(d: seq<Entry<int, nat>>, size: int)
    requires DistinctKeys(d)
    ensures DistinctKeys(Tally(d, size))
    ensures SumBy(Tally(d, size), Count) == SumBy(d, Count) + 1
  {
    PutDistinct(d, size, Get(d, size).GetOr(0) + 1);
    TallySum(d, size);
  }

  lemma TallySum(d: seq<Entry<int, nat>>, size: int)
    ensures SumBy(Tally(d, size), Count) == SumBy(d, Count) + 1
  {
    var c := Get(d, size).GetOr(0);
    PutSumBy(d, size, c + 1, Count);
    if Get(d, size).Some? {
      assert Count(Get(d, size).value) == c;
    }
    assert Count(c + 1) == c + 1;
  }

  function Count(n: nat): nat {
    n
  }

  /** The size histogram has one entry per size and its counts add up to
      the number of rings. */
  lemma {:induction false} SizeCountsSum(rings: seq<seq<int>>)
    ensures DistinctKeys(SizeCounts(rings))
    ensures SumBy(SizeCounts(rings), Count) == |rings|
  {
    if rings != [] {
      SizeCountsSum(rings[..|rings| - 1]);
      TallyCounts(SizeCounts(rings[..|rings| - 1]), |rings[|rings| - 1]|);
    }
  }

  /** A size has an entry exactly when some ring has that size. */
  lemma {:induction false} SizeCountsKeys(rings: seq<seq<int>>, size: int)
    ensures Get(SizeCounts(rings), size).Some? <==> exists r :: r in rings && |r| == size
  {
    if rings != [] {
      var init := rings[..|rings| - 1];
      var last := rings[|rings| - 1];
      SizeCountsKeys(init, size);
      assert SizeCounts(rings) == Tally(SizeCounts(init), |last|);
      SplitLast(rings);
      if size == |last| {
        assert last in rings;
      } else {
        if exists r :: r in rings && |r| == size {
          var r :| r in rings && |r| == size;
          assert r in init;
        }
        if exists r :: r in init && |r| == size {
          var r :| r in init && |r| == size;
          assert r in rings;
        }
      }
    }
  }

  method CountSizes(rings: seq<seq<int>>) returns (bySize: seq<Entry<int, nat>>)
    ensures bySize == SizeCounts(rings)
  {
    bySize := [];
    for i := 0 to |rings|
      invariant bySize == SizeCounts(rings[..i])
    {
      assert rings[..i + 1][..i] == rings[..i];
      var size := |rings[i]|;
      bySize := Put(bySize, size, Get(bySize, size).GetOr(0) + 1);
      assert bySize == Tally(SizeCounts(rings[..i]), size);
    }
    assert rings[..|rings|] == rings;
  }

  /** Every profile that lies on some ring. */
  function RingMembers(rings: seq<seq<int>>): set<int> {
    set r, x | r in rings && x in r :: x
  }

  lemma RingMembersSnoc(rings: seq<seq<int>>, r: seq<int>)
    ensures RingMembers(rings + [r]) == RingMembers(rings) + Members(r)
  {
    forall x ensures x in RingMembers(rings + [r]) <==> x in RingMembers(rings) + Members(r) {
      if x in RingMembers(rings + [r]) {
        var q :| q in rings + [r] && x in q;
        if q != r {
          assert q in rings;
        }
      }
      if x in RingMembers(rings) {
        var q :| q in rings && x in q;
        assert q in rings + [r];
      }
      if x in Members(r) {
        assert r in rings + [r];
      }
    }
  }

  method CollectProfiles(rings: seq<seq<int>>) returns (profiles: set<int>)
    ensures profiles == RingMembers(rings)
  {
    profiles := {};
    for i := 0 to |rings|
      invariant profiles == RingMembers(rings[..i])
    {
      RingMembersSnoc(rings[..i], rings[i]);
      TakeSnoc(rings, i);
      profiles := profiles + Members(rings[i]);
    }
    assert rings[..|rings|] == rings;
  }

  datatype RingStats = RingStats(
    totalRings: nat,
    ringsBySize: seq<Entry<int, nat>>,
    profilesInRings: nat,
    pctProfilesInRings: real,
    rings: seq<seq<int>>)

  lemma RingMembersInGraph(g: Graph, rings: seq<seq<int>>, maxLength: int)
    requires Valid(g)
    requires forall r :: r in rings ==> IsRing(g, r, maxLength)
    ensures RingMembers(rings) <= NodeSet(g)
  {
    forall x | x in RingMembers(rings) ensures x in g.nodes {
      var r :| r in rings && x in r;
      var i :| 0 <= i < |r| && r[i] == x;
      if i < |r| - 1 {
        assert (r[i], r[i + 1]) in g.edges;
      } else {
        assert (r[i], r[0]) in g.edges;
      }
    }
  }

  lemma PercentBounds(part: nat, whole: nat)
    requires part <= whole && whole > 0
    ensures 0.0 <= part as real / whole as real * 100.0 <= 100.0
  {
    assert part as real / whole as real <= 1.0;
  }

  /** `get_ring_stats`: the rings `find_rings` reports with its default cap,
      their size histogram, and how many profiles (and what percentage of
      the graph's nodes) lie on one of them. */
  method GetRingStats(g: Graph, maxLength: int) returns (stats: RingStats)
    requires Valid(g)
    ensures forall r :: r in stats.rings ==> IsRing(g, r, maxLength)
    ensures |stats.rings| <= 10000
    ensures stats.totalRings == |stats.rings|
    ensures stats.ringsBySize == SizeCounts(stats.rings)
    ensures SumBy(stats.ringsBySize, Count) == stats.totalRings
    ensures stats.profilesInRings == |RingMembers(stats.rings)|
    ensures stats.profilesInRings <= |g.nodes|
    ensures |g.nodes| > 0 ==> stats.pctProfilesInRings == stats.profilesInRings as real / |g.nodes| as real * 100.0
    ensures |g.nodes| == 0 ==> stats.pctProfilesInRings == 0.0
    ensures 0.0 <= stats.pctProfilesInRings <= 100.0
    ensures forall i, j :: 0 <= i < j < |stats.rings| ==> Members(stats.rings[i]) != Members(stats.rings[j])
    ensures 3 <= maxLength && |stats.rings| < 10000 ==>
      forall s, n, x :: Triangle(g, s, n, x) ==> {s, n, x} in RingKeys(stats.rings)
  {
    var rings := FindRings(g, maxLength, 10000);
    var bySize := CountSizes(rings);
    SizeCountsSum(rings);
    var profiles := CollectProfiles(rings);
    RingMembersInGraph(g, rings, maxLength);
    SubsetCard(RingMembers(rings), NodeSet(g));
    DistinctMembersCard(g.nodes);
    var n := |g.nodes|;
    var pct := if n > 0 then |profiles| as real / n as real * 100.0 else 0.0;
    if n > 0 {
      PercentBounds(|profiles|, n);
    }
    stats := RingStats(|rings|, bySize, |profiles|, pct, rings);
  }
}
