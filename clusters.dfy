/** Isolated-cluster detection (analysis/src/detectors/clusters.py). The
    community partition is computed by the Louvain method in a library; here
    it is an input, a list of node sets. A community is insular when most of
    the edges touching it stay inside it. */
module Clusters {
  import opened Common
  import opened VouchGraph

  // ---------------------------------------------------------------------
  // calculate_insularity
  // ---------------------------------------------------------------------

  /** The number of edges leaving a node of `a` whose target lies inside `c`
      (`inside`) or outside it (`!inside`). */
  function Out(es: seq<(int, int)>, a: set<int>, c: set<int>, inside: bool): nat {
    if es == [] then 0
    else
      var e := es[|es| - 1];
      Out(es[..|es| - 1], a, c, inside) + (if e.0 in a && (e.1 in c) == inside then 1 else 0)
  }

  /** The number of edges entering a node of `a` whose source lies inside `c`
      (`inside`) or outside it (`!inside`). */
  function In(es: seq<(int, int)>, a: set<int>, c: set<int>, inside: bool): nat {
    if es == [] then 0
    else
      var e := es[|es| - 1];
      In(es[..|es| - 1], a, c, inside) + (if e.1 in a && (e.0 in c) == inside then 1 else 0)
  }

  /** Edges with both ends in the community. */
  function InternalEdges(es: seq<(int, int)>, c: set<int>): nat {
    Out(es, c, c, true)
  }

  /** Edges with exactly one end in the community. */
  function ExternalEdges(es: seq<(int, int)>, c: set<int>): nat {
    Out(es, c, c, false) + In(es, c, c, false)
  }

  /** internal / (internal + external), and 0 when no edge touches the community. */
  function Insularity(es: seq<(int, int)>, c: set<int>): (r: real)
    ensures 0.0 <= r <= 1.0
    ensures r == 1.0 <==> InternalEdges(es, c) > 0 && ExternalEdges(es, c) == 0
    ensures InternalEdges(es, c) == 0 ==> r == 0.0
  {
    var internal := InternalEdges(es, c);
    var total := internal + ExternalEdges(es, c);
    if total == 0 then 0.0
    else
      ShareBounds(internal, ExternalEdges(es, c));
      internal as real / total as real
  }

  /** The edges of `es` with both ends in `c`, and those with exactly one. */
  function InsideSet(es: seq<(int, int)>, c: set<int>): set<(int, int)> {
    set e | e in es && e.0 in c && e.1 in c
  }

  function BoundarySet(es: seq<(int, int)>, c: set<int>): set<(int, int)> {
    set e | e in es && (e.0 in c) != (e.1 in c)
  }

  /** On a graph's (distinct) edge list the counters count edges: the
      internal ones and the crossing ones, each exactly once. */
  lemma {:induction false} EdgeCountsAreSets(es: seq<(int, int)>, c: set<int>)
    requires Distinct(es)
    ensures InternalEdges(es, c) == |InsideSet(es, c)|
    ensures ExternalEdges(es, c) == |BoundarySet(es, c)|
  {
    if es != [] {
      var init := es[..|es| - 1];
      var e := es[|es| - 1];
      DistinctSnoc(es);
      EdgeCountsAreSets(init, c);
      SplitLast(es);
      EdgeSetsSnoc(init, e, c);
      assert InternalEdges(es, c) == InternalEdges(init, c) + (if e.0 in c && e.1 in c then 1 else 0);
      assert ExternalEdges(es, c) == ExternalEdges(init, c) + (if (e.0 in c) != (e.1 in c) then 1 else 0);
    }
  }

  /** Appending an edge adds it to the one set it belongs to, if any. */
  lemma EdgeSetsSnoc(init: seq<(int, int)>, e: (int, int), c: set<int>)
    requires e !in init
    ensures InsideSet(init + [e], c) == InsideSet(init, c) + (if e.0 in c && e.1 in c then {e} else {})
    ensures BoundarySet(init + [e], c) == BoundarySet(init, c) + (if (e.0 in c) != (e.1 in c) then {e} else {})
    ensures e !in InsideSet(init, c) && e !in BoundarySet(init, c)
  {
    assert forall x :: x in init + [e] <==> x in init || x == e;
  }

  /** An internal edge is seen once as an outgoing and once as an incoming edge. */
  lemma {:induction false} InternalSymmetric(es: seq<(int, int)>, c: set<int>)
    ensures In(es, c, c, true) == Out(es, c, c, true)
  {
    if es != [] {
      InternalSymmetric(es[..|es| - 1], c);
    }
  }

  /** How many entries of `s` lie inside (or outside) `c`. */
  function CountWhere(s: seq<int>, c: set<int>, inside: bool): nat {
    if s == [] then 0 else CountWhere(s[..|s| - 1], c, inside) + (if (s[|s| - 1] in c) == inside then 1 else 0)
  }

  lemma {:induction false} TargetsCount(es: seq<(int, int)>, n: int, c: set<int>, inside: bool)
    ensures CountWhere(Targets(es, n), c, inside) == Out(es, {n}, c, inside)
  {
    if es != [] {
      var init := es[..|es| - 1];
      var e := es[|es| - 1];
      TargetsCount(init, n, c, inside);
      if e.0 == n {
        assert (Targets(init, n) + [e.1])[..|Targets(init, n)|] == Targets(init, n);
      } else {
        assert Targets(init, n) + [] == Targets(init, n);
      }
    }
  }

  lemma {:induction false} SourcesCount(es: seq<(int, int)>, n: int, c: set<int>, inside: bool)
    ensures CountWhere(Sources(es, n), c, inside) == In(es, {n}, c, inside)
  {
    if es != [] {
      var init := es[..|es| - 1];
      var e := es[|es| - 1];
      SourcesCount(init, n, c, inside);
      if e.1 == n {
        assert (Sources(init, n) + [e.0])[..|Sources(init, n)|] == Sources(init, n);
      } else {
        assert Sources(init, n) + [] == Sources(init, n);
      }
    }
  }

  lemma {:induction false} CountsSplit(es: seq<(int, int)>, a: set<int>, n: int, c: set<int>, inside: bool)
    requires n !in a
    ensures Out(es, a + {n}, c, inside) == Out(es, a, c, inside) + Out(es, {n}, c, inside)
    ensures In(es, a + {n}, c, inside) == In(es, a, c, inside) + In(es, {n}, c, inside)
  {
    if es != [] {
      CountsSplit(es[..|es| - 1], a, n, c, inside);
    }
  }

  lemma CountsEmpty(es: seq<(int, int)>, c: set<int>, inside: bool)
    ensures Out(es, {}, c, inside) == 0 && In(es, {}, c, inside) == 0
  {
    if es != [] {
      CountsEmpty(es[..|es| - 1], c, inside);
    }
  }

  /** Counts the members of `s` that lie inside and outside `c`. */
  method Tally(s: seq<int>, c: set<int>) returns (inside: nat, outside: nat)
    ensures inside == CountWhere(s, c, true) && outside == CountWhere(s, c, false)
  {
    inside, outside := 0, 0;
    for k := 0 to |s|
      invariant inside == CountWhere(s[..k], c, true) && outside == CountWhere(s[..k], c, false)
    {
      assert s[..k + 1][..k] == s[..k];
      if s[k] in c {
        inside := inside + 1;
      } else {
        outside := outside + 1;
      }
    }
    assert s[..|s|] == s;
  }

  /** `calculate_insularity`: for every member, every successor and every
      predecessor counts as internal or external; internal is then halved. */
  method CalculateInsularity(g: Graph, community: set<int>) returns (ins: real)
    ensures ins == Insularity(g.edges, community)
  {
    var internal, external := 0, 0;
    var rest := community;
    ghost var done: set<int> := {};
    CountsEmpty(g.edges, community, true);
    CountsEmpty(g.edges, community, false);
    while rest != {}
      invariant done + rest == community && done !! rest
      invariant internal == Out(g.edges, done, community, true) + In(g.edges, done, community, true)
      invariant external == Out(g.edges, done, community, false) + In(g.edges, done, community, false)
      decreases rest
    {
      NonEmptyHasMember(rest);
      var node :| node in rest;
      var succIn, succOut := Tally(Targets(g.edges, node), community);
      var predIn, predOut := Tally(Sources(g.edges, node), community);
      internal := internal + succIn + predIn;
      external := external + succOut + predOut;
      TargetsCount(g.edges, node, community, true);
      TargetsCount(g.edges, node, community, false);
      SourcesCount(g.edges, node, community, true);
      SourcesCount(g.edges, node, community, false);
      CountsSplit(g.edges, done, node, community, true);
      CountsSplit(g.edges, done, node, community, false);
      rest := rest - {node};
      done := done + {node};
    }
    InternalSymmetric(g.edges, community);
    internal := internal / 2;
    var total := internal + external;
    if total == 0 {
      return 0.0;
    }
    ins := internal as real / total as real;
  }

  // ---------------------------------------------------------------------
  // find_communities, find_isolated_clusters, precompute_cluster_data
  // ---------------------------------------------------------------------

  /** `find_communities`: no communities for an empty graph, otherwise the
      partition the Louvain method returns. */
  function FindCommunities(g: Graph, louvain: seq<set<int>>): (r: seq<set<int>>)
    ensures |g.nodes| == 0 ==> r == []
  {
    if |g.nodes| == 0 then [] else louvain
  }

  /** The communities are pairwise disjoint, as a partition is. */
  ghost predicate Disjoint(cs: seq<set<int>>) {
    forall i, j :: 0 <= i < j < |cs| ==> cs[i] !! cs[j]
  }

  const ReportThreshold: real := 0.8
  const ScoringThreshold: real := 0.7

  /** A community is flagged when it has at least 3 members and its
      insularity reaches the threshold. */
  predicate Flagged(es: seq<(int, int)>, c: set<int>, threshold: real) {
    |c| >= 3 && Insularity(es, c) >= threshold
  }

  datatype ClusterReport = ClusterReport(members: set<int>, size: nat, insularity: real)

  function ReportOf(es: seq<(int, int)>, c: set<int>): ClusterReport {
    ClusterReport(c, |c|, Insularity(es, c))
  }

  /** The reports `find_isolated_clusters` builds, in community order. */
  function IsolatedOf(es: seq<(int, int)>, cs: seq<set<int>>, threshold: real): (r: seq<ClusterReport>)
    ensures |r| <= |cs|
    ensures forall q :: q in r ==> q.size == |q.members| >= 3 && q.insularity >= threshold
  {
    if cs == [] then []
    else
      var c := cs[|cs| - 1];
      IsolatedOf(es, cs[..|cs| - 1], threshold) + (if Flagged(es, c, threshold) then [ReportOf(es, c)] else [])
  }

  /** A report is produced exactly for each flagged community. */
  lemma {:induction false} IsolatedOfSpec(es: seq<(int, int)>, cs: seq<set<int>>, threshold: real, q: ClusterReport)
    ensures q in IsolatedOf(es, cs, threshold) <==> exists c :: c in cs && Flagged(es, c, threshold) && q == ReportOf(es, c)
  {
    if cs != [] {
      var init := cs[..|cs| - 1];
      IsolatedOfSpec(es, init, threshold, q);
      assert cs == init + [cs[|cs| - 1]];
      if exists c :: c in cs && Flagged(es, c, threshold) && q == ReportOf(es, c) {
        var c :| c in cs && Flagged(es, c, threshold) && q == ReportOf(es, c);
        if c != cs[|cs| - 1] {
          assert c in init;
        }
      }
    }
  }

  /** `find_isolated_clusters`. */
  method FindIsolatedClusters(g: Graph, louvain: seq<set<int>>, threshold: real)
    returns (isolated: seq<ClusterReport>)
    ensures isolated == IsolatedOf(g.edges, FindCommunities(g, louvain), threshold)
  {
    var communities := FindCommunities(g, louvain);
    isolated := [];
    for i := 0 to |communities|
      invariant isolated == IsolatedOf(g.edges, communities[..i], threshold)
    {
      assert communities[..i + 1][..i] == communities[..i];
      var community := communities[i];
      if |community| < 3 {
        continue;
      }
      var ins := CalculateInsularity(g, community);
      if ins >= threshold {
        isolated := isolated + [ClusterReport(community, |community|, ins)];
      }
    }
    assert communities[..|communities|] == communities;
  }

  /** The per-profile record kept for members of flagged communities. */
  datatype ClusterInfo = ClusterInfo(insularity: real, size: nat)

  function InfoOf(es: seq<(int, int)>, c: set<int>): ClusterInfo {
    ClusterInfo(Insularity(es, c), |c|)
  }

  /** The map `precompute_cluster_data` builds: every member of a flagged
      community maps to that community's insularity and size. */
  function ClusterDataOf(es: seq<(int, int)>, cs: seq<set<int>>, threshold: real): (r: map<int, ClusterInfo>)
    ensures forall p :: p in r ==> r[p].size >= 3 && r[p].insularity >= threshold
  {
    if cs == [] then map[]
    else
      var d := ClusterDataOf(es, cs[..|cs| - 1], threshold);
      var c := cs[|cs| - 1];
      if Flagged(es, c, threshold) then d + map p | p in c :: InfoOf(es, c) else d
  }

  /** With disjoint communities, a member of community i is in the map
      exactly when that community is flagged, and then maps to its data. */
  lemma {:induction false} ClusterDataLookup(es: seq<(int, int)>, cs: seq<set<int>>, threshold: real, i: int, p: int)
    requires Disjoint(cs) && 0 <= i < |cs| && p in cs[i]
    ensures p in ClusterDataOf(es, cs, threshold) <==> Flagged(es, cs[i], threshold)
    ensures p in ClusterDataOf(es, cs, threshold) ==> ClusterDataOf(es, cs, threshold)[p] == InfoOf(es, cs[i])
  {
    var init := cs[..|cs| - 1];
    var c := cs[|cs| - 1];
    if i < |cs| - 1 {
      assert Disjoint(init);
      assert init[i] == cs[i];
      ClusterDataLookup(es, init, threshold, i, p);
      assert p !in c;
    } else {
      ClusterDataOutside(es, init, threshold, p);
    }
  }

  /** Only members of some flagged community are in the map. */
  lemma {:induction false} ClusterDataOutside(es: seq<(int, int)>, cs: seq<set<int>>, threshold: real, p: int)
    requires forall c :: c in cs ==> p !in c
    ensures p !in ClusterDataOf(es, cs, threshold)
  {
    if cs != [] {
      var init := cs[..|cs| - 1];
      assert forall c :: c in init ==> c in cs;
      ClusterDataOutside(es, init, threshold, p);
      assert cs[|cs| - 1] in cs;
    }
  }

  /** The inner loop of `precompute_cluster_data`: every member maps to `info`. */
  method MapMembers(data: map<int, ClusterInfo>, community: set<int>, info: ClusterInfo)
    returns (data': map<int, ClusterInfo>)
    ensures data' == data + map p | p in community :: info
  {
    data' := data;
    var rest := community;
    ghost var done: set<int> := {};
    while rest != {}
      invariant done + rest == community && done !! rest
      invariant data' == data + map p | p in done :: info
      decreases rest
    {
      NonEmptyHasMember(rest);
      var p :| p in rest;
      data' := data'[p := info];
      rest := rest - {p};
      done := done + {p};
    }
  }

  /** `precompute_cluster_data`. */
  method PrecomputeClusterData(g: Graph, louvain: seq<set<int>>, threshold: real)
    returns (data: map<int, ClusterInfo>)
    ensures data == ClusterDataOf(g.edges, FindCommunities(g, louvain), threshold)
  {
    var communities := FindCommunities(g, louvain);
    data := map[];
    for i := 0 to |communities|
      invariant data == ClusterDataOf(g.edges, communities[..i], threshold)
    {
      var community := communities[i];
      ghost var prefix := communities[..i + 1];
      assert prefix[..i] == communities[..i] && prefix[i] == community;
      assert ClusterDataOf(g.edges, prefix, threshold)
          == if Flagged(g.edges, community, threshold)
             then ClusterDataOf(g.edges, communities[..i], threshold) + map p | p in community :: InfoOf(g.edges, community)
             else ClusterDataOf(g.edges, communities[..i], threshold);
      if |community| < 3 {
        continue;
      }
      var ins := CalculateInsularity(g, community);
      if ins >= threshold {
        data := MapMembers(data, community, ClusterInfo(ins, |community|));
      }
    }
    assert communities[..|communities|] == communities;
  }

  // ---------------------------------------------------------------------
  // calculate_cluster_score
  // ---------------------------------------------------------------------

  /** min(1, 10 / size): smaller communities weigh more. */
  function SizeFactor(size: nat): real
    requires size > 0
  {
    Min(1.0, 10.0 / size as real)
  }

  /** The base score, insularity * 100, weighted by 0.5 + 0.5 * size factor. */
  function Weighted(insularity: real, factor: real): real {
    insularity * 100.0 * (0.5 + 0.5 * factor)
  }

  /** min(100, insularity * 100 * (0.5 + 0.5 * size factor)). */
  function ClusterPoints(insularity: real, size: nat): real
    requires size > 0
  {
    Min(100.0, Weighted(insularity, SizeFactor(size)))
  }

  /** The precomputed branch of `calculate_cluster_score`. */
  function ClusterScore(data: map<int, ClusterInfo>, p: int): (r: real)
    requires p in data ==> data[p].size > 0
    ensures p !in data ==> r == 0.0
  {
    if p in data then ClusterPoints(data[p].insularity, data[p].size) else 0.0
  }

  /** For an insularity in [0, 1] the points lie in [0, 100]. */
  lemma ClusterPointsRange(insularity: real, size: nat)
    requires size > 0 && 0.0 <= insularity
    ensures 0.0 <= ClusterPoints(insularity, size) <= 100.0
  {
    assert 0.5 <= 0.5 + 0.5 * SizeFactor(size);
  }

  /** Communities of at most 10 members score 100 times their insularity. */
  lemma ClusterPointsSmall(insularity: real, size: nat)
    requires 0 < size <= 10 && 0.0 <= insularity <= 1.0
    ensures ClusterPoints(insularity, size) == 100.0 * insularity
  {
    assert 10.0 / size as real >= 1.0;
  }

  /** At equal insularity a larger community never scores higher. */
  lemma ClusterPointsBySize(insularity: real, small: nat, large: nat)
    requires 0 < small <= large && 0.0 <= insularity
    ensures ClusterPoints(insularity, large) <= ClusterPoints(insularity, small)
  {
    SizeFactorMono(small, large);
    WeightedMono(insularity, insularity, SizeFactor(large), SizeFactor(small));
  }

  /** At equal size a more insular community never scores lower. */
  lemma ClusterPointsByInsularity(low: real, high: real, size: nat)
    requires size > 0 && low <= high
    ensures ClusterPoints(low, size) <= ClusterPoints(high, size)
  {
    WeightedMono(low, high, SizeFactor(size), SizeFactor(size));
  }

  lemma SizeFactorMono(small: nat, large: nat)
    requires 0 < small <= large
    ensures 0.0 <= SizeFactor(large) <= SizeFactor(small)
  {
    DivLe(10.0, small as real, large as real);
  }

  /** The weighted score grows with the insularity and, for a non-negative
      insularity, with the factor. */
  lemma WeightedMono(i1: real, i2: real, f1: real, f2: real)
    requires i1 <= i2 && 0.0 <= f1 <= f2 && (f1 < f2 ==> 0.0 <= i1 == i2)
    ensures Weighted(i1, f1) <= Weighted(i2, f2)
  {
    if f1 < f2 {
      MulLe(i1 * 100.0, 0.5 + 0.5 * f1, 0.5 + 0.5 * f2);
    } else {
      MulLe(0.5 + 0.5 * f1, i1 * 100.0, i2 * 100.0);
      assert Weighted(i1, f1) == (0.5 + 0.5 * f1) * (i1 * 100.0);
      assert Weighted(i2, f2) == (0.5 + 0.5 * f1) * (i2 * 100.0);
    }
  }

  /** The scores computed from precomputed data lie in [0, 100]; a member
      of a flagged community of at most 10 members scores at least 70. */
  lemma ClusterScoreRange(es: seq<(int, int)>, cs: seq<set<int>>, p: int)
    ensures 0.0 <= ClusterScore(ClusterDataOf(es, cs, ScoringThreshold), p) <= 100.0
    ensures var data := ClusterDataOf(es, cs, ScoringThreshold);
      p in data && data[p].size <= 10 ==> ClusterScore(data, p) >= 70.0
  {
    var data := ClusterDataOf(es, cs, ScoringThreshold);
    if p in data {
      ClusterPointsRange(data[p].insularity, data[p].size);
      if data[p].size <= 10 {
        var ins := data[p].insularity;
        assert ins <= 1.0 by {
          var info := data[p];
          ClusterInfoInsularity(es, cs, ScoringThreshold, p);
        }
        ClusterPointsSmall(ins, data[p].size);
      }
    }
  }

  lemma {:induction false} ClusterInfoInsularity(es: seq<(int, int)>, cs: seq<set<int>>, threshold: real, p: int)
    requires p in ClusterDataOf(es, cs, threshold)
    ensures ClusterDataOf(es, cs, threshold)[p].insularity <= 1.0
  {
    var init := cs[..|cs| - 1];
    var c := cs[|cs| - 1];
    if !(Flagged(es, c, threshold) && p in c) {
      ClusterInfoInsularity(es, init, threshold, p);
    }
  }

  /** The fallback branch of `calculate_cluster_score` as written: the
      first community holding the profile is scored when its insularity
      reaches the threshold, whatever its size. */
  function FallbackAsWritten(es: seq<(int, int)>, cs: seq<set<int>>, p: int, threshold: real): real {
    if cs == [] then 0.0
    else if p in cs[0] && Insularity(es, cs[0]) >= threshold then ClusterPoints(Insularity(es, cs[0]), |cs[0]|)
    else FallbackAsWritten(es, cs[1..], p, threshold)
  }

  /** A two-member community of mutual vouches: the fallback scores its
      members 100, while the precomputed branch, which skips communities of
      fewer than 3 members, scores them 0. */
  lemma FallbackAsWrittenDisagrees()
    ensures FallbackAsWritten([(1, 2), (2, 1)], [{1, 2}], 1, ScoringThreshold) == 100.0
    ensures ClusterScore(ClusterDataOf([(1, 2), (2, 1)], [{1, 2}], ScoringThreshold), 1) == 0.0
  {
    var es := [(1, 2), (2, 1)];
    var c := {1, 2};
    assert es[..1] == [(1, 2)];
    assert [(1, 2)][..0] == [];
    assert Out(es, c, c, true) == 2;
    assert Out(es, c, c, false) == 0 && In(es, c, c, false) == 0;
    assert Insularity(es, c) == 1.0;
    assert |c| == 2;
    assert SizeFactor(2) == 1.0;
    assert [{1, 2}][..0] == [];
  }

  /** One step of the scan as written, at position `i`. */
  lemma FallbackAsWrittenStep(es: seq<(int, int)>, cs: seq<set<int>>, i: nat, p: int, threshold: real)
    requires i < |cs|
    ensures FallbackAsWritten(es, cs[i..], p, threshold) ==
      if p in cs[i] && Insularity(es, cs[i]) >= threshold then ClusterPoints(Insularity(es, cs[i]), |cs[i]|)
      else FallbackAsWritten(es, cs[i + 1..], p, threshold)
  {
    assert cs[i..][0] == cs[i] && cs[i..][1..] == cs[i + 1..];
  }

  /** The scan as written scores in [0, 100]. */
  lemma {:induction false} FallbackAsWrittenRange(es: seq<(int, int)>, cs: seq<set<int>>, p: int, threshold: real)
    ensures 0.0 <= FallbackAsWritten(es, cs, p, threshold) <= 100.0
  {
    if cs != [] {
      if p in cs[0] && Insularity(es, cs[0]) >= threshold {
        ClusterPointsRange(Insularity(es, cs[0]), |cs[0]|);
      } else {
        FallbackAsWrittenRange(es, cs[1..], p, threshold);
      }
    }
  }

  /** A profile in no community scores 0 on the scan as written. */
  lemma {:induction false} FallbackAsWrittenAbsent(es: seq<(int, int)>, cs: seq<set<int>>, p: int, threshold: real)
    requires forall c :: c in cs ==> p !in c
    ensures FallbackAsWritten(es, cs, p, threshold) == 0.0
  {
    if cs != [] {
      assert cs[0] in cs;
      assert forall c :: c in cs[1..] ==> c in cs;
      FallbackAsWrittenAbsent(es, cs[1..], p, threshold);
    }
  }

  /** The scan as written and the intended one differ only through
      communities of fewer than 3 members holding the profile. */
  lemma {:induction false} FallbackAsWrittenWhenLarge(es: seq<(int, int)>, cs: seq<set<int>>, p: int, threshold: real)
    requires forall c :: c in cs && p in c ==> |c| >= 3
    ensures FallbackAsWritten(es, cs, p, threshold) == Fallback(es, cs, p, threshold)
  {
    if cs != [] {
      assert cs[0] in cs;
      assert forall c :: c in cs[1..] ==> c in cs;
      FallbackAsWrittenWhenLarge(es, cs[1..], p, threshold);
    }
  }

  /** So, for disjoint communities, when the profile's community has at
      least 3 members both branches of `calculate_cluster_score` agree. */
  lemma FallbackAsWrittenAgrees(es: seq<(int, int)>, cs: seq<set<int>>, p: int, threshold: real)
    requires Disjoint(cs)
    requires forall c :: c in cs && p in c ==> |c| >= 3
    ensures FallbackAsWritten(es, cs, p, threshold) == ClusterScore(ClusterDataOf(es, cs, threshold), p)
  {
    FallbackAsWrittenWhenLarge(es, cs, p, threshold);
    FallbackAgrees(es, cs, p, threshold);
  }

  /** The fallback branch as evidently intended: communities of fewer than
      3 members are skipped, as everywhere else in the detector. */
  function Fallback(es: seq<(int, int)>, cs: seq<set<int>>, p: int, threshold: real): real {
    if cs == [] then 0.0
    else if p in cs[0] && Flagged(es, cs[0], threshold) then ClusterPoints(Insularity(es, cs[0]), |cs[0]|)
    else Fallback(es, cs[1..], p, threshold)
  }

  /** One step of the fallback scan, at position `i`. */
  lemma FallbackStep(es: seq<(int, int)>, cs: seq<set<int>>, i: nat, p: int, threshold: real)
    requires i < |cs|
    ensures Fallback(es, cs[i..], p, threshold) ==
      if p in cs[i] && Flagged(es, cs[i], threshold) then ClusterPoints(Insularity(es, cs[i]), |cs[i]|)
      else Fallback(es, cs[i + 1..], p, threshold)
  {
    assert cs[i..][0] == cs[i] && cs[i..][1..] == cs[i + 1..];
  }

  /** The points as `calculate_cluster_score` computes them step by step. */
  lemma PointsAsComputed(insularity: real, size: nat, sizeFactor: real)
    requires size > 0 && sizeFactor == Min(1.0, 10.0 / size as real)
    ensures Min(100.0, insularity * 100.0 * (0.5 + 0.5 * sizeFactor)) == ClusterPoints(insularity, size)
  {
  }

  /** The fallback score lies in [0, 100]. */
  lemma {:induction false} FallbackRange(es: seq<(int, int)>, cs: seq<set<int>>, p: int, threshold: real)
    ensures 0.0 <= Fallback(es, cs, p, threshold) <= 100.0
  {
    if cs != [] {
      if p in cs[0] && Flagged(es, cs[0], threshold) {
        ClusterPointsRange(Insularity(es, cs[0]), |cs[0]|);
      } else {
        FallbackRange(es, cs[1..], p, threshold);
      }
    }
  }

  lemma {:induction false} FallbackAbsent(es: seq<(int, int)>, cs: seq<set<int>>, p: int, threshold: real)
    requires forall c :: c in cs ==> p !in c
    ensures Fallback(es, cs, p, threshold) == 0.0
  {
    if cs != [] {
      assert cs[0] in cs;
      assert forall c :: c in cs[1..] ==> c in cs;
      FallbackAbsent(es, cs[1..], p, threshold);
    }
  }

  /** With disjoint communities, the fallback gives every profile the score
      the precomputed data gives it. */
  lemma {:induction false} FallbackAgrees(es: seq<(int, int)>, cs: seq<set<int>>, p: int, threshold: real)
    requires Disjoint(cs)
    ensures Fallback(es, cs, p, threshold) == ClusterScore(ClusterDataOf(es, cs, threshold), p)
  {
    if exists i :: 0 <= i < |cs| && p in cs[i] {
      var i :| 0 <= i < |cs| && p in cs[i];
      ClusterDataLookup(es, cs, threshold, i, p);
      FallbackAt(es, cs, p, threshold, i);
    } else {
      ClusterDataOutside(es, cs, threshold, p);
      FallbackAbsent(es, cs, p, threshold);
    }
  }

  lemma {:induction false} FallbackAt(es: seq<(int, int)>, cs: seq<set<int>>, p: int, threshold: real, i: int)
    requires Disjoint(cs) && 0 <= i < |cs| && p in cs[i]
    ensures Fallback(es, cs, p, threshold)
         == if Flagged(es, cs[i], threshold) then ClusterPoints(Insularity(es, cs[i]), |cs[i]|) else 0.0
  {
    var tail := cs[1..];
    assert Disjoint(tail) by {
      forall a, b | 0 <= a < b < |tail| ensures tail[a] !! tail[b] {
        assert tail[a] == cs[a + 1] && tail[b] == cs[b + 1];
      }
    }
    if i == 0 {
      if !Flagged(es, cs[0], threshold) {
        forall c | c in tail ensures p !in c {
          var k :| 0 <= k < |tail| && tail[k] == c;
          assert cs[k + 1] == c;
          assert cs[0] !! cs[k + 1];
        }
        FallbackAbsent(es, tail, p, threshold);
      }
    } else {
      assert cs[0] !! cs[i];
      assert tail[i - 1] == cs[i];
      FallbackAt(es, tail, p, threshold, i - 1);
    }
  }

  /** `calculate_cluster_score`: the precomputed branch when data is given,
      otherwise the fallback scan over the communities, as written. */
  method CalculateClusterScore(g: Graph, p: int, threshold: real,
                               precomputed: Option<map<int, ClusterInfo>>, louvain: seq<set<int>>)
    returns (score: real)
    requires precomputed.Some? && p in precomputed.value ==> precomputed.value[p].size > 0
    ensures precomputed.Some? ==> score == ClusterScore(precomputed.value, p)
    ensures precomputed.None? ==> score == FallbackAsWritten(g.edges, FindCommunities(g, louvain), p, threshold)
  {
    if precomputed.Some? {
      var data := precomputed.value;
      if p in data {
        var info := data[p];
        var baseScore := info.insularity * 100.0;
        var sizeFactor := Min(1.0, 10.0 / info.size as real);
        return Min(100.0, baseScore * (0.5 + 0.5 * sizeFactor));
      }
      return 0.0;
    }
    var communities := FindCommunities(g, louvain);
    score := FallbackScore(g, p, threshold, communities);
  }

  /** The fallback loop of `calculate_cluster_score`: the first community
      holding `p` whose insularity reaches the threshold decides the score. */
  method FallbackScore(g: Graph, p: int, threshold: real, communities: seq<set<int>>)
    returns (score: real)
    ensures score == FallbackAsWritten(g.edges, communities, p, threshold)
  {
    var i := 0;
    while i < |communities|
      invariant 0 <= i <= |communities|
      invariant FallbackAsWritten(g.edges, communities, p, threshold)
             == FallbackAsWritten(g.edges, communities[i..], p, threshold)
    {
      var community := communities[i];
      if p in community {
        var ins := CalculateInsularity(g, community);
        if ins >= threshold {
          var sizeFactor := Min(1.0, 10.0 / |community| as real);
          score := Min(100.0, ins * 100.0 * (0.5 + 0.5 * sizeFactor));
          PointsAsComputed(ins, |community|, sizeFactor);
          FallbackAsWrittenStep(g.edges, communities, i, p, threshold);
          return;
        }
      }
      FallbackAsWrittenStep(g.edges, communities, i, p, threshold);
      i := i + 1;
    }
    return 0.0;
  }
}
