/** The composite risk scorer (analysis/src/scorer.py): the five detector
    scores are combined by a weighted sum capped at 100, mapped to a risk
    level, computed for every profile of the graph and sorted, filtered by
    a threshold and summarised.

    `is_official_account` is the parameter `isOfficial`; the community
    partition (`louvain`) and the week key of a timestamp (`weekOf`) are
    parameters as in the detectors. */
module Scorer {
  import opened Common
  import opened Loader
  import opened VouchGraph
  import opened Rings
  import opened Clusters
  import opened Bursts
  import opened Stakes
  import opened Reciprocity

  // ---------------------------------------------------------------------
  // get_risk_level
  // ---------------------------------------------------------------------

  datatype RiskLevel = Critical | High | Medium | Low | Minimal | Official

  /** The order of the score-based levels, from minimal up to critical. */
  function Rank(level: RiskLevel): nat {
    match level
    case Minimal => 0
    case Low => 1
    case Medium => 2
    case High => 3
    case Critical => 4
    case Official => 5
  }

  /** How many of the cutoffs 10, 30, 50 and 70 a score reaches. */
  function CutoffsReached(score: real): nat {
    (if score >= 10.0 then 1 else 0) + (if score >= 30.0 then 1 else 0)
    + (if score >= 50.0 then 1 else 0) + (if score >= 70.0 then 1 else 0)
  }

  /** `get_risk_level`: the level ranks as many steps above minimal as the
      score reaches cutoffs, each cutoff inclusive. */
  function GetRiskLevel(score: real): (level: RiskLevel)
    ensures level != Official
    ensures Rank(level) == CutoffsReached(score)
  {
    if score >= 70.0 then Critical
    else if score >= 50.0 then High
    else if score >= 30.0 then Medium
    else if score >= 10.0 then Low
    else Minimal
  }

  /** A higher score never gets a lower level. */
  lemma RiskLevelMonotone(a: real, b: real)
    requires a <= b
    ensures Rank(GetRiskLevel(a)) <= Rank(GetRiskLevel(b))
  {
  }

  /** The cutoffs are inclusive. */
  lemma RiskLevelExamples()
    ensures GetRiskLevel(70.0) == Critical && GetRiskLevel(100.0) == Critical
    ensures GetRiskLevel(50.0) == High && GetRiskLevel(69.0) == High
    ensures GetRiskLevel(30.0) == Medium && GetRiskLevel(49.0) == Medium
    ensures GetRiskLevel(10.0) == Low && GetRiskLevel(29.0) == Low
    ensures GetRiskLevel(0.0) == Minimal && GetRiskLevel(9.0) == Minimal
  {
  }

  // ---------------------------------------------------------------------
  // Weights and the composite
  // ---------------------------------------------------------------------

  datatype Weights = Weights(ring: real, cluster: real, burst: real, stake: real, reciprocity: real)

  /** `DEFAULT_WEIGHTS`. */
  const DefaultWeights: Weights := Weights(0.30, 0.25, 0.20, 0.15, 0.10)

  /** Non-negative weights that sum to 1. */
  predicate Normalised(w: Weights) {
    && w.ring >= 0.0 && w.cluster >= 0.0 && w.burst >= 0.0 && w.stake >= 0.0 && w.reciprocity >= 0.0
    && w.ring + w.cluster + w.burst + w.stake + w.reciprocity == 1.0
  }

  lemma DefaultWeightsNormalised()
    ensures Normalised(DefaultWeights)
  {
  }

  /** The five detector scores of one profile. */
  datatype Components = Components(ring: real, cluster: real, burst: real, stake: real, reciprocity: real)

  predicate InRange(c: Components) {
    && 0.0 <= c.ring <= 100.0 && 0.0 <= c.cluster <= 100.0 && 0.0 <= c.burst <= 100.0
    && 0.0 <= c.stake <= 100.0 && 0.0 <= c.reciprocity <= 100.0
  }

  /** One weighted component. */
  function Term(weight: real, score: real): real {
    weight * score
  }

  function WeightedSum(w: Weights, c: Components): real {
    Term(w.ring, c.ring) + Term(w.cluster, c.cluster) + Term(w.burst, c.burst)
    + Term(w.stake, c.stake) + Term(w.reciprocity, c.reciprocity)
  }

  /** The weighted sum capped at 100. */
  function Composite(w: Weights, c: Components): (r: real)
    ensures r <= 100.0
    ensures r == WeightedSum(w, c) || r == 100.0
  {
    Min(100.0, WeightedSum(w, c))
  }

  lemma WeightedTerm(w: real, x: real)
    requires w >= 0.0 && 0.0 <= x <= 100.0
    ensures 0.0 <= Term(w, x) <= w * 100.0
  {
    if w > 0.0 {
      if x > 0.0 {
        PosMul(w, x);
      }
      if x < 100.0 {
        PosMul(w, 100.0 - x);
      }
    }
  }

  /** With normalised weights and every score in [0, 100], the weighted
      sum already lies in [0, 100], so the cap does not change it. */
  lemma CompositeRange(w: Weights, c: Components)
    requires Normalised(w) && InRange(c)
    ensures 0.0 <= Composite(w, c) <= 100.0
    ensures Composite(w, c) == WeightedSum(w, c)
  {
    WeightedTerm(w.ring, c.ring);
    WeightedTerm(w.cluster, c.cluster);
    WeightedTerm(w.burst, c.burst);
    WeightedTerm(w.stake, c.stake);
    WeightedTerm(w.reciprocity, c.reciprocity);
  }

  lemma TermMonotone(w: real, x: real, y: real)
    requires w >= 0.0 && x <= y
    ensures Term(w, x) <= Term(w, y)
  {
    if w > 0.0 && x < y {
      PosMul(w, y - x);
    }
  }

  /** With non-negative weights, raising any detector score never lowers
      the composite. */
  lemma CompositeMonotone(w: Weights, c: Components, d: Components)
    requires w.ring >= 0.0 && w.cluster >= 0.0 && w.burst >= 0.0 && w.stake >= 0.0 && w.reciprocity >= 0.0
    requires c.ring <= d.ring && c.cluster <= d.cluster && c.burst <= d.burst
    requires c.stake <= d.stake && c.reciprocity <= d.reciprocity
    ensures Composite(w, c) <= Composite(w, d)
  {
    TermMonotone(w.ring, c.ring, d.ring);
    TermMonotone(w.cluster, c.cluster, d.cluster);
    TermMonotone(w.burst, c.burst, d.burst);
    TermMonotone(w.stake, c.stake, d.stake);
    TermMonotone(w.reciprocity, c.reciprocity, d.reciprocity);
  }

  // ---------------------------------------------------------------------
  // calculate_risk_score
  // ---------------------------------------------------------------------

  /** `RiskBreakdown` (before the rounding of `to_dict`). */
  datatype RiskBreakdown = RiskBreakdown(scores: Components, composite: real, level: RiskLevel)

  const OfficialBreakdown: RiskBreakdown :=
    RiskBreakdown(Components(0.0, 0.0, 0.0, 0.0, 0.0), 0.0, Official)

  /** The breakdown of a non-official profile with the given scores. */
  function BreakdownOf(w: Weights, c: Components): (b: RiskBreakdown)
    ensures b.scores == c && b.level != Official
    ensures b.level == GetRiskLevel(b.composite)
    ensures b.composite == Composite(w, c)
  {
    var composite := Composite(w, c);
    RiskBreakdown(c, composite, GetRiskLevel(composite))
  }

  /** The weights in use: the given ones, else the defaults (`weights or
      DEFAULT_WEIGHTS`). */
  function WeightsOrDefault(weights: Option<Weights>): Weights {
    weights.GetOr(DefaultWeights)
  }

  /** `calculate_risk_score` with precomputed rings and cluster data, as
      `analyze_all_profiles` calls it. */
  function RiskOf(g: Graph, p: int, vouches: seq<Vouch>, weights: Option<Weights>,
                  rings: seq<seq<int>>, data: map<int, ClusterInfo>,
                  weekOf: Stamp -> Option<string>, isOfficial: int -> bool): (b: RiskBreakdown)
    requires Valid(g)
    requires p in data ==> data[p].size > 0
    ensures isOfficial(p) ==> b == OfficialBreakdown
    ensures !isOfficial(p) ==> b.scores.ring == RingScore(rings, p) && b.scores.cluster == ClusterScore(data, p)
    ensures !isOfficial(p) ==> b == BreakdownOf(WeightsOrDefault(weights), b.scores)
  {
    if isOfficial(p) then OfficialBreakdown
    else
      BreakdownOf(WeightsOrDefault(weights), Components(
        RingScore(rings, p),
        ClusterScore(data, p),
        BurstScore(vouches, p, weekOf),
        CalculateStakeScore(g, p),
        ReciprocityScore(g, p)))
  }

  /** Precomputed cluster data, when given, holds no negative insularity for `p`. */
  predicate NonNegativeAt(data: Option<map<int, ClusterInfo>>, p: int) {
    data.Some? && p in data.value ==> data.value[p].insularity >= 0.0
  }

  /** `calculate_risk_score`: an official account gets all zeros and the
      level "official"; any other profile gets the five detector scores,
      each in [0, 100], their capped weighted sum and its level. */
  method CalculateRiskScore(g: Graph, p: int, vouches: seq<Vouch>, weights: Option<Weights>,
                            precomputedRings: Option<seq<seq<int>>>,
                            precomputedClusters: Option<map<int, ClusterInfo>>,
                            weekOf: Stamp -> Option<string>, isOfficial: int -> bool,
                            louvain: seq<set<int>>)
    returns (b: RiskBreakdown)
    requires Valid(g)
    requires precomputedClusters.Some? && p in precomputedClusters.value ==> precomputedClusters.value[p].size > 0
    ensures isOfficial(p) ==> b == OfficialBreakdown
    ensures !isOfficial(p) ==> b == BreakdownOf(WeightsOrDefault(weights), b.scores)
    ensures !isOfficial(p) && NonNegativeAt(precomputedClusters, p) ==> InRange(b.scores)
    ensures !isOfficial(p) ==>
      && b.scores.burst == BurstScore(vouches, p, weekOf)
      && b.scores.stake == CalculateStakeScore(g, p)
      && b.scores.reciprocity == ReciprocityScore(g, p)
    ensures !isOfficial(p) && precomputedRings.Some? ==> b.scores.ring == RingScore(precomputedRings.value, p)
    ensures !isOfficial(p) && precomputedClusters.Some? ==> b.scores.cluster == ClusterScore(precomputedClusters.value, p)
    ensures !isOfficial(p) && precomputedClusters.None? ==>
      b.scores.cluster == FallbackAsWritten(g.edges, FindCommunities(g, louvain), p, ScoringThreshold)
    ensures precomputedRings.Some? && precomputedClusters.Some? ==>
      b == RiskOf(g, p, vouches, weights, precomputedRings.value, precomputedClusters.value, weekOf, isOfficial)
  {
    if isOfficial(p) {
      return OfficialBreakdown;
    }
    var ring := CalculateRingScore(g, p, 5, precomputedRings);
    var cluster := CalculateClusterScore(g, p, ScoringThreshold, precomputedClusters, louvain);
    if precomputedClusters.Some? {
      if p in precomputedClusters.value && precomputedClusters.value[p].insularity >= 0.0 {
        ClusterPointsRange(precomputedClusters.value[p].insularity, precomputedClusters.value[p].size);
      }
    } else {
      FallbackAsWrittenRange(g.edges, FindCommunities(g, louvain), p, ScoringThreshold);
    }
    var burst := BurstScore(vouches, p, weekOf);
    var stake := CalculateStakeScore(g, p);
    var reciprocity := ReciprocityScore(g, p);
    b := BreakdownOf(WeightsOrDefault(weights), Components(ring, cluster, burst, stake, reciprocity));
  }

  lemma ClusterScoreInRange(data: map<int, ClusterInfo>, p: int)
    requires p in data ==> data[p].size > 0 && data[p].insularity >= 0.0
    ensures 0.0 <= ClusterScore(data, p) <= 100.0
  {
    if p in data {
      ClusterPointsRange(data[p].insularity, data[p].size);
    }
  }

  /** Under the default weights, a ring score of 40 alone brings the
      composite to 12, which is at least the Low cutoff. */
  lemma RingFloor(c: Components)
    requires InRange(c) && c.ring >= 40.0
    ensures Composite(DefaultWeights, c) >= 12.0
    ensures Rank(GetRiskLevel(Composite(DefaultWeights, c))) >= Rank(Low)
  {
    var floor := Components(40.0, 0.0, 0.0, 0.0, 0.0);
    CompositeMonotone(DefaultWeights, floor, c);
    assert Composite(DefaultWeights, floor) == 12.0;
  }

  /** A member of a 3-profile ring scores at least 40 on rings, so with the
      default weights its composite is at least 12 and its level is not
      "minimal". */
  lemma RingMemberNotMinimal(g: Graph, p: int, vouches: seq<Vouch>, rings: seq<seq<int>>,
                             data: map<int, ClusterInfo>, weekOf: Stamp -> Option<string>,
                             isOfficial: int -> bool, r: seq<int>)
    requires Valid(g)
    requires forall q :: q in data ==> data[q].size > 0 && data[q].insularity >= 0.0
    requires !isOfficial(p) && r in rings && p in r && |r| == 3
    ensures RiskOf(g, p, vouches, None, rings, data, weekOf, isOfficial).scores.ring >= 40.0
    ensures RiskOf(g, p, vouches, None, rings, data, weekOf, isOfficial).composite >= 12.0
    ensures Rank(RiskOf(g, p, vouches, None, rings, data, weekOf, isOfficial).level) >= Rank(Low)
  {
    var b := RiskOf(g, p, vouches, None, rings, data, weekOf, isOfficial);
    assert b.scores.ring >= 40.0 && InRange(b.scores) by {
      RingScoreTriangle(rings, p, r);
      RingScoreRange(rings, p);
      ClusterScoreInRange(data, p);
    }
    RingFloor(b.scores);
  }

  // ---------------------------------------------------------------------
  // analyze_all_profiles
  // ---------------------------------------------------------------------

  datatype ProfileRisk = ProfileRisk(id: int, risk: RiskBreakdown)

  function ByComposite(e: ProfileRisk): real {
    e.risk.composite
  }

  /** One entry per node, in node order, before sorting. */
  function Analysis(g: Graph, nodes: seq<int>, vouches: seq<Vouch>, weights: Option<Weights>,
                    rings: seq<seq<int>>, data: map<int, ClusterInfo>,
                    weekOf: Stamp -> Option<string>, isOfficial: int -> bool): (r: seq<ProfileRisk>)
    requires Valid(g)
    requires forall q :: q in data ==> data[q].size > 0
    ensures |r| == |nodes|
    ensures forall i :: 0 <= i < |r| ==>
      r[i] == ProfileRisk(nodes[i], RiskOf(g, nodes[i], vouches, weights, rings, data, weekOf, isOfficial))
  {
    seq(|nodes|, i requires 0 <= i < |nodes| =>
      ProfileRisk(nodes[i], RiskOf(g, nodes[i], vouches, weights, rings, data, weekOf, isOfficial)))
  }

  /** Over distinct nodes the entries are distinct: they carry the nodes as ids. */
  lemma AnalysisDistinct(g: Graph, nodes: seq<int>, vouches: seq<Vouch>, weights: Option<Weights>,
                         rings: seq<seq<int>>, data: map<int, ClusterInfo>,
                         weekOf: Stamp -> Option<string>, isOfficial: int -> bool)
    requires Valid(g) && Distinct(nodes)
    requires forall q :: q in data ==> data[q].size > 0
    ensures Distinct(Analysis(g, nodes, vouches, weights, rings, data, weekOf, isOfficial))
  {
    var r := Analysis(g, nodes, vouches, weights, rings, data, weekOf, isOfficial);
    forall i, j | 0 <= i < j < |r|
      ensures r[i] != r[j]
    {
      assert r[i].id == nodes[i] && r[j].id == nodes[j];
    }
  }

  /** An element of a sequence without repeats occurs exactly once. */
  lemma {:induction false} DistinctOnce<T>(s: seq<T>, x: T)
    requires Distinct(s) && x in s
    ensures multiset(s)[x] == 1
  {
    var init := s[..|s| - 1];
    var last := s[|s| - 1];
    SplitLast(s);
    assert Distinct(init);
    if x == last {
      assert forall k :: 0 <= k < |init| ==> init[k] == s[k] != last;
      assert x !in init;
    } else {
      DistinctOnce(init, x);
    }
  }

  /** `analyze_all_profiles`: every node is scored with the rings
      `get_ring_stats` finds (returned as `rings` for the contract) and the
      precomputed cluster data, and the entries are sorted by composite,
      highest first; entries with equal composites keep node order. */
  method AnalyzeAllProfiles(g: Graph, vouches: seq<Vouch>, weights: Option<Weights>,
                            weekOf: Stamp -> Option<string>, isOfficial: int -> bool,
                            louvain: seq<set<int>>)
    returns (results: seq<ProfileRisk>, ghost rings: seq<seq<int>>)
    requires Valid(g)
    ensures forall r :: r in rings ==> IsRing(g, r, 5)
    ensures forall i, j :: 0 <= i < j < |rings| ==> Members(rings[i]) != Members(rings[j])
    ensures |rings| < 10000 ==> forall s, n, x :: Triangle(g, s, n, x) ==> {s, n, x} in RingKeys(rings)
    ensures results == SortDesc(Analysis(g, g.nodes, vouches, weights, rings,
                                         ClusterDataOf(g.edges, FindCommunities(g, louvain), ScoringThreshold),
                                         weekOf, isOfficial), ByComposite)
    ensures |results| == |g.nodes|
    ensures SortedDesc(results, ByComposite)
    ensures forall n :: n in g.nodes ==>
      multiset(results)[ProfileRisk(n, RiskOf(g, n, vouches, weights, rings,
        ClusterDataOf(g.edges, FindCommunities(g, louvain), ScoringThreshold), weekOf, isOfficial))] == 1
  {
    var stats := GetRingStats(g, 5);
    rings := stats.rings;
    var data := PrecomputeClusterData(g, louvain, ScoringThreshold);
    var unsorted := ScoreNodes(g, vouches, weights, stats.rings, data, weekOf, isOfficial, louvain);
    results := SortDesc(unsorted, ByComposite);
    SortedAnalysisOnce(g, vouches, weights, rings, data, weekOf, isOfficial);
  }

  /** The loop of `analyze_all_profiles`: one `calculate_risk_score` per
      node, in node order. */
  method ScoreNodes(g: Graph, vouches: seq<Vouch>, weights: Option<Weights>,
                    rings: seq<seq<int>>, data: map<int, ClusterInfo>,
                    weekOf: Stamp -> Option<string>, isOfficial: int -> bool,
                    louvain: seq<set<int>>)
    returns (unsorted: seq<ProfileRisk>)
    requires Valid(g)
    requires forall q :: q in data ==> data[q].size > 0
    ensures unsorted == Analysis(g, g.nodes, vouches, weights, rings, data, weekOf, isOfficial)
  {
    unsorted := [];
    for i := 0 to |g.nodes|
      invariant |unsorted| == i
      invariant forall j :: 0 <= j < i ==>
        unsorted[j] == ProfileRisk(g.nodes[j], RiskOf(g, g.nodes[j], vouches, weights, rings, data, weekOf, isOfficial))
    {
      var e := ScoreOne(g, g.nodes[i], vouches, weights, rings, data, weekOf, isOfficial, louvain);
      unsorted := unsorted + [e];
    }
  }

  method ScoreOne(g: Graph, p: int, vouches: seq<Vouch>, weights: Option<Weights>,
                  rings: seq<seq<int>>, data: map<int, ClusterInfo>,
                  weekOf: Stamp -> Option<string>, isOfficial: int -> bool,
                  louvain: seq<set<int>>)
    returns (e: ProfileRisk)
    requires Valid(g)
    requires forall q :: q in data ==> data[q].size > 0
    ensures e == ProfileRisk(p, RiskOf(g, p, vouches, weights, rings, data, weekOf, isOfficial))
  {
    var b := CalculateRiskScore(g, p, vouches, weights, Some(rings), Some(data), weekOf, isOfficial, louvain);
    e := ProfileRisk(p, b);
  }

  /** Sorting the entries of distinct nodes leaves each node's entry in
      the results exactly once. */
  lemma SortedAnalysisOnce(g: Graph, vouches: seq<Vouch>, weights: Option<Weights>,
                           rings: seq<seq<int>>, data: map<int, ClusterInfo>,
                           weekOf: Stamp -> Option<string>, isOfficial: int -> bool)
    requires Valid(g)
    requires forall q :: q in data ==> data[q].size > 0
    ensures forall n :: n in g.nodes ==>
      multiset(SortDesc(Analysis(g, g.nodes, vouches, weights, rings, data, weekOf, isOfficial), ByComposite))
        [ProfileRisk(n, RiskOf(g, n, vouches, weights, rings, data, weekOf, isOfficial))] == 1
  {
    var unsorted := Analysis(g, g.nodes, vouches, weights, rings, data, weekOf, isOfficial);
    AnalysisDistinct(g, g.nodes, vouches, weights, rings, data, weekOf, isOfficial);
    forall n | n in g.nodes
      ensures multiset(unsorted)[ProfileRisk(n, RiskOf(g, n, vouches, weights, rings, data, weekOf, isOfficial))] == 1
    {
      var k :| 0 <= k < |g.nodes| && g.nodes[k] == n;
      assert unsorted[k] == ProfileRisk(n, RiskOf(g, n, vouches, weights, rings, data, weekOf, isOfficial));
      DistinctOnce(unsorted, unsorted[k]);
    }
  }

  // ---------------------------------------------------------------------
  // get_high_risk_profiles
  // ---------------------------------------------------------------------

  /** `get_high_risk_profiles`: the entries whose composite reaches the
      threshold, in their original order. */
  function GetHighRiskProfiles(results: seq<ProfileRisk>, threshold: real): (r: seq<ProfileRisk>)
    ensures forall e :: e in r <==> e in results && e.risk.composite >= threshold
    ensures |r| <= |results|
  {
    if results == [] then []
    else
      var init := results[..|results| - 1];
      var e := results[|results| - 1];
      SplitLast(results);
      GetHighRiskProfiles(init, threshold) + (if e.risk.composite >= threshold then [e] else [])
  }

  /** Filtering keeps the order: it distributes over concatenation. */
  lemma {:induction false} HighRiskAppend(a: seq<ProfileRisk>, b: seq<ProfileRisk>, threshold: real)
    ensures GetHighRiskProfiles(a + b, threshold) == GetHighRiskProfiles(a, threshold) + GetHighRiskProfiles(b, threshold)
  {
    if b == [] {
      assert a + b == a;
    } else {
      var init := b[..|b| - 1];
      var e := b[|b| - 1];
      ConcatInit(a, b);
      HighRiskAppend(a, init, threshold);
      ConcatAssoc(GetHighRiskProfiles(a, threshold), GetHighRiskProfiles(init, threshold),
                  if e.risk.composite >= threshold then [e] else []);
    }
  }

  lemma {:induction false} HighRiskAll(results: seq<ProfileRisk>, threshold: real)
    requires forall i :: 0 <= i < |results| ==> results[i].risk.composite >= threshold
    ensures GetHighRiskProfiles(results, threshold) == results
  {
    if results != [] {
      HighRiskAll(results[..|results| - 1], threshold);
      SplitLast(results);
    }
  }

  /** On results sorted by composite, as `analyze_all_profiles` returns
      them, the high-risk profiles are a prefix of the results. */
  lemma {:induction false} HighRiskIsPrefix(results: seq<ProfileRisk>, threshold: real)
    requires SortedDesc(results, ByComposite)
    ensures var r := GetHighRiskProfiles(results, threshold);
      |r| <= |results| && r == results[..|r|]
  {
    if results != [] {
      var init := results[..|results| - 1];
      var e := results[|results| - 1];
      if e.risk.composite >= threshold {
        HighRiskAll(results, threshold);
      } else {
        HighRiskIsPrefix(init, threshold);
        var r := GetHighRiskProfiles(init, threshold);
        assert results[..|r|] == init[..|r|];
      }
    }
  }

  /** The four-profile example: threshold 30 keeps the critical and the
      high profile, in that order. */
  lemma HighRiskExample()
    ensures var results := [
        ProfileRisk(1, RiskBreakdown(Components(0.0, 0.0, 0.0, 0.0, 0.0), 80.0, Critical)),
        ProfileRisk(2, RiskBreakdown(Components(0.0, 0.0, 0.0, 0.0, 0.0), 50.0, High)),
        ProfileRisk(3, RiskBreakdown(Components(0.0, 0.0, 0.0, 0.0, 0.0), 20.0, Low)),
        ProfileRisk(4, RiskBreakdown(Components(0.0, 0.0, 0.0, 0.0, 0.0), 5.0, Minimal))];
      GetHighRiskProfiles(results, 30.0) == results[..2]
  {
    var results := [
        ProfileRisk(1, RiskBreakdown(Components(0.0, 0.0, 0.0, 0.0, 0.0), 80.0, Critical)),
        ProfileRisk(2, RiskBreakdown(Components(0.0, 0.0, 0.0, 0.0, 0.0), 50.0, High)),
        ProfileRisk(3, RiskBreakdown(Components(0.0, 0.0, 0.0, 0.0, 0.0), 20.0, Low)),
        ProfileRisk(4, RiskBreakdown(Components(0.0, 0.0, 0.0, 0.0, 0.0), 5.0, Minimal))];
    assert results[..3][..2] == results[..2];
    assert results[..2][..1] == results[..1];
    assert results[..1][..0] == [];
  }

  // ---------------------------------------------------------------------
  // get_network_summary
  // ---------------------------------------------------------------------

  datatype Summary = Summary(
    totalProfiles: nat,
    totalVouches: nat,
    distribution: map<RiskLevel, nat>,
    percentages: map<RiskLevel, real>,
    top: seq<ProfileRisk>,
    avgRiskScore: real)

  /** The number of entries at `level`. */
  function CountLevel(results: seq<ProfileRisk>, level: RiskLevel): (n: nat)
    ensures n <= |results|
  {
    if results == [] then 0
    else CountLevel(results[..|results| - 1], level) + (if results[|results| - 1].risk.level == level then 1 else 0)
  }

  function Composites(results: seq<ProfileRisk>): (r: seq<real>)
    ensures |r| == |results|
    ensures forall i :: 0 <= i < |r| ==> r[i] == results[i].risk.composite
  {
    if results == [] then [] else Composites(results[..|results| - 1]) + [results[|results| - 1].risk.composite]
  }

  function Levels(): set<RiskLevel> {
    {Critical, High, Medium, Low, Minimal, Official}
  }

  lemma InLevels(l: RiskLevel)
    ensures l in Levels()
  {
  }

  /** Every entry is counted under exactly one of the six levels. */
  lemma {:induction false} CountsCoverAll(results: seq<ProfileRisk>)
    ensures CountLevel(results, Critical) + CountLevel(results, High) + CountLevel(results, Medium)
          + CountLevel(results, Low) + CountLevel(results, Minimal) + CountLevel(results, Official) == |results|
  {
    if results != [] {
      CountsCoverAll(results[..|results| - 1]);
    }
  }

  /** The `risk_distribution` loop: one counter per level. */
  method TallyLevels(results: seq<ProfileRisk>) returns (dist: map<RiskLevel, nat>)
    ensures dist.Keys == Levels()
    ensures forall l :: l in dist ==> dist[l] == CountLevel(results, l)
  {
    dist := map[Critical := 0, High := 0, Medium := 0, Low := 0, Minimal := 0, Official := 0];
    forall l
      ensures l in dist && dist[l] == CountLevel(results[..0], l)
    {
      InLevels(l);
      assert results[..0] == [];
    }
    for i := 0 to |results|
      invariant forall l :: l in dist && dist[l] == CountLevel(results[..i], l)
    {
      var level := results[i].risk.level;
      forall l
        ensures CountLevel(results[..i + 1], l) == CountLevel(results[..i], l) + (if l == level then 1 else 0)
      {
        CountLevelSnoc(results, i, l);
      }
      dist := dist[level := dist[level] + 1];
    }
    assert results[..|results|] == results;
    AllLevels(dist.Keys);
  }

  /** A set holding every level is the set of the six levels. */
  lemma AllLevels(keys: set<RiskLevel>)
    requires forall l :: l in keys
    ensures keys == Levels()
  {
    forall l
      ensures l in Levels()
    {
      InLevels(l);
    }
  }

  lemma CountLevelSnoc(results: seq<ProfileRisk>, i: int, l: RiskLevel)
    requires 0 <= i < |results|
    ensures CountLevel(results[..i + 1], l)
         == CountLevel(results[..i], l) + (if results[i].risk.level == l then 1 else 0)
  {
    TakeSnoc(results, i);
    assert results[..i + 1][|results[..i + 1]| - 1] == results[i];
  }

  /** `get_network_summary` (before rounding). */
  method GetNetworkSummary(g: Graph, results: seq<ProfileRisk>) returns (s: Summary)
    ensures s.totalProfiles == |results| && s.totalVouches == |g.edges|
    ensures s.distribution.Keys == Levels()
    ensures forall l :: l in s.distribution ==> s.distribution[l] == CountLevel(results, l)
    ensures s.percentages.Keys == Levels()
    ensures forall l :: l in s.percentages ==>
      s.percentages[l] == if results == [] then 0.0 else CountLevel(results, l) as real / |results| as real * 100.0
    ensures |s.top| == (if |results| >= 10 then 10 else |results|) && s.top == results[..|s.top|]
    ensures s.avgRiskScore == if results == [] then 0.0 else Mean(Composites(results))
  {
    var dist := TallyLevels(results);
    var n := |results|;
    var pct := map l | l in dist.Keys :: if n > 0 then dist[l] as real / n as real * 100.0 else 0.0;
    var top := if n >= 10 then results[..10] else results;
    var avg := if n > 0 then Sum(Composites(results)) / n as real else 0.0;
    s := Summary(n, |g.edges|, dist, pct, top, avg);
  }

  /** The summary example: composites 80, 50, 20 and 5 average 38.75,
      with one critical and one high profile. */
  lemma SummaryAverageExample()
    ensures var results := [
        ProfileRisk(1, RiskBreakdown(Components(0.0, 0.0, 0.0, 0.0, 0.0), 80.0, Critical)),
        ProfileRisk(2, RiskBreakdown(Components(0.0, 0.0, 0.0, 0.0, 0.0), 50.0, High)),
        ProfileRisk(3, RiskBreakdown(Components(0.0, 0.0, 0.0, 0.0, 0.0), 20.0, Low)),
        ProfileRisk(4, RiskBreakdown(Components(0.0, 0.0, 0.0, 0.0, 0.0), 5.0, Minimal))];
      Mean(Composites(results)) == 38.75 && CountLevel(results, Critical) == 1 && CountLevel(results, High) == 1
  {
    var zero := Components(0.0, 0.0, 0.0, 0.0, 0.0);
    var e1 := ProfileRisk(1, RiskBreakdown(zero, 80.0, Critical));
    var e2 := ProfileRisk(2, RiskBreakdown(zero, 50.0, High));
    var e3 := ProfileRisk(3, RiskBreakdown(zero, 20.0, Low));
    var e4 := ProfileRisk(4, RiskBreakdown(zero, 5.0, Minimal));
    var results := [e1, e2, e3, e4];
    assert results[..3] == [e1, e2, e3];
    assert [e1, e2, e3][..2] == [e1, e2];
    assert [e1, e2][..1] == [e1];
    assert [e1][..0] == [];
    assert Composites(results) == [80.0, 50.0, 20.0, 5.0];
    assert [80.0, 50.0, 20.0, 5.0][..3] == [80.0, 50.0, 20.0];
    assert [80.0, 50.0, 20.0][..2] == [80.0, 50.0];
    assert [80.0, 50.0][..1] == [80.0];
    assert [80.0][..0] == [];
    assert Sum([80.0, 50.0, 20.0, 5.0]) == 155.0;
    assert CountLevel([e1], Critical) == 1 && CountLevel([e1], High) == 0;
    assert CountLevel([e1, e2], Critical) == 1 && CountLevel([e1, e2], High) == 1;
    assert CountLevel([e1, e2, e3], Critical) == 1 && CountLevel([e1, e2, e3], High) == 1;
  }
}
