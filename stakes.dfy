/** Stake-pattern scoring (analysis/src/detectors/stakes.py): the stakes a
    profile received are compared with the network's average stake, and the
    share of tiny stakes is penalised. */
module Stakes {
  import opened Common
  import opened Loader
  import opened VouchGraph

  /** The weights of the edges into `p` from each of `preds`, in that order. */
  function WeightsInto(attrs: map<(int, int), Edge>, preds: seq<int>, p: int): (r: seq<real>)
    requires forall i :: 0 <= i < |preds| ==> (preds[i], p) in attrs
    ensures |r| == |preds|
    ensures forall i :: 0 <= i < |r| ==> r[i] == attrs[(preds[i], p)].weight
  {
    if preds == [] then []
    else WeightsInto(attrs, preds[..|preds| - 1], p) + [attrs[(preds[|preds| - 1], p)].weight]
  }

  /** Every predecessor of `p` has an edge into `p`. */
  lemma SourcesHaveEdges(g: Graph, p: int)
    requires Valid(g)
    ensures forall i :: 0 <= i < |Sources(g.edges, p)| ==> (Sources(g.edges, p)[i], p) in g.attrs
  {
    var preds := Sources(g.edges, p);
    forall i | 0 <= i < |preds|
      ensures (preds[i], p) in g.attrs
    {
      assert preds[i] in preds;
    }
  }

  /** The stakes `p` received: one per predecessor, in predecessor order. */
  function IncomingStakes(g: Graph, p: int): (r: seq<real>)
    requires Valid(g)
    ensures |r| == InDegree(g, p)
  {
    SourcesHaveEdges(g, p);
    WeightsInto(g.attrs, Sources(g.edges, p), p)
  }

  /** `get_incoming_stakes`. */
  method GetIncomingStakes(g: Graph, p: int) returns (stakes: seq<real>)
    requires Valid(g)
    ensures stakes == IncomingStakes(g, p)
  {
    var preds := Sources(g.edges, p);
    SourcesHaveEdges(g, p);
    stakes := CollectStakes(g.attrs, preds, p);
  }

  /** The loop of `get_incoming_stakes` over the predecessors. */
  method CollectStakes(attrs: map<(int, int), Edge>, preds: seq<int>, p: int) returns (stakes: seq<real>)
    requires forall i :: 0 <= i < |preds| ==> (preds[i], p) in attrs
    ensures stakes == WeightsInto(attrs, preds, p)
  {
    stakes := [];
    for i := 0 to |preds|
      invariant stakes == WeightsInto(attrs, preds[..i], p)
    {
      TakeSnoc(preds, i);
      stakes := stakes + [attrs[(preds[i], p)].weight];
    }
    assert preds[..|preds|] == preds;
  }

  /** In a graph built from records, each received stake is the total ETH
      staked by that predecessor on `p` over all its records. */
  lemma IncomingStakesFromRecords(vs: seq<Vouch>, p: int)
    ensures Valid(GraphOf(vs))
    ensures forall i :: 0 <= i < InDegree(GraphOf(vs), p) ==>
      IncomingStakes(GraphOf(vs), p)[i] == PairWeight(vs, Sources(GraphOf(vs).edges, p)[i], p)
  {
    GraphOfValid(vs);
    var g := GraphOf(vs);
    var preds := Sources(g.edges, p);
    forall i | 0 <= i < |preds|
      ensures IncomingStakes(g, p)[i] == PairWeight(vs, preds[i], p)
    {
      assert preds[i] in preds;
      GraphOfEdge(vs, preds[i], p);
    }
  }

  /** Every edge weight, in edge order. */
  function WeightsOf(es: seq<(int, int)>, attrs: map<(int, int), Edge>): (r: seq<real>)
    requires forall i :: 0 <= i < |es| ==> es[i] in attrs
    ensures |r| == |es|
    ensures forall i :: 0 <= i < |r| ==> r[i] == attrs[es[i]].weight
  {
    if es == [] then []
    else WeightsOf(es[..|es| - 1], attrs) + [attrs[es[|es| - 1]].weight]
  }

  function AllWeights(g: Graph): (r: seq<real>)
    requires Valid(g)
    ensures |r| == |g.edges|
  {
    WeightsOf(g.edges, g.attrs)
  }

  /** The mean edge weight, or 0.1 for a graph without edges. */
  function NetworkAverage(weights: seq<real>): real {
    if weights == [] then 0.1 else Mean(weights)
  }

  /** Penalty for an average stake far below the network's. */
  function AverageAxis(avg: real, network: real): real {
    if network > 0.0 then
      if avg < network * 0.1 then 50.0
      else if avg < network * 0.3 then 30.0
      else if avg < network * 0.5 then 15.0
      else 0.0
    else 0.0
  }

  /** The number of stakes below 0.01 ETH. */
  function TinyCount(stakes: seq<real>): (n: nat)
    ensures n <= |stakes|
  {
    if stakes == [] then 0
    else TinyCount(stakes[..|stakes| - 1]) + (if stakes[|stakes| - 1] < 0.01 then 1 else 0)
  }

  /** Penalty for the share of tiny stakes. */
  function TinyAxis(ratio: real): real {
    if ratio > 0.8 then 50.0
    else if ratio > 0.5 then 30.0
    else if ratio > 0.3 then 15.0
    else 0.0
  }

  /** `calculate_stake_score` on the received stakes and all edge weights. */
  function StakeScoreOf(stakes: seq<real>, weights: seq<real>): (r: real)
    ensures |stakes| < 3 ==> r == 0.0
    ensures 0.0 <= r <= 100.0
  {
    if |stakes| < 3 then 0.0
    else
      var avg := Mean(stakes);
      var ratio := TinyCount(stakes) as real / |stakes| as real;
      Min(100.0, AverageAxis(avg, NetworkAverage(weights)) + TinyAxis(ratio))
  }

  /** `calculate_stake_score`. */
  function CalculateStakeScore(g: Graph, p: int): (r: real)
    requires Valid(g)
    ensures InDegree(g, p) < 3 ==> r == 0.0
    ensures 0.0 <= r <= 100.0
  {
    StakeScoreOf(IncomingStakes(g, p), AllWeights(g))
  }

  /** The average axis awards each band exactly under its condition, and
      nothing unless the network average is positive. */
  lemma AverageAxisBands(avg: real, network: real)
    ensures AverageAxis(avg, network) == 50.0 <==> network > 0.0 && avg < network * 0.1
    ensures AverageAxis(avg, network) == 30.0 <==> network > 0.0 && network * 0.1 <= avg < network * 0.3
    ensures AverageAxis(avg, network) == 15.0 <==> network > 0.0 && network * 0.3 <= avg < network * 0.5
    ensures AverageAxis(avg, network) == 0.0 <==> network <= 0.0 || avg >= network * 0.5
  {
  }

  /** The two axes are simply added: each is at most 50, so the cap at 100
      never lowers the sum. */
  lemma StakeScoreIsSumOfAxes(stakes: seq<real>, weights: seq<real>)
    requires |stakes| >= 3
    ensures StakeScoreOf(stakes, weights) ==
      AverageAxis(Mean(stakes), NetworkAverage(weights)) + TinyAxis(TinyCount(stakes) as real / |stakes| as real)
  {
  }

  lemma {:induction false} AllTiny(stakes: seq<real>)
    requires forall i :: 0 <= i < |stakes| ==> stakes[i] < 0.01
    ensures TinyCount(stakes) == |stakes|
  {
    if stakes != [] {
      AllTiny(stakes[..|stakes| - 1]);
    }
  }

  /** Three or more stakes all below 0.01 ETH score at least 50, whatever
      the rest of the network looks like. */
  lemma TinyStakesPenalised(stakes: seq<real>, weights: seq<real>)
    requires |stakes| >= 3
    requires forall i :: 0 <= i < |stakes| ==> stakes[i] < 0.01
    ensures StakeScoreOf(stakes, weights) >= 50.0
  {
    AllTiny(stakes);
    assert TinyCount(stakes) as real / |stakes| as real == 1.0;
  }

  lemma {:induction false} NoneTiny(stakes: seq<real>)
    requires forall i :: 0 <= i < |stakes| ==> stakes[i] >= 0.01
    ensures TinyCount(stakes) == 0
    ensures Sum(stakes) >= 0.01 * |stakes| as real
  {
    if stakes != [] {
      NoneTiny(stakes[..|stakes| - 1]);
    }
  }

  /** Stakes of at least 0.01 ETH that are the only edges of the network
      score 0: their average is the network average. */
  lemma OwnNetworkNotPenalised(stakes: seq<real>)
    requires forall i :: 0 <= i < |stakes| ==> stakes[i] >= 0.01
    ensures StakeScoreOf(stakes, stakes) == 0.0
  {
    NoneTiny(stakes);
    if |stakes| >= 3 {
      var avg := Mean(stakes);
      assert Sum(stakes) > 0.0;
      assert avg > 0.0;
      assert avg >= avg * 0.5;
    }
  }
}
