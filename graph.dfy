/** The vouch graph (analysis/src/graph.py): a directed graph with one edge
    per ordered (author, subject) pair; parallel vouches collapse into that
    edge, which accumulates their stake in ETH and their number.

    The graph is a value. `nodes` and `edges` keep networkx's insertion
    order, which is also the order in which networkx lists a node's
    successors and predecessors; `attrs` holds the edge attributes and
    `info` the node attributes. */
module VouchGraph {
  import opened Common
  import opened Loader

  const WeiPerEth: int := 1000000000000000000

  /** `wei_to_eth`: the stake in wei as an exact amount of ETH. */
  function WeiToEth(wei: int): (eth: real)
    ensures eth * WeiPerEth as real == wei as real
    ensures (wei < 0) == (eth < 0.0)
  {
    wei as real / WeiPerEth as real
  }

  lemma WeiToEthExamples()
    ensures WeiToEth(1000000000000000000) == 1.0
    ensures WeiToEth(500000000000000000) == 0.5
    ensures WeiToEth(0) == 0.0
  {
  }

  /** Edge attributes: accumulated stake, number of vouches, and the flags of
      the first vouch for the pair. */
  datatype Edge = Edge(weight: real, count: nat, staked: bool, archived: bool)

  /** Node attributes `score` and `username`. */
  datatype Profile = Profile(score: int, username: string)

  datatype Graph = Graph(
    nodes: seq<int>,
    edges: seq<(int, int)>,
    attrs: map<(int, int), Edge>,
    info: map<int, Profile>)

  /** What every graph built from records satisfies (see GraphOfValid). */
  ghost predicate Valid(g: Graph) {
    && Distinct(g.nodes)
    && Distinct(g.edges)
    && (forall e :: e in g.attrs <==> e in g.edges)
    && (forall e :: e in g.edges ==> e.0 in g.nodes && e.1 in g.nodes)
    && (forall n :: n in g.info ==> n in g.nodes)
    && (forall e :: e in g.attrs ==> g.attrs[e].count >= 1)
  }

  function NodeSet(g: Graph): set<int> {
    Members(g.nodes)
  }

  /** `G.successors(n)`, in networkx order. */
  function Targets(es: seq<(int, int)>, n: int): (r: seq<int>)
    ensures forall x :: x in r <==> (n, x) in es
    ensures |r| <= |es|
  {
    if es == [] then []
    else
      var init := es[..|es| - 1];
      var e := es[|es| - 1];
      assert es == init + [e];
      Targets(init, n) + (if e.0 == n then [e.1] else [])
  }

  /** `G.predecessors(n)`, in networkx order. */
  function Sources(es: seq<(int, int)>, n: int): (r: seq<int>)
    ensures forall x :: x in r <==> (x, n) in es
    ensures |r| <= |es|
  {
    if es == [] then []
    else
      var init := es[..|es| - 1];
      var e := es[|es| - 1];
      assert es == init + [e];
      Sources(init, n) + (if e.1 == n then [e.0] else [])
  }

  function OutDegree(g: Graph, n: int): nat {
    |Targets(g.edges, n)|
  }

  function InDegree(g: Graph, n: int): nat {
    |Sources(g.edges, n)|
  }

  // ---------------------------------------------------------------------
  // build_vouch_graph
  // ---------------------------------------------------------------------

  /** The stake of a record in ETH; a missing balance counts as "0". */
  function Balance(v: Vouch): real {
    WeiToEth(v.balance.GetOr(0))
  }

  function ProfileOf(u: User): Profile {
    Profile(u.score.GetOr(0), u.username.GetOr(""))
  }

  function AddNode(ns: seq<int>, x: int): seq<int> {
    if x in ns then ns else ns + [x]
  }

  /** Node attributes are written only while the node has no `score` yet. */
  function WithUser(g: Graph, n: int, u: Option<User>): Graph {
    if u.Some? && n !in g.info then g.(info := g.info[n := ProfileOf(u.value)]) else g
  }

  /** The edge part of one iteration of the loop of `build_vouch_graph`:
      an existing edge accumulates the stake and the count, a new one is
      created (adding its endpoints as nodes) with the record's flags. */
  function AddEdge(g: Graph, v: Vouch): Graph {
    var e := (v.author, v.subject);
    if e in g.attrs then
      var prev := g.attrs[e];
      g.(attrs := g.attrs[e := prev.(weight := prev.weight + Balance(v), count := prev.count + 1)])
    else
      g.(nodes := AddNode(AddNode(g.nodes, v.author), v.subject),
         edges := g.edges + [e],
         attrs := g.attrs[e := Edge(Balance(v), 1, v.staked.GetOr(false), v.archived.GetOr(false))])
  }

  /** One iteration of the loop of `build_vouch_graph`. */
  function AddVouch(g: Graph, v: Vouch): Graph {
    WithUser(WithUser(AddEdge(g, v), v.author, v.authorUser), v.subject, v.subjectUser)
  }

  const EmptyGraph: Graph := Graph([], [], map[], map[])

  /** The graph `build_vouch_graph` returns for a list of records. */
  function GraphOf(vs: seq<Vouch>): Graph {
    if vs == [] then EmptyGraph else AddVouch(GraphOf(vs[..|vs| - 1]), vs[|vs| - 1])
  }

  /** Number of records for the ordered pair (a, s). */
  function PairCount(vs: seq<Vouch>, a: int, s: int): nat {
    if vs == [] then 0
    else PairCount(vs[..|vs| - 1], a, s) + (if vs[|vs| - 1].author == a && vs[|vs| - 1].subject == s then 1 else 0)
  }

  /** Total stake, in ETH, of the records for the ordered pair (a, s). */
  function PairWeight(vs: seq<Vouch>, a: int, s: int): real {
    if vs == [] then 0.0
    else PairWeight(vs[..|vs| - 1], a, s) + (if vs[|vs| - 1].author == a && vs[|vs| - 1].subject == s then Balance(vs[|vs| - 1]) else 0.0)
  }

  /** The first record for the ordered pair (a, s). */
  function FirstOfPair(vs: seq<Vouch>, a: int, s: int): (r: Option<Vouch>)
    ensures r.Some? <==> PairCount(vs, a, s) > 0
    ensures r.Some? ==> r.value in vs && r.value.author == a && r.value.subject == s
  {
    if vs == [] then None
    else
      var init := vs[..|vs| - 1];
      var v := vs[|vs| - 1];
      var f := FirstOfPair(init, a, s);
      if f.Some? then f else if v.author == a && v.subject == s then Some(v) else None
  }

  /** The first user object supplied for `n`, scanning records in order and,
      within a record, the author's before the subject's. */
  function FirstUser(vs: seq<Vouch>, n: int): Option<User> {
    if vs == [] then None
    else
      var v := vs[|vs| - 1];
      var f := FirstUser(vs[..|vs| - 1], n);
      if f.Some? then f
      else if v.author == n && v.authorUser.Some? then v.authorUser
      else if v.subject == n && v.subjectUser.Some? then v.subjectUser
      else None
  }

  lemma {:induction false} PairCountExists(vs: seq<Vouch>, a: int, s: int)
    ensures PairCount(vs, a, s) > 0 <==> exists i :: 0 <= i < |vs| && vs[i].author == a && vs[i].subject == s
  {
    if vs != [] {
      var init := vs[..|vs| - 1];
      PairCountExists(init, a, s);
      assert forall i :: 0 <= i < |init| ==> vs[i] == init[i];
    }
  }

  lemma AddNodeMembers(ns: seq<int>, x: int)
    requires Distinct(ns)
    ensures Distinct(AddNode(ns, x))
    ensures Members(AddNode(ns, x)) == Members(ns) + {x}
  {
    if x !in ns {
      assert Members(ns + [x]) == Members(ns) + {x};
    }
  }

  lemma AddEdgeValid(g: Graph, v: Vouch)
    requires Valid(g)
    ensures Valid(AddEdge(g, v))
    ensures NodeSet(AddEdge(g, v)) == NodeSet(g) + {v.author, v.subject}
  {
    var e := (v.author, v.subject);
    if e in g.attrs {
      assert e in g.edges;
    } else {
      AddNewEdgeValid(g, v);
    }
  }

  lemma AddNewEdgeValid(g: Graph, v: Vouch)
    requires Valid(g) && (v.author, v.subject) !in g.attrs
    ensures Valid(AddEdge(g, v))
    ensures NodeSet(AddEdge(g, v)) == NodeSet(g) + {v.author, v.subject}
  {
    var e := (v.author, v.subject);
    var g1 := AddEdge(g, v);
    assert g1.edges == g.edges + [e];
    assert Distinct(g1.nodes) && Members(g1.nodes) == Members(g.nodes) + {v.author, v.subject} by {
      AddNodeMembers(g.nodes, v.author);
      AddNodeMembers(AddNode(g.nodes, v.author), v.subject);
    }
    assert Distinct(g1.edges) by {
      assert e !in g.edges;
      forall i, j | 0 <= i < j < |g1.edges|
        ensures g1.edges[i] != g1.edges[j]
      {
        if j == |g.edges| {
          assert g1.edges[i] == g.edges[i];
        } else {
          assert g1.edges[i] == g.edges[i] && g1.edges[j] == g.edges[j];
        }
      }
    }
    assert forall x :: x in g1.attrs <==> x in g1.edges;
    assert forall x :: x in g1.edges ==> x.0 in g1.nodes && x.1 in g1.nodes by {
      assert forall x :: x in g1.edges ==> x == e || x in g.edges;
    }
  }

  lemma AddVouchValid(g: Graph, v: Vouch)
    requires Valid(g)
    ensures Valid(AddVouch(g, v))
    ensures NodeSet(AddVouch(g, v)) == NodeSet(g) + {v.author, v.subject}
  {
    AddEdgeValid(g, v);
  }

  lemma {:induction false} GraphOfValid(vs: seq<Vouch>)
    ensures Valid(GraphOf(vs))
  {
    if vs != [] {
      GraphOfValid(vs[..|vs| - 1]);
      AddVouchValid(GraphOf(vs[..|vs| - 1]), vs[|vs| - 1]);
    }
  }

  /** The nodes are exactly the authors and subjects of the records. */
  lemma {:induction false} GraphOfNodes(vs: seq<Vouch>)
    ensures NodeSet(GraphOf(vs)) == Authors(vs) + Subjects(vs)
  {
    if vs != [] {
      var init := vs[..|vs| - 1];
      var v := vs[|vs| - 1];
      GraphOfNodes(init);
      GraphOfValid(init);
      AddVouchValid(GraphOf(init), v);
      EndpointsSnoc(vs);
    }
  }

  lemma EndpointsSnoc(vs: seq<Vouch>)
    requires vs != []
    ensures Authors(vs) == Authors(vs[..|vs| - 1]) + {vs[|vs| - 1].author}
    ensures Subjects(vs) == Subjects(vs[..|vs| - 1]) + {vs[|vs| - 1].subject}
  {
    assert vs == vs[..|vs| - 1] + [vs[|vs| - 1]];
  }

  /** Edge (a, s) exists iff some record has author a and subject s; its
      `count` is the number of such records, its `weight` their total stake
      and its flags those of the first of them. */
  lemma {:induction false} GraphOfEdge(vs: seq<Vouch>, a: int, s: int)
    ensures (a, s) in GraphOf(vs).attrs <==> PairCount(vs, a, s) > 0
    ensures (a, s) in GraphOf(vs).attrs ==>
      var ed := GraphOf(vs).attrs[(a, s)];
      && ed.count == PairCount(vs, a, s)
      && ed.weight == PairWeight(vs, a, s)
      && ed.staked == FirstOfPair(vs, a, s).value.staked.GetOr(false)
      && ed.archived == FirstOfPair(vs, a, s).value.archived.GetOr(false)
  {
    if vs != [] {
      var init := vs[..|vs| - 1];
      var v := vs[|vs| - 1];
      GraphOfEdge(init, a, s);
      assert GraphOf(vs).attrs == AddEdge(GraphOf(init), v).attrs;
      if (v.author, v.subject) != (a, s) {
        assert PairCount(vs, a, s) == PairCount(init, a, s);
        assert FirstOfPair(vs, a, s) == FirstOfPair(init, a, s);
      } else if PairCount(init, a, s) == 0 {
        PairWeightZero(init, a, s);
      }
    }
  }

  lemma {:induction false} PairWeightZero(vs: seq<Vouch>, a: int, s: int)
    requires PairCount(vs, a, s) == 0
    ensures PairWeight(vs, a, s) == 0.0
  {
    if vs != [] {
      if PairCount(vs[..|vs| - 1], a, s) == 0 {
        PairWeightZero(vs[..|vs| - 1], a, s);
      }
    }
  }

  /** Node attributes are first-write-wins: a node has them iff some record
      supplies a user object for it, and they come from the first one. */
  lemma {:induction false} GraphOfInfo(vs: seq<Vouch>, n: int)
    ensures n in GraphOf(vs).info <==> FirstUser(vs, n).Some?
    ensures n in GraphOf(vs).info ==> GraphOf(vs).info[n] == ProfileOf(FirstUser(vs, n).value)
  {
    if vs != [] {
      GraphOfInfo(vs[..|vs| - 1], n);
    }
  }

  /** Sum of the `count` attributes over a list of edges. */
  function SumCounts(es: seq<(int, int)>, attrs: map<(int, int), Edge>): nat
    requires forall e :: e in es ==> e in attrs
  {
    if es == [] then 0 else SumCounts(es[..|es| - 1], attrs) + attrs[es[|es| - 1]].count
  }

  lemma {:induction false} SumCountsUpdate(es: seq<(int, int)>, attrs: map<(int, int), Edge>, e: (int, int), ed: Edge)
    requires forall x :: x in es ==> x in attrs
    requires Distinct(es) && e in es
    ensures SumCounts(es, attrs[e := ed]) + attrs[e].count == SumCounts(es, attrs) + ed.count
  {
    var init := es[..|es| - 1];
    var last := es[|es| - 1];
    assert es == init + [last];
    if last == e {
      assert e !in init;
      SumCountsFrame(init, attrs, e, ed);
    } else {
      SumCountsUpdate(init, attrs, e, ed);
    }
  }

  lemma {:induction false} SumCountsFrame(es: seq<(int, int)>, attrs: map<(int, int), Edge>, e: (int, int), ed: Edge)
    requires forall x :: x in es ==> x in attrs
    requires e !in es
    ensures SumCounts(es, attrs[e := ed]) == SumCounts(es, attrs)
  {
    if es != [] {
      SumCountsFrame(es[..|es| - 1], attrs, e, ed);
    }
  }

  /** The `count`s of all edges add up to the number of records. */
  lemma AddEdgeCountSum(g: Graph, v: Vouch)
    requires Valid(g)
    ensures Valid(AddEdge(g, v))
    ensures SumCounts(AddEdge(g, v).edges, AddEdge(g, v).attrs) == SumCounts(g.edges, g.attrs) + 1
  {
    AddEdgeValid(g, v);
    var e := (v.author, v.subject);
    var g1 := AddEdge(g, v);
    if e in g.attrs {
      SumCountsUpdate(g.edges, g.attrs, e, g1.attrs[e]);
    } else {
      assert e !in g.edges;
      SumCountsFrame(g.edges, g.attrs, e, g1.attrs[e]);
      assert (g.edges + [e])[..|g.edges|] == g.edges;
    }
  }

  lemma {:induction false} GraphOfCountSum(vs: seq<Vouch>)
    ensures Valid(GraphOf(vs))
    ensures SumCounts(GraphOf(vs).edges, GraphOf(vs).attrs) == |vs|
  {
    GraphOfValid(vs);
    if vs != [] {
      var init := vs[..|vs| - 1];
      GraphOfCountSum(init);
      AddEdgeCountSum(GraphOf(init), vs[|vs| - 1]);
    }
  }

  /** The loop body of `build_vouch_graph` for one record: a new pair adds
      its edge (and any new endpoint), a repeated pair adds to the edge's
      weight and count, and each endpoint's profile is kept from its first
      record that carries one. */
  method AddRecord(nodes: seq<int>, edges: seq<(int, int)>, attrs: map<(int, int), Edge>,
                   info: map<int, Profile>, v: Vouch)
    returns (nodes': seq<int>, edges': seq<(int, int)>, attrs': map<(int, int), Edge>, info': map<int, Profile>)
    ensures Graph(nodes', edges', attrs', info') == AddVouch(Graph(nodes, edges, attrs, info), v)
  {
    nodes', edges', attrs', info' := nodes, edges, attrs, info;
    var author, subject := v.author, v.subject;
    var balance := WeiToEth(v.balance.GetOr(0));
    if (author, subject) in attrs {
      var ed := attrs[(author, subject)];
      attrs' := attrs'[(author, subject) := ed.(weight := ed.weight + balance, count := ed.count + 1)];
    } else {
      if author !in nodes {
        nodes' := nodes' + [author];
      }
      if subject !in nodes' {
        nodes' := nodes' + [subject];
      }
      edges' := edges' + [(author, subject)];
      attrs' := attrs'[(author, subject) := Edge(balance, 1, v.staked.GetOr(false), v.archived.GetOr(false))];
    }
    ghost var g := Graph(nodes, edges, attrs, info);
    assert Graph(nodes', edges', attrs', info') == AddEdge(g, v);
    if v.authorUser.Some? && author !in info {
      info' := info'[author := ProfileOf(v.authorUser.value)];
    }
    if v.subjectUser.Some? && subject !in info' {
      info' := info'[subject := ProfileOf(v.subjectUser.value)];
    }
  }

  /** `build_vouch_graph`: one pass over the records, updating the graph in place. */
  method BuildVouchGraph(vouches: seq<Vouch>) returns (g: Graph)
    ensures g == GraphOf(vouches)
    ensures Valid(g)
    ensures NodeSet(g) == Authors(vouches) + Subjects(vouches)
    ensures SumCounts(g.edges, g.attrs) == |vouches|
  {
    var nodes: seq<int> := [];
    var edges: seq<(int, int)> := [];
    var attrs: map<(int, int), Edge> := map[];
    var info: map<int, Profile> := map[];
    for i := 0 to |vouches|
      invariant Graph(nodes, edges, attrs, info) == GraphOf(vouches[..i])
    {
      TakeSnoc(vouches, i);
      nodes, edges, attrs, info := AddRecord(nodes, edges, attrs, info, vouches[i]);
    }
    assert vouches[..|vouches|] == vouches;
    g := Graph(nodes, edges, attrs, info);
    GraphOfCountSum(vouches);
    GraphOfNodes(vouches);
  }

  // ---------------------------------------------------------------------
  // get_graph_stats
  // ---------------------------------------------------------------------

  /** Sum of the in-degrees of the listed nodes. */
  function SumInDegrees(es: seq<(int, int)>, ns: seq<int>): nat {
    if ns == [] then 0 else SumInDegrees(es, ns[..|ns| - 1]) + |Sources(es, ns[|ns| - 1])|
  }

  /** Sum of the out-degrees of the listed nodes. */
  function SumOutDegrees(es: seq<(int, int)>, ns: seq<int>): nat {
    if ns == [] then 0 else SumOutDegrees(es, ns[..|ns| - 1]) + |Targets(es, ns[|ns| - 1])|
  }

  /** How many times `x` occurs in `ns`. */
  function Occurrences(ns: seq<int>, x: int): nat {
    if ns == [] then 0 else Occurrences(ns[..|ns| - 1], x) + (if ns[|ns| - 1] == x then 1 else 0)
  }

  lemma {:induction false} OccurrencesDistinct(ns: seq<int>, x: int)
    requires Distinct(ns) && x in ns
    ensures Occurrences(ns, x) == 1
  {
    var init := ns[..|ns| - 1];
    assert ns == init + [ns[|ns| - 1]];
    if ns[|ns| - 1] == x {
      OccurrencesAbsent(init, x);
    } else {
      OccurrencesDistinct(init, x);
    }
  }

  lemma {:induction false} OccurrencesAbsent(ns: seq<int>, x: int)
    requires x !in ns
    ensures Occurrences(ns, x) == 0
  {
    if ns != [] {
      OccurrencesAbsent(ns[..|ns| - 1], x);
    }
  }

  lemma {:induction false} SumInDegreesSnoc(es: seq<(int, int)>, e: (int, int), ns: seq<int>)
    ensures SumInDegrees(es + [e], ns) == SumInDegrees(es, ns) + Occurrences(ns, e.1)
  {
    assert (es + [e])[..|es|] == es;
    if ns != [] {
      SumInDegreesSnoc(es, e, ns[..|ns| - 1]);
    }
  }

  lemma {:induction false} SumOutDegreesSnoc(es: seq<(int, int)>, e: (int, int), ns: seq<int>)
    ensures SumOutDegrees(es + [e], ns) == SumOutDegrees(es, ns) + Occurrences(ns, e.0)
  {
    assert (es + [e])[..|es|] == es;
    if ns != [] {
      SumOutDegreesSnoc(es, e, ns[..|ns| - 1]);
    }
  }

  /** Every edge enters exactly one listed node, so in-degrees sum to the
      number of edges; likewise for out-degrees. */
  lemma {:induction false} DegreeSums(es: seq<(int, int)>, ns: seq<int>)
    requires Distinct(ns)
    requires forall e :: e in es ==> e.0 in ns && e.1 in ns
    ensures SumInDegrees(es, ns) == |es|
    ensures SumOutDegrees(es, ns) == |es|
  {
    if es == [] {
      DegreeSumsEmpty(ns);
    } else {
      var init := es[..|es| - 1];
      var e := es[|es| - 1];
      assert es == init + [e];
      DegreeSums(init, ns);
      SumInDegreesSnoc(init, e, ns);
      SumOutDegreesSnoc(init, e, ns);
      OccurrencesDistinct(ns, e.0);
      OccurrencesDistinct(ns, e.1);
    }
  }

  lemma {:induction false} DegreeSumsEmpty(ns: seq<int>)
    ensures SumInDegrees([], ns) == 0 && SumOutDegrees([], ns) == 0
  {
    if ns != [] {
      DegreeSumsEmpty(ns[..|ns| - 1]);
    }
  }

  datatype GraphStats = GraphStats(nodes: nat, edges: nat, density: real, avgInDegree: real, avgOutDegree: real)

  /** networkx's density of a directed graph: m / (n (n - 1)), and 0 for
      fewer than two nodes or no edge. */
  function Density(g: Graph): real {
    var n := |g.nodes|;
    var m := |g.edges|;
    if m == 0 || n <= 1 then 0.0 else m as real / (n * (n - 1)) as real
  }

  /** `get_graph_stats`. */
  function GetGraphStats(g: Graph): (r: GraphStats)
    ensures |g.nodes| == 0 ==> r == GraphStats(0, 0, 0.0, 0.0, 0.0)
    ensures |g.nodes| > 0 ==> r.nodes == |g.nodes| && r.edges == |g.edges| && r.density == Density(g)
  {
    var n := |g.nodes|;
    if n == 0 then GraphStats(0, 0, 0.0, 0.0, 0.0)
    else
      var sumIn := SumInDegrees(g.edges, g.nodes);
      var sumOut := SumOutDegrees(g.edges, g.nodes);
      GraphStats(n, |g.edges|, Density(g), sumIn as real / n as real, sumOut as real / n as real)
  }

  /** In a well-formed graph both average degrees equal edges / nodes. */
  lemma GraphStatsAverages(g: Graph)
    requires Valid(g) && |g.nodes| > 0
    ensures GetGraphStats(g).avgInDegree == |g.edges| as real / |g.nodes| as real
    ensures GetGraphStats(g).avgOutDegree == |g.edges| as real / |g.nodes| as real
  {
    DegreeSums(g.edges, g.nodes);
  }

  // ---------------------------------------------------------------------
  // get_top_profiles_by_vouches
  // ---------------------------------------------------------------------

  /** `[(node, G.in_degree(node)) for node in G.nodes()]`. */
  function InDegreeList(g: Graph): (r: seq<(int, nat)>)
    ensures |r| == |g.nodes|
    ensures forall i :: 0 <= i < |r| ==> r[i] == (g.nodes[i], InDegree(g, g.nodes[i]))
  {
    seq(|g.nodes|, i requires 0 <= i < |g.nodes| => (g.nodes[i], InDegree(g, g.nodes[i])))
  }

  function ByCount(p: (int, nat)): real {
    p.1 as real
  }

  /** `get_top_profiles_by_vouches`: sort by in-degree, largest first, keep the first n. */
  function TopProfilesByVouches(g: Graph, n: int): (r: seq<(int, nat)>)
    ensures n >= 0 ==> |r| == (if n <= |g.nodes| then n else |g.nodes|)
    ensures forall i, j :: 0 <= i < j < |r| ==> r[i].1 >= r[j].1
    ensures forall p :: p in r ==> p.0 in g.nodes && p.1 == InDegree(g, p.0)
  {
    var all := InDegreeList(g);
    TopOfSorted(all, n);
    var r := SliceTo(SortDesc(all, ByCount), n);
    assert forall p :: p in r ==> p in all;
    assert forall p :: p in all ==> p.0 in g.nodes && p.1 == InDegree(g, p.0);
    r
  }

  /** A prefix of the sorted list is ordered by count and holds only
      entries of the list. */
  lemma TopOfSorted(all: seq<(int, nat)>, n: int)
    ensures var r := SliceTo(SortDesc(all, ByCount), n);
      && (forall i, j :: 0 <= i < j < |r| ==> r[i].1 >= r[j].1)
      && (forall p :: p in r ==> p in all)
  {
    var sorted := SortDesc(all, ByCount);
    var r := SliceTo(sorted, n);
    forall i, j | 0 <= i < j < |r|
      ensures r[i].1 >= r[j].1
    {
      assert r[i] == sorted[i] && r[j] == sorted[j];
      assert ByCount(sorted[i]) >= ByCount(sorted[j]);
    }
    forall p | p in r
      ensures p in all
    {
      assert p in sorted;
      assert p in multiset(sorted);
      assert p in multiset(all);
    }
  }

  /** No node left out of the top list has more vouches than any node in it. */
  lemma TopProfilesAreTop(g: Graph, n: int, x: int, q: (int, nat))
    requires x in g.nodes
    requires forall p :: p in TopProfilesByVouches(g, n) ==> p.0 != x
    requires q in TopProfilesByVouches(g, n)
    ensures InDegree(g, x) <= q.1
  {
    var all := InDegreeList(g);
    var sorted := SortDesc(all, ByCount);
    var r := TopProfilesByVouches(g, n);
    assert r == sorted[..|r|];
    var ix :| 0 <= ix < |g.nodes| && g.nodes[ix] == x;
    var px := all[ix];
    assert px in multiset(sorted);
    var m :| 0 <= m < |sorted| && sorted[m] == px;
    var i :| 0 <= i < |r| && r[i] == q;
    PrefixMember(sorted, r, m);
    assert ByCount(sorted[i]) >= ByCount(sorted[m]);
  }

  lemma PrefixMember<T>(s: seq<T>, r: seq<T>, m: int)
    requires |r| <= |s| && r == s[..|r|] && 0 <= m < |s|
    ensures m < |r| ==> s[m] in r
  {
    if m < |r| {
      assert r[m] == s[m];
    }
  }
}
