# Collusion scoring for Ethos vouches, in Dafny

This project models the analysis engine under `analysis/src/` of the Ethos vouch analysis.

**Data.** Vouch records are loaded, optionally out of a `{"vouches": [...]}` envelope. They are folded into a directed vouch graph: one edge per ordered (author, subject) pair, accumulating the stake in ETH and the number of vouches.

**Detectors.** Five detectors score every profile in [0, 100]:
- rings: short closed vouch walks found by a breadth-first search;
- clusters: insular communities;
- bursts: a week with anomalously many vouches received;
- stakes: low or tiny incoming stakes;
- reciprocity: receiving without giving, or the reverse.

**Scoring.** The scorer combines the five scores into a capped weighted composite and maps it to a risk level. It then analyses all profiles, filters the high-risk ones and summarises the network.

## Modules

| file | module | models |
|---|---|---|
| `common.dfy` | `Common` | `Option`, sums and means over reals, Python's stable `list.sort(reverse=True)` as the insertion sort `SortDesc`, slicing `s[:n]`. |
| `dict.dfy` | `Dict` | Insertion-ordered Python dicts as association lists. |
| `loader.dfy` | `Loader` | `loader.py`: parsed JSON, the vouch record, envelope unwrapping and `get_vouch_stats`. |
| `graph.dfy` | `VouchGraph` | `graph.py`: the graph as a value (node and edge sequences in networkx insertion order, edge and node attribute maps) and the imperative builder. |
| `rings.dfy` | `Rings` | `detectors/rings.py`. |
| `clusters.dfy` | `Clusters` | `detectors/clusters.py`. |
| `bursts.dfy` | `Bursts` | `detectors/bursts.py`. |
| `stakes.dfy` | `Stakes` | `detectors/stakes.py`. |
| `reciprocity.dfy` | `Reciprocity` | `detectors/reciprocity.py`. |
| `scorer.dfy` | `Scorer` | `scorer.py`. |

### Form of the model

**Imperative code stays imperative.** These Python functions loop and mutate:
- `build_vouch_graph`
- the ring search
- `find_rings`
- the ring statistics
- `calculate_insularity`
- the cluster precomputation
- `group_by_window`
- `get_incoming_stakes`
- `analyze_all_profiles`
- `get_network_summary`

Each one is a Dafny `method` with a loop. The method is proved equal to a specification function, or it states outright what it finds. The properties the code promises are then proved as lemmas about those functions.

**Pure code stays pure.** Expression-only code is modelled as functions:
- the loader
- `get_graph_stats`
- the score formulas
- `get_risk_level`

**Collaborators are parameters.** Code outside the engine, or nondeterministic, is passed in:

| Parameter | Stands for |
|---|---|
| `louvain` | The Louvain partition. |
| `weekOf` | Timestamp parsing plus `strftime("%Y-%W")`. |
| `isOfficial` | `is_official_account`. It is imported by `scorer.py`, but `graph.py` does not define it, so it is not part of this model. |

**Reals, not floats.** Amounts and scores are exact `real`s. The z-test of the burst detector compares squares, so no square root is needed. `BurstIsZTest` proves this is the same as `(max - mean) / std > threshold`.

### Where the code is followed rather than its description

- The risk cutoffs are 10/30/50/70 (`scorer.py:57-66`).
- Every graph node is scored, with no minimum in-degree.
- No risk flags are produced.
- Stakes are not validated: a negative wei amount gives a negative weight.
- The ring search is not exhaustive. Each successor of the start node shares one `visited` set. The model proves soundness, and completeness only for triangles.
  - Soundness: every reported path is a closed walk of 3 to `max_length` entries starting at the start node.
  - Triangles: every triangle is found.
  - Distinct nodes are guaranteed only when the start node has no self-loop. A self-loop can yield `[s, s, x]`, and the builder allows self-loops.

## Model

| member | source | states |
|---|---|---|
| Loader.Unwrap | analysis/src/loader.py:19-22 | An object holding the key yields exactly that key's value. Every other document (a bare list, or an object without the key) is returned unchanged. |
| Loader.VouchesEnvelopeRoundTrip | analysis/src/loader.py:19-21 | Any list wrapped in a `vouches` envelope loads back as that list, whatever other fields the envelope carries. |
| Loader.MarketsEnvelopeRoundTrip | analysis/src/loader.py:30-31 | `load_markets` unwraps a `markets` envelope in the same way. |
| Loader.BareListUnchanged | analysis/src/loader.py:22 | A bare list passes through `load_vouches` and `load_markets` unchanged. |
| Loader.GetVouchStats | analysis/src/loader.py:35-45 | The total is the number of records. Unique vouchers is the number of distinct authors, unique subjects the number of distinct subjects, and unique profiles the number of ids in either set. Each of the first two is at most the total and at most the unique profiles. Unique profiles are at most vouchers plus subjects. No records give all zeros. |
| Loader.AuthorsBound | analysis/src/loader.py:37 | There are no more distinct authors than records. |
| Loader.SubjectsBound | analysis/src/loader.py:38 | There are no more distinct subjects than records. |
| VouchGraph.WeiToEth | analysis/src/graph.py:8-10 | The result times 10^18 is exactly the wei amount. It is negative exactly when the amount is, since nothing is validated. |
| VouchGraph.WeiToEthExamples | analysis/tests/test_graph.py:12-16 | 10^18 wei is 1.0 ETH, 5·10^17 is 0.5, and 0 is 0.0. |
| VouchGraph.Targets | analysis/src/detectors/rings.py:28 | `successors(n)`: x is listed iff there is an edge n → x. |
| VouchGraph.Sources | analysis/src/detectors/stakes.py:9 | `predecessors(n)`: x is listed iff there is an edge x → n. |
| VouchGraph.FirstOfPair | analysis/src/graph.py:37-45 | The first record with a given ordered pair exists iff some record has that pair. It has that author and subject. |
| VouchGraph.AddNodeMembers | analysis/src/graph.py:38-45 | Adding an edge endpoint keeps the node list duplicate-free and adds exactly that node. |
| VouchGraph.AddEdgeValid | analysis/src/graph.py:34-45 | One edge update keeps the graph well formed and adds exactly the record's author and subject as nodes. |
| VouchGraph.AddNewEdgeValid | analysis/src/graph.py:38-45 | The same, for a pair seen for the first time. |
| VouchGraph.AddVouchValid | analysis/src/graph.py:28-56 | A whole loop iteration keeps the graph well formed and adds exactly the author and subject. |
| VouchGraph.GraphOfValid | analysis/src/graph.py:13-58 | Every graph built from records is well formed: distinct nodes and edges, edge attributes for exactly the edges, endpoints among the nodes, node attributes only for nodes, and every count at least 1. |
| VouchGraph.GraphOfNodes | analysis/src/graph.py:28-45 | The node set is the authors plus the subjects. |
| VouchGraph.GraphOfEdge | analysis/src/graph.py:34-45 | Edge (a, s) exists iff some record has author a and subject s. Its count is the number of such records. Its weight is the sum of their ETH balances, with a missing balance counting 0. `staked` and `archived` come from the first such record, with a missing flag meaning false. |
| VouchGraph.GraphOfInfo | analysis/src/graph.py:47-56 | A node has attributes iff some record carries user data for it. They are those of the first such record (first write wins). |
| VouchGraph.AddEdgeCountSum | analysis/src/graph.py:34-45 | Each record raises the sum of edge counts by exactly one. |
| VouchGraph.GraphOfCountSum | analysis/src/graph.py:28-45 | The edge counts add up to the number of records. |
| VouchGraph.AddRecord | analysis/src/graph.py:29-56 | One iteration of the builder's loop, on the graph's parts, is the specified step `AddVouch`. |
| VouchGraph.BuildVouchGraph | analysis/src/graph.py:13-58 | The loop builds exactly `GraphOf(vouches)`: a well-formed graph over authors and subjects whose counts add up to the number of records. |
| VouchGraph.DegreeSums | analysis/src/graph.py:77-78 | Over a duplicate-free node list holding every endpoint, in-degrees and out-degrees each add up to the number of edges. |
| VouchGraph.GetGraphStats | analysis/src/graph.py:61-79 | An empty graph gives all zeros. Otherwise it gives the node count, the edge count and the density. |
| VouchGraph.GraphStatsAverages | analysis/src/graph.py:77-78 | Average in-degree and average out-degree both equal edges / nodes. |
| VouchGraph.InDegreeList | analysis/src/graph.py:88 | One pair per node, in node order, each holding that node's in-degree. |
| VouchGraph.TopProfilesByVouches | analysis/src/graph.py:82-90 | Returns min(n, nodes) pairs in non-increasing in-degree, each a node with its own in-degree. |
| VouchGraph.TopOfSorted | analysis/src/graph.py:89-90 | A prefix of the sorted list is ordered and drawn from the input. |
| VouchGraph.TopProfilesAreTop | analysis/src/graph.py:82-90 | A node left out has an in-degree no greater than that of any listed profile. |
| Common.SortDesc | analysis/src/graph.py:89 | The sort returns a permutation of its input, of the same length, in non-increasing key order. |
| Common.SortDescStable | analysis/src/scorer.py:175 | The sort is stable: the entries sharing a key keep their relative order. |
| Common.SliceTo | analysis/src/graph.py:90 | `s[:n]` is a prefix of length min(n, \|s\|). For negative n it drops \|n\| entries from the end. |
| Common.Min | analysis/src/detectors/clusters.py:129 | `min` is at most both arguments and equal to one of them. |
| Dict.Get | analysis/src/detectors/rings.py:143 | A lookup succeeds iff the key is present. |
| Dict.Put | analysis/src/detectors/rings.py:143 | After a write the key maps to the new value and every other key is unchanged. A new key adds one entry; an existing key keeps its place. |
| Rings.EnqueueStep | analysis/src/detectors/rings.py:32-34 | Marking a node visited and queueing the extended path keeps every queue entry a walk from the start within the visited set. It also keeps every visited node accounted for. |
| Rings.EntryToRing | analysis/src/detectors/rings.py:29-31 | A queued path of 3 to `max_length` nodes whose last node vouches for the start is a ring from the start. |
| Rings.ExpandStep | analysis/src/detectors/rings.py:28-34 | One successor step keeps every search invariant. It only reports rings from the start. Once the start is seen it reports the current path, and it marks every other successor visited when the path may still grow. |
| Rings.ExpandPath | analysis/src/detectors/rings.py:28-34 | Expanding a dequeued path reports only rings from the start. It reports the path itself when the start follows it. Every successor ends up visited when the path may still grow, and the queue only grows, with valid entries. |
| Rings.SearchFrom | analysis/src/detectors/rings.py:17-34 | The search from one successor reports only rings that start at the start node: walks of 3 to `max_length` entries closing back to it, with no repeated node unless the start vouches for itself. With `max_length` ≥ 3 it reports every triangle through that successor. |
| Rings.TrianglesTracked | analysis/src/detectors/rings.py:19-34 | Across one dequeue-and-expand step, every triangle through the successor is either already reported or still queued as a path. |
| Rings.FindRingsAroundNode | analysis/src/detectors/rings.py:7-36 | Every reported ring starts at the node, closes back to it and has 3 to `max_length` entries. With `max_length` ≥ 3 every triangle through the node is reported. |
| Rings.KeepNewRings | analysis/src/detectors/rings.py:76-83 | Only rings with an unseen node set are kept. The seen set stays the kept rings' node sets, and the cap is never exceeded. Below the cap, every candidate's node set has been seen. |
| Rings.CoveredAll | analysis/src/detectors/rings.py:66-83 | Once every node has been searched, every triangle's node set is among the kept keys. |
| Rings.FindRings | analysis/src/detectors/rings.py:39-85 | Every result is a ring. Node sets are pairwise different. There are at most `max_rings` of them. Unless the cap was reached, every triangle of the graph is represented. |
| Rings.AcyclicHasNoRings | analysis/tests/test_detectors.py:43-50 | A graph whose edges all climb some ranking (a DAG) has no ring at all, so `find_rings` returns none. |
| Rings.TriangleRingMembers | analysis/tests/test_detectors.py:32-41 | In the graph 1→2→3→1, every ring of up to 5 entries has 3 entries over {1, 2, 3}. |
| Rings.UniqueKeysBound | analysis/src/detectors/rings.py:76-83 | Rings with pairwise different node sets, all drawn from a family of sets, are no more numerous than that family. |
| Rings.TriangleHasOneRing | analysis/tests/test_detectors.py:32-41 | `find_rings` on the triangle 1→2→3→1 returns exactly one ring, with node set {1, 2, 3}. |
| Rings.GetRingsForProfile | analysis/src/detectors/rings.py:88-93 | Every returned ring is a ring of the graph that contains the profile. |
| Rings.RingsContaining | analysis/src/detectors/rings.py:116 | Keeps exactly the rings that contain the profile. |
| Rings.RingScoreRange | analysis/src/detectors/rings.py:120-133 | The ring score is in [0, 100]. It is 0 exactly when no containing ring has 3 to 5 entries. |
| Rings.RingScoreTriangle | analysis/tests/test_detectors.py:53-60 | Membership of a 3-entry ring gives at least 40 points. |
| Rings.RingScoreMonotone | analysis/src/detectors/rings.py:123-133 | More rings never lower a profile's ring score. |
| Rings.CalculateRingScore | analysis/src/detectors/rings.py:96-133 | The score is in [0, 100]. With precomputed rings it is the 40/30/20-per-ring sum, capped at 100, over the rings holding the profile. |
| Rings.TallyCounts | analysis/src/detectors/rings.py:141-143 | Counting one more ring keeps one entry per size and raises the total by one. |
| Rings.SizeCountsSum | analysis/src/detectors/rings.py:140-143 | `rings_by_size` has one entry per size, and its values add up to the number of rings. |
| Rings.SizeCountsKeys | analysis/src/detectors/rings.py:140-143 | A size is a key of `rings_by_size` iff some ring has that size. |
| Rings.CountSizes | analysis/src/detectors/rings.py:140-143 | The counting loop builds exactly the size histogram. |
| Rings.CollectProfiles | analysis/src/detectors/rings.py:145-147 | The loop collects exactly the union of ring members. |
| Rings.RingMembersInGraph | analysis/src/detectors/rings.py:152-154 | Ring members are graph nodes, so they number at most the nodes. |
| Rings.GetRingStats | analysis/src/detectors/rings.py:136-159 | Rings as `find_rings` gives them, with at most 10000 of them. `total_rings` is their number. `rings_by_size` adds up to it. `profiles_in_rings` is the size of the members' union, at most the node count. The percentage is that share times 100, in [0, 100], and 0 for an empty graph. |
| Clusters.Insularity | analysis/src/detectors/clusters.py:41-48 | Insularity is in [0, 1]. It is 1 exactly when there is an internal edge and no crossing edge. It is 0 when there is no internal edge. |
| Clusters.EdgeCountsAreSets | analysis/src/detectors/clusters.py:26-42 | The halved internal counter is the number of directed edges inside the community. The external counter is the number of edges with exactly one end inside. |
| Clusters.InternalSymmetric | analysis/src/detectors/clusters.py:41-42 | Inside edges are met once as successors and once as predecessors, which is why halving is exact. |
| Clusters.Tally | analysis/src/detectors/clusters.py:30-39 | The inner loop counts exactly the neighbours inside and outside the community. |
| Clusters.CalculateInsularity | analysis/src/detectors/clusters.py:21-48 | The counting loops compute exactly `Insularity`. |
| Clusters.FindCommunities | analysis/src/detectors/clusters.py:11-12 | An empty graph has no communities. |
| Clusters.IsolatedOf | analysis/src/detectors/clusters.py:66-79 | Every report has at least 3 members, a `size` equal to its member count, and an insularity of at least the threshold. There are at most as many reports as communities. |
| Clusters.IsolatedOfSpec | analysis/src/detectors/clusters.py:66-79 | A report appears iff it is the report of some community with at least 3 members and enough insularity. |
| Clusters.FindIsolatedClusters | analysis/src/detectors/clusters.py:51-81 | The loop returns exactly those reports. |
| Clusters.ClusterDataOf | analysis/src/detectors/clusters.py:93-101 | Every mapped profile carries a size of at least 3 and an insularity of at least the threshold. |
| Clusters.ClusterDataLookup | analysis/src/detectors/clusters.py:93-101 | For disjoint communities, a profile is mapped iff its community has at least 3 members and enough insularity. It is then mapped to that community's insularity and size. |
| Clusters.ClusterDataOutside | analysis/src/detectors/clusters.py:93-101 | A profile in no community is not mapped. |
| Clusters.MapMembers | analysis/src/detectors/clusters.py:100-101 | The inner loop maps every member to the community's data and leaves other profiles as they were. |
| Clusters.PrecomputeClusterData | analysis/src/detectors/clusters.py:84-103 | The loop builds exactly `ClusterDataOf`. |
| Clusters.ClusterScore | analysis/src/detectors/clusters.py:125-131 | An unmapped profile scores 0. |
| Clusters.ClusterPointsRange | analysis/src/detectors/clusters.py:128-130 | Points are in [0, 100] for any non-negative insularity. |
| Clusters.ClusterPointsSmall | analysis/src/detectors/clusters.py:128-130 | Up to 10 members the points are exactly 100 × insularity. |
| Clusters.ClusterPointsBySize | analysis/src/detectors/clusters.py:128-130 | At fixed insularity, points do not increase with community size. |
| Clusters.ClusterPointsByInsularity | analysis/src/detectors/clusters.py:128-130 | At fixed size, points do not decrease with insularity. |
| Clusters.SizeFactorMono | analysis/src/detectors/clusters.py:129 | The size factor min(1, 10/size) is non-negative and non-increasing in size. |
| Clusters.PointsAsComputed | analysis/src/detectors/clusters.py:128-130 | The source's step-by-step expression equals the points formula. |
| Clusters.ClusterScoreRange | analysis/src/detectors/clusters.py:125-131 | On data precomputed with threshold 0.7, the score is in [0, 100]. It is at least 70 for a mapped profile in a community of at most 10 members. |
| Clusters.FallbackAsWrittenDisagrees | analysis/src/detectors/clusters.py:136-145 | With the scan as written, a 2-member community of mutual vouches scores 100 on the fallback path. The precomputed path scores it 0. |
| Clusters.FallbackAsWrittenStep | analysis/src/detectors/clusters.py:136-145 | In the scan as written, the first community that holds the profile and whose insularity reaches the threshold decides the score, whatever its size. Otherwise the scan goes on. |
| Clusters.FallbackAsWrittenRange | analysis/src/detectors/clusters.py:133-147 | The fallback score as written is in [0, 100]. |
| Clusters.FallbackAsWrittenAbsent | analysis/src/detectors/clusters.py:147 | A profile in no community scores 0 on the fallback as written. |
| Clusters.FallbackAsWrittenWhenLarge | analysis/src/detectors/clusters.py:136-145 | When every community holding the profile has at least 3 members, the scan as written equals the corrected scan. |
| Clusters.FallbackAsWrittenAgrees | analysis/src/detectors/clusters.py:106-147 | For disjoint communities, and when the profile's community has at least 3 members, the fallback as written equals the precomputed path's score. |
| Clusters.FallbackAgrees | analysis/src/detectors/clusters.py:125-147 | For disjoint communities, the corrected fallback equals the precomputed path's score. |
| Clusters.FallbackAt | analysis/src/detectors/clusters.py:136-145 | For disjoint communities, the corrected fallback score is that of the profile's own community if it is flagged, and 0 otherwise. |
| Clusters.FallbackScore | analysis/src/detectors/clusters.py:133-147 | The loop computes exactly the fallback as written, with no size check. |
| Clusters.CalculateClusterScore | analysis/src/detectors/clusters.py:106-147 | With precomputed data it is the precomputed score. Otherwise it is the fallback as written over the communities. |
| Bursts.ReceivedBy | analysis/src/detectors/bursts.py:24-26 | Keeps exactly the records whose subject is the profile, in input order. |
| Bursts.ReceivedByAppend | analysis/src/detectors/bursts.py:24-26 | The filter distributes over concatenation, so input order is kept. |
| Bursts.WindowsContents | analysis/src/detectors/bursts.py:33-50 | A window key is present iff some record maps to it. Its list is exactly those records, in input order. |
| Bursts.WindowsTotal | analysis/src/detectors/bursts.py:33-52 | Keys are distinct. The windows together hold exactly the records that have a key, so at most the input length. |
| Bursts.GroupByWindow | analysis/src/detectors/bursts.py:29-52 | The loop builds exactly those windows. |
| Bursts.CountsSum | analysis/src/detectors/bursts.py:82 | The window counts add up to the records in the windows. |
| Bursts.MaxOf | analysis/src/detectors/bursts.py:89 | `max(counts)` is one of the counts and at least every count. |
| Bursts.MaxAtLeastMean | analysis/src/detectors/bursts.py:89-90 | The maximum count is at least the mean, so z is never negative. |
| Bursts.BurstOfCounts | analysis/src/detectors/bursts.py:82-92 | Zero variance gives (False, 0). Otherwise the reported size is the maximum window count, detected or not. A reported size never exceeds the total count. |
| Bursts.BurstIsZTest | analysis/src/detectors/bursts.py:83-92 | With positive population standard deviation `std`, a burst is detected iff (max − mean) / std exceeds the threshold. |
| Bursts.DetectVouchBurst | analysis/src/detectors/bursts.py:55-92 | Fewer than 10 received records give (False, 0), and so do fewer than 3 windows. Otherwise the result is the burst test on the per-window counts of the received records. The reported size is at most the records received. |
| Bursts.UniformNoBurst | analysis/tests/test_detectors.py:150-167 | Equal counts in every window never give a burst. |
| Bursts.TenSinglesAndFifty | analysis/tests/test_detectors.py:170-196 | Ten single weeks and a 50-vouch week give a burst of 50 at threshold 2. |
| Bursts.TenSinglesAndSixty | analysis/tests/test_detectors.py:199-224 | Ten single weeks and a 60-vouch week give a burst of 60 at threshold 3. |
| Bursts.BurstScore | analysis/src/detectors/bursts.py:95-112 | The burst score is in [0, 100]. |
| Bursts.BurstScoreValues | analysis/src/detectors/bursts.py:97-112 | The score is one of 0/20/40/60/80/100. It is 0 exactly when no burst is detected at threshold 3. |
| Bursts.BurstBandMonotone | analysis/src/detectors/bursts.py:103-112 | A larger burst never gets a lower band. |
| Stakes.WeightsInto | analysis/src/detectors/stakes.py:9-11 | One weight per predecessor, in order, each that edge's weight. |
| Stakes.SourcesHaveEdges | analysis/src/detectors/stakes.py:9-10 | Every predecessor has an edge to the profile, so `G[pred][profile]` never fails. |
| Stakes.IncomingStakes | analysis/src/detectors/stakes.py:6-12 | There are as many stakes as the in-degree. |
| Stakes.CollectStakes | analysis/src/detectors/stakes.py:8-12 | The appending loop collects exactly those weights. |
| Stakes.GetIncomingStakes | analysis/src/detectors/stakes.py:6-12 | The method returns exactly the incoming stakes. |
| Stakes.IncomingStakesFromRecords | analysis/src/detectors/stakes.py:6-12 | On a built graph, each incoming stake is the summed ETH balance of the records from that predecessor. |
| Stakes.WeightsOf | analysis/src/detectors/stakes.py:31 | One weight per edge, in edge order. |
| Stakes.AllWeights | analysis/src/detectors/stakes.py:31 | There are as many network weights as edges. |
| Stakes.TinyCount | analysis/src/detectors/stakes.py:46 | The tiny stakes are at most all the stakes. |
| Stakes.StakeScoreOf | analysis/src/detectors/stakes.py:24-56 | Fewer than 3 stakes score 0. Otherwise the score is in [0, 100]. |
| Stakes.CalculateStakeScore | analysis/src/detectors/stakes.py:15-56 | In-degree below 3 scores 0. Otherwise the score is in [0, 100]. |
| Stakes.AverageAxisBands | analysis/src/detectors/stakes.py:37-43 | The average axis is 50, 30 or 15 exactly when the network average is positive and the mean stake is below 0.1, 0.3 or 0.5 of it (first band that applies). It is 0 otherwise. |
| Stakes.StakeScoreIsSumOfAxes | analysis/src/detectors/stakes.py:34-56 | From 3 stakes on, the score is the sum of the two axes, capped. |
| Stakes.AllTiny | analysis/src/detectors/stakes.py:46 | When every stake is below 0.01 they are all tiny. |
| Stakes.TinyStakesPenalised | analysis/tests/test_detectors.py:242-257 | At least 3 stakes, all below 0.01, score at least 50 whatever the network. |
| Stakes.NoneTiny | analysis/src/detectors/stakes.py:46 | With no stake below 0.01 none is tiny, and their sum is at least 0.01 each. |
| Stakes.OwnNetworkNotPenalised | analysis/tests/test_detectors.py:260-269 | Stakes of at least 0.01 that are the whole network score 0. |
| Reciprocity.RatioOf | analysis/src/detectors/reciprocity.py:5-13 | No received vouches give 1.0. Otherwise ratio × received = given. The ratio is never negative. |
| Reciprocity.RatioMore | analysis/src/detectors/reciprocity.py:38 | ratio > c iff given > c × received. |
| Reciprocity.RatioBands | analysis/src/detectors/reciprocity.py:30-38 | Each band test is an exact integer comparison: ratio < 0.05 iff 20·given < received, and likewise for 0.1, 0.2 and > 10. |
| Reciprocity.ScoreIsExact | analysis/src/detectors/reciprocity.py:16-41 | The if/elif ladder over the ratio equals the integer-only ladder. |
| Reciprocity.ReciprocityScore | analysis/src/detectors/reciprocity.py:16-41 | The score is the ladder on out-degree and in-degree, one of 0/20/40/60/80. |
| Reciprocity.ScoreValues | analysis/src/detectors/reciprocity.py:26-41 | The score is one of 0/20/40/60/80, and 0 below 5 received. |
| Reciprocity.ScoreExamples | analysis/tests/test_detectors.py:275-328 | 25 received and 0 given score 80. 10 received and 8 given score 0. The ratio is 1.0 for 5/5 and 0.0 for 0/10. |
| Reciprocity.FarmingScoresMost | analysis/src/detectors/reciprocity.py:30-31 | Farming (more than 20 received, under 1/20 given) scores 80, the highest any profile can score. |
| Scorer.GetRiskLevel | analysis/src/scorer.py:55-66 | The level is never "official". Its rank counts the cutoffs 10, 30, 50, 70 the score reaches, each inclusive. |
| Scorer.RiskLevelMonotone | analysis/src/scorer.py:55-66 | A higher score never gets a lower level. |
| Scorer.RiskLevelExamples | analysis/tests/test_scorer.py:18-45 | 70 and 100 are critical; 50 and 69 high; 30 and 49 medium; 10 and 29 low; 0 and 9 minimal. |
| Scorer.DefaultWeightsNormalised | analysis/src/scorer.py:46-52 | The default weights are non-negative and sum to 1. |
| Scorer.Composite | analysis/src/scorer.py:120-129 | The composite is at most 100, and is the weighted sum unless capped. |
| Scorer.WeightedTerm | analysis/src/scorer.py:121-125 | A weighted component lies between 0 and weight × 100. |
| Scorer.CompositeRange | analysis/src/scorer.py:120-129 | With normalised weights and components in [0, 100], the composite is in [0, 100] and the cap never bites. |
| Scorer.CompositeMonotone | analysis/src/scorer.py:120-129 | With non-negative weights, higher components never lower the composite. |
| Scorer.BreakdownOf | analysis/src/scorer.py:131-139 | The breakdown carries the components, the composite of them, and that composite's level. |
| Scorer.RiskOf | analysis/src/scorer.py:94-139 | An official account gets the all-zero "official" breakdown. Any other profile gets the ring and cluster scores from the precomputed data, composed with the given weights or the defaults. |
| Scorer.CalculateRiskScore | analysis/src/scorer.py:69-139 | An official account gets the official breakdown. Otherwise burst, stake and reciprocity are those detectors' scores, and ring is the precomputed ring score when given, and cluster is the precomputed score or, without precomputed data, the fallback as written. All components are in [0, 100], and the composite and level follow the weights. |
| Scorer.ClusterScoreInRange | analysis/src/detectors/clusters.py:125-131 | Precomputed data with non-negative insularity gives a cluster score in [0, 100]. |
| Scorer.RingFloor | analysis/src/scorer.py:120-139 | With the default weights, a ring score of 40 alone puts the composite at 12 or more, at least "low". |
| Scorer.RingMemberNotMinimal | analysis/tests/test_scorer.py:67-84 | A non-official member of a 3-entry ring has ring score at least 40, composite at least 12, and level at least "low". |
| Scorer.Analysis | analysis/src/scorer.py:162-172 | One entry per node, in node order, each holding that node's breakdown. |
| Scorer.AnalysisDistinct | analysis/src/scorer.py:162-172 | Distinct nodes give distinct entries. |
| Scorer.ScoreOne | analysis/src/scorer.py:164-172 | One loop step yields that node's entry. |
| Scorer.ScoreNodes | analysis/src/scorer.py:162-172 | The loop builds exactly the per-node analysis. |
| Scorer.SortedAnalysisOnce | analysis/src/scorer.py:162-177 | After sorting, every graph node's entry occurs exactly once. |
| Scorer.AnalyzeAllProfiles | analysis/src/scorer.py:142-177 | Results are the per-node breakdowns sorted by non-increasing composite: one entry per node, each occurring exactly once. The rings used are those of `find_rings` with length 5: distinct node sets, and every triangle represented unless the cap was hit. |
| Scorer.GetHighRiskProfiles | analysis/src/scorer.py:180-192 | Keeps exactly the entries with composite at least the threshold. |
| Scorer.HighRiskAppend | analysis/src/scorer.py:192 | The filter distributes over concatenation, so order is preserved. |
| Scorer.HighRiskAll | analysis/src/scorer.py:192 | When every entry passes, the result is the input. |
| Scorer.HighRiskIsPrefix | analysis/src/scorer.py:180-192 | On sorted results the high-risk entries are a prefix. |
| Scorer.HighRiskExample | analysis/tests/test_scorer.py:126-139 | Scores 80/50/20/5 at threshold 30 keep the first two. |
| Scorer.CountLevel | analysis/src/scorer.py:216-217 | A level's count is at most the number of results. |
| Scorer.Composites | analysis/src/scorer.py:235 | The composites, one per result, in order. |
| Scorer.CountsCoverAll | analysis/src/scorer.py:207-217 | The six level counts add up to the number of results. |
| Scorer.TallyLevels | analysis/src/scorer.py:207-217 | The loop maps each of the six levels to its count. |
| Scorer.GetNetworkSummary | analysis/src/scorer.py:195-239 | Totals are the result count and edge count. The distribution holds the six level counts. Each percentage is count / total × 100, and 0 when empty. The top list is the first min(10, n) results. The average is the mean composite, and 0 when empty. |
| Scorer.SummaryAverageExample | analysis/tests/test_scorer.py:142-160 | Composites 80/50/20/5 average 38.75, with one critical and one high. |

## Left out

**I/O and library behaviour**

- **File and JSON I/O**: `open` and `json.load` in the loader are out. The model starts from a parsed document.
- **Louvain community detection** and its exception path are out. The partition is the parameter `louvain`, returned as is for a non-empty graph.
- **Timestamp parsing and week keys** are out. `parse_timestamp`, the field fallbacks and `strftime("%Y-%W")` are the parameter `weekOf`, which yields a week key or nothing for a stamp. A record's window is the week of the first stamp that parses, tried in the order `createdAt`, `timestamp`, `activityCheckpoints.vouched`. The `window_days` argument is unused by the source and not modelled.
- **Floating point**: numpy `mean`/`std` and Python floats are modelled as exact reals. The population standard deviation enters only through its square.
- **`round(…, 2)`** in `RiskBreakdown.to_dict` and in the summary is out. `analyze_all_profiles` therefore sorts by the unrounded composite in the model. The source sorts by the rounded one, which can order near-equal scores differently.
- **The wall-clock timeout of `find_rings`** is out. It is nondeterministic. The `max_rings` cap is kept.
- **Malformed records**: the model takes records whose author and subject ids are integers and whose balances are integers or null. In the source a missing `authorProfileId` or `subjectProfileId` raises `KeyError` (analysis/src/graph.py:29-30, analysis/src/loader.py:37-38), and `int(...)` raises on a balance that is not an integer string, including `null` (analysis/src/graph.py:10, 31). The model instead treats a null balance as absent and counts it as 0.
- **Absent profiles**: networkx raises when asked for the successors or predecessors of a node that is not in the graph. The model treats such a profile as having no edges.

**Model representation**

- **Cluster reports** hold their members as a set rather than a list in set-iteration order.
- **`weights or DEFAULT_WEIGHTS`**: an empty weights dict, which is falsy, selects the defaults and is modelled as `None`. A weights dict missing a key raises `KeyError` in the source and is not modelled.

**Weaker contracts**

- Rings.CalculateRingScore: without precomputed rings, only the [0, 100] range is stated. The method calls the search, so the score is over rings the search found, but no equality with a specification function is given.
- Rings.GetRingsForProfile: states soundness (every result is a ring of the graph that holds the profile). It does not state that these are all the rings of `find_rings` holding it, because `FindRings` is a method and not a function.
- Rings.FindRings: completeness is proved for triangles only. The search is not exhaustive for longer rings (see above).
- Scorer.CalculateRiskScore: the cluster component is in range only for precomputed data with non-negative insularity. The source never produces negative insularity, but data passed in by a caller is unchecked.
- Scorer.AnalyzeAllProfiles: the rings it uses are a ghost out-parameter, described by the properties `find_rings` guarantees rather than by a function of the graph.
- Scorer.RingMemberNotMinimal: proves a ring score of at least 40, where the test expects exactly 40. Exactly 40 needs the triangle to be the only ring holding the profile.
- Bursts.BurstIsZTest: additionally requires a positive variance together with its square root `std`. The source returns early when `std == 0`.
- Clusters.CalculateClusterScore: requires a positive size for a mapped profile, because the source divides by it. Data from `precompute_cluster_data` always has size ≥ 3.

## Findings

| source | as written | input that shows it | evidently intended | confidence | as-written member | corrected member |
|---|---|---|---|---|---|---|
| analysis/src/detectors/clusters.py:136-145 | The fallback path of `calculate_cluster_score` scores the first community holding the profile whenever its insularity reaches the threshold, without the `len(community) < 3` check that `precompute_cluster_data` and `find_isolated_clusters` apply. | Edges 1→2 and 2→1, one community {1, 2}, profile 1, threshold 0.7: the fallback gives 100, the precomputed path gives 0. | Skip communities of fewer than 3 members, so that both paths agree. | not executed | Clusters.FallbackAsWrittenDisagrees | Clusters.FallbackAgrees |
