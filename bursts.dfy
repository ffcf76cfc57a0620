/** Vouch-burst detection (analysis/src/detectors/bursts.py): the vouches a
    profile received are grouped into calendar-week windows, and a window
    far above the mean window size (a z-score over the population standard
    deviation) is a burst.

    Parsing a timestamp and formatting its year-week key are calendar
    library behaviour; they are the parameter `weekOf`, which gives the
    week key of a raw timestamp, or None when it cannot be parsed. */
module Bursts {
  import opened Common
  import opened Dict
  import opened Loader

  /** `get_vouches_for_profile`: the records whose subject is `p`, in order. */
  function ReceivedBy(vs: seq<Vouch>, p: int): (r: seq<Vouch>)
    ensures forall v :: v in r <==> v in vs && v.subject == p
    ensures |r| <= |vs|
  {
    if vs == [] then []
    else
      var init := vs[..|vs| - 1];
      var v := vs[|vs| - 1];
      assert vs == init + [v];
      ReceivedBy(init, p) + (if v.subject == p then [v] else [])
  }

  /** Filtering keeps the input order: it distributes over concatenation. */
  lemma {:induction false} ReceivedByAppend(a: seq<Vouch>, b: seq<Vouch>, p: int)
    ensures ReceivedBy(a + b, p) == ReceivedBy(a, p) + ReceivedBy(b, p)
  {
    if b == [] {
      assert a + b == a;
    } else {
      var init := b[..|b| - 1];
      var v := b[|b| - 1];
      ConcatInit(a, b);
      ReceivedByAppend(a, init, p);
      ConcatAssoc(ReceivedBy(a, p), ReceivedBy(init, p), if v.subject == p then [v] else []);
    }
  }

  function KeyOf(s: Option<Stamp>, weekOf: Stamp -> Option<string>): Option<string> {
    if s.Some? then weekOf(s.value) else None
  }

  /** The window of a record: the week of the first parseable timestamp
      among `createdAt`, `timestamp` and `activityCheckpoints.vouched`. */
  function WindowKey(v: Vouch, weekOf: Stamp -> Option<string>): Option<string> {
    var created := KeyOf(v.createdAt, weekOf);
    if created.Some? then created
    else
      var stamped := KeyOf(v.timestamp, weekOf);
      if stamped.Some? then stamped else KeyOf(v.vouchedAt, weekOf)
  }

  type Windows = seq<Entry<string, seq<Vouch>>>

  /** The windows `group_by_window` builds: keys in order of first
      appearance, each holding its records in input order. */
  function WindowsOf(vs: seq<Vouch>, weekOf: Stamp -> Option<string>): Windows {
    if vs == [] then []
    else
      var d := WindowsOf(vs[..|vs| - 1], weekOf);
      var v := vs[|vs| - 1];
      match WindowKey(v, weekOf)
      case None => d
      case Some(k) => Put(d, k, Get(d, k).GetOr([]) + [v])
  }

  /** The records whose window is `k`, in order. */
  function InWindow(vs: seq<Vouch>, weekOf: Stamp -> Option<string>, k: string): seq<Vouch> {
    if vs == [] then []
    else
      var v := vs[|vs| - 1];
      InWindow(vs[..|vs| - 1], weekOf, k) + (if WindowKey(v, weekOf) == Some(k) then [v] else [])
  }

  /** The records that have a window at all. */
  function Keyed(vs: seq<Vouch>, weekOf: Stamp -> Option<string>): nat {
    if vs == [] then 0 else Keyed(vs[..|vs| - 1], weekOf) + (if WindowKey(vs[|vs| - 1], weekOf).Some? then 1 else 0)
  }

  /** Window `k` holds exactly the records keyed `k`, in input order, and
      exists exactly when there is one. */
  lemma {:induction false} WindowsContents(vs: seq<Vouch>, weekOf: Stamp -> Option<string>, k: string)
    ensures Get(WindowsOf(vs, weekOf), k).Some? <==> InWindow(vs, weekOf, k) != []
    ensures Get(WindowsOf(vs, weekOf), k).GetOr([]) == InWindow(vs, weekOf, k)
  {
    if vs != [] {
      var init, v := vs[..|vs| - 1], vs[|vs| - 1];
      WindowsContents(init, weekOf, k);
      var d := WindowsOf(init, weekOf);
      assert InWindow(vs, weekOf, k) == InWindow(init, weekOf, k) + (if WindowKey(v, weekOf) == Some(k) then [v] else []);
      match WindowKey(v, weekOf)
      case None =>
        assert WindowsOf(vs, weekOf) == d;
      case Some(k') =>
        assert WindowsOf(vs, weekOf) == Put(d, k', Get(d, k').GetOr([]) + [v]);
    }
  }

  function Len(records: seq<Vouch>): nat {
    |records|
  }

  /** Every keyed record is in exactly one window, and unkeyed ones in none:
      the windows hold `Keyed` records in total, no more than the input. */
  lemma {:induction false} WindowsTotal(vs: seq<Vouch>, weekOf: Stamp -> Option<string>)
    ensures DistinctKeys(WindowsOf(vs, weekOf))
    ensures SumBy(WindowsOf(vs, weekOf), Len) == Keyed(vs, weekOf) <= |vs|
  {
    if vs != [] {
      var d := WindowsOf(vs[..|vs| - 1], weekOf);
      WindowsTotal(vs[..|vs| - 1], weekOf);
      var v := vs[|vs| - 1];
      match WindowKey(v, weekOf)
      case None =>
      case Some(k) =>
        var records := Get(d, k).GetOr([]) + [v];
        PutDistinct(d, k, records);
        PutSumBy(d, k, records, Len);
    }
  }

  /** `group_by_window`. */
  method GroupByWindow(vs: seq<Vouch>, weekOf: Stamp -> Option<string>) returns (windows: Windows)
    ensures windows == WindowsOf(vs, weekOf)
  {
    windows := [];
    for i := 0 to |vs|
      invariant windows == WindowsOf(vs[..i], weekOf)
    {
      assert vs[..i + 1][..i] == vs[..i];
      var key := WindowKey(vs[i], weekOf);
      if key.Some? {
        var records := Get(windows, key.value).GetOr([]);
        windows := Put(windows, key.value, records + [vs[i]]);
      }
    }
    assert vs[..|vs|] == vs;
  }

  // ---------------------------------------------------------------------
  // detect_vouch_burst
  // ---------------------------------------------------------------------

  /** The window sizes, in window order. */
  function Counts(w: Windows): (c: seq<nat>)
    ensures |c| == |w|
  {
    if w == [] then [] else [|w[0].value|] + Counts(w[1..])
  }

  lemma {:induction false} CountsSum(w: Windows)
    ensures SumNat(Counts(w)) == SumBy(w, Len)
  {
    if w != [] {
      CountsSum(w[1..]);
      SumNatAppend([|w[0].value|], Counts(w[1..]));
      assert [|w[0].value|][..0] == [];
    }
  }

  function MeanOf(c: seq<nat>): real
    requires |c| > 0
  {
    SumNat(c) as real / |c| as real
  }

  function SquaredDeviations(c: seq<nat>, mean: real): real {
    if c == [] then 0.0
    else
      var d := c[|c| - 1] as real - mean;
      SquaredDeviations(c[..|c| - 1], mean) + d * d
  }

  /** numpy's `var` (population variance, the square of `std`). */
  function Variance(c: seq<nat>): real
    requires |c| > 0
  {
    SquaredDeviations(c, MeanOf(c)) / |c| as real
  }

  function MaxOf(c: seq<nat>): (m: nat)
    requires |c| > 0
    ensures forall i :: 0 <= i < |c| ==> c[i] <= m
    ensures m in c
  {
    if |c| == 1 then c[0]
    else
      var m := MaxOf(c[..|c| - 1]);
      assert forall i :: 0 <= i < |c| - 1 ==> c[..|c| - 1][i] == c[i];
      if c[|c| - 1] > m then c[|c| - 1] else m
  }

  /** (max - mean) / std > threshold, for std > 0, without the square root:
      comparing squares is exact since max - mean is never negative. */
  function ZExceeds(excess: real, variance: real, threshold: real): bool {
    threshold < 0.0 || (excess > 0.0 && excess * excess > threshold * threshold * variance)
  }

  lemma ZExceedsIsZTest(excess: real, std: real, variance: real, threshold: real)
    requires std > 0.0 && std * std == variance && excess >= 0.0
    ensures ZExceeds(excess, variance, threshold) <==> excess / std > threshold
  {
    var z := excess / std;
    assert excess == z * std;
    assert z >= 0.0;
    if threshold >= 0.0 {
      var bound := threshold * std;
      assert threshold * threshold * variance == bound * bound;
      if z > threshold {
        assert excess > bound >= 0.0;
        SquareStrict(bound, excess);
      } else {
        assert excess <= bound;
        SquareMono(excess, bound);
      }
    }
  }

  lemma {:induction false} SumNatBound(c: seq<nat>, m: nat)
    requires forall i :: 0 <= i < |c| ==> c[i] <= m
    ensures SumNat(c) as real <= |c| as real * m as real
  {
    if c != [] {
      SumNatBound(c[..|c| - 1], m);
    }
  }

  lemma {:induction false} SumNatMember(c: seq<nat>, i: int)
    requires 0 <= i < |c|
    ensures c[i] <= SumNat(c)
  {
    if i < |c| - 1 {
      SumNatMember(c[..|c| - 1], i);
    }
  }

  /** The largest window is never below the mean. */
  lemma MaxAtLeastMean(c: seq<nat>)
    requires |c| > 0
    ensures MaxOf(c) as real >= MeanOf(c)
  {
    MeanAtMost(c, MaxOf(c));
  }

  lemma MeanAtMost(c: seq<nat>, m: nat)
    requires |c| > 0 && forall i :: 0 <= i < |c| ==> c[i] <= m
    ensures MeanOf(c) <= m as real
  {
    SumNatBound(c, m);
    DivAtMost(SumNat(c) as real, |c| as real, m as real);
  }

  /** The test on the window sizes, once there are at least 3 windows. */
  function BurstOfCounts(c: seq<nat>, threshold: real): (r: (bool, nat))
    requires |c| > 0
    ensures Variance(c) == 0.0 ==> r == (false, 0)
    ensures Variance(c) != 0.0 ==> r.1 == MaxOf(c)
    ensures r.1 <= SumNat(c)
    ensures r.0 ==> r.1 == MaxOf(c)
  {
    var variance := Variance(c);
    if variance == 0.0 then (false, 0)
    else
      var m := MaxOf(c);
      var i :| 0 <= i < |c| && c[i] == m;
      SumNatMember(c, i);
      (ZExceeds(m as real - MeanOf(c), variance, threshold), m)
  }

  /** `detect_vouch_burst`: (has burst, largest window size). */
  function DetectVouchBurst(vs: seq<Vouch>, p: int, threshold: real, weekOf: Stamp -> Option<string>): (r: (bool, nat))
    ensures |ReceivedBy(vs, p)| < 10 ==> r == (false, 0)
    ensures |WindowsOf(ReceivedBy(vs, p), weekOf)| < 3 ==> r == (false, 0)
    ensures |ReceivedBy(vs, p)| >= 10 && |WindowsOf(ReceivedBy(vs, p), weekOf)| >= 3 ==>
              r == BurstOfCounts(Counts(WindowsOf(ReceivedBy(vs, p), weekOf)), threshold)
    ensures r.1 <= |ReceivedBy(vs, p)|
  {
    var mine := ReceivedBy(vs, p);
    if |mine| < 10 then (false, 0)
    else
      var windows := WindowsOf(mine, weekOf);
      if |windows| < 3 then (false, 0)
      else
        WindowsTotal(mine, weekOf);
        CountsSum(windows);
        BurstOfCounts(Counts(windows), threshold)
  }

  /** With `std` the population standard deviation, the test is exactly
      the z-score test (max - mean) / std > threshold. */
  lemma BurstIsZTest(c: seq<nat>, threshold: real, std: real)
    requires |c| > 0 && Variance(c) > 0.0 && std > 0.0 && std * std == Variance(c)
    ensures BurstOfCounts(c, threshold).0 <==> (MaxOf(c) as real - MeanOf(c)) / std > threshold
  {
    MaxAtLeastMean(c);
    ZExceedsIsZTest(MaxOf(c) as real - MeanOf(c), std, Variance(c), threshold);
  }

  lemma {:induction false} UniformDeviations(c: seq<nat>, k: nat)
    requires forall i :: 0 <= i < |c| ==> c[i] == k
    ensures SumNat(c) == |c| * k
    ensures SquaredDeviations(c, k as real) == 0.0
  {
    if c != [] {
      UniformDeviations(c[..|c| - 1], k);
    }
  }

  /** Windows all of the same size show no burst. */
  lemma UniformNoBurst(c: seq<nat>, threshold: real)
    requires |c| > 0 && forall i :: 0 <= i < |c| ==> c[i] == c[0]
    ensures BurstOfCounts(c, threshold) == (false, 0)
  {
    UniformDeviations(c, c[0]);
    assert MeanOf(c) == c[0] as real;
  }

  /** Bursts are found: of ten windows of one record and one of 60, the
      last exceeds the mean by more than three standard deviations. */
  lemma TenSinglesAndSixty()
    ensures BurstOfCounts([1, 1, 1, 1, 1, 1, 1, 1, 1, 1, 60], 3.0) == (true, 60)
  {
    var c: seq<nat> := [1, 1, 1, 1, 1, 1, 1, 1, 1, 1, 60];
    var ones := c[..10];
    assert c[..|c| - 1] == ones;
    UniformDeviations(ones, 1);
    assert SumNat(c) == 70;
    var mean := 70.0 / 11.0;
    assert MeanOf(c) == mean;
    SquaresAtMean(ones, 1, mean);
    assert SquaredDeviations(c, mean) == 10.0 * (1.0 - mean) * (1.0 - mean) + (60.0 - mean) * (60.0 - mean);
    assert MaxOf(c) == 60 by {
      assert 60 in c;
      assert forall i :: 0 <= i < |c| ==> c[i] <= 60;
    }
  }

  /** Ten windows of one record and one of 50 exceed two standard deviations. */
  lemma TenSinglesAndFifty()
    ensures BurstOfCounts([1, 1, 1, 1, 1, 1, 1, 1, 1, 1, 50], 2.0) == (true, 50)
  {
    var c: seq<nat> := [1, 1, 1, 1, 1, 1, 1, 1, 1, 1, 50];
    var ones := c[..10];
    assert c[..|c| - 1] == ones;
    UniformDeviations(ones, 1);
    assert SumNat(c) == 60;
    var mean := 60.0 / 11.0;
    assert MeanOf(c) == mean;
    SquaresAtMean(ones, 1, mean);
    assert SquaredDeviations(c, mean) == 10.0 * (1.0 - mean) * (1.0 - mean) + (50.0 - mean) * (50.0 - mean);
    assert MaxOf(c) == 50 by {
      assert 50 in c;
      assert forall i :: 0 <= i < |c| ==> c[i] <= 50;
    }
  }

  lemma {:induction false} SquaresAtMean(c: seq<nat>, k: nat, mean: real)
    requires forall i :: 0 <= i < |c| ==> c[i] == k
    ensures SquaredDeviations(c, mean) == |c| as real * (k as real - mean) * (k as real - mean)
  {
    if c != [] {
      SquaresAtMean(c[..|c| - 1], k, mean);
    }
  }

  // ---------------------------------------------------------------------
  // calculate_burst_score
  // ---------------------------------------------------------------------

  /** Points for a detected burst of the given size. */
  function BurstBand(size: nat): real {
    if size >= 50 then 100.0
    else if size >= 30 then 80.0
    else if size >= 20 then 60.0
    else if size >= 10 then 40.0
    else 20.0
  }

  /** `calculate_burst_score`, with the default threshold of 3 standard deviations. */
  function BurstScore(vs: seq<Vouch>, p: int, weekOf: Stamp -> Option<string>): (r: real)
    ensures 0.0 <= r <= 100.0
  {
    var (hasBurst, size) := DetectVouchBurst(vs, p, 3.0, weekOf);
    if !hasBurst then 0.0 else BurstBand(size)
  }

  /** The score is one of 0, 20, 40, 60, 80, 100, and it is 0 exactly when
      no burst is detected. */
  lemma BurstScoreValues(vs: seq<Vouch>, p: int, weekOf: Stamp -> Option<string>)
    ensures BurstScore(vs, p, weekOf) in {0.0, 20.0, 40.0, 60.0, 80.0, 100.0}
    ensures BurstScore(vs, p, weekOf) == 0.0 <==> !DetectVouchBurst(vs, p, 3.0, weekOf).0
  {
  }

  /** A larger burst never scores lower. */
  lemma BurstBandMonotone(small: nat, large: nat)
    requires small <= large
    ensures BurstBand(small) <= BurstBand(large)
  {
  }
}
