/** Reciprocity scoring (analysis/src/detectors/reciprocity.py): a profile
    that receives many vouches but gives almost none ("farming"), or gives
    many while receiving few ("boosting"), is flagged by the ratio of
    vouches given (out-degree) to vouches received (in-degree). */
module Reciprocity {
  import opened Common
  import opened VouchGraph

  /** `calculate_reciprocity_ratio` on the two degrees. */
  function RatioOf(given: nat, received: nat): (r: real)
    ensures received == 0 ==> r == 1.0
    ensures received > 0 ==> r * received as real == given as real
    ensures r >= 0.0
  {
    if received == 0 then 1.0 else given as real / received as real
  }

  /** `calculate_reciprocity_ratio`. */
  function ReciprocityRatio(g: Graph, p: int): real {
    RatioOf(OutDegree(g, p), InDegree(g, p))
  }

  /** `calculate_reciprocity_score` on the two degrees: the bands are tried
      in order on the real-valued ratio. */
  function ScoreOf(given: nat, received: nat): real {
    var ratio := RatioOf(given, received);
    if received < 5 then 0.0
    else if ratio < 0.05 && received > 20 then 80.0
    else if ratio < 0.1 && received > 10 then 60.0
    else if ratio < 0.2 then 40.0
    else if ratio > 10.0 then 20.0
    else 0.0
  }

  /** `calculate_reciprocity_score`: equal to the integer bands on the
      profile's out- and in-degree. */
  function ReciprocityScore(g: Graph, p: int): (r: real)
    ensures r == ScoreByCounts(OutDegree(g, p), InDegree(g, p))
    ensures r in {0.0, 20.0, 40.0, 60.0, 80.0}
  {
    ScoreIsExact(OutDegree(g, p), InDegree(g, p));
    ScoreValues(OutDegree(g, p), InDegree(g, p));
    ScoreOf(OutDegree(g, p), InDegree(g, p))
  }

  /** The same bands on the integer degrees alone, without a division:
      ratio < 1/k is k * given < received once something was received. */
  function ScoreByCounts(given: nat, received: nat): real {
    if received < 5 then 0.0
    else if 20 * given < received && received > 20 then 80.0
    else if 10 * given < received && received > 10 then 60.0
    else if 5 * given < received then 40.0
    else if given > 10 * received then 20.0
    else 0.0
  }

  lemma RatioLess(given: nat, received: nat, c: real)
    requires received > 0
    ensures RatioOf(given, received) < c <==> given as real < c * received as real
  {
    ScaleLess(RatioOf(given, received), c, received as real);
  }

  lemma RatioMore(given: nat, received: nat, c: real)
    requires received > 0
    ensures RatioOf(given, received) > c <==> given as real > c * received as real
  {
    ScaleLess(c, RatioOf(given, received), received as real);
  }

  /** Each band test on the ratio is a comparison of integer degrees. */
  lemma RatioBands(given: nat, received: nat)
    requires received > 0
    ensures RatioOf(given, received) < 0.05 <==> 20 * given < received
    ensures RatioOf(given, received) < 0.1 <==> 10 * given < received
    ensures RatioOf(given, received) < 0.2 <==> 5 * given < received
    ensures RatioOf(given, received) > 10.0 <==> given > 10 * received
  {
    RatioLess(given, received, 0.05);
    RatioLess(given, received, 0.1);
    RatioLess(given, received, 0.2);
    RatioMore(given, received, 10.0);
  }

  /** The real-valued bands and the integer bands agree on every input. */
  lemma ScoreIsExact(given: nat, received: nat)
    ensures ScoreOf(given, received) == ScoreByCounts(given, received)
  {
    if received >= 5 {
      RatioBands(given, received);
    }
  }

  /** Scores are 0, 20, 40, 60 or 80; fewer than five vouches received
      always scores 0. */
  lemma ScoreValues(given: nat, received: nat)
    ensures ScoreOf(given, received) in {0.0, 20.0, 40.0, 60.0, 80.0}
    ensures received < 5 ==> ScoreOf(given, received) == 0.0
  {
  }

  /** Receiving 25 and giving none is farming (80); receiving 10 and giving
      8 is balanced (0); five given for five received is a ratio of 1. */
  lemma ScoreExamples()
    ensures ScoreOf(0, 25) == 80.0
    ensures ScoreOf(8, 10) == 0.0
    ensures RatioOf(5, 5) == 1.0 && RatioOf(0, 10) == 0.0
  {
    ScoreIsExact(0, 25);
    ScoreIsExact(8, 10);
  }

  /** A profile that gives less than a twentieth of the more than 20
      vouches it receives gets the highest score any profile can get. */
  lemma FarmingScoresMost(given: nat, received: nat)
    requires received > 20 && 20 * given < received
    ensures ScoreOf(given, received) == 80.0
    ensures forall x: nat, y: nat :: ScoreOf(x, y) <= ScoreOf(given, received)
  {
    ScoreIsExact(given, received);
    forall x: nat, y: nat
      ensures ScoreOf(x, y) <= 80.0
    {
      ScoreValues(x, y);
    }
  }
}
