/**
 * The metrics calculator: a prediction is correct when both the predicted
 * and the expected service are non-empty and carry the same `url`;
 * precision@1 is the fraction of correct predictions, 0 for no predictions.
 */
module Metrics {
  import opened Records

  /** One element of `predictions`: `{"query", "predicted", "expected"}`. */
  datatype Prediction = Prediction(query: string, predicted: Descriptor, expected: Descriptor)

  /** What `calculate_all_metrics` reports. */
  datatype MetricsReport = MetricsReport(precisionAt1: real, totalQueries: nat)

  /** `is_match`: both sides non-empty and `url` lookups equal (a missing
    * `url` reads as null). */
  predicate IsMatch(predicted: Descriptor, expected: Descriptor)
  {
    predicted != Empty && expected != Empty && Get(predicted, "url") == Get(expected, "url")
  }

  /** `correct_predictions` after the given predictions. */
  function CountMatches(preds: seq<Prediction>): nat
  {
    if preds == [] then 0
    else CountMatches(preds[..|preds| - 1])
         + (if IsMatch(preds[|preds| - 1].predicted, preds[|preds| - 1].expected) then 1 else 0)
  }

  /** The value `calculate_precision_at_1` returns. */
  function Precision(preds: seq<Prediction>): real
  {
    if |preds| == 0 then 0.0 else CountMatches(preds) as real / |preds| as real
  }

  /** `calculate_precision_at_1`, with its counting loop. */
  method CalculatePrecisionAt1(preds: seq<Prediction>) returns (p: real)
    ensures p == Precision(preds)
  {
    var correct := 0;
    var total := |preds|;
    if total == 0 {
      return 0.0;
    }
    for i := 0 to |preds|
      invariant correct == CountMatches(preds[..i])
    {
      if IsMatch(preds[i].predicted, preds[i].expected) {
        correct := correct + 1;
      }
      assert preds[..i + 1][..i] == preds[..i];
    }
    assert preds[..|preds|] == preds;
    p := correct as real / total as real;
  }

  /** `calculate_all_metrics`. */
  method CalculateAllMetrics(preds: seq<Prediction>) returns (m: MetricsReport)
    ensures m.precisionAt1 == Precision(preds) && m.totalQueries == |preds|
  {
    var precision := CalculatePrecisionAt1(preds);
    m := MetricsReport(precision, |preds|);
  }

  // ---------------------------------------------------------------------------

  /** An empty side is never a match; otherwise matching is equality of the
    * `url` lookups, so two non-empty services that both lack `url` match;
    * and matching is symmetric. */
  lemma IsMatchFacts(a: Descriptor, b: Descriptor)
    ensures a == Empty || b == Empty ==> !IsMatch(a, b)
    ensures a != Empty && b != Empty && "url" !in a && "url" !in b ==> IsMatch(a, b)
    ensures IsMatch(a, b) == IsMatch(b, a)
  {
  }

  /** The count of correct predictions is at most the number of predictions;
    * it equals it exactly when all are correct and is 0 exactly when none is. */
  lemma {:induction false} CountMatchesBounds(preds: seq<Prediction>)
    ensures CountMatches(preds) <= |preds|
    ensures CountMatches(preds) == |preds| <==>
              forall i :: 0 <= i < |preds| ==> IsMatch(preds[i].predicted, preds[i].expected)
    ensures CountMatches(preds) == 0 <==>
              forall i :: 0 <= i < |preds| ==> !IsMatch(preds[i].predicted, preds[i].expected)
  {
    if preds != [] {
      var p := preds[..|preds| - 1];
      CountMatchesBounds(p);
      assert forall i :: 0 <= i < |p| ==> preds[i] == p[i];
    }
  }

  lemma RatioBounds(c: nat, n: nat)
    requires 0 < n && c <= n
    ensures 0.0 <= c as real / n as real <= 1.0
    ensures c == n ==> c as real / n as real == 1.0
    ensures c == 0 ==> c as real / n as real == 0.0
  {
    assert c as real / n as real * n as real == c as real;
  }

  /** precision@1 lies in [0, 1]; it is 1 when every prediction is correct
    * and 0 when none is (in particular for no predictions). */
  lemma PrecisionBounds(preds: seq<Prediction>)
    ensures 0.0 <= Precision(preds) <= 1.0
    ensures preds != [] && (forall i :: 0 <= i < |preds| ==> IsMatch(preds[i].predicted, preds[i].expected)) ==>
              Precision(preds) == 1.0
    ensures (forall i :: 0 <= i < |preds| ==> !IsMatch(preds[i].predicted, preds[i].expected)) ==>
              Precision(preds) == 0.0
  {
    CountMatchesBounds(preds);
    if preds != [] {
      RatioBounds(CountMatches(preds), |preds|);
    }
  }
}
