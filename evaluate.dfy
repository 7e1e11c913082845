/**
 * The evaluation harness: queries are derived from the registry's own
 * `func_name`s, every strategy answers every query, and one metrics row is
 * reported per strategy.
 */
module Evaluate {
  import opened Records
  import opened Text
  import opened Metrics

  /** Why the harness stops: the service at `position` has a `func_name` that
    * is not a string (`None.replace` raises `AttributeError`). */
  datatype EvalError = FuncNameNotString(position: nat)

  /** A strategy under evaluation: its name and its `predict`. */
  datatype Strategy = Strategy(name: string, predict: string -> Descriptor)

  /** One row of `final_results`: the metrics plus `model` and `dataset`. */
  datatype ReportRow = ReportRow(precisionAt1: real, totalQueries: nat, model: string, dataset: string)

  /** `service.get("func_name", "").replace("_", " ").replace("create", "").strip()`,
    * or None when the stored `func_name` is not a string. */
  function DeriveQuery(service: Descriptor): Option<string>
  {
    if "func_name" !in service then Some("")
    else match service["func_name"]
      case Str(s) => Some(Strip(ReplaceAll(ReplaceAll(s, "_", " "), "create", "")))
      case _ => None
  }

  /** The `evaluation_data` list built from `dataset`, or where it fails. */
  function EvaluationData(dataset: seq<Descriptor>): Result<seq<EvalItem>, EvalError>
  {
    if dataset == [] then Success([])
    else
      var n := |dataset| - 1;
      match EvaluationData(dataset[..n])
      case Failure(e) => Failure(e)
      case Success(items) =>
        match DeriveQuery(dataset[n])
        case None => Failure(FuncNameNotString(n))
        case Some(q) => Success(items + (if q != "" then [EvalItem(q, dataset[n])] else []))
  }

  /** The query-derivation loop of `main`. */
  method BuildEvaluationData(dataset: seq<Descriptor>) returns (r: Result<seq<EvalItem>, EvalError>)
    ensures r == EvaluationData(dataset)
  {
    var evaluationData: seq<EvalItem> := [];
    for i := 0 to |dataset|
      invariant EvaluationData(dataset[..i]) == Success(evaluationData)
    {
      var service := dataset[i];
      assert dataset[..i + 1][..i] == dataset[..i] && dataset[..i + 1][i] == service;
      var query := DeriveQuery(service);
      if query.None? {
        FailurePersists(dataset, i + 1);
        assert dataset[..|dataset|] == dataset;
        return Failure(FuncNameNotString(i));
      }
      ghost var before := evaluationData;
      if query.value != "" {
        evaluationData := evaluationData + [EvalItem(query.value, service)];
      }
      assert evaluationData == before + (if query.value != "" then [EvalItem(query.value, service)] else []);
    }
    assert dataset[..|dataset|] == dataset;
    r := Success(evaluationData);
  }

  /** `predictions` for one strategy: one record per evaluation item. */
  function Predictions(items: seq<EvalItem>, predict: string -> Descriptor): seq<Prediction>
  {
    seq(|items|, i requires 0 <= i < |items| => Prediction(items[i].query, predict(items[i].query), items[i].expected))
  }

  /** The inner loop of `main`: asks the strategy about every item, in order. */
  method CollectPredictions(items: seq<EvalItem>, predict: string -> Descriptor) returns (preds: seq<Prediction>)
    ensures preds == Predictions(items, predict)
    ensures |preds| == |items|
    ensures forall i :: 0 <= i < |items| ==>
              preds[i].query == items[i].query && preds[i].expected == items[i].expected
              && preds[i].predicted == predict(items[i].query)
  {
    preds := [];
    for i := 0 to |items|
      invariant preds == Predictions(items[..i], predict)
    {
      var query := items[i].query;
      var expected := items[i].expected;
      var predicted := predict(query);
      preds := preds + [Prediction(query, predicted, expected)];
    }
    assert items[..|items|] == items;
  }

  /** The outer loop of `main`: one report row per strategy, in order. */
  method RunEvaluation(items: seq<EvalItem>, strategies: seq<Strategy>, datasetPath: string)
    returns (rows: seq<ReportRow>)
    ensures |rows| == |strategies|
    ensures forall k :: 0 <= k < |strategies| ==>
              rows[k] == ReportRow(Precision(Predictions(items, strategies[k].predict)), |items|,
                                   strategies[k].name, datasetPath)
  {
    rows := [];
    for k := 0 to |strategies|
      invariant |rows| == k
      invariant forall m :: 0 <= m < k ==>
                  rows[m] == ReportRow(Precision(Predictions(items, strategies[m].predict)), |items|,
                                       strategies[m].name, datasetPath)
    {
      var predictions := CollectPredictions(items, strategies[k].predict);
      var overall := CalculateAllMetrics(predictions);
      rows := rows + [ReportRow(overall.precisionAt1, overall.totalQueries, strategies[k].name, datasetPath)];
    }
  }

  // ---------------------------------------------------------------------------

  /** Once a prefix fails, the whole dataset fails in the same way. */
  lemma {:induction false} FailurePersists(dataset: seq<Descriptor>, k: nat)
    requires k <= |dataset| && EvaluationData(dataset[..k]).Failure?
    ensures EvaluationData(dataset) == EvaluationData(dataset[..k])
    decreases |dataset| - k
  {
    if k < |dataset| {
      assert dataset[..k + 1][..k] == dataset[..k];
      FailurePersists(dataset, k + 1);
    } else {
      assert dataset[..k] == dataset;
    }
  }

  /** A missing `func_name` yields the empty query, and a derived query holds
    * no underscore and no surrounding whitespace. */
  lemma DerivedQueryShape(service: Descriptor)
    ensures "func_name" !in service ==> DeriveQuery(service) == Some("")
    ensures DeriveQuery(service).Some? ==>
              var q := DeriveQuery(service).value;
              '_' !in q && (q == [] || (!IsSpace(q[0]) && !IsSpace(q[|q| - 1])))
  {
    if "func_name" in service && service["func_name"].Str? {
      var s := service["func_name"].s;
      var a := ReplaceAll(s, "_", " ");
      var b := ReplaceAll(a, "create", "");
      var q := Strip(b);
      assert DeriveQuery(service) == Some(q);
      ReplaceAllChars(s, "_", " ");
      assert '_' !in a;
      ReplaceAllChars(a, "create", "");
      assert '_' !in b;
      StripTrims(b);
      assert '_' !in q;
    }
  }

  /** The derivation only rewrites: a string `func_name` with no `_`, no
    * `create` and no surrounding whitespace is its own query. */
  lemma PlainNameDerivesItself(service: Descriptor, name: string)
    requires "func_name" in service && service["func_name"] == Str(name)
    requires '_' !in name && forall i :: !OccursAt("create", name, i)
    requires name == [] || (!IsSpace(name[0]) && !IsSpace(name[|name| - 1]))
    ensures DeriveQuery(service) == Some(name)
  {
    OccursAtChar('_', name);
    ReplaceAllChars(name, "_", " ");
    ReplaceAllChars(name, "create", "");
    StripTrims(name);
  }

  /** The harness fails exactly when some service has a non-string
    * `func_name`, and then at the first such service. */
  lemma {:induction false} EvaluationDataFails(dataset: seq<Descriptor>)
    ensures EvaluationData(dataset).Failure? <==> exists i :: 0 <= i < |dataset| && DeriveQuery(dataset[i]).None?
    ensures EvaluationData(dataset).Failure? ==>
              var p := EvaluationData(dataset).error.position;
              p < |dataset| && DeriveQuery(dataset[p]).None?
              && forall i :: 0 <= i < p ==> DeriveQuery(dataset[i]).Some?
  {
    if dataset != [] {
      var n := |dataset| - 1;
      var pre := dataset[..n];
      EvaluationDataFails(pre);
      assert forall i :: 0 <= i < n ==> dataset[i] == pre[i];
    }
  }

  /** Service `i` has a non-empty derived query and gives `item`. */
  predicate Yields(dataset: seq<Descriptor>, i: int, item: EvalItem)
  {
    && 0 <= i < |dataset| && item.expected == dataset[i]
    && DeriveQuery(dataset[i]) == Some(item.query) && item.query != ""
  }

  /** A service gives an item exactly when its derived query is non-empty;
    * the item pairs that query with the service; no more items than services. */
  lemma {:induction false} EvaluationDataMembers(dataset: seq<Descriptor>)
    requires EvaluationData(dataset).Success?
    ensures |EvaluationData(dataset).value| <= |dataset|
    ensures forall item :: item in EvaluationData(dataset).value <==> exists i :: Yields(dataset, i, item)
  {
    if dataset != [] {
      var n := |dataset| - 1;
      var pre := dataset[..n];
      EvaluationDataMembers(pre);
      forall i, item | 0 <= i < n ensures Yields(dataset, i, item) == Yields(pre, i, item) {
        assert dataset[i] == pre[i];
      }
      forall item ensures item in EvaluationData(dataset).value <==> exists i :: Yields(dataset, i, item) {
        if item in EvaluationData(pre).value {
          var i :| Yields(pre, i, item);
          assert Yields(dataset, i, item);
        } else if Yields(dataset, n, item) {
          assert item in EvaluationData(dataset).value;
        }
      }
    }
  }

  /** The harness keeps the dataset order: the items of a concatenation are
    * the items of each part, one after the other. */
  lemma {:induction false} EvaluationDataAppend(a: seq<Descriptor>, b: seq<Descriptor>)
    requires EvaluationData(a + b).Success?
    ensures EvaluationData(a).Success? && EvaluationData(b).Success?
    ensures EvaluationData(a + b).value == EvaluationData(a).value + EvaluationData(b).value
    decreases |b|
  {
    if b == [] {
      assert a + b == a;
    } else {
      var n := |b| - 1;
      assert (a + b)[..|a + b| - 1] == a + b[..n];
      assert (a + b)[|a + b| - 1] == b[n];
      EvaluationDataAppend(a, b[..n]);
    }
  }

  /** Every report row counts every item and has precision@1 in [0, 1]. */
  lemma ReportRowBounds(items: seq<EvalItem>, s: Strategy, datasetPath: string)
    ensures var row := ReportRow(Precision(Predictions(items, s.predict)), |items|, s.name, datasetPath);
            0.0 <= row.precisionAt1 <= 1.0 && row.totalQueries == |items|
  {
    PrecisionBounds(Predictions(items, s.predict));
  }
}
