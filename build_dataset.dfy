/**
 * Evaluation-set construction from GitHub search results: a repository is
 * kept when its description has more than five words, and becomes a query
 * (the description) paired with the service it should find.
 */
module BuildDataset {
  import opened Records
  import opened Text

  /** Why construction stops: the repository at `position` has a truthy
    * description that is not a string (`int.split` raises `AttributeError`). */
  datatype BuildError = DescriptionNotString(position: nat)

  /** `repo.get('description', '') or ''`, or None when that is not a string. */
  function DescriptionOf(repo: Descriptor): Option<string>
  {
    match Get(repo, "description")
    case Str(s) => Some(s)
    case Null => Some("")
    case Num(n) => if n == 0 then Some("") else None
  }

  /** `description and len(description.split()) > 5`. */
  predicate Keeps(description: string)
  {
    description != "" && |Words(description)| > 5
  }

  /** The record appended for a kept repository. */
  function ItemOf(repo: Descriptor, description: string): EvalItem
  {
    EvalItem(description, map["func_name" := Get(repo, "name"), "docstring" := Str(description),
                              "url" := Get(repo, "html_url")])
  }

  /** The `dataset` list built from `repos`, or where construction fails. */
  function EvaluationSet(repos: seq<Descriptor>): Result<seq<EvalItem>, BuildError>
  {
    if repos == [] then Success([])
    else
      var n := |repos| - 1;
      match EvaluationSet(repos[..n])
      case Failure(e) => Failure(e)
      case Success(items) =>
        match DescriptionOf(repos[n])
        case None => Failure(DescriptionNotString(n))
        case Some(d) => Success(items + (if Keeps(d) then [ItemOf(repos[n], d)] else []))
  }

  /** `generate_evaluation_set`; `None` stands for a missing result list. */
  method GenerateEvaluationSet(reposData: Option<seq<Descriptor>>) returns (r: Result<seq<EvalItem>, BuildError>)
    ensures reposData.None? || reposData.value == [] ==> r == Success([])
    ensures reposData.Some? ==> r == EvaluationSet(reposData.value)
  {
    var dataset: seq<EvalItem> := [];
    if reposData.None? || reposData.value == [] {
      return Success(dataset);
    }
    var repos := reposData.value;
    for i := 0 to |repos|
      invariant EvaluationSet(repos[..i]) == Success(dataset)
    {
      var repo := repos[i];
      assert repos[..i + 1][..i] == repos[..i] && repos[..i + 1][i] == repo;
      var description := DescriptionOf(repo);
      if description.None? {
        FailurePersists(repos, i + 1);
        assert repos[..|repos|] == repos;
        return Failure(DescriptionNotString(i));
      }
      ghost var before := dataset;
      if Keeps(description.value) {
        dataset := dataset + [ItemOf(repo, description.value)];
      }
      assert dataset == before + (if Keeps(description.value) then [ItemOf(repo, description.value)] else []);
    }
    assert repos[..|repos|] == repos;
    r := Success(dataset);
  }

  // ---------------------------------------------------------------------------

  /** Once a prefix fails, the whole list fails in the same way. */
  lemma {:induction false} FailurePersists(repos: seq<Descriptor>, k: nat)
    requires k <= |repos| && EvaluationSet(repos[..k]).Failure?
    ensures EvaluationSet(repos) == EvaluationSet(repos[..k])
    decreases |repos| - k
  {
    if k < |repos| {
      assert repos[..k + 1][..k] == repos[..k];
      FailurePersists(repos, k + 1);
    } else {
      assert repos[..k] == repos;
    }
  }

  /** A kept description is non-blank, and one of at most five words is dropped. */
  lemma KeepsFacts(description: string)
    ensures Keeps(description) <==> |Words(description)| > 5
    ensures Keeps(description) ==> !IsBlank(description)
  {
    WordsEmptyIffBlank(description);
  }

  /** Construction fails exactly when some repository has a truthy
    * non-string description, and then at the first such repository. */
  lemma {:induction false} EvaluationSetFails(repos: seq<Descriptor>)
    ensures EvaluationSet(repos).Failure? <==> exists i :: 0 <= i < |repos| && DescriptionOf(repos[i]).None?
    ensures EvaluationSet(repos).Failure? ==>
              var p := EvaluationSet(repos).error.position;
              p < |repos| && DescriptionOf(repos[p]).None?
              && forall i :: 0 <= i < p ==> DescriptionOf(repos[i]).Some?
  {
    if repos != [] {
      var n := |repos| - 1;
      var pre := repos[..n];
      EvaluationSetFails(pre);
      assert forall i :: 0 <= i < n ==> repos[i] == pre[i];
    }
  }

  /** Repository `i` is kept and gives `item`. */
  predicate Yields(repos: seq<Descriptor>, i: int, item: EvalItem)
  {
    && 0 <= i < |repos| && DescriptionOf(repos[i]).Some? && Keeps(DescriptionOf(repos[i]).value)
    && item == ItemOf(repos[i], DescriptionOf(repos[i]).value)
  }

  /** One step of construction: the records of a non-empty list are those of
    * all but its last repository, then the last one's record if it is kept. */
  lemma EvaluationSetStep(repos: seq<Descriptor>)
    requires repos != [] && EvaluationSet(repos).Success?
    ensures var n := |repos| - 1;
            && EvaluationSet(repos[..n]).Success? && DescriptionOf(repos[n]).Some?
            && EvaluationSet(repos).value == EvaluationSet(repos[..n]).value
                 + (if Keeps(DescriptionOf(repos[n]).value) then [ItemOf(repos[n], DescriptionOf(repos[n]).value)] else [])
  {
  }

  /** A repository gives a record exactly when its description is kept; the
    * record's query and docstring are that description, its `func_name` the
    * repository's `name` and its `url` the `html_url`; no more records than
    * repositories. */
  lemma {:induction false} EvaluationSetMembers(repos: seq<Descriptor>)
    requires EvaluationSet(repos).Success?
    ensures |EvaluationSet(repos).value| <= |repos|
    ensures forall item :: item in EvaluationSet(repos).value <==> exists i :: Yields(repos, i, item)
  {
    if repos != [] {
      var n := |repos| - 1;
      var pre := repos[..n];
      EvaluationSetStep(repos);
      EvaluationSetMembers(pre);
      var items, prior := EvaluationSet(repos).value, EvaluationSet(pre).value;
      var d := DescriptionOf(repos[n]).value;
      assert items == prior + (if Keeps(d) then [ItemOf(repos[n], d)] else []);
      forall i, item | 0 <= i < n ensures Yields(repos, i, item) == Yields(pre, i, item) {
        assert repos[i] == pre[i];
      }
      forall item ensures item in items <==> exists i :: Yields(repos, i, item) {
        if item in prior {
          var i :| Yields(pre, i, item);
          assert Yields(repos, i, item);
        } else if Yields(repos, n, item) {
          assert item in items;
        }
      }
    }
  }

  /** A record's fields: the query is the docstring, of more than five words. */
  lemma ItemOfFacts(repo: Descriptor, description: string)
    requires Keeps(description)
    ensures var item := ItemOf(repo, description);
            item.expected["docstring"] == Str(item.query) && |Words(item.query)| > 5
            && item.expected["func_name"] == Get(repo, "name") && item.expected["url"] == Get(repo, "html_url")
            && item.expected.Keys == {"func_name", "docstring", "url"}
  {
  }

  /** Construction keeps the input order: the records of a concatenation are
    * the records of each part, one after the other. */
  lemma {:induction false} EvaluationSetAppend(a: seq<Descriptor>, b: seq<Descriptor>)
    requires EvaluationSet(a + b).Success?
    ensures EvaluationSet(a).Success? && EvaluationSet(b).Success?
    ensures EvaluationSet(a + b).value == EvaluationSet(a).value + EvaluationSet(b).value
    decreases |b|
  {
    if b == [] {
      assert a + b == a;
    } else {
      var n := |b| - 1;
      assert (a + b)[..|a + b| - 1] == a + b[..n];
      assert (a + b)[|a + b| - 1] == b[n];
      EvaluationSetAppend(a, b[..n]);
    }
  }
}
