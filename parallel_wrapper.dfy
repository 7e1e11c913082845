/**
 * The parallel semantic strategy: one scoring task per registry entry, run
 * by a process pool whose `map` returns the results in input order, then the
 * same filter, stable sort and projection as the sequential matcher. The pool
 * is modelled by calling the worker on each entry in turn.
 */
module ParallelWrapper {
  import opened Records
  import opened Ranking
  import opened AspectMatcher
  import opened Semantic
  import SequencialWrapper

  /** What the worker returns for one entry. */
  function WorkerResult(entry: Descriptor, aspects: Aspects, sim: Similarity): Option<Scored>
  {
    if Qualifies(entry, aspects, sim) then Some(Scored(Total(entry, aspects, sim), entry)) else None
  }

  /** `list(executor.map(match_single_entry_worker, tasks))`. */
  function MapWorker(registry: seq<Descriptor>, aspects: Aspects, sim: Similarity): (rs: seq<Option<Scored>>)
    ensures |rs| == |registry|
  {
    seq(|registry|, i requires 0 <= i < |registry| => WorkerResult(registry[i], aspects, sim))
  }

  /** `[r for r in results if r is not None]`. */
  function SomeValues(rs: seq<Option<Scored>>): seq<Scored>
  {
    if rs == [] then []
    else SomeValues(rs[..|rs| - 1]) + (if rs[|rs| - 1].Some? then [rs[|rs| - 1].value] else [])
  }

  /** `match_single_entry_worker`: `None` when no aspect is accepted, else the
    * entry with the sum of its accepted similarities. */
  method MatchSingleEntryWorker(entry: Descriptor, aspects: Aspects, sim: Similarity)
    returns (r: Option<Scored>)
    ensures r.None? <==> MatchCount(entry, aspects, sim) == 0
    ensures r.Some? ==> r.value == Scored(Total(entry, aspects, sim), entry)
  {
    var total := 0.0;
    var matched := 0;
    for j := 0 to |aspects|
      invariant total == Total(entry, aspects[..j], sim)
      invariant matched == MatchCount(entry, aspects[..j], sim)
    {
      var (key, value) := aspects[j];
      if key in entry && Truthy(entry[key]) {
        var s := sim(value, entry[key]);
        if s >= MinThreshold {
          total := total + s;
          matched := matched + 1;
        }
      }
      assert aspects[..j + 1][..j] == aspects[..j];
    }
    assert aspects[..|aspects|] == aspects;
    if matched > 0 {
      return Some(Scored(total, entry));
    }
    return None;
  }

  /** Keeping the non-`None` worker results, in input order, gives exactly the
    * list the sequential scan appends to `scored_entries`. */
  lemma {:induction false} ParallelScoresMatchSequential(registry: seq<Descriptor>, aspects: Aspects, sim: Similarity)
    ensures SomeValues(MapWorker(registry, aspects, sim)) == ScoreRegistry(registry, aspects, sim)
  {
    if registry != [] {
      var p := registry[..|registry| - 1];
      var rs := MapWorker(registry, aspects, sim);
      ParallelScoresMatchSequential(p, aspects, sim);
      assert rs[..|rs| - 1] == MapWorker(p, aspects, sim);
    }
  }

  /** `match_services_parallel`: returns exactly what the sequential
    * `match_services` returns for the same registry and aspects. */
  method MatchServicesParallel(registry: seq<Descriptor>, aspects: Aspects, sim: Similarity)
    returns (ranked: seq<Descriptor>)
    ensures ranked == Rank(registry, aspects, sim)
  {
    var results: seq<Option<Scored>> := [];
    for i := 0 to |registry|
      invariant results == MapWorker(registry[..i], aspects, sim)
    {
      var r := MatchSingleEntryWorker(registry[i], aspects, sim);
      results := results + [r];
    }
    assert registry[..|registry|] == registry;
    var scored := SomeValues(results);
    ParallelScoresMatchSequential(registry, aspects, sim);
    if scored == [] {
      return [];
    }
    scored := SortByScore(scored);
    ranked := Services(scored);
  }

  class ParallelModelWrapper<!S> {
    const registry: seq<Descriptor>
    const lexicon: Lexicon<S>

    constructor (registry: seq<Descriptor>, lexicon: Lexicon<S>)
      requires registry != []
      ensures this.registry == registry && this.lexicon == lexicon
    {
      this.registry := registry;
      this.lexicon := lexicon;
    }

    /** `predict`: the same answer as the sequential wrapper's. */
    method Predict(query: string) returns (r: Descriptor)
      ensures r == TopMatch(registry, query, SequencialWrapper.SemanticSimilarity(lexicon))
    {
      if query == "" {
        return Empty;
      }
      var aspects := QueryAspects(query);
      var topMatches := MatchServicesParallel(registry, aspects, SequencialWrapper.SemanticSimilarity(lexicon));
      if topMatches != [] {
        r := topMatches[0];
      } else {
        r := Empty;
      }
    }
  }

  /** `ParallelModelWrapper(registry_path)`. */
  method NewParallelModelWrapper<S>(found: bool, loaded: seq<Descriptor>, lexicon: Lexicon<S>)
    returns (r: Result<ParallelModelWrapper<S>, InitError>)
    ensures !found ==> r == Failure(RegistryNotFound)
    ensures found && loaded == [] ==> r == Failure(RegistryEmpty)
    ensures found && loaded != [] ==>
              r.Success? && fresh(r.value) && r.value.registry == loaded && r.value.lexicon == lexicon
  {
    if !found {
      return Failure(RegistryNotFound);
    }
    if loaded == [] {
      return Failure(RegistryEmpty);
    }
    var w := new ParallelModelWrapper(loaded, lexicon);
    return Success(w);
  }
}
