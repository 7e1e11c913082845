/**
 * The sequential semantic strategy: `match_services` with
 * `enhanced_similarity` as the score, and the wrapper object that holds the
 * registry and answers `predict`.
 */
module SequencialWrapper {
  import opened Records
  import opened AspectMatcher
  import opened Semantic

  /** `enhanced_similarity` as the matcher's similarity strategy. */
  function SemanticSimilarity<S>(lex: Lexicon<S>): Similarity
  {
    (aspect, field) => Semantic.Similarity(lex, aspect, field)
  }

  class SequencialModelWrapper<!S> {
    /** The registry, loaded once by the constructor and never changed. */
    const registry: seq<Descriptor>
    const lexicon: Lexicon<S>

    constructor (registry: seq<Descriptor>, lexicon: Lexicon<S>)
      requires registry != []
      ensures this.registry == registry && this.lexicon == lexicon
    {
      this.registry := registry;
      this.lexicon := lexicon;
    }

    /** `predict`: `{}` for an empty query, else the top-ranked entry or `{}`. */
    method Predict(query: string) returns (r: Descriptor)
      ensures r == TopMatch(registry, query, SemanticSimilarity(lexicon))
    {
      if query == "" {
        return Empty;
      }
      var aspects := QueryAspects(query);
      var topMatches := MatchServices(registry, aspects, SemanticSimilarity(lexicon));
      if topMatches != [] {
        r := topMatches[0];
      } else {
        r := Empty;
      }
    }
  }

  /** `SequencialModelWrapper(registry_path)`: `found` says whether the file
    * exists and `loaded` is what `load_registry` read from it. */
  method NewSequencialModelWrapper<S>(found: bool, loaded: seq<Descriptor>, lexicon: Lexicon<S>)
    returns (r: Result<SequencialModelWrapper<S>, InitError>)
    ensures !found ==> r == Failure(RegistryNotFound)
    ensures found && loaded == [] ==> r == Failure(RegistryEmpty)
    ensures found && loaded != [] ==>
              r.Success? && fresh(r.value) && r.value.registry == loaded && r.value.lexicon == lexicon
  {
    if !found {
      return Failure(RegistryNotFound);
    }
    if loaded == [] {
      return Failure(RegistryEmpty);
    }
    var w := new SequencialModelWrapper(loaded, lexicon);
    return Success(w);
  }
}
