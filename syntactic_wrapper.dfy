/**
 * The syntactic strategy: `syntactic_similarity` (bag-of-words cosine over
 * the two normalised texts, 0 for a blank side) plugged into the same aspect
 * matcher, and the wrapper object that answers `predict`.
 *
 * The cosine itself (`CountVectorizer` and `cosine_similarity`) is a
 * parameter.
 */
module SyntacticWrapper {
  import opened Records
  import opened Text
  import AspectMatcher

  /** Cosine similarity of the term-count vectors of two normalised texts. */
  type Cosine = (string, string) -> real

  /** `syntactic_similarity`. */
  function SyntacticSimilarity(cosine: Cosine, aspect: string, field: Value): real
  {
    var a, f := Normalize(aspect), Preprocess(field);
    if a == "" || f == "" then 0.0 else cosine(a, f)
  }

  function SyntacticScore(cosine: Cosine): AspectMatcher.Similarity
  {
    (aspect, field) => SyntacticSimilarity(cosine, aspect, field)
  }

  /** A blank aspect or a blank or non-string field scores 0 without the
    * cosine being consulted. */
  lemma BlankScoresZero(cosine: Cosine, aspect: string, field: Value)
    requires IsBlank(aspect) || !field.Str? || IsBlank(field.s)
    ensures SyntacticSimilarity(cosine, aspect, field) == 0.0
  {
    NormalizeCanonical(aspect);
    if field.Str? {
      NormalizeCanonical(field.s);
    }
  }

  /** The score lies in [0, 1] whenever the cosine does. */
  lemma SyntacticSimilarityBounds(cosine: Cosine, aspect: string, field: Value)
    requires forall a, b :: 0.0 <= cosine(a, b) <= 1.0
    ensures 0.0 <= SyntacticSimilarity(cosine, aspect, field) <= 1.0
  {
  }

  /** Normalising the inputs beforehand does not change the score. */
  lemma SyntacticIgnoresFormatting(cosine: Cosine, aspect: string, field: string)
    ensures SyntacticSimilarity(cosine, Normalize(aspect), Str(Normalize(field)))
            == SyntacticSimilarity(cosine, aspect, Str(field))
  {
    NormalizeIdempotent(aspect);
    NormalizeIdempotent(field);
  }

  /** `match_services` with `syntactic_similarity` as the score. */
  method MatchServices(registry: seq<Descriptor>, aspects: AspectMatcher.Aspects, cosine: Cosine)
    returns (ranked: seq<Descriptor>)
    ensures ranked == AspectMatcher.Rank(registry, aspects, SyntacticScore(cosine))
  {
    ranked := AspectMatcher.MatchServices(registry, aspects, SyntacticScore(cosine));
  }

  class SyntacticModelWrapper {
    const registry: seq<Descriptor>
    const cosine: Cosine

    constructor (registry: seq<Descriptor>, cosine: Cosine)
      requires registry != []
      ensures this.registry == registry && this.cosine == cosine
    {
      this.registry := registry;
      this.cosine := cosine;
    }

    /** `predict`: `{}` for an empty query, else the top-ranked entry or `{}`. */
    method Predict(query: string) returns (r: Descriptor)
      ensures r == AspectMatcher.TopMatch(registry, query, SyntacticScore(cosine))
    {
      if query == "" {
        return Empty;
      }
      var aspects := AspectMatcher.QueryAspects(query);
      var topMatches := MatchServices(registry, aspects, cosine);
      if topMatches != [] {
        r := topMatches[0];
      } else {
        r := Empty;
      }
    }
  }

  /** `SyntacticModelWrapper(registry_path)`. */
  method NewSyntacticModelWrapper(found: bool, loaded: seq<Descriptor>, cosine: Cosine)
    returns (r: Result<SyntacticModelWrapper, InitError>)
    ensures !found ==> r == Failure(RegistryNotFound)
    ensures found && loaded == [] ==> r == Failure(RegistryEmpty)
    ensures found && loaded != [] ==>
              r.Success? && fresh(r.value) && r.value.registry == loaded && r.value.cosine == cosine
  {
    if !found {
      return Failure(RegistryNotFound);
    }
    if loaded == [] {
      return Failure(RegistryEmpty);
    }
    var w := new SyntacticModelWrapper(loaded, cosine);
    return Success(w);
  }
}
