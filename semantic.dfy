/**
 * `enhanced_similarity`, the semantic strategy's score: 0 for a blank side,
 * 1 when the normalised aspect occurs in the normalised field, otherwise the
 * best Wu-Palmer similarity over all pairs of WordNet senses of the two
 * texts, a missing pairwise value counting as 0.
 *
 * WordNet is not modelled: a `Lexicon` supplies the senses of a text and the
 * pairwise measure.
 */
module Semantic {
  import opened Records
  import opened Text

  /** `wn.synsets(text)` and `syn1.wup_similarity(syn2)` (None when undefined). */
  datatype Lexicon<!S> = Lexicon(senses: string -> seq<S>, wup: (S, S) -> Option<real>)

  /** `syn1.wup_similarity(syn2) or 0.0`. */
  function PairScore<S>(lex: Lexicon<S>, x: S, y: S): real
  {
    match lex.wup(x, y)
    case Some(v) => v
    case None => 0.0
  }

  /** `if sim > max_sim: max_sim = sim`. */
  function Max(m: real, s: real): real
  {
    if s > m then s else m
  }

  /** `max_sim` after comparing sense `x` with each sense of `ys`, from `m`. */
  function ScanRow<S>(lex: Lexicon<S>, m: real, x: S, ys: seq<S>): real
  {
    if ys == [] then m
    else Max(ScanRow(lex, m, x, ys[..|ys| - 1]), PairScore(lex, x, ys[|ys| - 1]))
  }

  /** `max_sim` after the nested loop over `xs` and `ys`, from 0. */
  function CrossMax<S>(lex: Lexicon<S>, xs: seq<S>, ys: seq<S>): real
  {
    if xs == [] then 0.0
    else ScanRow(lex, CrossMax(lex, xs[..|xs| - 1], ys), xs[|xs| - 1], ys)
  }

  /** The value `enhanced_similarity` returns. */
  function Similarity<S>(lex: Lexicon<S>, aspect: string, field: Value): real
  {
    var a, f := Normalize(aspect), Preprocess(field);
    if a == "" || f == "" then 0.0
    else if IsSubstring(a, f) then 1.0
    else
      var sa, sf := lex.senses(a), lex.senses(f);
      if sa == [] || sf == [] then 0.0 else CrossMax(lex, sa, sf)
  }

  /** `enhanced_similarity`, with its nested loop over sense pairs. */
  method EnhancedSimilarity<S>(lex: Lexicon<S>, aspect: string, field: Value) returns (r: real)
    ensures r == Similarity(lex, aspect, field)
    ensures Normalize(aspect) == "" || Preprocess(field) == "" ==> r == 0.0
    ensures Normalize(aspect) != "" && Preprocess(field) != "" && IsSubstring(Normalize(aspect), Preprocess(field)) ==> r == 1.0
    ensures Normalize(aspect) != "" && Preprocess(field) != "" && !IsSubstring(Normalize(aspect), Preprocess(field)) ==>
              r == CrossMax(lex, lex.senses(Normalize(aspect)), lex.senses(Preprocess(field)))
  {
    var aspectProc := Normalize(aspect);
    var fieldProc := Preprocess(field);
    if aspectProc == "" || fieldProc == "" {
      return 0.0;
    }
    if IsSubstring(aspectProc, fieldProc) {
      return 1.0;
    }
    var sensesAspect := lex.senses(aspectProc);
    var sensesField := lex.senses(fieldProc);
    var maxSim := 0.0;
    if sensesAspect == [] || sensesField == [] {
      if sensesAspect != [] {
        CrossMaxOfNoFieldSenses(lex, sensesAspect);
      }
      return maxSim;
    }
    for i := 0 to |sensesAspect|
      invariant maxSim == CrossMax(lex, sensesAspect[..i], sensesField)
    {
      var syn1 := sensesAspect[i];
      ghost var before := maxSim;
      for j := 0 to |sensesField|
        invariant maxSim == ScanRow(lex, before, syn1, sensesField[..j])
      {
        var syn2 := sensesField[j];
        var sim := PairScore(lex, syn1, syn2);
        if sim > maxSim {
          maxSim := sim;
        }
        assert sensesField[..j + 1][..j] == sensesField[..j];
      }
      assert sensesField[..|sensesField|] == sensesField;
      assert sensesAspect[..i + 1][..i] == sensesAspect[..i];
    }
    assert sensesAspect[..|sensesAspect|] == sensesAspect;
    r := maxSim;
  }

  // ---------------------------------------------------------------------------

  lemma {:induction false} CrossMaxOfNoFieldSenses<S>(lex: Lexicon<S>, xs: seq<S>)
    ensures CrossMax(lex, xs, []) == 0.0
  {
    if xs != [] {
      CrossMaxOfNoFieldSenses(lex, xs[..|xs| - 1]);
    }
  }

  /** A row scan keeps the running maximum: it ends at least at its start and
    * at every pairwise score of the row, and at the start or one of them. */
  lemma {:induction false} ScanRowIsMaximum<S>(lex: Lexicon<S>, m: real, x: S, ys: seq<S>)
    ensures ScanRow(lex, m, x, ys) >= m
    ensures forall j :: 0 <= j < |ys| ==> PairScore(lex, x, ys[j]) <= ScanRow(lex, m, x, ys)
    ensures ScanRow(lex, m, x, ys) == m
            || exists j :: 0 <= j < |ys| && ScanRow(lex, m, x, ys) == PairScore(lex, x, ys[j])
  {
    if ys != [] {
      var p := ys[..|ys| - 1];
      ScanRowIsMaximum(lex, m, x, p);
      assert forall j :: 0 <= j < |p| ==> ys[j] == p[j];
    }
  }

  /** The nested loop computes the largest pairwise score over all sense
    * pairs, or 0 when that is larger: it is at least 0 and at least every
    * pairwise score, and it is 0 or one of them. */
  lemma {:induction false} CrossMaxIsMaximum<S>(lex: Lexicon<S>, xs: seq<S>, ys: seq<S>)
    ensures CrossMax(lex, xs, ys) >= 0.0
    ensures forall i, j :: 0 <= i < |xs| && 0 <= j < |ys| ==> PairScore(lex, xs[i], ys[j]) <= CrossMax(lex, xs, ys)
    ensures CrossMax(lex, xs, ys) == 0.0
            || exists i, j :: 0 <= i < |xs| && 0 <= j < |ys| && CrossMax(lex, xs, ys) == PairScore(lex, xs[i], ys[j])
  {
    if xs != [] {
      var p := xs[..|xs| - 1];
      var m := CrossMax(lex, p, ys);
      CrossMaxIsMaximum(lex, p, ys);
      ScanRowIsMaximum(lex, m, xs[|xs| - 1], ys);
      assert forall i :: 0 <= i < |p| ==> xs[i] == p[i];
      if CrossMax(lex, xs, ys) != m && CrossMax(lex, xs, ys) != 0.0 {
        var j :| 0 <= j < |ys| && CrossMax(lex, xs, ys) == PairScore(lex, xs[|xs| - 1], ys[j]);
        assert 0 <= |xs| - 1 < |xs|;
      } else if CrossMax(lex, xs, ys) == m && m != 0.0 {
        var i, j :| 0 <= i < |p| && 0 <= j < |ys| && m == PairScore(lex, p[i], ys[j]);
        assert xs[i] == p[i];
      }
    }
  }

  /** The score is never negative, and it is at most 1 whenever the pairwise
    * measure is. */
  lemma SimilarityBounds<S>(lex: Lexicon<S>, aspect: string, field: Value)
    ensures Similarity(lex, aspect, field) >= 0.0
    ensures (forall x, y :: PairScore(lex, x, y) <= 1.0) ==> Similarity(lex, aspect, field) <= 1.0
  {
    var a, f := Normalize(aspect), Preprocess(field);
    var xs, ys := lex.senses(a), lex.senses(f);
    CrossMaxIsMaximum(lex, xs, ys);
    if (forall x, y :: PairScore(lex, x, y) <= 1.0) && CrossMax(lex, xs, ys) != 0.0 {
      var i, j :| 0 <= i < |xs| && 0 <= j < |ys| && CrossMax(lex, xs, ys) == PairScore(lex, xs[i], ys[j]);
    }
  }

  /** A non-blank text is fully similar to itself, whatever WordNet says. */
  lemma SelfSimilarity<S>(lex: Lexicon<S>, text: string)
    requires !IsBlank(text)
    ensures Similarity(lex, text, Str(text)) == 1.0
  {
    NormalizeCanonical(text);
    assert Normalize(text)[..|Normalize(text)|] == Normalize(text);
  }

  /** A blank aspect or a blank or non-string field scores 0. */
  lemma BlankScoresZero<S>(lex: Lexicon<S>, aspect: string, field: Value)
    requires IsBlank(aspect) || !field.Str? || IsBlank(field.s)
    ensures Similarity(lex, aspect, field) == 0.0
  {
    NormalizeCanonical(aspect);
    if field.Str? {
      NormalizeCanonical(field.s);
    }
  }

  /** Normalising the inputs beforehand does not change the score. */
  lemma SimilarityIgnoresFormatting<S>(lex: Lexicon<S>, aspect: string, field: string)
    ensures Similarity(lex, Normalize(aspect), Str(Normalize(field))) == Similarity(lex, aspect, Str(field))
  {
    NormalizeIdempotent(aspect);
    NormalizeIdempotent(field);
  }
}
