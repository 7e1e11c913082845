/**
 * The aspect matcher shared by the syntactic, sequential-semantic and
 * parallel-semantic strategies: each query aspect is compared with the
 * entry's field of the same name; scores of at least 0.3 are summed into the
 * entry's total and counted; entries with no accepted aspect are dropped and
 * the rest are ranked by total, highest first, ties in registry order.
 *
 * The similarity strategy is a parameter. The query's aspects are the items
 * of a Python dict, in insertion order.
 */
module AspectMatcher {
  import opened Records
  import opened Ranking

  /** `min_threshold`. */
  const MinThreshold: real := 0.3

  type Aspects = seq<(string, string)>

  /** similarity(aspect text, field value), in [0, 1] for every real strategy. */
  type Similarity = (string, Value) -> real

  /** `aspect_key in entry and entry[aspect_key]`. */
  predicate HasField(entry: Descriptor, key: string)
  {
    key in entry && Truthy(entry[key])
  }

  /** The aspect is compared (the field is present and non-empty) and its
    * similarity reaches the threshold. */
  predicate Accepts(entry: Descriptor, aspect: (string, string), sim: Similarity)
  {
    HasField(entry, aspect.0) && sim(aspect.1, entry[aspect.0]) >= MinThreshold
  }

  /** What one aspect adds to the running total. */
  function AspectScore(entry: Descriptor, aspect: (string, string), sim: Similarity): real
  {
    if Accepts(entry, aspect, sim) then sim(aspect.1, entry[aspect.0]) else 0.0
  }

  /** `total_score` after the given aspects. */
  function Total(entry: Descriptor, aspects: Aspects, sim: Similarity): real
  {
    if aspects == [] then 0.0
    else Total(entry, aspects[..|aspects| - 1], sim) + AspectScore(entry, aspects[|aspects| - 1], sim)
  }

  /** `matched_aspects` after the given aspects. */
  function MatchCount(entry: Descriptor, aspects: Aspects, sim: Similarity): nat
  {
    if aspects == [] then 0
    else MatchCount(entry, aspects[..|aspects| - 1], sim)
         + (if Accepts(entry, aspects[|aspects| - 1], sim) then 1 else 0)
  }

  predicate Qualifies(entry: Descriptor, aspects: Aspects, sim: Similarity)
  {
    MatchCount(entry, aspects, sim) > 0
  }

  /** The scored entries appended to `scored_entries`, in registry order. */
  function ScoreRegistry(registry: seq<Descriptor>, aspects: Aspects, sim: Similarity): seq<Scored>
  {
    if registry == [] then []
    else
      var last := registry[|registry| - 1];
      ScoreRegistry(registry[..|registry| - 1], aspects, sim)
      + (if Qualifies(last, aspects, sim) then [Scored(Total(last, aspects, sim), last)] else [])
  }

  /** The registry entries with at least one accepted aspect, in registry order. */
  function Qualifying(registry: seq<Descriptor>, aspects: Aspects, sim: Similarity): seq<Descriptor>
  {
    if registry == [] then []
    else
      var last := registry[|registry| - 1];
      Qualifying(registry[..|registry| - 1], aspects, sim)
      + (if Qualifies(last, aspects, sim) then [last] else [])
  }

  /** The ranked output of `match_services`. */
  function Rank(registry: seq<Descriptor>, aspects: Aspects, sim: Similarity): seq<Descriptor>
  {
    Services(SortByScore(ScoreRegistry(registry, aspects, sim)))
  }

  /** The entries of `ds` whose total is `v`, in their order in `ds`. */
  function WithTotal(ds: seq<Descriptor>, v: real, aspects: Aspects, sim: Similarity): seq<Descriptor>
  {
    if ds == [] then []
    else WithTotal(ds[..|ds| - 1], v, aspects, sim)
         + (if Total(ds[|ds| - 1], aspects, sim) == v then [ds[|ds| - 1]] else [])
  }

  /** `{"func_name": query, "docstring": query}`. */
  function QueryAspects(query: string): Aspects
  {
    [("func_name", query), ("docstring", query)]
  }

  /** What `predict` returns: `{}` for an empty query or when nothing is
    * ranked, else the top-ranked entry. */
  function TopMatch(registry: seq<Descriptor>, query: string, sim: Similarity): Descriptor
  {
    if query == "" then Empty
    else
      var ranked := Rank(registry, QueryAspects(query), sim);
      if ranked == [] then Empty else ranked[0]
  }

  /** Entry `k` qualifies, no qualifying entry has a larger total, and every
    * qualifying entry before it has a smaller one. */
  predicate IsFirstBest(registry: seq<Descriptor>, aspects: Aspects, sim: Similarity, k: int)
  {
    && 0 <= k < |registry|
    && Qualifies(registry[k], aspects, sim)
    && (forall j :: 0 <= j < |registry| && Qualifies(registry[j], aspects, sim) ==>
          Total(registry[j], aspects, sim) <= Total(registry[k], aspects, sim))
    && (forall j :: 0 <= j < k && Qualifies(registry[j], aspects, sim) ==>
          Total(registry[j], aspects, sim) < Total(registry[k], aspects, sim))
  }

  // ---------------------------------------------------------------------------
  // match_services

  /** The registry scan, the stable descending sort and the projection of
    * `match_services`. */
  method MatchServices(registry: seq<Descriptor>, aspects: Aspects, sim: Similarity)
    returns (ranked: seq<Descriptor>)
    ensures ranked == Rank(registry, aspects, sim)
  {
    var scored: seq<Scored> := [];
    for i := 0 to |registry|
      invariant scored == ScoreRegistry(registry[..i], aspects, sim)
    {
      var entry := registry[i];
      var total := 0.0;
      var matched := 0;
      for j := 0 to |aspects|
        invariant total == Total(entry, aspects[..j], sim)
        invariant matched == MatchCount(entry, aspects[..j], sim)
      {
        var (key, value) := aspects[j];
        if key in entry && Truthy(entry[key]) {
          var s := sim(value, entry[key]);
          if s >= MinThreshold {
            total := total + s;
            matched := matched + 1;
          }
        }
        assert aspects[..j + 1][..j] == aspects[..j];
      }
      assert aspects[..|aspects|] == aspects;
      if matched > 0 {
        scored := scored + [Scored(total, entry)];
      }
      assert registry[..i + 1][..i] == registry[..i];
    }
    assert registry[..|registry|] == registry;
    if scored == [] {
      return [];
    }
    scored := SortByScore(scored);
    ranked := Services(scored);
  }

  // ---------------------------------------------------------------------------
  // Per-entry scoring

  /** Each accepted aspect adds at least the threshold, so the total is at
    * least 0.3 per match and 0 without matches; at most one match per aspect,
    * and at most 1 per match when the similarity is at most 1. */
  lemma {:induction false} TotalBounds(entry: Descriptor, aspects: Aspects, sim: Similarity)
    ensures Total(entry, aspects, sim) >= MinThreshold * MatchCount(entry, aspects, sim) as real
    ensures MatchCount(entry, aspects, sim) == 0 ==> Total(entry, aspects, sim) == 0.0
    ensures MatchCount(entry, aspects, sim) <= |aspects|
    ensures (forall q, v :: sim(q, v) <= 1.0) ==>
              Total(entry, aspects, sim) <= MatchCount(entry, aspects, sim) as real
  {
    if aspects != [] {
      TotalBounds(entry, aspects[..|aspects| - 1], sim);
    }
  }

  /** An entry qualifies exactly when its total is positive. */
  lemma QualifiesIffPositive(entry: Descriptor, aspects: Aspects, sim: Similarity)
    ensures Qualifies(entry, aspects, sim) <==> Total(entry, aspects, sim) > 0.0
  {
    TotalBounds(entry, aspects, sim);
  }

  /** An entry qualifies exactly when one of the aspects is accepted, that is
    * when the entry has that aspect's field with a non-empty value and the
    * similarity reaches the threshold; an entry lacking all of the aspects'
    * fields never qualifies. */
  lemma {:induction false} QualifiesNeedsField(entry: Descriptor, aspects: Aspects, sim: Similarity)
    ensures Qualifies(entry, aspects, sim) <==> exists k :: 0 <= k < |aspects| && Accepts(entry, aspects[k], sim)
    ensures Qualifies(entry, aspects, sim) ==> exists k :: 0 <= k < |aspects| && HasField(entry, aspects[k].0)
  {
    if aspects != [] {
      var p := aspects[..|aspects| - 1];
      QualifiesNeedsField(entry, p, sim);
      assert forall k :: 0 <= k < |p| ==> aspects[k] == p[k];
      if MatchCount(entry, p, sim) > 0 {
        var k :| 0 <= k < |p| && Accepts(entry, p[k], sim);
        assert Accepts(entry, aspects[k], sim);
      } else if Qualifies(entry, aspects, sim) {
        assert Accepts(entry, aspects[|aspects| - 1], sim);
      }
    }
  }

  /** Scores below the threshold contribute nothing: two similarity functions
    * that agree wherever either reaches the threshold give every entry the
    * same total and the same number of matches. */
  lemma {:induction false} SubThresholdIgnored(entry: Descriptor, aspects: Aspects, sim1: Similarity, sim2: Similarity)
    requires forall q, v :: sim1(q, v) >= MinThreshold || sim2(q, v) >= MinThreshold ==> sim1(q, v) == sim2(q, v)
    ensures Total(entry, aspects, sim1) == Total(entry, aspects, sim2)
    ensures MatchCount(entry, aspects, sim1) == MatchCount(entry, aspects, sim2)
  {
    if aspects != [] {
      SubThresholdIgnored(entry, aspects[..|aspects| - 1], sim1, sim2);
    }
  }

  // ---------------------------------------------------------------------------
  // The registry scan

  lemma {:induction false} ScoreRegistryFacts(registry: seq<Descriptor>, aspects: Aspects, sim: Similarity)
    ensures forall x :: x in ScoreRegistry(registry, aspects, sim) ==>
              x.score == Total(x.service, aspects, sim) && Qualifies(x.service, aspects, sim) && x.service in registry
    ensures forall k :: 0 <= k < |registry| && Qualifies(registry[k], aspects, sim) ==>
              Scored(Total(registry[k], aspects, sim), registry[k]) in ScoreRegistry(registry, aspects, sim)
    ensures Services(ScoreRegistry(registry, aspects, sim)) == Qualifying(registry, aspects, sim)
  {
    if registry != [] {
      var p := registry[..|registry| - 1];
      ScoreRegistryFacts(p, aspects, sim);
      var sc := ScoreRegistry(registry, aspects, sim);
      assert forall x :: x in p ==> x in registry;
      forall k | 0 <= k < |registry| && Qualifies(registry[k], aspects, sim)
        ensures Scored(Total(registry[k], aspects, sim), registry[k]) in sc
      {
        if k < |p| { assert registry[k] == p[k]; }
      }
      assert Services(sc) == Services(ScoreRegistry(p, aspects, sim)) + Services(sc[|ScoreRegistry(p, aspects, sim)|..]);
    }
  }

  lemma {:induction false} QualifyingMembers(registry: seq<Descriptor>, aspects: Aspects, sim: Similarity)
    ensures |Qualifying(registry, aspects, sim)| <= |registry|
    ensures forall e :: e in Qualifying(registry, aspects, sim) <==> e in registry && Qualifies(e, aspects, sim)
  {
    if registry != [] {
      var p := registry[..|registry| - 1];
      QualifyingMembers(p, aspects, sim);
      assert registry == p + [registry[|registry| - 1]];
    }
  }

  lemma ServicesCons(a: Scored, s: seq<Scored>)
    ensures Services([a] + s) == [a.service] + Services(s)
  {
    assert forall i :: 0 < i <= |s| ==> ([a] + s)[i] == s[i - 1];
  }

  lemma {:induction false} ServicesInsert(x: Scored, s: seq<Scored>)
    ensures multiset(Services(Insert(x, s))) == multiset{x.service} + multiset(Services(s))
  {
    if s != [] && x.score < s[0].score {
      ServicesInsert(x, s[1..]);
      ServicesCons(s[0], Insert(x, s[1..]));
      ServicesCons(s[0], s[1..]);
      assert s == [s[0]] + s[1..];
    } else {
      ServicesCons(x, s);
    }
  }

  lemma {:induction false} ServicesSortPermutes(s: seq<Scored>)
    ensures multiset(Services(SortByScore(s))) == multiset(Services(s))
  {
    if s != [] {
      ServicesSortPermutes(s[1..]);
      ServicesInsert(s[0], SortByScore(s[1..]));
      ServicesCons(s[0], s[1..]);
      assert s == [s[0]] + s[1..];
    }
  }

  /** Projecting the entries of one score commutes with selecting by total,
    * when every score is its entry's total. */
  lemma {:induction false} ServicesWithScore(s: seq<Scored>, v: real, aspects: Aspects, sim: Similarity)
    requires forall x :: x in s ==> x.score == Total(x.service, aspects, sim)
    ensures Services(WithScore(s, v)) == WithTotal(Services(s), v, aspects, sim)
    decreases |s|
  {
    if s != [] {
      var p, last := s[..|s| - 1], s[|s| - 1];
      assert s == p + [last];
      WithScoreAppend(p, [last], v);
      assert WithScore([last], v) == if last.score == v then [last] else [];
      ServicesWithScore(p, v, aspects, sim);
      assert Services(s)[..|s| - 1] == Services(p);
      assert Services(WithScore(s, v)) == Services(WithScore(p, v)) + Services(WithScore([last], v));
    }
  }

  // ---------------------------------------------------------------------------
  // Properties of the ranked output

  /** The output holds exactly the entries with at least one accepted aspect,
    * each as often as in the registry, so it is never longer than the
    * registry; it is empty exactly when no entry qualifies. */
  lemma RankIsPermutationOfQualifying(registry: seq<Descriptor>, aspects: Aspects, sim: Similarity)
    ensures multiset(Rank(registry, aspects, sim)) == multiset(Qualifying(registry, aspects, sim))
    ensures forall e :: e in Rank(registry, aspects, sim) <==> e in registry && Qualifies(e, aspects, sim)
    ensures |Rank(registry, aspects, sim)| <= |registry|
    ensures Rank(registry, aspects, sim) == [] <==>
              forall k :: 0 <= k < |registry| ==> !Qualifies(registry[k], aspects, sim)
  {
    var sc := ScoreRegistry(registry, aspects, sim);
    ScoreRegistryFacts(registry, aspects, sim);
    ServicesSortPermutes(sc);
    QualifyingMembers(registry, aspects, sim);
    var r := Rank(registry, aspects, sim);
    assert |r| == |Qualifying(registry, aspects, sim)| by {
      assert |multiset(r)| == |multiset(Qualifying(registry, aspects, sim))|;
    }
    forall e ensures e in r <==> e in Qualifying(registry, aspects, sim) {
      assert e in r <==> e in multiset(r);
    }
    if r != [] {
      assert r[0] in r;
    } else {
      forall k | 0 <= k < |registry| ensures !Qualifies(registry[k], aspects, sim) {
        assert registry[k] in registry;
      }
    }
  }

  /** The output is ordered by total score, highest first. */
  lemma RankSortedByTotal(registry: seq<Descriptor>, aspects: Aspects, sim: Similarity)
    ensures forall i, j :: 0 <= i < j < |Rank(registry, aspects, sim)| ==>
              Total(Rank(registry, aspects, sim)[i], aspects, sim) >= Total(Rank(registry, aspects, sim)[j], aspects, sim)
  {
    var sc := ScoreRegistry(registry, aspects, sim);
    var st := SortByScore(sc);
    ScoreRegistryFacts(registry, aspects, sim);
    SortSorted(sc);
    SortPermutes(sc);
    forall i | 0 <= i < |st| ensures st[i].score == Total(st[i].service, aspects, sim) {
      assert st[i] in multiset(sc);
    }
  }

  /** Entries with equal totals appear in registry order. */
  lemma RankStable(registry: seq<Descriptor>, aspects: Aspects, sim: Similarity, v: real)
    ensures WithTotal(Rank(registry, aspects, sim), v, aspects, sim) == WithTotal(Qualifying(registry, aspects, sim), v, aspects, sim)
  {
    var sc := ScoreRegistry(registry, aspects, sim);
    var st := SortByScore(sc);
    ScoreRegistryFacts(registry, aspects, sim);
    SortPermutes(sc);
    forall x | x in st ensures x.score == Total(x.service, aspects, sim) {
      assert x in multiset(sc);
    }
    SortStable(sc, v);
    ServicesWithScore(st, v, aspects, sim);
    ServicesWithScore(sc, v, aspects, sim);
  }

  /** Whatever similarity scores below the threshold are, the ranking is the same. */
  lemma {:induction false} RankIgnoresSubThreshold(registry: seq<Descriptor>, aspects: Aspects, sim1: Similarity, sim2: Similarity)
    requires forall q, v :: sim1(q, v) >= MinThreshold || sim2(q, v) >= MinThreshold ==> sim1(q, v) == sim2(q, v)
    ensures Rank(registry, aspects, sim1) == Rank(registry, aspects, sim2)
  {
    assert ScoreRegistry(registry, aspects, sim1) == ScoreRegistry(registry, aspects, sim2) by {
      ScoreRegistryAgree(registry, aspects, sim1, sim2);
    }
  }

  lemma {:induction false} ScoreRegistryAgree(registry: seq<Descriptor>, aspects: Aspects, sim1: Similarity, sim2: Similarity)
    requires forall q, v :: sim1(q, v) >= MinThreshold || sim2(q, v) >= MinThreshold ==> sim1(q, v) == sim2(q, v)
    ensures ScoreRegistry(registry, aspects, sim1) == ScoreRegistry(registry, aspects, sim2)
  {
    if registry != [] {
      ScoreRegistryAgree(registry[..|registry| - 1], aspects, sim1, sim2);
      SubThresholdIgnored(registry[|registry| - 1], aspects, sim1, sim2);
    }
  }

  // ---------------------------------------------------------------------------
  // Top-1 selection

  /** Entry `k` is the first qualifying registry entry whose total is `m`. */
  predicate FirstOfTotal(registry: seq<Descriptor>, aspects: Aspects, sim: Similarity, m: real, k: int)
  {
    && 0 <= k < |registry| && Qualifies(registry[k], aspects, sim)
    && Total(registry[k], aspects, sim) == m
    && (forall j :: 0 <= j < k && Qualifies(registry[j], aspects, sim) ==> Total(registry[j], aspects, sim) != m)
  }

  lemma FirstOfTotalExtends(registry: seq<Descriptor>, aspects: Aspects, sim: Similarity, m: real, k: int)
    requires registry != [] && FirstOfTotal(registry[..|registry| - 1], aspects, sim, m, k)
    ensures FirstOfTotal(registry, aspects, sim, m, k)
  {
    var p := registry[..|registry| - 1];
    assert forall j :: 0 <= j <= k ==> registry[j] == p[j];
  }

  lemma FirstOfTotalLast(registry: seq<Descriptor>, aspects: Aspects, sim: Similarity, m: real)
    requires registry != []
    requires Qualifies(registry[|registry| - 1], aspects, sim) && Total(registry[|registry| - 1], aspects, sim) == m
    requires WithScore(ScoreRegistry(registry[..|registry| - 1], aspects, sim), m) == []
    ensures FirstOfTotal(registry, aspects, sim, m, |registry| - 1)
  {
    var p := registry[..|registry| - 1];
    ScoreRegistryFacts(p, aspects, sim);
    forall j | 0 <= j < |registry| - 1 && Qualifies(registry[j], aspects, sim)
      ensures Total(registry[j], aspects, sim) != m
    {
      assert registry[j] == p[j];
      WithScoreMembers(ScoreRegistry(p, aspects, sim), Total(p[j], aspects, sim));
    }
  }

  /** The first scored entry of total `m` comes from the first qualifying
    * registry entry whose total is `m`. */
  lemma {:induction false} FirstWithScore(registry: seq<Descriptor>, aspects: Aspects, sim: Similarity, m: real)
    requires WithScore(ScoreRegistry(registry, aspects, sim), m) != []
    ensures exists k :: FirstOfTotal(registry, aspects, sim, m, k)
                        && WithScore(ScoreRegistry(registry, aspects, sim), m)[0] == Scored(m, registry[k])
  {
    var n := |registry|;
    var p, last := registry[..n - 1], registry[n - 1];
    var tail := if Qualifies(last, aspects, sim) then [Scored(Total(last, aspects, sim), last)] else [];
    WithScoreAppend(ScoreRegistry(p, aspects, sim), tail, m);
    if WithScore(ScoreRegistry(p, aspects, sim), m) != [] {
      FirstWithScore(p, aspects, sim, m);
      var k :| FirstOfTotal(p, aspects, sim, m, k)
               && WithScore(ScoreRegistry(p, aspects, sim), m)[0] == Scored(m, p[k]);
      FirstOfTotalExtends(registry, aspects, sim, m, k);
      assert registry[k] == p[k];
    } else {
      assert WithScore(tail, m) != [];
      FirstOfTotalLast(registry, aspects, sim, m);
      assert WithScore(tail, m) == [Scored(m, last)];
    }
  }

  lemma QualifiesNotEmpty(entry: Descriptor, aspects: Aspects, sim: Similarity)
    requires Qualifies(entry, aspects, sim)
    ensures entry != Empty
  {
    QualifiesNeedsField(entry, aspects, sim);
  }

  /** No qualifying entry has a larger total than the head of the sorted scores. */
  lemma SortedHeadBoundsTotals(registry: seq<Descriptor>, aspects: Aspects, sim: Similarity)
    requires SortByScore(ScoreRegistry(registry, aspects, sim)) != []
    ensures forall j :: 0 <= j < |registry| && Qualifies(registry[j], aspects, sim) ==>
              Total(registry[j], aspects, sim) <= SortByScore(ScoreRegistry(registry, aspects, sim))[0].score
  {
    var sc := ScoreRegistry(registry, aspects, sim);
    var st := SortByScore(sc);
    ScoreRegistryFacts(registry, aspects, sim);
    SortSorted(sc);
    SortPermutes(sc);
    forall j | 0 <= j < |registry| && Qualifies(registry[j], aspects, sim)
      ensures Total(registry[j], aspects, sim) <= st[0].score
    {
      var x := Scored(Total(registry[j], aspects, sim), registry[j]);
      assert x in multiset(st);
      SortedHeadIsMax(st, x);
    }
  }

  /** The head of the ranking is the registry entry with the highest total,
    * the earliest one on a tie. */
  lemma RankHeadIsFirstBest(registry: seq<Descriptor>, aspects: Aspects, sim: Similarity)
    requires Rank(registry, aspects, sim) != []
    ensures exists k :: IsFirstBest(registry, aspects, sim, k) && Rank(registry, aspects, sim)[0] == registry[k]
  {
    var sc := ScoreRegistry(registry, aspects, sim);
    var st := SortByScore(sc);
    var m := st[0].score;
    SortPermutes(sc);
    assert st[0] in multiset(sc);
    SortStable(sc, m);
    assert WithScore(st, m)[0] == st[0];
    FirstWithScore(registry, aspects, sim, m);
    var k :| FirstOfTotal(registry, aspects, sim, m, k) && WithScore(sc, m)[0] == Scored(m, registry[k]);
    SortedHeadBoundsTotals(registry, aspects, sim);
    assert IsFirstBest(registry, aspects, sim, k);
  }

  /** `predict` answers `{}` exactly for an empty query or when no entry has
    * an accepted aspect; otherwise it answers the registry entry with the
    * highest total, the earliest one in registry order on a tie. */
  lemma TopMatchIsFirstBest(registry: seq<Descriptor>, query: string, sim: Similarity)
    ensures TopMatch(registry, query, sim) == Empty <==>
              query == "" || forall k :: 0 <= k < |registry| ==> !Qualifies(registry[k], QueryAspects(query), sim)
    ensures TopMatch(registry, query, sim) != Empty ==>
              exists k :: IsFirstBest(registry, QueryAspects(query), sim, k) && TopMatch(registry, query, sim) == registry[k]
  {
    if query != "" {
      var aspects := QueryAspects(query);
      RankIsPermutationOfQualifying(registry, aspects, sim);
      if Rank(registry, aspects, sim) != [] {
        RankHeadIsFirstBest(registry, aspects, sim);
        var k :| IsFirstBest(registry, aspects, sim, k) && Rank(registry, aspects, sim)[0] == registry[k];
        QualifiesNotEmpty(registry[k], aspects, sim);
      }
    }
  }
}
