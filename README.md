# Service matcher evaluation, modelled in Dafny

This project models the core of `servio-evaluation`, a harness that compares
service-discovery strategies. Each strategy gets a natural-language query and
must pick the matching service from a registry of service descriptors. Each
descriptor is one JSON object with fields such as `func_name`, `docstring`
and `url`.

The three local strategies share one **aspect matcher**:

- The query becomes the aspects `{"func_name": q, "docstring": q}`.
- Each aspect is scored against the entry's field of the same name, when the
  entry has that field with a non-empty value.
- A score of at least 0.3 is added to the entry's total and counted.
- Entries with no accepted aspect are dropped.
- The remaining entries are stably sorted by total, highest first.
- `predict` answers the first entry, or `{}`.

The strategies differ only in the score:

- **syntactic**: a bag-of-words cosine.
- **sequential semantic**: WordNet Wu-Palmer similarity, with a substring
  shortcut.
- **parallel semantic**: the same score, with entries scored by a process
  pool.

Around the matcher sit three more pieces:

- the **metrics calculator**, which computes precision@1 over predictions
  matched by `url`;
- the **evaluation harness**, which derives queries from the registry's own
  `func_name`s, asks every strategy every query and reports one row per
  strategy;
- the **dataset builder**, which turns GitHub search results into
  (description, service) pairs.

## Modules

- `Records`: JSON values, descriptors, `Option`/`Result`, evaluation items.
- `Text`: `preprocess_text` (lowercase, split, join with single spaces), and
  the Python string operations `in`, `replace` and `strip`.
- `Ranking`: the stable descending sort by score. It is modelled as a stable
  insertion sort. `SortIsUnique` shows that any stable descending
  arrangement equals it, so the algorithm Python uses does not matter.
- `AspectMatcher`: `match_services`, which is generic in the similarity
  function, and the `predict` answer `TopMatch`. Both the sequential and the
  syntactic wrappers contain a copy of this code; the copies differ only in
  the similarity they call.
- `Semantic`: `enhanced_similarity`. WordNet's senses and its pairwise
  measure are a `Lexicon` parameter. `parallel_wrapper.py` repeats both
  `preprocess_text` and `enhanced_similarity` with the same logic (only the
  layout differs), so both files are modelled by the same definitions.
- `SequencialWrapper`, `ParallelWrapper`, `SyntacticWrapper`: each strategy's
  wrapper class.
  - Its registry is a `const` field set by the constructor.
  - A factory method returns the constructor's error path
    (`FileNotFoundError`, `ValueError`) as a `Result`.
  - `ParallelWrapper` holds the worker and the order-preserving map. It
    proves that the parallel matcher returns exactly the sequential one's
    ranking.
- `Metrics`: `is_match`, `calculate_precision_at_1`, `calculate_all_metrics`.
- `Evaluate`: the two loops of `evaluate.py`'s `main`. Each strategy is a
  name plus its `predict` function.
- `BuildDataset`: `generate_evaluation_set`.

Source crashes are modelled as error results rather than excluded by
preconditions:

- a `func_name` that is present but not a string (`None.replace`);
- a truthy description that is not a string (`int.split`).

## Model

| member | source | states |
|---|---|---|
| Text.NormalizeCanonical | model_wrappers/direct_sequencial_wrapper.py:14-17 | the normalised text is lowercase; it has no leading or trailing whitespace, and its only whitespace is single spaces between words; it splits into the words of the lowercased input; it is empty exactly when the input is blank; the same definition models the copies with the same logic at model_wrappers/parallel_wrapper.py:16-18 and model_wrappers/direct_syntactic_wrapper.py:7-10 |
| Text.NormalizeIdempotent | model_wrappers/direct_sequencial_wrapper.py:17 | normalising an already normalised text changes nothing |
| Text.WordsOfJoin | model_wrappers/direct_sequencial_wrapper.py:17 | splitting a single-space join of words gives back exactly those words |
| Text.JoinCanonical | model_wrappers/direct_sequencial_wrapper.py:17 | joining words with single spaces gives canonical spacing; the join is empty iff there are no words; lowercase words give a lowercase join |
| Text.WordsAreWords | model_wrappers/direct_sequencial_wrapper.py:17 | `split()` yields non-empty, whitespace-free words, and they are lowercase when the input is |
| Text.WordsEmptyIffBlank | model_wrappers/direct_sequencial_wrapper.py:17 | `split()` yields no words exactly when the text is all whitespace |
| Text.LowerIsLower | model_wrappers/direct_sequencial_wrapper.py:17 | `lower()` output has no upper-case letter and is blank exactly when its input is |
| Text.LowerOfLower | model_wrappers/direct_sequencial_wrapper.py:17 | `lower()` leaves lowercase text unchanged |
| Text.IsSubstringAt | model_wrappers/direct_sequencial_wrapper.py:26 | `a in f` holds iff `a` occurs in `f` at some offset |
| Text.ReplaceAllChars | evaluate.py:25 | every character of a `replace` result comes from the input or from the replacement; a one-character pattern absent from the replacement is removed entirely; a text in which the pattern never occurs comes back unchanged |
| Text.StripTrims | evaluate.py:25 | `strip()` returns a contiguous slice of its input with only whitespace before and after it and none at its own ends, so it introduces no character; a text without surrounding whitespace comes back unchanged |
| Text.TrimStartSlice | evaluate.py:25 | `lstrip()` drops a prefix made only of whitespace and keeps the rest of its input, which does not start with whitespace |
| Text.TrimEndSlice | evaluate.py:25 | `rstrip()` drops a suffix made only of whitespace and keeps the rest of its input, which does not end with whitespace |
| Ranking.Insert | model_wrappers/direct_sequencial_wrapper.py:75 | inserting one scored entry adds exactly that entry, and the result starts with it or with the old head |
| Ranking.SortSorted | model_wrappers/direct_sequencial_wrapper.py:75 | the sort orders entries by score, highest first |
| Ranking.SortPermutes | model_wrappers/direct_sequencial_wrapper.py:75 | the sort is a permutation of its input |
| Ranking.SortStable | model_wrappers/direct_sequencial_wrapper.py:75 | entries of equal score keep their original relative order |
| Ranking.SortIsUnique | model_wrappers/direct_sequencial_wrapper.py:75 | any score-ordered arrangement that keeps each equal-score group in input order is exactly the modelled sort, so a stable descending sort has only one possible result |
| Ranking.SortedGroupsDetermine | model_wrappers/direct_sequencial_wrapper.py:75 | two score-ordered sequences with identical equal-score groups are identical |
| Ranking.Services | model_wrappers/direct_sequencial_wrapper.py:76 | the projection keeps length and takes each item's service |
| AspectMatcher.MatchServices | model_wrappers/direct_sequencial_wrapper.py:56-76 | the nested scoring loop, the empty-list return, the sort and the projection return exactly `Rank`, whose properties are the lemmas below |
| AspectMatcher.TotalBounds | model_wrappers/direct_sequencial_wrapper.py:57-68 | each accepted aspect adds at least 0.3; no match means total 0; at most one match per aspect; total at most the match count when scores are at most 1 |
| AspectMatcher.QualifiesIffPositive | model_wrappers/direct_sequencial_wrapper.py:66-70 | an entry has a match exactly when its total is positive |
| AspectMatcher.QualifiesNeedsField | model_wrappers/direct_sequencial_wrapper.py:63-69 | an entry has a match exactly when some aspect is accepted, that is when the entry has that aspect's field with a non-empty value and the similarity reaches 0.3; so an entry lacking all the aspects' fields never matches |
| AspectMatcher.SubThresholdIgnored | model_wrappers/direct_sequencial_wrapper.py:66-68 | scores below 0.3 affect neither total nor match count |
| AspectMatcher.RankIgnoresSubThreshold | model_wrappers/direct_sequencial_wrapper.py:66-76 | two similarities that agree wherever either reaches 0.3 give the same ranking |
| AspectMatcher.ScoreRegistryFacts | model_wrappers/direct_sequencial_wrapper.py:60-70 | every scored entry is a qualifying registry entry paired with its total, every qualifying entry is scored, and the scored services are the qualifying entries in registry order |
| AspectMatcher.QualifyingMembers | model_wrappers/direct_sequencial_wrapper.py:69-70 | an entry is kept iff it is in the registry and has a match; no more than the registry |
| AspectMatcher.ServicesSortPermutes | model_wrappers/direct_sequencial_wrapper.py:75-76 | sorting then projecting yields the same multiset of services as projecting |
| AspectMatcher.RankIsPermutationOfQualifying | model_wrappers/direct_sequencial_wrapper.py:69-76 | the output is a permutation of the matching entries; an entry appears iff it is in the registry and matches; the output is no longer than the registry; it is empty iff no entry matches |
| AspectMatcher.RankSortedByTotal | model_wrappers/direct_sequencial_wrapper.py:75-76 | the output is ordered by total, non-increasing |
| AspectMatcher.RankStable | model_wrappers/direct_sequencial_wrapper.py:75-76 | entries with equal totals appear in registry order |
| AspectMatcher.FirstWithScore | model_wrappers/direct_sequencial_wrapper.py:60-75 | the first scored entry of a given total comes from the first matching registry entry with that total |
| AspectMatcher.QualifiesNotEmpty | model_wrappers/direct_sequencial_wrapper.py:98-101 | a matching entry is never `{}`, so `{}` unambiguously means "no match" |
| AspectMatcher.RankHeadIsFirstBest | model_wrappers/direct_sequencial_wrapper.py:75-76 | the head of a non-empty ranking is the matching registry entry of highest total, the earliest in registry order on a tie |
| AspectMatcher.TopMatchIsFirstBest | model_wrappers/direct_sequencial_wrapper.py:87-101 | `predict` answers `{}` iff the query is empty or no entry matches; otherwise it answers the matching entry of highest total, the earliest in registry order on a tie |
| Semantic.EnhancedSimilarity | model_wrappers/direct_sequencial_wrapper.py:19-41 | the loop returns 0 for a blank side, 1 when the normalised aspect is in the normalised field, otherwise the running maximum over all sense pairs starting from 0 (0 with no senses on either side); it also models the copy with the same logic at model_wrappers/parallel_wrapper.py:20-37 |
| Semantic.CrossMaxOfNoFieldSenses | model_wrappers/direct_sequencial_wrapper.py:33-34 | with no field senses the maximum stays at 0 |
| Semantic.ScanRowIsMaximum | model_wrappers/direct_sequencial_wrapper.py:37-40 | one row of the nested loop ends at least at its start and at every pairwise score, and at one of them |
| Semantic.CrossMaxIsMaximum | model_wrappers/direct_sequencial_wrapper.py:32-41 | the nested loop yields a value that is at least 0 and at least every pairwise score (missing counted as 0), and is 0 or attained by some pair |
| Semantic.SimilarityBounds | model_wrappers/direct_sequencial_wrapper.py:19-41 | the score is never negative, and at most 1 when every pairwise score is |
| Semantic.SelfSimilarity | model_wrappers/direct_sequencial_wrapper.py:23-27 | a non-blank text scores 1 against itself |
| Semantic.BlankScoresZero | model_wrappers/direct_sequencial_wrapper.py:20-24 | a blank aspect, or a blank or non-string field, scores 0 |
| Semantic.SimilarityIgnoresFormatting | model_wrappers/direct_sequencial_wrapper.py:20-21 | pre-normalising either input leaves the score unchanged |
| SequencialWrapper.SequencialModelWrapper.constructor | model_wrappers/direct_sequencial_wrapper.py:79-85 | a wrapper holds a non-empty registry |
| SequencialWrapper.NewSequencialModelWrapper | model_wrappers/direct_sequencial_wrapper.py:79-84 | a missing file fails with not-found, an empty registry with registry-empty, otherwise a fresh wrapper holds the loaded registry |
| SequencialWrapper.SequencialModelWrapper.Predict | model_wrappers/direct_sequencial_wrapper.py:87-101 | `predict` returns `TopMatch` under the semantic similarity |
| ParallelWrapper.MapWorker | model_wrappers/parallel_wrapper.py:70-73 | the pool's map yields one result per registry entry |
| ParallelWrapper.MatchSingleEntryWorker | model_wrappers/parallel_wrapper.py:52-67 | the worker returns None iff no aspect is accepted, otherwise the entry with the sum of its accepted similarities |
| ParallelWrapper.ParallelScoresMatchSequential | model_wrappers/parallel_wrapper.py:69-75 | the non-None worker results, in input order, are exactly the list the sequential scan builds |
| ParallelWrapper.MatchServicesParallel | model_wrappers/parallel_wrapper.py:69-81 | the parallel matcher returns exactly the sequential `match_services` ranking |
| ParallelWrapper.ParallelModelWrapper.constructor | model_wrappers/parallel_wrapper.py:84-90 | a wrapper holds a non-empty registry |
| ParallelWrapper.NewParallelModelWrapper | model_wrappers/parallel_wrapper.py:84-89 | not-found and registry-empty errors, else a fresh wrapper with the loaded registry |
| ParallelWrapper.ParallelModelWrapper.Predict | model_wrappers/parallel_wrapper.py:92-101 | `predict` returns the same answer as the sequential wrapper's |
| SyntacticWrapper.BlankScoresZero | model_wrappers/direct_syntactic_wrapper.py:12-16 | a blank aspect or a blank or non-string field scores 0 without consulting the cosine |
| SyntacticWrapper.SyntacticSimilarityBounds | model_wrappers/direct_syntactic_wrapper.py:12-21 | the score lies in [0, 1] whenever the cosine does |
| SyntacticWrapper.SyntacticIgnoresFormatting | model_wrappers/direct_syntactic_wrapper.py:13-14 | pre-normalising either input leaves the score unchanged |
| SyntacticWrapper.MatchServices | model_wrappers/direct_syntactic_wrapper.py:36-56 | the syntactic `match_services` returns `Rank` under the syntactic score, so every `AspectMatcher` ranking lemma applies to it |
| SyntacticWrapper.SyntacticModelWrapper.constructor | model_wrappers/direct_syntactic_wrapper.py:59-65 | a wrapper holds a non-empty registry |
| SyntacticWrapper.NewSyntacticModelWrapper | model_wrappers/direct_syntactic_wrapper.py:59-64 | not-found and registry-empty errors, else a fresh wrapper with the loaded registry |
| SyntacticWrapper.SyntacticModelWrapper.Predict | model_wrappers/direct_syntactic_wrapper.py:67-81 | `predict` returns `TopMatch` under the syntactic score |
| Metrics.IsMatchFacts | metrics_calculator.py:3-6 | an empty side never matches; two non-empty services that both lack `url` match; matching is symmetric |
| Metrics.CalculatePrecisionAt1 | metrics_calculator.py:8-19 | the counting loop returns 0 for no predictions, otherwise correct count over length |
| Metrics.CountMatchesBounds | metrics_calculator.py:15-17 | the correct count is at most the length, equals it iff every prediction matches, and is 0 iff none does |
| Metrics.PrecisionBounds | metrics_calculator.py:8-19 | precision@1 lies in [0, 1], is 1 when all of at least one prediction match, and 0 when none does |
| Metrics.CalculateAllMetrics | metrics_calculator.py:21-27 | reports the precision@1 of the list and its length as the query count |
| Evaluate.DerivedQueryShape | evaluate.py:25 | a missing `func_name` gives the empty query; a derived query has no `_` and no surrounding whitespace |
| Text.ReplaceAllPrefix | evaluate.py:25 | an occurrence of the pattern at the front is replaced and the scan resumes after it, so occurrences do not overlap |
| Evaluate.PlainNameDerivesItself | evaluate.py:25 | a string `func_name` with no `_`, no `create` and no surrounding whitespace is its own derived query |
| Evaluate.BuildEvaluationData | evaluate.py:23-27 | the query-derivation loop returns `EvaluationData` of the dataset, including its failure |
| Evaluate.FailurePersists | evaluate.py:24-25 | once a service crashes the loop, the whole run fails the same way |
| Evaluate.EvaluationDataFails | evaluate.py:24-25 | the run fails iff some `func_name` is present but not a string, and it reports the first such position |
| Evaluate.EvaluationDataMembers | evaluate.py:24-27 | an item appears iff a service's derived query is non-empty, pairing that query with the service; no more items than services |
| Evaluate.EvaluationDataAppend | evaluate.py:24-27 | the items of a concatenation are the items of each part in order, so dataset order is kept |
| Evaluate.CollectPredictions | evaluate.py:44-54 | one prediction per evaluation item, in order, with the item's query and expected service and the strategy's answer |
| Evaluate.RunEvaluation | evaluate.py:39-59 | one report row per strategy, in order, holding the precision@1 of that strategy's predictions, the item count, the strategy name and the dataset path |
| Evaluate.ReportRowBounds | evaluate.py:56-59 | every report row has precision@1 in [0, 1] and counts every item |
| BuildDataset.GenerateEvaluationSet | build_dataset.py:26-41 | None or empty input gives no records; otherwise the loop returns `EvaluationSet`, including its failure |
| BuildDataset.FailurePersists | build_dataset.py:32-34 | once a repository crashes the loop, the whole run fails the same way |
| BuildDataset.KeepsFacts | build_dataset.py:33-34 | a repository is kept iff its description has more than five words, and a kept description is not blank |
| BuildDataset.EvaluationSetFails | build_dataset.py:33-34 | the run fails iff some description is truthy but not a string, and it reports the first such position |
| BuildDataset.EvaluationSetMembers | build_dataset.py:32-41 | a record appears iff its repository's description is kept, built from that repository; no more records than repositories |
| BuildDataset.ItemOfFacts | build_dataset.py:35-40 | a record's query is its docstring, of more than five words, and its `func_name` and `url` are the repository's `name` and `html_url` |
| BuildDataset.EvaluationSetAppend | build_dataset.py:32-41 | the records of a concatenation are the records of each part in order, so input order is kept |

## Left out

- Registry and dataset file reading (`load_registry`, `load_dataset`, `os.path.exists`): the wrapper factories take whether the file exists and the records read from it as parameters, and skipping invalid JSON lines is not modelled.
- WordNet (`wn.synsets`, `wup_similarity`, the `nltk.download` blocks) is a `Lexicon` parameter; nothing is assumed about it beyond the shape of its answers.
- The sklearn cosine (`CountVectorizer`, `cosine_similarity`) is a `Cosine` parameter.
- SyntacticWrapper.SyntacticSimilarity: the cosine is total here, although `CountVectorizer` raises on two texts with no token of two or more word characters.
- SyntacticWrapper.SyntacticSimilarityBounds: holds only under an assumed [0, 1] bound on the cosine, since the cosine is not modelled.
- `ProcessPoolExecutor` concurrency: the pool's map is a sequential, order-preserving loop over the worker.
- The LLM strategy (`direct_llm_wrapper.py`) is not part of this model. It depends on a network API and is not deterministic. `Evaluate.RunEvaluation` treats every strategy's `predict` as a function of the query.
- `fetch_repositories` and `get_github_token_from_env` (HTTP and the environment) are left out; `GenerateEvaluationSet` receives the result list.
- Console output, `tqdm` progress bars, the pandas CSV report and writing `evaluation_dataset.json` are left out.
- Scores are reals: floating-point rounding and summation order, which could in principle change ties or the 0.3 threshold test, are not modelled.
- `lower()` is modelled for ASCII letters only; `split()` uses Python's whitespace set for `str.isspace`.
- JSON values are null, strings and integers; booleans, floats, arrays and nested objects are not representable in the model.
- Aspects are a sequence of (key, text) pairs; a Python dict also guarantees distinct keys, which the model neither needs nor assumes.
