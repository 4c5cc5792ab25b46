# MinHash / LSH similarity engine in Dafny

This project models the computational core of a MinHash and locality-sensitive
hashing (LSH) assignment in Dafny. The core has these parts:

- exact Jaccard similarity of two sets;
- a seeded family of affine hash functions `h(x) = ((a·x + b) mod P) mod m`,
  with `P = 4 294 967 311`;
- per-set MinHash signatures, using the sentinel `m` for an empty set;
- the agreement-fraction estimator;
- the LSH S-curve `f(s) = 1 - (1 - s^b)^r`, its slope, and the choice of
  `(r, b)` with `r·b = t`;
- banding of a MovieLens signature matrix into candidate pairs, the
  brute-force estimate over all pairs, the threshold filter, and
  false-positive and false-negative counts;
- character and word k-grams;
- the report helpers: pairwise tables, k-gram tables per configuration,
  MinHash estimate rows, and the "diminishing returns" choice of t;
- document normalisation;
- the fixed-width table formatter of the MovieLens command line.

The files mirror the Python modules:

| Dafny file | models |
|---|---|
| `jaccard.dfy` | `src/jaccard.py` |
| `minhash.dfy` | `src/minhash.py` |
| `lsh.dfy` | `src/lsh.py` |
| `movielens_analysis.dfy` | `src/movielens_analysis.py` |
| `kgrams.dfy` | `src/kgrams.py` |
| `reporting.dfy` | `src/reporting.py` |
| `io_utils.dfy` | `normalize_document` in `src/io_utils.py` |
| `cli_movielens.dfy` | `format_table` in `src/cli_movielens.py` |

Three support modules hold the Python built-ins that several modules rely on:

- `wrappers.dfy`: a `Result` type standing for the exceptions, and a dict-filling loop;
- `strings.dfy`: `str.split`, `sep.join`, `ljust`, `"-" * n`, string ordering and `str(int)`;
- `combinatorics.dfy`: `itertools.combinations(xs, 2)`.

Pure Python code becomes functions and lemmas. Loops that fill a dict, a
list or a set become methods with `while` loops. Each such method is proved
equal to a specification function, and the properties are proved about that
function. The stateful `random.Random` generator is a class whose draw counter
advances. The `widths` list of `format_table` is an array updated in place.

Exceptions become `Err(...)` values of a `Result`. Each error condition
is stated as an if-and-only-if.

Python's floats are modelled as exact `real`s. Python's `%` is the
floor remainder (`PyMod`), and `float ** int` fails on `0.0 ** -1`
(`PyPow`). `int()` of a float truncates toward zero (`Trunc`).

`generate_hash_functions` re-seeds on every call and draws `a` and then `b`
for each function in order, so a family of `count` functions is a prefix of
a larger family with the same seed (`MinHash.FamilyPrefix`).

## Model

| member | source | states |
|---|---|---|
| Jaccard.Similarity | src/jaccard.py:10-20 | Two empty sets give 1.0. Otherwise `r·|A∪B| = |A∩B|`, and the result lies in [0, 1]. The empty-union branch is proved dead. |
| Jaccard.Symmetric | src/jaccard.py:17-20 | `jaccard(A, B) == jaccard(B, A)` |
| Jaccard.SelfSimilar | src/jaccard.py:15-20 | `jaccard(A, A) == 1.0`, for empty and non-empty A |
| Jaccard.ZeroIffDisjoint | src/jaccard.py:15-20 | The result is 0 iff A and B are disjoint and not both empty. |
| Jaccard.OneIffEqual | src/jaccard.py:15-20 | The result is 1 iff A == B. |
| MinHash.PyMod | src/minhash.py:23 | Python's `%`: in [0, m) for m > 0, in (m, 0] for m < 0, and the Euclidean remainder when m > 0. |
| MinHash.Apply | src/minhash.py:21-23 | `apply(x, m)` lies in [0, m) for m > 0, and depends only on a, b, prime, x and m. |
| MinHash.Random.constructor | src/minhash.py:28 | `random.Random(seed)` has drawn nothing yet. |
| MinHash.Random.RandRange | src/minhash.py:31-32 | Each call returns the next draw of the seeded stream, in [lo, hi), and advances the counter by one. |
| MinHash.Draw | src/minhash.py:31-32 | A draw for `randrange(lo, hi)` lies in [lo, hi). |
| MinHash.FamilyShape | src/minhash.py:26-34 | The family has `count` members (none for count ≤ 0), each with 1 ≤ a < PRIME, 0 ≤ b < PRIME and prime == PRIME. |
| MinHash.FamilyPrefix | src/minhash.py:28-34 | Same seed: the family of c1 ≤ c2 functions is the prefix of the family of c2; in particular the same (count, seed) gives the same list. |
| MinHash.GenerateHashFunctions | src/minhash.py:26-34 | The loop returns the family for (count, seed): `count` functions in the stated ranges. |
| MinHash.MinApply | src/minhash.py:55 | `min(apply(h, x) for x in xs)` is at most every apply value and equal to one of them. |
| MinHash.SignatureOfSet | src/minhash.py:50-57 | The list-based signature is the signature of the list's set: sentinel m everywhere for an empty set, else the per-function minimum over the set. |
| MinHash.SignatureUnique | src/minhash.py:50-57 | A set has exactly one signature under a given family. |
| MinHash.SignatureSetInvariant | src/minhash.py:66-74 | The signature depends only on the set of items, not their order or repetitions. |
| MinHash.SignatureRange | src/minhash.py:50-57 | The length is `len(hash_functions)`. An empty input gives `[m] * len`. Otherwise every entry is in [0, m). |
| MinHash.SentinelSeparatesEmpty | src/minhash.py:50-57 | For m > 0, an empty and a non-empty input differ at every position. |
| MinHash.SignatureFromInts | src/minhash.py:60-74 | The loop returns the signature of `items`. |
| MinHash.HashAll | src/minhash.py:49 | One hash per token, in order, each the abstract 64-bit `hash_token`. |
| MinHash.TokenSignature | src/minhash.py:43-57 | The signature of the pre-hashed tokens, which is the signature of their set. |
| MinHash.Enumerate | src/minhash.py:66 | `list(items)` of a set holds each element exactly once. |
| MinHash.SignaturesForSets | src/minhash.py:77-86 | One signature per input set, in input order, each the signature of that set. |
| MinHash.Matches | src/minhash.py:95 | The number of agreeing positions is at most the length. |
| MinHash.MatchesSymmetric | src/minhash.py:95 | The agreement count is symmetric. |
| MinHash.MatchesAllIffEqual | src/minhash.py:95-96 | Every position agrees iff the signatures are equal. |
| MinHash.MatchesNoneIffDisjoint | src/minhash.py:95-96 | No position agrees iff the signatures differ everywhere. |
| MinHash.EstimateFromSignatures | src/minhash.py:89-96 | A length mismatch is an error, and only then. Two empty signatures give 1.0. Otherwise `r·len = matches`, in [0, 1]. |
| MinHash.EstimateSymmetric | src/minhash.py:89-96 | The estimate is symmetric, error included. |
| MinHash.EstimateOneIffIdentical | src/minhash.py:91-96 | For equal lengths the estimate is 1.0 iff the signatures are identical. |
| MinHash.ApproximateJaccard | src/minhash.py:99-110 | Both signatures come from the same family and have length t (0 for t ≤ 0). The result is their estimate, in [0, 1], and 1.0 for t ≤ 0. |
| MinHash.SameTokensEstimateOne | src/minhash.py:99-110 | Token lists with the same set are estimated 1.0. |
| MinHash.EmptyAgainstNonEmptyEstimateZero | src/minhash.py:50-51 | With m > 0 and at least one function, an empty token list against a non-empty one is estimated 0.0. |
| Lsh.PyPow | src/lsh.py:25 | `x ** n` fails iff x == 0.0 and n < 0; for n ≥ 0 it is the power. |
| Lsh.PowUnit | src/lsh.py:25 | Powers of a number in [0, 1] stay in [0, 1]. |
| Lsh.PowMonotone | src/lsh.py:25 | `x^n` is non-decreasing for x ≥ 0. |
| Lsh.LshProbability | src/lsh.py:21-25 | Fails with SimilarityOutOfRange iff s is outside [0, 1]. Otherwise, for r, b ≥ 0, the value lies in [0, 1]. |
| Lsh.ProbabilityFormula | src/lsh.py:25 | For r, b ≥ 1 and s in [0, 1] the value is `1 - (1 - s^b)^r`. |
| Lsh.ProbabilityEndpoints | src/lsh.py:25 | f(0) = 0 and f(1) = 1 for r, b ≥ 1. |
| Lsh.ProbabilityMonotone | src/lsh.py:25 | f is non-decreasing on [0, 1]. |
| Lsh.LshSlope | src/lsh.py:28-34 | 0 when s ≤ 0 or s ≥ 1; defined inside (0, 1) for r ≥ 1. |
| Lsh.SlopeFormula | src/lsh.py:34 | Inside (0, 1), for r, b ≥ 1, the slope is `r·b·s^(b-1)·(1-s^b)^(r-1)`. |
| Lsh.SlopeNonNegative | src/lsh.py:34 | Inside (0, 1), for r, b ≥ 1, the slope is non-negative. |
| Lsh.FactorsFromSpec | src/lsh.py:39-41 | From `lo` on: exactly the divisors r ≥ lo of n, with `r·b == n`, in strictly increasing r. |
| Lsh.FactorPairsSpec | src/lsh.py:37-41 | `factor_pairs(n)` yields exactly the `(r, n / r)` with 1 ≤ r ≤ n and r dividing n, each with r·b == n, in strictly increasing r. It yields nothing for n ≤ 0 and starts with (1, n) otherwise. |
| Lsh.ChooseLshParams | src/lsh.py:44-77 | Error for t ≤ 0 (no pairs) and for tau outside [0, 1]; otherwise the result is a factor pair with r·b == t whose distance `|f(tau) - 0.5|` is minimal over all pairs. No pair is strictly better, and every earlier pair is beaten, so ties on distance and slope keep the first. |
| Lsh.ConsiderPair | src/lsh.py:55-72 | One step of the scan keeps the best-so-far invariant: the first pair is taken; a later one replaces the best only when strictly closer, or equally close and strictly steeper. |
| Lsh.TieBreakExample | src/lsh.py:69-71 | For t = 2 and tau = 0.5, (1, 2) and (2, 1) tie on distance and slope, and the first, (1, 2), is kept. |
| Combinatorics.CombinationsLength | src/reporting.py:19 | n items give n(n-1)/2 pairs. |
| Combinatorics.CombinationsAt | src/movielens_analysis.py:19 | `(xs[i], xs[j])` for i < j sits at position PairIndex(n, i, j). |
| Combinatorics.CombinationsMember | src/movielens_analysis.py:19 | Every position is PairIndex(n, i, j) of some i < j. |
| Combinatorics.CombinationsHead | src/movielens_analysis.py:19 | The first n - 1 pairs pair xs[0] with each later item. |
| Combinatorics.CombinationsTail | src/movielens_analysis.py:19 | The later pairs are the combinations of xs[1..]. |
| Combinatorics.PairIndexOrdered | src/movielens_analysis.py:28 | Pairs are enumerated in lexicographic order of (i, j). |
| Combinatorics.CombinationsMembership | src/reporting.py:19 | A pair is listed iff it is `(xs[i], xs[j])` for some i < j. |
| Combinatorics.PairIndexNext | src/movielens_analysis.py:65 | Consecutive j are consecutive positions. |
| Combinatorics.PairIndexOffset | src/movielens_analysis.py:65 | Row i's pairs are contiguous: (i, j) is j - i - 1 places after (i, i + 1). |
| Combinatorics.PairIndexNextRow | src/movielens_analysis.py:63-65 | Row i + 1 starts right after the last pair of row i. |
| Combinatorics.PairIndexLast | src/movielens_analysis.py:63-65 | (n - 2, n - 1) is the last pair. |
| MovieLensAnalysis.IterPairs | src/movielens_analysis.py:17-19 | n(n-1)/2 pairs; (ids[i], ids[j]) at position PairIndex(n, i, j); a pair is listed iff it is (ids[i], ids[j]) for some i < j. |
| MovieLensAnalysis.Range | src/movielens_analysis.py:28 | `range(n)` is 0, ..., n - 1. |
| MovieLensAnalysis.IndexPairs | src/movielens_analysis.py:28 | There are n(n-1)/2 index pairs, each with i < j < n. |
| MovieLensAnalysis.IndexPairsAt | src/movielens_analysis.py:28 | The pair (i, j) sits at position PairIndex(n, i, j). |
| MovieLensAnalysis.IndexPairsDistinct | src/movielens_analysis.py:28 | No index pair is listed twice. |
| MovieLensAnalysis.RangePairsSpec | src/movielens_analysis.py:28 | Each entry of `combinations(range(n), 2)` is (i, j) with i < j at PairIndex(n, i, j), and each such (i, j) occurs. |
| MovieLensAnalysis.ExactSpecKeys | src/movielens_analysis.py:28-30 | The keys of the dict are the id pairs of the written index pairs. |
| MovieLensAnalysis.ExactSpecLast | src/movielens_analysis.py:29-30 | A key holds the similarity of the last index pair that writes it (dict assignment overwrites). |
| MovieLensAnalysis.ComputeExactJaccard | src/movielens_analysis.py:22-31 | The loop's dict is the dict written by all index pairs in order. |
| MovieLensAnalysis.WritePairs | src/movielens_analysis.py:28-30 | Writing any list of index pairs in order gives the dict `ExactSpec` defines for them. |
| MovieLensAnalysis.ExactJaccardMeaning | src/movielens_analysis.py:27-31 | Every (ids[i], ids[j]) with i < j is a key, and no other key exists. With distinct ids, each key holds `jaccard(sets[i], sets[j])`. |
| MovieLensAnalysis.ExactJaccardKeys | src/movielens_analysis.py:27-31 | The keys are exactly the id pairs (ids[i], ids[j]) with i < j. |
| MovieLensAnalysis.ExactJaccardDistinct | src/movielens_analysis.py:29-30 | With distinct ids, the key of (i, j) holds the exact similarity of sets i and j. |
| MovieLensAnalysis.Agreement | src/movielens_analysis.py:66 | `np.mean(a == b)` is NaN (None) for width 0. Otherwise it lies in [0, 1] with `r·width = matches`. |
| MovieLensAnalysis.EstimatedSpecKeys | src/movielens_analysis.py:65-68 | The keys are the id pairs of the visited pairs whose agreement reaches the threshold. |
| MovieLensAnalysis.EstimatedSpecLast | src/movielens_analysis.py:67-68 | A key holds the agreement of the last reaching pair that writes it. |
| MovieLensAnalysis.EstimatedSpecStep | src/movielens_analysis.py:66-68 | Visiting one more pair writes its agreement exactly when it reaches the threshold. |
| MovieLensAnalysis.VisitPair | src/movielens_analysis.py:66-68 | The inner-loop body advances the dict `EstimatedSpec` defines by one pair. |
| MovieLensAnalysis.EstimatedRow | src/movielens_analysis.py:65-68 | The inner loop visits the pairs (i, j), j > i, which sit consecutively in the enumeration. |
| MovieLensAnalysis.RowPositions | src/movielens_analysis.py:63-65 | Row i's pairs occupy consecutive positions starting at PairIndex(n, i, i + 1). |
| MovieLensAnalysis.NextRowPosition | src/movielens_analysis.py:63-65 | Row i + 1 starts right after row i's n - 1 - i pairs. |
| MovieLensAnalysis.EstimatedPairsFromSignatures | src/movielens_analysis.py:54-69 | The two nested loops give the dict written by all index pairs that reach the threshold, in order. |
| MovieLensAnalysis.NextRow | src/movielens_analysis.py:63-68 | One pass of the outer loop visits row i's pairs and moves on to row i + 1's first position. |
| MovieLensAnalysis.EstimatedMeaning | src/movielens_analysis.py:63-69 | (ids[i], ids[j]) for i < j is a key iff the agreement reaches the threshold. With distinct ids the value is that agreement. Width 0 gives an empty dict (NaN never reaches). |
| MovieLensAnalysis.EstimatedKeysIn | src/movielens_analysis.py:63-69 | Every reaching pair i < j is a key. |
| MovieLensAnalysis.EstimatedKeysFrom | src/movielens_analysis.py:63-69 | Every key is a reaching pair i < j. |
| MovieLensAnalysis.EstimatedDistinct | src/movielens_analysis.py:67-68 | With distinct ids, a reaching pair's key holds its agreement. |
| MovieLensAnalysis.BandBounds | src/movielens_analysis.py:83-85 | Band k < r of b columns lies inside a row of width r·b. |
| MovieLensAnalysis.BandCovers | src/movielens_analysis.py:83-85 | Every column c < r·b lies in band c / b. |
| MovieLensAnalysis.BandsDisjoint | src/movielens_analysis.py:83-85 | No column lies in two bands. |
| MovieLensAnalysis.Windows | src/movielens_analysis.py:88 | One key per row, the row's columns [start, end). |
| MovieLensAnalysis.RowsWithKeySpec | src/movielens_analysis.py:89 | A bucket lists exactly the positions below n carrying its key, in increasing order, each once. |
| MovieLensAnalysis.BucketsOfLookup | src/movielens_analysis.py:87-89 | After placing positions 0..n-1, a key's list is the increasing list of the positions holding it. |
| MovieLensAnalysis.BucketsOfHas | src/movielens_analysis.py:89 | Every key placed so far has a bucket (`setdefault`). |
| MovieLensAnalysis.BucketsOfMeaning | src/movielens_analysis.py:86-89 | The bucket map holds exactly the keys seen, each with its positions. |
| MovieLensAnalysis.BuildBuckets | src/movielens_analysis.py:86-89 | The loop gives the buckets of the band's windows. |
| MovieLensAnalysis.AddBucketPairs | src/movielens_analysis.py:94-96 | The loop adds exactly the id pairs of the bucket's index pairs. |
| MovieLensAnalysis.BucketEntries | src/movielens_analysis.py:89 | Every bucket entry is a row position. |
| MovieLensAnalysis.SeenPairsAdd | src/movielens_analysis.py:91-96 | Handling one more bucket adds that bucket's pairs. |
| MovieLensAnalysis.BucketsGiveKeyPairs | src/movielens_analysis.py:91-96 | The pairs of all buckets are exactly the pairs i < j with equal keys. |
| MovieLensAnalysis.BucketPairIsKeyPair | src/movielens_analysis.py:94-95 | Two entries of one bucket, taken in order, are two positions with its key. |
| MovieLensAnalysis.KeyPairIsBucketPair | src/movielens_analysis.py:94-95 | Two positions i < j with equal keys are a pair of entries of their bucket. |
| MovieLensAnalysis.BandPairs | src/movielens_analysis.py:86-96 | Bucketing one band and pairing within buckets finds exactly the pairs equal on the band. |
| MovieLensAnalysis.AddBandPairs | src/movielens_analysis.py:91-96 | The loop over `buckets.values()` adds the pairs of every bucket, in any order. |
| MovieLensAnalysis.AddIfShared | src/movielens_analysis.py:92-96 | A bucket of fewer than 2 entries adds nothing; a larger one adds its pairs. |
| MovieLensAnalysis.CandidatesStep | src/movielens_analysis.py:83-96 | Band k adds exactly the pairs agreeing on its window. |
| MovieLensAnalysis.WindowPair | src/movielens_analysis.py:84-88 | Rows agree on band k iff their window keys are equal, and such a pair is a candidate. |
| MovieLensAnalysis.LshCandidatePairs | src/movielens_analysis.py:72-98 | ParamsMismatch iff r·b ≠ t. Otherwise the result is exactly the pairs (ids[i], ids[j]), i < j, that agree on every column of some band k < r. |
| MovieLensAnalysis.IdenticalRowsAreCandidates | src/movielens_analysis.py:83-96 | Identical rows are always candidates when r ≥ 1. |
| MovieLensAnalysis.SingleBandIsExactMatch | src/movielens_analysis.py:83-96 | With one band of full width, the candidates are exactly the pairs with identical rows. |
| MovieLensAnalysis.PairsAboveThreshold | src/movielens_analysis.py:34-39 | A pair is returned iff it is a key whose similarity is at least the threshold. |
| MovieLensAnalysis.ThresholdMonotone | src/movielens_analysis.py:39 | Raising the threshold only drops pairs. |
| MovieLensAnalysis.ComputeFpFn | src/movielens_analysis.py:101-108 | fp + |pred ∩ truth| = |pred| and fn + |pred ∩ truth| = |truth|; fp is 0 iff pred ⊆ truth, fn is 0 iff truth ⊆ pred. |
| Kgrams.CharKgrams | src/kgrams.py:8-14 | Error iff k ≤ 0. The empty set when len(text) < k. Otherwise a gram is in the set iff it is text[i:i+k] for some i ≤ len - k, and every gram has length k. |
| Kgrams.SlicesCount | src/kgrams.py:14 | n slices give at most n distinct grams. |
| Kgrams.CharKgramsCount | src/kgrams.py:14 | At most len(text) - k + 1 character grams (none when shorter than k). |
| Kgrams.Words | src/kgrams.py:21 | Empty text gives no words; no word contains a space. |
| Kgrams.WordsJoin | src/kgrams.py:21 | Joining the words with single spaces gives the text back. |
| Kgrams.WordKgrams | src/kgrams.py:17-24 | Error iff k ≤ 0. Empty text, or fewer than k words, gives the empty set. Otherwise a gram is in the set iff it is k consecutive words joined by " ". |
| Kgrams.WordGramIsSubstring | src/kgrams.py:24 | Every word gram is a contiguous substring of the text. |
| Kgrams.WordGramWords | src/kgrams.py:24 | Every word gram splits back into exactly k words. |
| Kgrams.DocGrams | src/kgrams.py:38-43 | Error iff the mode is unsupported or k ≤ 0. The mode check comes first and raises UnsupportedMode; otherwise the error is NonPositiveK. |
| Kgrams.KgramsOfMeaning | src/kgrams.py:36-44 | The k-gram map has the documents' keys and holds each document's grams. |
| Kgrams.KgramsOfUnique | src/kgrams.py:36-44 | Any map with those keys and values is the k-gram map. |
| Kgrams.BuildKgramsForDocuments | src/kgrams.py:27-44 | Error iff there is a document and the mode or k is rejected, with the error of that check. Otherwise the map keeps the documents' keys and is the k-gram map. |
| Kgrams.KgramTypesSupported | src/kgrams.py:47-51 | All configurations (char 2, char 3, word 2) are accepted. |
| Kgrams.SplitExample | src/kgrams.py:21 | `"a b c".split(" ")` is ["a", "b", "c"]. |
| Kgrams.WordBigramsExample | src/kgrams.py:17-24 | The word 2-grams of "a b c" are {"a b", "b c"}. |
| Kgrams.CharBigramsExample | src/kgrams.py:8-14 | The character 2-grams of "abab" are {"ab", "ba"}. |
| Reporting.PairwiseIds | src/reporting.py:17-19 | n(n-1)/2 pairs in input order: (ids[i], ids[j]) at PairIndex(n, i, j); a pair is listed iff it is such a pair. |
| Reporting.InsertElems | src/reporting.py:24 | Insertion adds exactly the new id. |
| Reporting.InsertSorted | src/reporting.py:24 | Inserting a new id keeps the list strictly sorted. |
| Reporting.SortedUnique | src/reporting.py:24 | A strictly sorted list is determined by its elements. |
| Reporting.SortedIds | src/reporting.py:24 | `sorted(keys)`: each key exactly once, in strictly increasing order. |
| Reporting.PairwiseJaccardMeaning | src/reporting.py:22-28 | (a, b) is a key iff both are ids and a sorts before b. Its value is `jaccard(grams[a], grams[b])`. Of two distinct ids, exactly one order is a key. |
| Reporting.SortedPairs | src/reporting.py:24-26 | The pairs of the sorted id list are the ordered pairs of the ids. |
| Reporting.TableIsPairwise | src/reporting.py:25-28 | A table with those keys and values is the pairwise table. |
| Reporting.ComputePairwiseJaccard | src/reporting.py:22-28 | The loop returns the pairwise table. |
| Reporting.FillTable | src/reporting.py:26-27 | Writing the pairs in order gives one key per pair, each holding its Jaccard similarity. |
| Reporting.NoUnderscore | src/reporting.py:38 | `str(k)` contains no '_'. |
| Reporting.IntToStringInjective | src/reporting.py:38 | `str(k)` determines k. |
| Reporting.SpecKeyInjective | src/reporting.py:38 | Distinct (mode, k) give distinct keys `f"{mode}_{k}"`. |
| Reporting.KeyOfInjective | src/reporting.py:38 | The key function is injective on configurations. |
| Reporting.ConfigOutcomeOk | src/reporting.py:39-40 | A successful pass gives the configuration's pairwise table. |
| Reporting.StoreUpToStops | src/reporting.py:37-40 | Once a pass has raised, later passes change nothing. |
| Reporting.FirstError | src/reporting.py:37-40 | The index of the first failing configuration lies in [n, len]. |
| Reporting.FirstErrorMeaning | src/reporting.py:37-40 | The first failing configuration fails, and every earlier one succeeds. |
| Reporting.StoreUpToErrors | src/reporting.py:37-40 | The run fails iff some configuration fails, and it carries the first failure's error. |
| Reporting.StoreUpToContents | src/reporting.py:36-41 | With injective keys, a successful run holds exactly the configurations' keys, each with its table. |
| Reporting.ConfigTable | src/reporting.py:38-40 | One pass: the k-grams, a possible error, then the pairwise table. |
| Reporting.ComputeKgramJaccards | src/reporting.py:31-41 | The loop's result is the in-order run over all configurations. |
| Reporting.StoreNext | src/reporting.py:37-40 | The loop body advances the run by one configuration. |
| Reporting.KgramJaccardsErrors | src/reporting.py:31-41 | The report fails iff there is a document and some configuration is rejected. The error is the one of the first rejected configuration. |
| Reporting.KgramJaccardsKeys | src/reporting.py:36-41 | A successful report holds exactly the keys `f"{mode}_{k}"` of the configurations. |
| Reporting.KgramJaccardsTables | src/reporting.py:38-40 | Each configuration's key holds that configuration's pairwise table. |
| Reporting.Abs | src/reporting.py:61 | `abs(x)` is non-negative and is x or -x. |
| Reporting.HashAllSameSet | src/reporting.py:55 | Token lists with the same set hash to the same set. |
| Reporting.SetEstimateAnyOrder | src/reporting.py:55 | The estimate of two sets does not depend on their iteration order. |
| Reporting.EstimateRowFor | src/reporting.py:55-63 | One row: float(t), the set estimate for t, the exact value, and `abs(estimate - exact)`. |
| Reporting.RowForFields | src/reporting.py:56-63 | A row with those fields is the report row for t. |
| Reporting.SetEstimateFor | src/reporting.py:55 | `approximate_jaccard` on the sets' iteration gives the set estimate, in [0, 1]. |
| Reporting.ComputeMinhashEstimates | src/reporting.py:44-64 | One row per t, in order. Every row has the same exact value and `abs_error = |estimate - exact| ≥ 0`. |
| Reporting.Trunc | src/reporting.py:77 | `int(x)` truncates toward zero. |
| Reporting.WithTAppend | src/reporting.py:75 | Taking the rows with a given t distributes over concatenation. |
| Reporting.InsertByTBound | src/reporting.py:75 | Insertion keeps a lower bound on t. |
| Reporting.InsertByTSorted | src/reporting.py:75 | Insertion keeps the list ordered by t. |
| Reporting.InsertByTPermutes | src/reporting.py:75 | Insertion adds exactly the one row. |
| Reporting.InsertByTStable | src/reporting.py:75 | A row is inserted after every row of equal t. |
| Reporting.SortByTSorted | src/reporting.py:75 | `sorted(rows, key=t)` is ordered by t. |
| Reporting.SortByTPermutes | src/reporting.py:75 | The sort is a permutation of the rows. |
| Reporting.SortByTStable | src/reporting.py:75 | The sort is stable: rows with equal t keep their input order. |
| Reporting.RecommendedUnique | src/reporting.py:79-83 | At most one row is the recommended one. |
| Reporting.RecommendT | src/reporting.py:67-83 | NoRows iff the input is empty. Otherwise the result is int(t) of the sorted row picked by the rule: the first i ≥ 1 with `errors[i-1] - errors[i] < 0.01`, else the last row. It is always int(t) of some input row. |
| Reporting.ScanGains | src/reporting.py:79-83 | The index loop returns the first i ≥ 1 whose gain is below 0.01, or the last index when there is none. |
| Reporting.InputRow | src/reporting.py:75-77 | A row of the sorted list is a row of the input. |
| Reporting.ComputeLshProbabilities | src/reporting.py:86-94 | Succeeds iff every similarity is accepted, with an error of a failing pair otherwise. Success keeps the key set and maps each pair to `lsh_probability(sim, r, b)`. In-range similarities with r, b ≥ 0 always succeed. |
| Reporting.PairwiseTableInRange | src/reporting.py:22-28 | Every value of a pairwise table lies in [0, 1]. |
| IoUtils.LowerChar | src/io_utils.py:18 | `lower()` of one character: never upper case, whitespace-ness kept, non-capitals unchanged. |
| IoUtils.Lower | src/io_utils.py:18 | `str.lower()` keeps the length and lowercases each character. |
| IoUtils.StripLeft | src/io_utils.py:18 | Drops exactly the leading whitespace: the result is a suffix that does not start with whitespace. |
| IoUtils.StripRight | src/io_utils.py:18 | Drops exactly the trailing whitespace: the result is a prefix that does not end with whitespace. |
| IoUtils.StripTrimmed | src/io_utils.py:18 | `strip()` leaves no whitespace at either end, and changes nothing when there is none. |
| IoUtils.StripEmpty | src/io_utils.py:18 | `strip()` gives "" iff the text is all whitespace. |
| IoUtils.StripLeftAllSpace | src/io_utils.py:18 | All-whitespace text strips to "". |
| IoUtils.Collapse | src/io_utils.py:19 | `re.sub(r"\s+", " ", s)` is empty iff s is. It starts with ' ' iff s starts with whitespace, and otherwise with s's first character. It ends with ' ' iff s ends with whitespace. (Each whitespace run becoming exactly one space is `IoUtils.CollapseTokens`.) |
| IoUtils.CollapseSingleSpaced | src/io_utils.py:19 | The substitution leaves only single plain spaces and adds no capitals. |
| IoUtils.CollapseFixed | src/io_utils.py:19 | A single-spaced string is left alone. |
| IoUtils.StripLeftNonSpace | src/io_utils.py:18 | Dropping leading whitespace keeps every other character. |
| IoUtils.StripRightNonSpace | src/io_utils.py:18 | Dropping trailing whitespace keeps every other character. |
| IoUtils.CollapseNonSpace | src/io_utils.py:19 | The substitution keeps every non-whitespace character, in order. |
| IoUtils.Normalize | src/io_utils.py:12-20 | The result has no whitespace at its ends, only single plain spaces inside, and no capitals. (Its exact value is `IoUtils.NormalizeTokens`.) |
| IoUtils.NormalizeEmpty | src/io_utils.py:18-19 | The result is "" iff the text is empty or all whitespace. |
| IoUtils.NormalizeKeepsText | src/io_utils.py:18-19 | The non-whitespace characters survive, lowercased, in order. |
| IoUtils.StripNonSpace | src/io_utils.py:18 | `strip()` drops whitespace only. |
| IoUtils.LowerNonSpace | src/io_utils.py:18 | Lowercasing commutes with dropping whitespace. |
| IoUtils.NormalFixed | src/io_utils.py:18-20 | A normal string is its own normalisation. |
| IoUtils.NormalizeIdempotent | src/io_utils.py:18-20 | Normalising twice is normalising once. |
| IoUtils.Tokens | src/io_utils.py:9 | The maximal runs of non-whitespace characters (`str.split()`); a string that starts with a non-whitespace character has a first token starting with it. |
| IoUtils.TokensAreWords | src/io_utils.py:9 | Every token is non-empty and holds no whitespace. |
| IoUtils.TokensOfWord | src/io_utils.py:9 | A non-empty run without whitespace is exactly one token. |
| IoUtils.TokensSplit | src/io_utils.py:9 | A whitespace character splits the tokens: `Tokens(a + [c] + b) == Tokens(a) + Tokens(b)`. |
| IoUtils.TokensAllSpace | src/io_utils.py:9 | All-whitespace text has no tokens. |
| IoUtils.TokensStripLeft | src/io_utils.py:18 | Leading whitespace does not change the tokens. |
| IoUtils.TokensStripRight | src/io_utils.py:18 | Trailing whitespace does not change the tokens. |
| IoUtils.StripLeftLower | src/io_utils.py:18 | Lowercasing commutes with dropping leading whitespace. |
| IoUtils.StripRightLower | src/io_utils.py:18 | Lowercasing commutes with dropping trailing whitespace. |
| IoUtils.CollapseTokens | src/io_utils.py:9-19 | On text not starting with whitespace, the substitution gives the tokens joined by exactly one space, plus one trailing space iff the text ends in whitespace. |
| IoUtils.NormalizeTokens | src/io_utils.py:12-20 | `normalize_document(text) == " ".join(text.lower().split())`: the tokens of the lowercased text with one space between each two. |
| CliMovieLens.SlicePrefix | src/cli_movielens.py:74-75 | `rows[:limit]` is a prefix of min(limit, len) rows, counted from the end for a negative limit. |
| CliMovieLens.Displayed | src/cli_movielens.py:74-75 | No limit keeps all rows; a limit keeps `rows[:limit]`. |
| CliMovieLens.ColumnWidths | src/cli_movielens.py:79-82 | One width per header, each the result of the widths loop over all rows. |
| CliMovieLens.WidthIsMax | src/cli_movielens.py:79-82 | `widths[i]` is at least len(headers[i]) and at least every cell of column i, and equals one of them. |
| CliMovieLens.ComputeWidths | src/cli_movielens.py:79-82 | The nested loop raises IndexError iff some row has more cells than there are headers. Otherwise it gives the column widths. |
| CliMovieLens.TableLines | src/cli_movielens.py:84-89 | The header line, the separator and one line per row: 2 + rows lines. |
| CliMovieLens.FormatTable | src/cli_movielens.py:70-89 | No displayed rows gives exactly "No rows to display.". Otherwise the result is IndexError iff a displayed row has too many cells, and else the lines joined by "\n". |
| CliMovieLens.TotalLengthSum | src/cli_movielens.py:84-88 | Pieces of the given widths have total length sum(widths). |
| CliMovieLens.PaddedLineWidth | src/cli_movielens.py:84-88 | A full row padded to its widths is `sum(widths) + 3·(n-1)` long. |
| CliMovieLens.SeparatorWidth | src/cli_movielens.py:85 | The separator is `sum(widths) + 3·(n-1)` long and made of '-' and '+' only. |
| CliMovieLens.LinesAligned | src/cli_movielens.py:84-89 | When every row has one cell per header, all lines have the same length. |
| CliMovieLens.PaddedLineNoNewline | src/cli_movielens.py:84-88 | Padding and joining add no line break. |
| CliMovieLens.TableLineCount | src/cli_movielens.py:84-89 | Without newlines in the cells, the output splits back into exactly its 2 + rows lines. |
| Strings.Split | src/kgrams.py:21 | `str.split(sep)` has at least one piece and no piece contains sep. |
| Strings.JoinSplit | src/kgrams.py:21-24 | Joining the pieces of a split gives the string back. |
| Strings.SplitJoin | src/kgrams.py:24 | Splitting a join of separator-free pieces gives the pieces back. |
| Strings.JoinSliceIsSubstring | src/kgrams.py:24 | The join of a run of pieces is a substring of the join of all. |
| Strings.LJust | src/cli_movielens.py:84 | `s.ljust(w)` is s padded with spaces to length max(len(s), w). |
| Strings.Repeat | src/cli_movielens.py:85 | `"-" * n` is n copies (none for n ≤ 0). |
| Strings.LessIrreflexive | src/reporting.py:24 | No string sorts before itself. |
| Strings.LessTransitive | src/reporting.py:24 | String order is transitive. |
| Strings.LessTotal | src/reporting.py:24 | Any two distinct strings are ordered. |
| Strings.LessAsymmetric | src/reporting.py:24 | String order is asymmetric. |
| Strings.NatToStringValue | src/reporting.py:38 | The decimal digits of n read back as n. |
| Strings.IntToStringDigits | src/reporting.py:38 | `str(n)` starts with '-' iff n < 0, and its digits spell |n|. |
| Strings.JoinByLength | src/cli_movielens.py:84-89 | A join's length is the pieces' total plus one separator between each two. |
| Strings.JoinByAvoids | src/cli_movielens.py:84-89 | A character in neither the pieces nor the separator is not in the join. |
| Wrappers.MapResults | src/kgrams.py:37-44 | The dict-filling loop succeeds iff every value succeeds, keeps the keys and stores each value's result. On failure it raises the error of some entry. |

## Left out

- The blake2b digest of `hash_token` is a foreign library call. It is a function parameter into [0, 2^64).
- `random.Random`'s output is an abstract deterministic stream indexed by draw number. `randrange(lo, hi)` is `lo + raw % (hi - lo)`. Its distribution is not modelled.
- Statistical claims are out of reach of deductive proof: the estimator's unbiasedness and variance, the empirical S-curve hit rate, and FP/FN averages over runs.
- Floats are exact reals, so IEEE-754 rounding is not modelled. The exact float-equality tie in `choose_lsh_params` is a real equality here.
- `best_distance or 0.0` and `best_slope or 0.0` behave like the bare values and are modelled as such.
- The numpy matrix is a list of rows of one width. The `uint32` cast of `minhash_signatures_matrix` is not modelled (the entries lie in [0, m) for m > 0 in any case). The thin wrapper `minhash_signatures_matrix` itself is left out.
- `np.mean` of an empty comparison is NaN, which never reaches a threshold. The model writes it as `None`.
- `IoUtils.LowerChar`: lowercases the ASCII letters only, because full Unicode case mapping is not modelled.
- `IoUtils.IsSpace` follows `str.isspace`; the `\s` class of a `str` regex accepts the same characters.
- `read_document` and `load_documents` perform file I/O and are not part of this model.
- All file and command-line plumbing is out of scope. This covers `write_csv`, `parse_args` and `run` of both command lines, file loading in `src/movielens.py`, and `src/format_outputs.py`.
- `format_table` of `src/cli.py` is the `limit=None` case of the modelled one.
- The constants of `src/config.py` appear only through `Kgrams.KgramTypes`, which equals `KGRAM_SPECS`. Concrete runs with `LSH_T = 160` and `MINHASH_M = 10007` would unfold too many powers and divisions to check.
- `lsh_candidate_pairs` and `estimated_pairs_from_signatures` index `user_ids` by row position. An id list shorter than the matrix would raise IndexError. The model requires the two to match (`Matrix`).
- `compute_exact_jaccard` likewise requires one set per id (`Aligned`).
- Dict and set iteration order is arbitrary in the model. This covers `documents.items()`, `buckets.values()` and `list(items)` of a set. Every property proved holds for any order.
- `Reporting.ComputeKgramJaccards`: after the first failing configuration, the modelled loop keeps running without effect instead of stopping. `Reporting.StoreUpToStops` shows that the outcome is the same.
- `MinHash.Apply` requires `m != 0`, because Python raises ZeroDivisionError for `% 0`. The signature builders and `approximate_jaccard` require `m != 0` only when a hash is actually applied: a non-empty input and a non-empty family (`t > 0`). With `m == 0`, an empty input or an empty family is accepted and gives the source's result (`[0] * n`, `[]`, or 1.0 for `t <= 0`). `Reporting.ComputeMinhashEstimates` likewise requires `m != 0` only when the grams are non-empty and some t is positive. The ZeroDivisionError itself is not modelled as a result.
- `MinHash.HashFunction`: the field `prime` is non-zero by type, so `HashFunction(a, b, 0).apply`, which raises ZeroDivisionError, is not modelled. `generate_hash_functions` only ever builds functions with the fixed prime `PRIME` = 4294967311.
