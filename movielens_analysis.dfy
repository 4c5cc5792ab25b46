/** The MovieLens evaluation: exact all-pairs Jaccard, brute-force MinHash
    estimates over a signature matrix, LSH banding, the threshold filter and
    the false positive / false negative counts. */
module MovieLensAnalysis {
  import opened Wrappers
  import Jaccard
  import Combinatorics
  import MinHash
  import Lsh

  /** A pair of user ids. */
  type Pair = (int, int)

  /** iter_pairs: every (ids[i], ids[j]) with i < j, in the order of (i, j). */
  function IterPairs(userIds: seq<int>): (r: seq<Pair>)
    ensures |r| == |userIds| * (|userIds| - 1) / 2
    ensures forall i: nat, j: nat {:trigger Combinatorics.PairIndex(|userIds|, i, j)} :: i < j < |userIds| ==>
              Combinatorics.PairIndex(|userIds|, i, j) < |r|
              && r[Combinatorics.PairIndex(|userIds|, i, j)] == (userIds[i], userIds[j])
    ensures forall p :: p in r <==> exists i, j :: 0 <= i < j < |userIds| && p == (userIds[i], userIds[j])
  {
    var r := Combinatorics.Combinations2(userIds);
    Combinatorics.CombinationsLength(userIds);
    assert forall i: nat, j: nat :: i < j < |userIds| ==>
             Combinatorics.PairIndex(|userIds|, i, j) < |r|
             && r[Combinatorics.PairIndex(|userIds|, i, j)] == (userIds[i], userIds[j]) by {
      forall i: nat, j: nat | i < j < |userIds|
        ensures Combinatorics.PairIndex(|userIds|, i, j) < |r|
        ensures r[Combinatorics.PairIndex(|userIds|, i, j)] == (userIds[i], userIds[j])
      {
        Combinatorics.CombinationsAt(userIds, i, j);
      }
    }
    assert forall p :: p in r <==> exists i, j :: 0 <= i < j < |userIds| && p == (userIds[i], userIds[j]) by {
      forall p ensures p in r <==> exists i, j :: 0 <= i < j < |userIds| && p == (userIds[i], userIds[j]) {
        Combinatorics.CombinationsMembership(userIds, p);
      }
    }
    r
  }

  /** No id occurs twice. */
  predicate Distinct(ids: seq<int>)
  {
    forall a, b :: 0 <= a < b < |ids| ==> ids[a] != ids[b]
  }

  /** A set exists for every position that takes part in a pair. */
  predicate Aligned(ids: seq<int>, sets: seq<set<int>>)
  {
    |ids| < 2 || |ids| <= |sets|
  }

  /** 0, 1, ..., n - 1: range(n). */
  function Range(n: nat): (r: seq<int>)
    ensures |r| == n && forall i :: 0 <= i < n ==> r[i] == i
  {
    seq(n, i => i)
  }


  /** Every listed pair is an index pair i < j below n. */
  predicate ValidPairs(ps: seq<(int, int)>, n: int)
  {
    forall t :: 0 <= t < |ps| ==> 0 <= ps[t].0 < ps[t].1 < n
  }

  /** combinations(range(n), 2): n(n-1)/2 distinct index pairs i < j in
      loop order, the pair (i, j) at position PairIndex(n, i, j). */
  function IndexPairs(n: nat): (ps: seq<(int, int)>)
    ensures |ps| == n * (n - 1) / 2
    ensures ValidPairs(ps, n)
  {
    RangePairsSpec(n);
    Combinatorics.Combinations2(Range(n))
  }

  /** The pair (i, j) sits at position PairIndex(n, i, j). */
  lemma IndexPairsAt(n: nat)
    ensures forall i: nat, j: nat {:trigger Combinatorics.PairIndex(n, i, j)} :: i < j < n ==>
              Combinatorics.PairIndex(n, i, j) < |IndexPairs(n)| && IndexPairs(n)[Combinatorics.PairIndex(n, i, j)] == (i, j)
  {
    RangePairsSpec(n);
  }

  /** No index pair is listed twice. */
  lemma IndexPairsDistinct(n: nat)
    ensures forall t, t' :: 0 <= t < t' < |IndexPairs(n)| ==> IndexPairs(n)[t] != IndexPairs(n)[t']
  {
    RangePairsSpec(n);
  }

  lemma RangePairsSpec(n: nat)
    ensures var ps := Combinatorics.Combinations2(Range(n));
      && |ps| == n * (n - 1) / 2
      && ValidPairs(ps, n)
      && (forall i: nat, j: nat {:trigger Combinatorics.PairIndex(n, i, j)} :: i < j < n ==>
            Combinatorics.PairIndex(n, i, j) < |ps| && ps[Combinatorics.PairIndex(n, i, j)] == (i, j))
      && (forall t, t' :: 0 <= t < t' < |ps| ==> ps[t] != ps[t'])
  {
    var xs := Range(n);
    var ps := Combinatorics.Combinations2(xs);
    Combinatorics.CombinationsLength(xs);
    forall t | 0 <= t < |ps|
      ensures exists i: nat, j: nat :: i < j < n && Combinatorics.PairIndex(n, i, j) == t && ps[t] == (i, j)
    {
      Combinatorics.CombinationsMember(xs, t);
    }
    forall i: nat, j: nat | i < j < n
      ensures Combinatorics.PairIndex(n, i, j) < |ps| && ps[Combinatorics.PairIndex(n, i, j)] == (i, j)
    {
      Combinatorics.CombinationsAt(xs, i, j);
    }
  }

  // ---------------------------------------------------------------------
  // compute_exact_jaccard

  /** The dict compute_exact_jaccard holds after writing the index pairs
      `ps` in order: each (i, j) sets key (ids[i], ids[j]) to the Jaccard
      similarity of sets i and j. */
  function ExactSpec(ids: seq<int>, sets: seq<set<int>>, ps: seq<(int, int)>): map<Pair, real>
    requires Aligned(ids, sets) && ValidPairs(ps, |ids|)
    decreases |ps|
  {
    if |ps| == 0 then map[]
    else
      var (i, j) := ps[|ps| - 1];
      ExactSpec(ids, sets, ps[..|ps| - 1])[(ids[i], ids[j]) := Jaccard.Similarity(sets[i], sets[j])]
  }

  /** The keys are the id pairs of the written index pairs. */
  lemma {:induction false} ExactSpecKeys(ids: seq<int>, sets: seq<set<int>>, ps: seq<(int, int)>)
    requires Aligned(ids, sets) && ValidPairs(ps, |ids|)
    ensures forall p :: p in ExactSpec(ids, sets, ps) <==>
              exists t :: 0 <= t < |ps| && p == (ids[ps[t].0], ids[ps[t].1])
    decreases |ps|
  {
    if |ps| > 0 {
      var ps' := ps[..|ps| - 1];
      ExactSpecKeys(ids, sets, ps');
      forall p | p in ExactSpec(ids, sets, ps)
        ensures exists t :: 0 <= t < |ps| && p == (ids[ps[t].0], ids[ps[t].1])
      {
        if p != (ids[ps[|ps| - 1].0], ids[ps[|ps| - 1].1]) {
          assert p in ExactSpec(ids, sets, ps');
          var t :| 0 <= t < |ps'| && p == (ids[ps'[t].0], ids[ps'[t].1]);
          assert ps'[t] == ps[t];
        }
      }
      forall p, t | 0 <= t < |ps| && p == (ids[ps[t].0], ids[ps[t].1])
        ensures p in ExactSpec(ids, sets, ps)
      {
        if t < |ps| - 1 { assert ps'[t] == ps[t]; }
      }
    }
  }

  /** A key holds the similarity of the last index pair that writes it. */
  lemma {:induction false} ExactSpecLast(ids: seq<int>, sets: seq<set<int>>, ps: seq<(int, int)>, t: int)
    requires Aligned(ids, sets) && ValidPairs(ps, |ids|) && 0 <= t < |ps|
    requires forall t' :: t < t' < |ps| ==> (ids[ps[t'].0], ids[ps[t'].1]) != (ids[ps[t].0], ids[ps[t].1])
    ensures (ids[ps[t].0], ids[ps[t].1]) in ExactSpec(ids, sets, ps)
    ensures ExactSpec(ids, sets, ps)[(ids[ps[t].0], ids[ps[t].1])] == Jaccard.Similarity(sets[ps[t].0], sets[ps[t].1])
    decreases |ps|
  {
    if t < |ps| - 1 {
      var ps' := ps[..|ps| - 1];
      assert ps'[t] == ps[t];
      forall t' | t < t' < |ps'| ensures (ids[ps'[t'].0], ids[ps'[t'].1]) != (ids[ps'[t].0], ids[ps'[t].1]) {
        assert ps'[t'] == ps[t'];
      }
      ExactSpecLast(ids, sets, ps', t);
    }
  }

  /** compute_exact_jaccard: the loop over combinations(range(n), 2). */
  method ComputeExactJaccard(userIds: seq<int>, userSets: seq<set<int>>) returns (results: map<Pair, real>)
    requires Aligned(userIds, userSets)
    ensures results == ExactSpec(userIds, userSets, IndexPairs(|userIds|))
  {
    results := WritePairs(userIds, userSets, IndexPairs(|userIds|));
  }

  /** The body of that loop, over any list of index pairs: each pair's
      similarity is written under its id pair, in order. */
  method WritePairs(userIds: seq<int>, userSets: seq<set<int>>, pairs: seq<(int, int)>) returns (results: map<Pair, real>)
    requires Aligned(userIds, userSets) && ValidPairs(pairs, |userIds|)
    ensures results == ExactSpec(userIds, userSets, pairs)
  {
    results := map[];
    var t := 0;
    while t < |pairs|
      invariant 0 <= t <= |pairs|
      invariant results == ExactSpec(userIds, userSets, pairs[..t])
    {
      var (i, j) := pairs[t];
      assert pairs[..t + 1][..t] == pairs[..t];
      results := results[(userIds[i], userIds[j]) := Jaccard.Similarity(userSets[i], userSets[j])];
      t := t + 1;
    }
    assert pairs[..t] == pairs;
  }

  /** What compute_exact_jaccard returns, in terms of i < j: a key for every
      index pair and no other, and with distinct ids the exact similarity of
      each pair. */
  lemma ExactJaccardMeaning(ids: seq<int>, sets: seq<set<int>>)
    requires Aligned(ids, sets)
    ensures forall i, j :: 0 <= i < j < |ids| ==> (ids[i], ids[j]) in ExactSpec(ids, sets, IndexPairs(|ids|))
    ensures forall p :: p in ExactSpec(ids, sets, IndexPairs(|ids|)) ==>
              exists i, j :: 0 <= i < j < |ids| && p == (ids[i], ids[j])
    ensures Distinct(ids) ==> forall i, j :: 0 <= i < j < |ids| ==>
              ExactSpec(ids, sets, IndexPairs(|ids|))[(ids[i], ids[j])] == Jaccard.Similarity(sets[i], sets[j])
  {
    ExactJaccardKeys(ids, sets);
    if Distinct(ids) {
      forall i, j | 0 <= i < j < |ids|
        ensures ExactSpec(ids, sets, IndexPairs(|ids|))[(ids[i], ids[j])] == Jaccard.Similarity(sets[i], sets[j])
      {
        ExactJaccardDistinct(ids, sets, i, j);
      }
    }
  }

  /** Every index pair's key is in the dict over all index pairs, and
      every key comes from one. */
  lemma ExactJaccardKeys(ids: seq<int>, sets: seq<set<int>>)
    requires Aligned(ids, sets)
    ensures forall i, j :: 0 <= i < j < |ids| ==> (ids[i], ids[j]) in ExactSpec(ids, sets, IndexPairs(|ids|))
    ensures forall p :: p in ExactSpec(ids, sets, IndexPairs(|ids|)) ==>
              exists i, j :: 0 <= i < j < |ids| && p == (ids[i], ids[j])
  {
    var n := |ids|;
    var ps := IndexPairs(n);
    IndexPairsAt(n);
    ExactSpecKeys(ids, sets, ps);
    var m := ExactSpec(ids, sets, ps);
    forall i, j | 0 <= i < j < n ensures (ids[i], ids[j]) in m {
      var t := Combinatorics.PairIndex(n, i, j);
      assert ps[t] == (i, j);
    }
    forall p | p in m ensures exists i, j :: 0 <= i < j < n && p == (ids[i], ids[j]) {
      var t :| 0 <= t < |ps| && p == (ids[ps[t].0], ids[ps[t].1]);
      assert 0 <= ps[t].0 < ps[t].1 < n;
    }
  }

  /** With distinct ids every key holds the exact similarity of its pair. */
  lemma ExactJaccardDistinct(ids: seq<int>, sets: seq<set<int>>, i: int, j: int)
    requires Aligned(ids, sets) && Distinct(ids) && 0 <= i < j < |ids|
    ensures (ids[i], ids[j]) in ExactSpec(ids, sets, IndexPairs(|ids|))
    ensures ExactSpec(ids, sets, IndexPairs(|ids|))[(ids[i], ids[j])] == Jaccard.Similarity(sets[i], sets[j])
  {
    var n := |ids|;
    var ps := IndexPairs(n);
    IndexPairsAt(n);
    IndexPairsDistinct(n);
    var t := Combinatorics.PairIndex(n, i, j);
    assert ps[t] == (i, j);
    forall t' | t < t' < |ps| ensures (ids[ps[t'].0], ids[ps[t'].1]) != (ids[ps[t].0], ids[ps[t].1]) {
      assert ps[t'] != ps[t];
    }
    ExactSpecLast(ids, sets, ps, t);
  }

  // ---------------------------------------------------------------------
  // estimated_pairs_from_signatures

  /** Every row of the signature matrix has `width` columns: numpy's shape
      (num_users, t). */
  predicate Rectangular(rows: seq<seq<int>>, width: nat)
  {
    forall i :: 0 <= i < |rows| ==> |rows[i]| == width
  }

  /** The matrix fits the id list. */
  predicate Matrix(ids: seq<int>, rows: seq<seq<int>>, width: nat)
  {
    Rectangular(rows, width) && |rows| <= |ids|
  }

  /** float(np.mean(a == b)): the fraction of columns on which two rows
      agree; None stands for the NaN of a mean over zero columns. */
  function Agreement(a: seq<int>, b: seq<int>): (r: Option<real>)
    requires |a| == |b|
    ensures r.None? <==> |a| == 0
    ensures r.Some? ==> 0.0 <= r.value <= 1.0 && r.value * (|a| as real) == MinHash.Matches(a, b) as real
  {
    if |a| == 0 then None else Some(MinHash.Matches(a, b) as real / |a| as real)
  }

  /** `sim >= threshold`, which is false for NaN. */
  predicate Reaches(a: seq<int>, b: seq<int>, threshold: real)
    requires |a| == |b|
  {
    Agreement(a, b).Some? && Agreement(a, b).value >= threshold
  }

  /** The dict estimated_pairs_from_signatures holds after visiting the index
      pairs `ps` in order: a pair whose agreement reaches the threshold sets
      key (ids[i], ids[j]) to that agreement, any other pair writes nothing. */
  function EstimatedSpec(ids: seq<int>, rows: seq<seq<int>>, width: nat, threshold: real,
                         ps: seq<(int, int)>): map<Pair, real>
    requires Matrix(ids, rows, width) && ValidPairs(ps, |rows|)
    decreases |ps|
  {
    if |ps| == 0 then map[]
    else
      var (i, j) := ps[|ps| - 1];
      var m := EstimatedSpec(ids, rows, width, threshold, ps[..|ps| - 1]);
      if Reaches(rows[i], rows[j], threshold) then m[(ids[i], ids[j]) := Agreement(rows[i], rows[j]).value] else m
  }

  /** The keys are the id pairs of the visited pairs that reach the threshold. */
  lemma {:induction false} EstimatedSpecKeys(ids: seq<int>, rows: seq<seq<int>>, width: nat, threshold: real,
                                             ps: seq<(int, int)>)
    requires Matrix(ids, rows, width) && ValidPairs(ps, |rows|)
    ensures forall p :: p in EstimatedSpec(ids, rows, width, threshold, ps) <==>
              exists t :: 0 <= t < |ps| && p == (ids[ps[t].0], ids[ps[t].1]) && Reaches(rows[ps[t].0], rows[ps[t].1], threshold)
    decreases |ps|
  {
    if |ps| > 0 {
      var ps' := ps[..|ps| - 1];
      EstimatedSpecKeys(ids, rows, width, threshold, ps');
      var last := ps[|ps| - 1];
      forall p | p in EstimatedSpec(ids, rows, width, threshold, ps)
        ensures exists t :: 0 <= t < |ps| && p == (ids[ps[t].0], ids[ps[t].1]) && Reaches(rows[ps[t].0], rows[ps[t].1], threshold)
      {
        if !(p == (ids[last.0], ids[last.1]) && Reaches(rows[last.0], rows[last.1], threshold)) {
          assert p in EstimatedSpec(ids, rows, width, threshold, ps');
          var t :| 0 <= t < |ps'| && p == (ids[ps'[t].0], ids[ps'[t].1]) && Reaches(rows[ps'[t].0], rows[ps'[t].1], threshold);
          assert ps'[t] == ps[t];
        }
      }
      forall p, t | 0 <= t < |ps| && p == (ids[ps[t].0], ids[ps[t].1]) && Reaches(rows[ps[t].0], rows[ps[t].1], threshold)
        ensures p in EstimatedSpec(ids, rows, width, threshold, ps)
      {
        if t < |ps| - 1 { assert ps'[t] == ps[t]; }
      }
    }
  }

  /** A key holds the agreement of the last reaching pair that writes it. */
  lemma {:induction false} EstimatedSpecLast(ids: seq<int>, rows: seq<seq<int>>, width: nat, threshold: real,
                                             ps: seq<(int, int)>, t: int)
    requires Matrix(ids, rows, width) && ValidPairs(ps, |rows|) && 0 <= t < |ps|
    requires Reaches(rows[ps[t].0], rows[ps[t].1], threshold)
    requires forall t' :: t < t' < |ps| ==> (ids[ps[t'].0], ids[ps[t'].1]) != (ids[ps[t].0], ids[ps[t].1])
    ensures (ids[ps[t].0], ids[ps[t].1]) in EstimatedSpec(ids, rows, width, threshold, ps)
    ensures EstimatedSpec(ids, rows, width, threshold, ps)[(ids[ps[t].0], ids[ps[t].1])]
            == Agreement(rows[ps[t].0], rows[ps[t].1]).value
    decreases |ps|
  {
    if t < |ps| - 1 {
      var ps' := ps[..|ps| - 1];
      assert ps'[t] == ps[t];
      forall t' | t < t' < |ps'| ensures (ids[ps'[t'].0], ids[ps'[t'].1]) != (ids[ps'[t].0], ids[ps'[t].1]) {
        assert ps'[t'] == ps[t'];
      }
      EstimatedSpecLast(ids, rows, width, threshold, ps', t);
    }
  }

  /** Visiting one more pair writes its agreement when it reaches the
      threshold and changes nothing otherwise. */
  lemma EstimatedSpecStep(ids: seq<int>, rows: seq<seq<int>>, width: nat, threshold: real,
                          ps: seq<(int, int)>, t: int)
    requires Matrix(ids, rows, width) && ValidPairs(ps, |rows|) && 0 <= t < |ps|
    ensures ValidPairs(ps[..t], |rows|) && ValidPairs(ps[..t + 1], |rows|)
    ensures var (i, j) := ps[t];
            var before := EstimatedSpec(ids, rows, width, threshold, ps[..t]);
            EstimatedSpec(ids, rows, width, threshold, ps[..t + 1])
              == if Reaches(rows[i], rows[j], threshold) then before[(ids[i], ids[j]) := Agreement(rows[i], rows[j]).value] else before
  {
    assert ps[..t + 1][..t] == ps[..t];
  }

  /** The body of the inner loop for the pair (i, j) at position t: its
      agreement is written when it reaches the threshold. */
  method VisitPair(ids: seq<int>, rows: seq<seq<int>>, width: nat, threshold: real, i: int, j: int,
                   ghost ps: seq<(int, int)>, ghost t: int, results0: map<Pair, real>) returns (results: map<Pair, real>)
    requires Matrix(ids, rows, width) && ValidPairs(ps, |rows|) && 0 <= t < |ps| && ps[t] == (i, j)
    requires results0 == EstimatedSpec(ids, rows, width, threshold, ps[..t])
    ensures results == EstimatedSpec(ids, rows, width, threshold, ps[..t + 1])
  {
    EstimatedSpecStep(ids, rows, width, threshold, ps, t);
    results := results0;
    var sim := Agreement(rows[i], rows[j]);
    if sim.Some? && sim.value >= threshold {
      results := results[(ids[i], ids[j]) := sim.value];
    }
  }

  /** The inner loop: the pairs (i, j) for j = i + 1, ..., n - 1, which sit
      at positions t0, t0 + 1, ... of the enumeration `ps`. */
  method EstimatedRow(ids: seq<int>, rows: seq<seq<int>>, width: nat, threshold: real,
                      results0: map<Pair, real>, i: int, ghost ps: seq<(int, int)>, ghost t0: int)
    returns (results: map<Pair, real>)
    requires Matrix(ids, rows, width) && ValidPairs(ps, |rows|) && 0 <= i < |rows|
    requires 0 <= t0 && t0 + (|rows| - 1 - i) <= |ps|
    requires forall j :: i < j < |rows| ==> ps[t0 + (j - i - 1)] == (i, j)
    requires results0 == EstimatedSpec(ids, rows, width, threshold, ps[..t0])
    ensures results == EstimatedSpec(ids, rows, width, threshold, ps[..t0 + (|rows| - 1 - i)])
  {
    var n := |rows|;
    results := results0;
    ghost var t := t0;
    var j := i + 1;
    while j < n
      invariant i + 1 <= j <= n
      invariant t == t0 + (j - i - 1)
      invariant results == EstimatedSpec(ids, rows, width, threshold, ps[..t])
    {
      assert ps[t] == (i, j);
      results := VisitPair(ids, rows, width, threshold, i, j, ps, t, results);
      t := t + 1;
      j := j + 1;
    }
  }

  /** Where row i of the enumeration of index pairs sits: its pairs follow
      each other from t on. */
  lemma RowPositions(n: nat, i: nat, t: int)
    requires i < n
    requires i + 1 < n ==> t == Combinatorics.PairIndex(n, i, i + 1)
    requires i + 1 >= n ==> t == |IndexPairs(n)|
    ensures 0 <= t && t + (n - 1 - i) <= |IndexPairs(n)|
    ensures forall j :: i < j < n ==> IndexPairs(n)[t + (j - i - 1)] == (i, j)
  {
    var ps := IndexPairs(n);
    IndexPairsAt(n);
    forall j | i < j < n ensures t + (j - i - 1) < |ps| && ps[t + (j - i - 1)] == (i, j) {
      Combinatorics.PairIndexOffset(n, i, j);
    }
    if i + 1 < n {
      Combinatorics.PairIndexOffset(n, i, n - 1);
    }
  }

  /** Row i + 1 starts right after the n - 1 - i pairs of row i. */
  lemma NextRowPosition(n: nat, i: nat, t: int)
    requires i < n
    requires i + 1 < n ==> t == Combinatorics.PairIndex(n, i, i + 1)
    requires i + 1 >= n ==> t == |IndexPairs(n)|
    ensures i + 2 < n ==> t + (n - 1 - i) == Combinatorics.PairIndex(n, i + 1, i + 2)
    ensures i + 2 >= n ==> t + (n - 1 - i) == |IndexPairs(n)|
  {
    if i + 2 < n {
      Combinatorics.PairIndexOffset(n, i, n - 1);
      Combinatorics.PairIndexNextRow(n, i);
    } else if i + 2 == n {
      Combinatorics.PairIndexLast(n);
    }
  }

  /** estimated_pairs_from_signatures: rows i < j visited by two nested loops. */
  method EstimatedPairsFromSignatures(userIds: seq<int>, rows: seq<seq<int>>, width: nat, threshold: real)
    returns (results: map<Pair, real>)
    requires Matrix(userIds, rows, width)
    ensures results == EstimatedSpec(userIds, rows, width, threshold, IndexPairs(|rows|))
  {
    var n := |rows|;
    ghost var ps := IndexPairs(n);
    results := map[];
    ghost var t := 0;
    var i := 0;
    while i < n
      invariant 0 <= i <= n
      invariant 0 <= t <= |ps|
      invariant i + 1 < n ==> t == Combinatorics.PairIndex(n, i, i + 1)
      invariant i + 1 >= n ==> t == |ps|
      invariant results == EstimatedSpec(userIds, rows, width, threshold, ps[..t])
    {
      results, t := NextRow(userIds, rows, width, threshold, results, i, t);
      i := i + 1;
    }
    assert ps[..t] == ps;
  }

  /** One pass of the outer loop: row i's pairs are visited, and the count
      of visited pairs moves to the start of row i + 1. */
  method NextRow(ids: seq<int>, rows: seq<seq<int>>, width: nat, threshold: real,
                 results0: map<Pair, real>, i: int, ghost t0: int) returns (results: map<Pair, real>, ghost t: int)
    requires Matrix(ids, rows, width) && 0 <= i < |rows|
    requires i + 1 < |rows| ==> t0 == Combinatorics.PairIndex(|rows|, i, i + 1)
    requires i + 1 >= |rows| ==> t0 == |IndexPairs(|rows|)|
    requires 0 <= t0 <= |IndexPairs(|rows|)|
    requires results0 == EstimatedSpec(ids, rows, width, threshold, IndexPairs(|rows|)[..t0])
    ensures 0 <= t <= |IndexPairs(|rows|)|
    ensures i + 2 < |rows| ==> t == Combinatorics.PairIndex(|rows|, i + 1, i + 2)
    ensures i + 2 >= |rows| ==> t == |IndexPairs(|rows|)|
    ensures results == EstimatedSpec(ids, rows, width, threshold, IndexPairs(|rows|)[..t])
  {
    var n := |rows|;
    RowPositions(n, i, t0);
    NextRowPosition(n, i, t0);
    results := EstimatedRow(ids, rows, width, threshold, results0, i, IndexPairs(n), t0);
    t := t0 + (n - 1 - i);
  }

  /** What estimated_pairs_from_signatures returns, in terms of i < j: a key
      for every pair whose agreement reaches the threshold and no other, with
      distinct ids that agreement as the value, and nothing at width 0. */
  lemma EstimatedMeaning(ids: seq<int>, rows: seq<seq<int>>, width: nat, threshold: real)
    requires Matrix(ids, rows, width)
    ensures forall i, j :: 0 <= i < j < |rows| && Reaches(rows[i], rows[j], threshold) ==>
              (ids[i], ids[j]) in EstimatedSpec(ids, rows, width, threshold, IndexPairs(|rows|))
    ensures forall p :: p in EstimatedSpec(ids, rows, width, threshold, IndexPairs(|rows|)) ==>
              exists i, j :: 0 <= i < j < |rows| && p == (ids[i], ids[j]) && Reaches(rows[i], rows[j], threshold)
    ensures Distinct(ids) ==> forall i, j :: 0 <= i < j < |rows| && Reaches(rows[i], rows[j], threshold) ==>
              EstimatedSpec(ids, rows, width, threshold, IndexPairs(|rows|))[(ids[i], ids[j])] == Agreement(rows[i], rows[j]).value
    ensures width == 0 ==> EstimatedSpec(ids, rows, width, threshold, IndexPairs(|rows|)) == map[]
  {
    EstimatedKeysIn(ids, rows, width, threshold);
    EstimatedKeysFrom(ids, rows, width, threshold);
    if width == 0 && EstimatedSpec(ids, rows, width, threshold, IndexPairs(|rows|)) != map[] {
      var p :| p in EstimatedSpec(ids, rows, width, threshold, IndexPairs(|rows|));
    }
    if Distinct(ids) {
      forall i, j | 0 <= i < j < |rows| && Reaches(rows[i], rows[j], threshold)
        ensures EstimatedSpec(ids, rows, width, threshold, IndexPairs(|rows|))[(ids[i], ids[j])] == Agreement(rows[i], rows[j]).value
      {
        EstimatedDistinct(ids, rows, width, threshold, i, j);
      }
    }
  }

  lemma EstimatedKeysIn(ids: seq<int>, rows: seq<seq<int>>, width: nat, threshold: real)
    requires Matrix(ids, rows, width)
    ensures forall i, j :: 0 <= i < j < |rows| && Reaches(rows[i], rows[j], threshold) ==>
              (ids[i], ids[j]) in EstimatedSpec(ids, rows, width, threshold, IndexPairs(|rows|))
  {
    var n := |rows|;
    var ps := IndexPairs(n);
    IndexPairsAt(n);
    EstimatedSpecKeys(ids, rows, width, threshold, ps);
    forall i, j | 0 <= i < j < n && Reaches(rows[i], rows[j], threshold)
      ensures (ids[i], ids[j]) in EstimatedSpec(ids, rows, width, threshold, ps)
    {
      var t := Combinatorics.PairIndex(n, i, j);
      assert ps[t] == (i, j);
    }
  }

  lemma EstimatedKeysFrom(ids: seq<int>, rows: seq<seq<int>>, width: nat, threshold: real)
    requires Matrix(ids, rows, width)
    ensures forall p :: p in EstimatedSpec(ids, rows, width, threshold, IndexPairs(|rows|)) ==>
              exists i, j :: 0 <= i < j < |rows| && p == (ids[i], ids[j]) && Reaches(rows[i], rows[j], threshold)
  {
    var n := |rows|;
    var ps := IndexPairs(n);
    EstimatedSpecKeys(ids, rows, width, threshold, ps);
    forall p | p in EstimatedSpec(ids, rows, width, threshold, ps)
      ensures exists i, j :: 0 <= i < j < n && p == (ids[i], ids[j]) && Reaches(rows[i], rows[j], threshold)
    {
      var t :| 0 <= t < |ps| && p == (ids[ps[t].0], ids[ps[t].1]) && Reaches(rows[ps[t].0], rows[ps[t].1], threshold);
      assert 0 <= ps[t].0 < ps[t].1 < n;
    }
  }

  /** With distinct ids a reaching pair's key holds its agreement. */
  lemma EstimatedDistinct(ids: seq<int>, rows: seq<seq<int>>, width: nat, threshold: real, i: int, j: int)
    requires Matrix(ids, rows, width) && Distinct(ids) && 0 <= i < j < |rows|
    requires Reaches(rows[i], rows[j], threshold)
    ensures (ids[i], ids[j]) in EstimatedSpec(ids, rows, width, threshold, IndexPairs(|rows|))
    ensures EstimatedSpec(ids, rows, width, threshold, IndexPairs(|rows|))[(ids[i], ids[j])] == Agreement(rows[i], rows[j]).value
  {
    var n := |rows|;
    var ps := IndexPairs(n);
    IndexPairsAt(n);
    IndexPairsDistinct(n);
    var t := Combinatorics.PairIndex(n, i, j);
    assert ps[t] == (i, j);
    forall t' | t < t' < |ps| ensures (ids[ps[t'].0], ids[ps[t'].1]) != (ids[ps[t].0], ids[ps[t].1]) {
      assert ps[t'] != ps[t];
    }
    EstimatedSpecLast(ids, rows, width, threshold, ps, t);
  }

  // ---------------------------------------------------------------------
  // lsh_candidate_pairs

  /** Columns [k·b, k·b + b) of a row: band k when each band has b rows. Read
      only for 0 <= k < r with r·b equal to the row's width, where the window
      lies inside the row (BandBounds); the empty fallback is never reached
      there. */
  function BandAt(row: seq<int>, k: int, b: int): seq<int>
  {
    if 0 <= k * b <= k * b + b <= |row| then row[k * b .. k * b + b] else []
  }

  /** Band k of r bands of b rows each lies inside a row of width r·b. */
  lemma BandBounds(k: int, r: int, b: int, width: int)
    requires 0 <= k < r && r * b == width && width >= 0
    ensures b >= 0
    ensures 0 <= k * b <= k * b + b <= width
  {
    PositiveFactor(r, b);
    MulGap(k, r, b);
  }

  lemma PositiveFactor(r: int, b: int)
    requires r >= 1 && r * b >= 0
    ensures b >= 0
  {
  }

  lemma MulGap(k1: int, k2: int, b: int)
    requires b >= 0 && k1 < k2
    ensures k1 * b + b <= k2 * b
  {
    assert (k2 - k1 - 1) * b >= 0;
    assert (k2 - k1 - 1) * b == k2 * b - k1 * b - b;
  }

  lemma MulLessCancel(k: int, r: int, b: int)
    requires b >= 1 && k * b < r * b
    ensures k < r
  {
  }

  /** The bands tile the columns: with r, b >= 1 every column c < r·b lies in
      band c / b ... */
  lemma BandCovers(r: int, b: int, c: int)
    requires r >= 1 && b >= 1 && 0 <= c < r * b
    ensures 0 <= c / b < r && (c / b) * b <= c < (c / b) * b + b
  {
    var k := c / b;
    assert c == k * b + c % b;
    MulLessCancel(k, r, b);
  }

  /** ... and in no other band. */
  lemma BandsDisjoint(b: int, k1: int, k2: int, c: int)
    requires b >= 1
    requires k1 * b <= c < k1 * b + b && k2 * b <= c < k2 * b + b
    ensures k1 == k2
  {
    if k1 < k2 {
      MulGap(k1, k2, b);
    } else if k2 < k1 {
      MulGap(k2, k1, b);
    }
  }

  /** The window [start, end) of every row: the bucket keys of one band. */
  function Windows(rows: seq<seq<int>>, width: nat, start: int, end: int): (keys: seq<seq<int>>)
    requires Rectangular(rows, width) && 0 <= start <= end <= width
    ensures |keys| == |rows| && forall i :: 0 <= i < |rows| ==> keys[i] == rows[i][start..end]
  {
    seq(|rows|, i requires 0 <= i < |rows| => rows[i][start..end])
  }

  /** The pairs (ids[i], ids[j]), i < j, whose keys are equal. */
  ghost function KeyPairs(ids: seq<int>, keys: seq<seq<int>>): set<Pair>
    requires |keys| <= |ids|
  {
    set i, j | 0 <= i < j < |keys| && keys[i] == keys[j] :: (ids[i], ids[j])
  }

  /** The candidates of bands 0, ..., k - 1: the pairs i < j whose rows agree
      on every column of one of those bands. */
  ghost function CandidatesUpTo(ids: seq<int>, rows: seq<seq<int>>, width: nat, b: int, k: int): set<Pair>
    requires Matrix(ids, rows, width)
  {
    set i, j, k' | 0 <= i < j < |rows| && 0 <= k' < k && BandAt(rows[i], k', b) == BandAt(rows[j], k', b)
      :: (ids[i], ids[j])
  }

  /** The positions i < n holding `key`, in increasing order: the list the
      source keeps for a bucket. */
  function RowsWithKey(keys: seq<seq<int>>, key: seq<int>, n: int): seq<int>
    requires 0 <= n <= |keys|
    decreases n
  {
    if n == 0 then []
    else RowsWithKey(keys, key, n - 1) + (if keys[n - 1] == key then [n - 1] else [])
  }

  /** A bucket's list holds exactly the positions below n carrying its key,
      each once, in increasing order. */
  lemma {:induction false} RowsWithKeySpec(keys: seq<seq<int>>, key: seq<int>, n: int)
    requires 0 <= n <= |keys|
    ensures var r := RowsWithKey(keys, key, n);
      && (forall x :: 0 <= x < |r| ==> 0 <= r[x] < n && keys[r[x]] == key)
      && (forall x, y :: 0 <= x < y < |r| ==> r[x] < r[y])
      && (forall i :: 0 <= i < n && keys[i] == key ==> i in r)
    decreases n
  {
    if n > 0 {
      RowsWithKeySpec(keys, key, n - 1);
    }
  }

  /** The buckets after placing positions 0, ..., n - 1 in turn:
      buckets.setdefault(key, []).append(i). */
  function BucketsOf(keys: seq<seq<int>>, n: int): map<seq<int>, seq<int>>
    requires 0 <= n <= |keys|
    decreases n
  {
    if n == 0 then map[]
    else
      var m := BucketsOf(keys, n - 1);
      var key := keys[n - 1];
      m[key := Lookup(m, key) + [n - 1]]
  }

  /** The list a bucket map holds for `key`, empty when the key is absent. */
  function Lookup(buckets: map<seq<int>, seq<int>>, key: seq<int>): seq<int>
  {
    if key in buckets then buckets[key] else []
  }

  /** The buckets after placing positions 0, ..., n - 1: every key seen is
      present, and every key's list is the increasing list of positions
      holding it. */
  ghost predicate BucketsUpTo(keys: seq<seq<int>>, buckets: map<seq<int>, seq<int>>, n: int)
    requires 0 <= n <= |keys|
  {
    && (forall i :: 0 <= i < n ==> keys[i] in buckets)
    && (forall key :: Lookup(buckets, key) == RowsWithKey(keys, key, n))
  }

  /** After placing positions 0, ..., n - 1, a key's list is the increasing
      list of the positions holding it. */
  lemma {:induction false} BucketsOfLookup(keys: seq<seq<int>>, n: int, key: seq<int>)
    requires 0 <= n <= |keys|
    ensures Lookup(BucketsOf(keys, n), key) == RowsWithKey(keys, key, n)
    decreases n
  {
    if n > 0 {
      BucketsOfLookup(keys, n - 1, key);
    }
  }

  /** Every key placed so far has a bucket. */
  lemma {:induction false} BucketsOfHas(keys: seq<seq<int>>, n: int, i: int)
    requires 0 <= i < n <= |keys|
    ensures keys[i] in BucketsOf(keys, n)
    decreases n
  {
    if i < n - 1 {
      BucketsOfHas(keys, n - 1, i);
    }
  }

  /** Each bucket lists exactly the positions holding its key. */
  lemma BucketsOfMeaning(keys: seq<seq<int>>, n: int)
    requires 0 <= n <= |keys|
    ensures BucketsUpTo(keys, BucketsOf(keys, n), n)
  {
    forall i | 0 <= i < n ensures keys[i] in BucketsOf(keys, n) {
      BucketsOfHas(keys, n, i);
    }
    forall key ensures Lookup(BucketsOf(keys, n), key) == RowsWithKey(keys, key, n) {
      BucketsOfLookup(keys, n, key);
    }
  }

  /** Bucketing the rows of one band by their window [start, end). */
  method BuildBuckets(rows: seq<seq<int>>, width: nat, start: int, end: int) returns (buckets: map<seq<int>, seq<int>>)
    requires Rectangular(rows, width) && 0 <= start <= end <= width
    ensures buckets == BucketsOf(Windows(rows, width, start, end), |rows|)
  {
    ghost var keys := Windows(rows, width, start, end);
    buckets := map[];
    var i := 0;
    while i < |rows|
      invariant 0 <= i <= |rows|
      invariant buckets == BucketsOf(keys, i)
    {
      var key := rows[i][start..end];
      assert key == keys[i];
      buckets := buckets[key := Lookup(buckets, key) + [i]];
      i := i + 1;
    }
  }

  /** The id pairs of the index pairs of one bucket. */
  ghost function BucketPairs(ids: seq<int>, bucket: seq<int>): set<Pair>
    requires forall x :: 0 <= x < |bucket| ==> 0 <= bucket[x] < |ids|
  {
    set x, y | 0 <= x < y < |bucket| :: (ids[bucket[x]], ids[bucket[y]])
  }

  /** for a, b in combinations(bucket_indices, 2): candidates.add(...). */
  method AddBucketPairs(ids: seq<int>, bucket: seq<int>, candidates0: set<Pair>) returns (candidates: set<Pair>)
    requires forall x :: 0 <= x < |bucket| ==> 0 <= bucket[x] < |ids|
    ensures candidates == candidates0 + BucketPairs(ids, bucket)
  {
    candidates := candidates0;
    var x := 0;
    while x < |bucket|
      invariant 0 <= x <= |bucket|
      invariant candidates == candidates0
        + set x', y' | 0 <= x' < y' < |bucket| && x' < x :: (ids[bucket[x']], ids[bucket[y']])
    {
      var y := x + 1;
      while y < |bucket|
        invariant x + 1 <= y <= |bucket|
        invariant candidates == candidates0
          + set x', y' | 0 <= x' < y' < |bucket| && (x' < x || (x' == x && y' < y)) :: (ids[bucket[x']], ids[bucket[y']])
      {
        candidates := candidates + {(ids[bucket[x]], ids[bucket[y]])};
        y := y + 1;
      }
      x := x + 1;
    }
  }

  /** Every bucket entry is a position below n. */
  predicate EntriesBelow(buckets: map<seq<int>, seq<int>>, n: int)
  {
    forall key :: key in buckets ==> forall x :: 0 <= x < |buckets[key]| ==> 0 <= buckets[key][x] < n
  }

  lemma BucketEntries(keys: seq<seq<int>>, buckets: map<seq<int>, seq<int>>, n: int)
    requires |keys| <= n && BucketsUpTo(keys, buckets, |keys|)
    ensures EntriesBelow(buckets, n)
  {
    forall key | key in buckets
      ensures forall x :: 0 <= x < |buckets[key]| ==> 0 <= buckets[key][x] < n
    {
      assert Lookup(buckets, key) == RowsWithKey(keys, key, |keys|);
      RowsWithKeySpec(keys, key, |keys|);
    }
  }

  /** The id pairs of the buckets whose keys are in `seen`. */
  ghost function SeenPairs(ids: seq<int>, buckets: map<seq<int>, seq<int>>, seen: set<seq<int>>): set<Pair>
    requires seen <= buckets.Keys && EntriesBelow(buckets, |ids|)
  {
    set key, x, y | key in seen && 0 <= x < y < |buckets[key]| :: (ids[buckets[key][x]], ids[buckets[key][y]])
  }

  lemma SeenPairsAdd(ids: seq<int>, buckets: map<seq<int>, seq<int>>, seen: set<seq<int>>, key: seq<int>)
    requires seen <= buckets.Keys && key in buckets && EntriesBelow(buckets, |ids|)
    ensures SeenPairs(ids, buckets, seen + {key}) == SeenPairs(ids, buckets, seen) + BucketPairs(ids, buckets[key])
  {
    var bucket := buckets[key];
    forall p | p in BucketPairs(ids, bucket) ensures p in SeenPairs(ids, buckets, seen + {key}) {
      var x, y :| 0 <= x < y < |bucket| && p == (ids[bucket[x]], ids[bucket[y]]);
    }
  }

  /** The pairs of all buckets are the pairs of positions with equal keys. */
  lemma BucketsGiveKeyPairs(ids: seq<int>, keys: seq<seq<int>>, buckets: map<seq<int>, seq<int>>)
    requires |keys| <= |ids| && BucketsUpTo(keys, buckets, |keys|) && EntriesBelow(buckets, |ids|)
    ensures SeenPairs(ids, buckets, buckets.Keys) == KeyPairs(ids, keys)
  {
    forall p | p in SeenPairs(ids, buckets, buckets.Keys) ensures p in KeyPairs(ids, keys) {
      var key, x, y :| key in buckets && 0 <= x < y < |buckets[key]| && p == (ids[buckets[key][x]], ids[buckets[key][y]]);
      BucketPairIsKeyPair(ids, keys, buckets, key, x, y);
    }
    forall p | p in KeyPairs(ids, keys) ensures p in SeenPairs(ids, buckets, buckets.Keys) {
      var i, j :| 0 <= i < j < |keys| && keys[i] == keys[j] && p == (ids[i], ids[j]);
      KeyPairIsBucketPair(ids, keys, buckets, i, j);
    }
  }

  /** Two entries of one bucket are two positions, in order, with its key. */
  lemma BucketPairIsKeyPair(ids: seq<int>, keys: seq<seq<int>>, buckets: map<seq<int>, seq<int>>, key: seq<int>, x: int, y: int)
    requires |keys| <= |ids| && BucketsUpTo(keys, buckets, |keys|) && EntriesBelow(buckets, |ids|)
    requires key in buckets && 0 <= x < y < |buckets[key]|
    ensures (ids[buckets[key][x]], ids[buckets[key][y]]) in KeyPairs(ids, keys)
  {
    assert Lookup(buckets, key) == RowsWithKey(keys, key, |keys|);
    RowsWithKeySpec(keys, key, |keys|);
    var i, j := buckets[key][x], buckets[key][y];
    assert i < j && keys[i] == key == keys[j];
  }

  /** Two positions with equal keys are two entries of their bucket, in order. */
  lemma KeyPairIsBucketPair(ids: seq<int>, keys: seq<seq<int>>, buckets: map<seq<int>, seq<int>>, i: int, j: int)
    requires |keys| <= |ids| && BucketsUpTo(keys, buckets, |keys|) && EntriesBelow(buckets, |ids|)
    requires 0 <= i < j < |keys| && keys[i] == keys[j]
    ensures (ids[i], ids[j]) in SeenPairs(ids, buckets, buckets.Keys)
  {
    var bucket := buckets[keys[i]];
    assert Lookup(buckets, keys[i]) == RowsWithKey(keys, keys[i], |keys|);
    RowsWithKeySpec(keys, keys[i], |keys|);
    assert i in bucket && j in bucket;
    var x :| 0 <= x < |bucket| && bucket[x] == i;
    var y :| 0 <= y < |bucket| && bucket[y] == j;
    assert x < y;
    assert (ids[bucket[x]], ids[bucket[y]]) in SeenPairs(ids, buckets, buckets.Keys);
  }

  /** Bucketing one band and pairing within buckets finds exactly the pairs
      of rows whose keys agree. */
  lemma BandPairs(ids: seq<int>, keys: seq<seq<int>>)
    requires |keys| <= |ids|
    ensures EntriesBelow(BucketsOf(keys, |keys|), |ids|)
    ensures SeenPairs(ids, BucketsOf(keys, |keys|), BucketsOf(keys, |keys|).Keys) == KeyPairs(ids, keys)
  {
    var buckets := BucketsOf(keys, |keys|);
    BucketsOfMeaning(keys, |keys|);
    BucketEntries(keys, buckets, |ids|);
    BucketsGiveKeyPairs(ids, keys, buckets);
  }

  /** for bucket_indices in buckets.values(): add the pairs of every bucket
      holding at least two rows. */
  method AddBandPairs(ids: seq<int>, buckets: map<seq<int>, seq<int>>, candidates0: set<Pair>) returns (candidates: set<Pair>)
    requires EntriesBelow(buckets, |ids|)
    ensures candidates == candidates0 + SeenPairs(ids, buckets, buckets.Keys)
  {
    candidates := candidates0;
    var remaining := buckets.Keys;
    ghost var seen: set<seq<int>> := {};
    while remaining != {}
      invariant remaining <= buckets.Keys && seen == buckets.Keys - remaining
      invariant candidates == candidates0 + SeenPairs(ids, buckets, seen)
      decreases |remaining|
    {
      var key :| key in remaining;
      SeenPairsAdd(ids, buckets, seen, key);
      candidates := AddIfShared(ids, buckets[key], candidates);
      remaining := remaining - {key};
      seen := seen + {key};
    }
  }

  /** if len(bucket_indices) < 2: continue; otherwise add the bucket's pairs. */
  method AddIfShared(ids: seq<int>, bucket: seq<int>, candidates0: set<Pair>) returns (candidates: set<Pair>)
    requires forall x :: 0 <= x < |bucket| ==> 0 <= bucket[x] < |ids|
    ensures candidates == candidates0 + BucketPairs(ids, bucket)
  {
    if |bucket| >= 2 {
      candidates := AddBucketPairs(ids, bucket, candidates0);
    } else {
      assert BucketPairs(ids, bucket) == {};
      candidates := candidates0;
    }
  }

  /** Band k adds exactly the pairs agreeing on its window. */
  lemma CandidatesStep(ids: seq<int>, rows: seq<seq<int>>, width: nat, b: int, k: int)
    requires Matrix(ids, rows, width) && 0 <= k && 0 <= k * b <= k * b + b <= width
    ensures CandidatesUpTo(ids, rows, width, b, k + 1)
            == CandidatesUpTo(ids, rows, width, b, k) + KeyPairs(ids, Windows(rows, width, k * b, k * b + b))
  {
    var next := CandidatesUpTo(ids, rows, width, b, k + 1);
    var window := KeyPairs(ids, Windows(rows, width, k * b, k * b + b));
    forall p | p in next
      ensures p in CandidatesUpTo(ids, rows, width, b, k) + window
    {
      var i, j, k' :| 0 <= i < j < |rows| && 0 <= k' < k + 1 && BandAt(rows[i], k', b) == BandAt(rows[j], k', b)
                      && p == (ids[i], ids[j]);
      if k' == k {
        WindowPair(ids, rows, width, b, k, i, j);
      }
    }
    forall p | p in window
      ensures p in next
    {
      var keys := Windows(rows, width, k * b, k * b + b);
      var i, j :| 0 <= i < j < |keys| && keys[i] == keys[j] && p == (ids[i], ids[j]);
      WindowPair(ids, rows, width, b, k, i, j);
    }
  }

  /** Rows i and j agree on band k exactly when their windows of that band
      are equal. */
  lemma WindowPair(ids: seq<int>, rows: seq<seq<int>>, width: nat, b: int, k: int, i: int, j: int)
    requires Matrix(ids, rows, width) && 0 <= k && 0 <= k * b <= k * b + b <= width
    requires 0 <= i < j < |rows|
    ensures var keys := Windows(rows, width, k * b, k * b + b);
      BandAt(rows[i], k, b) == BandAt(rows[j], k, b) <==> keys[i] == keys[j]
    ensures BandAt(rows[i], k, b) == BandAt(rows[j], k, b) ==>
      (ids[i], ids[j]) in CandidatesUpTo(ids, rows, width, b, k + 1)
      && (ids[i], ids[j]) in KeyPairs(ids, Windows(rows, width, k * b, k * b + b))
  {
  }

  /** lsh_candidate_pairs: ValueError unless r·b equals the signature width;
      otherwise the id pairs (ids[i], ids[j]), i < j, whose rows agree on
      every column of at least one band. */
  method LshCandidatePairs(userIds: seq<int>, rows: seq<seq<int>>, width: nat, params: Lsh.LshParams)
    returns (res: Result<set<Pair>>)
    requires Matrix(userIds, rows, width)
    ensures res.Err? <==> params.r * params.b != width
    ensures res.Err? ==> res.error == ParamsMismatch
    ensures res.Ok? ==> res.value == CandidatesUpTo(userIds, rows, width, params.b, params.r)
  {
    if params.r * params.b != width {
      return Err(ParamsMismatch);
    }
    var candidates: set<Pair> := {};
    var k := 0;
    while k < params.r
      invariant 0 <= k <= (if params.r < 0 then 0 else params.r)
      invariant candidates == CandidatesUpTo(userIds, rows, width, params.b, k)
    {
      BandBounds(k, params.r, params.b, width);
      var start := k * params.b;
      var end := start + params.b;
      var buckets := BuildBuckets(rows, width, start, end);
      BandPairs(userIds, Windows(rows, width, start, end));
      candidates := AddBandPairs(userIds, buckets, candidates);
      CandidatesStep(userIds, rows, width, params.b, k);
      k := k + 1;
    }
    if params.r < 0 {
      assert CandidatesUpTo(userIds, rows, width, params.b, params.r) == {};
    }
    return Ok(candidates);
  }

  /** Two rows with identical signatures always become candidates when there
      is at least one band. */
  lemma IdenticalRowsAreCandidates(ids: seq<int>, rows: seq<seq<int>>, width: nat, r: int, b: int, i: int, j: int)
    requires Matrix(ids, rows, width) && r >= 1 && 0 <= i < j < |rows| && rows[i] == rows[j]
    ensures (ids[i], ids[j]) in CandidatesUpTo(ids, rows, width, b, r)
  {
    assert BandAt(rows[i], 0, b) == BandAt(rows[j], 0, b);
  }

  /** With a single band spanning the whole row, the candidates are exactly
      the pairs of identical rows. */
  lemma SingleBandIsExactMatch(ids: seq<int>, rows: seq<seq<int>>, width: nat)
    requires Matrix(ids, rows, width)
    ensures forall p :: p in CandidatesUpTo(ids, rows, width, width, 1) <==>
              exists i, j :: 0 <= i < j < |rows| && rows[i] == rows[j] && p == (ids[i], ids[j])
  {
    forall i | 0 <= i < |rows| ensures BandAt(rows[i], 0, width) == rows[i] {
      assert rows[i][0..width] == rows[i];
    }
  }

  // ---------------------------------------------------------------------
  // pairs_above_threshold

  /** The keys whose similarity is at least the threshold. */
  function PairsAboveThreshold(similarities: map<Pair, real>, threshold: real): (r: set<Pair>)
    ensures r <= similarities.Keys
    ensures forall p :: p in r <==> p in similarities && similarities[p] >= threshold
  {
    set p | p in similarities && similarities[p] >= threshold
  }

  /** Raising the threshold can only drop pairs. */
  lemma ThresholdMonotone(similarities: map<Pair, real>, t1: real, t2: real)
    requires t1 <= t2
    ensures PairsAboveThreshold(similarities, t2) <= PairsAboveThreshold(similarities, t1)
  {
  }

  // ---------------------------------------------------------------------
  // compute_fp_fn

  /** (|predicted - truth|, |truth - predicted|). */
  function ComputeFpFn(predicted: set<Pair>, truth: set<Pair>): (r: (nat, nat))
    ensures r.0 + |predicted * truth| == |predicted|
    ensures r.1 + |predicted * truth| == |truth|
    ensures r.0 == 0 <==> predicted <= truth
    ensures r.1 == 0 <==> truth <= predicted
  {
    var fp := predicted - truth;
    var fn := truth - predicted;
    assert predicted == fp + predicted * truth && fp * (predicted * truth) == {};
    assert truth == fn + predicted * truth && fn * (predicted * truth) == {};
    (|fp|, |fn|)
  }
}
