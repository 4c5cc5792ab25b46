/** The report helpers of the document part: document pairs, pairwise
    Jaccard tables per k-gram configuration, MinHash estimates per t, the
    recommended t and LSH candidate probabilities. */
module Reporting {
  import opened Wrappers
  import opened Strings
  import opened Jaccard
  import opened Combinatorics
  import opened Kgrams
  import opened MinHash
  import opened Lsh

  /** A pair of document ids. */
  type Pair = (string, string)

  // ---------------------------------------------------------------------
  // pairwise_ids

  /** pairwise_ids: every pair (ids[i], ids[j]) with i < j, in the order of
      itertools.combinations, n(n-1)/2 of them. */
  function PairwiseIds(ids: seq<string>): (r: seq<Pair>)
    ensures |r| == |ids| * (|ids| - 1) / 2
    ensures forall i, j :: 0 <= i < j < |ids| ==>
              PairIndex(|ids|, i, j) < |r| && r[PairIndex(|ids|, i, j)] == (ids[i], ids[j])
    ensures forall p :: p in r <==> exists i, j :: 0 <= i < j < |ids| && p == (ids[i], ids[j])
  {
    CombinationsLength(ids);
    assert forall i, j :: 0 <= i < j < |ids| ==>
             PairIndex(|ids|, i, j) < |Combinations2(ids)| && Combinations2(ids)[PairIndex(|ids|, i, j)] == (ids[i], ids[j]) by {
      forall i, j | 0 <= i < j < |ids|
        ensures PairIndex(|ids|, i, j) < |Combinations2(ids)| && Combinations2(ids)[PairIndex(|ids|, i, j)] == (ids[i], ids[j])
      {
        CombinationsAt(ids, i, j);
      }
    }
    assert forall p :: p in Combinations2(ids) <==> exists i, j :: 0 <= i < j < |ids| && p == (ids[i], ids[j]) by {
      forall p ensures p in Combinations2(ids) <==> exists i, j :: 0 <= i < j < |ids| && p == (ids[i], ids[j]) {
        CombinationsMembership(ids, p);
      }
    }
    Combinations2(ids)
  }

  // ---------------------------------------------------------------------
  // sorted(grams_by_doc.keys())

  /** Strictly increasing in code-point order: sorted, with no repeats. */
  predicate StrictlySorted(s: seq<string>)
  {
    forall i, j :: 0 <= i < j < |s| ==> Less(s[i], s[j])
  }

  /** A new string put in its place in a sorted list. */
  function Insert(s: seq<string>, x: string): seq<string>
    decreases |s|
  {
    if |s| == 0 then [x]
    else if Less(x, s[0]) then [x] + s
    else [s[0]] + Insert(s[1..], x)
  }

  /** Inserting adds exactly the new string. */
  lemma {:induction false} InsertElems(s: seq<string>, x: string)
    ensures Elems(Insert(s, x)) == Elems(s) + {x}
    ensures |Insert(s, x)| == |s| + 1
    decreases |s|
  {
    if |s| == 0 {
      assert Elems([x]) == {x};
    } else if Less(x, s[0]) {
      ElemsCons(x, s);
    } else {
      var t := s[1..];
      InsertElems(t, x);
      assert s == [s[0]] + t;
      ElemsCons(s[0], t);
      ElemsCons(s[0], Insert(t, x));
    }
  }

  lemma ElemsCons(x: string, s: seq<string>)
    ensures Elems([x] + s) == {x} + Elems(s)
  {
    var r := [x] + s;
    forall y | y in r ensures y == x || y in s {
      var i :| 0 <= i < |r| && r[i] == y;
      if i > 0 { assert s[i - 1] == y; }
    }
    forall y | y in s ensures y in r {
      var i :| 0 <= i < |s| && s[i] == y;
      assert r[i + 1] == y;
    }
  }

  /** The tail of a sorted list is sorted. */
  lemma TailSorted(s: seq<string>)
    requires |s| > 0 && StrictlySorted(s)
    ensures StrictlySorted(s[1..])
  {
    var t := s[1..];
    forall i, j | 0 <= i < j < |t| ensures Less(t[i], t[j]) {
      assert t[i] == s[i + 1] && t[j] == s[j + 1];
    }
  }

  /** A string below every element of a sorted list can be put in front. */
  lemma ConsSorted(x: string, u: seq<string>)
    requires StrictlySorted(u) && forall j :: 0 <= j < |u| ==> Less(x, u[j])
    ensures StrictlySorted([x] + u)
  {
    var r := [x] + u;
    forall i, j | 0 <= i < j < |r| ensures Less(r[i], r[j]) {
      if i > 0 {
        assert r[i] == u[i - 1] && r[j] == u[j - 1];
      } else {
        assert r[j] == u[j - 1];
      }
    }
  }

  /** Inserting a new string into a sorted list keeps it sorted. */
  lemma {:induction false} InsertSorted(s: seq<string>, x: string)
    requires StrictlySorted(s) && x !in s
    ensures StrictlySorted(Insert(s, x))
    decreases |s|
  {
    if |s| > 0 {
      if Less(x, s[0]) {
        forall j | 0 <= j < |s| ensures Less(x, s[j]) {
          if j > 0 {
            LessTransitive(x, s[0], s[j]);
          }
        }
        ConsSorted(x, s);
      } else {
        LessTotal(x, s[0]);
        var t := s[1..];
        TailSorted(s);
        assert x !in t;
        InsertSorted(t, x);
        InsertElems(t, x);
        var u := Insert(t, x);
        forall j | 0 <= j < |u| ensures Less(s[0], u[j]) {
          assert u[j] in Elems(u);
          if u[j] != x {
            var k :| 0 <= k < |t| && t[k] == u[j];
            assert s[k + 1] == u[j];
          }
        }
        ConsSorted(s[0], u);
      }
    }
  }

  /** A strictly sorted list is determined by its elements. */
  lemma {:induction false} SortedUnique(a: seq<string>, b: seq<string>)
    requires StrictlySorted(a) && StrictlySorted(b) && Elems(a) == Elems(b)
    ensures a == b
    decreases |a|
  {
    assert |a| > 0 ==> a[0] in Elems(a);
    assert |b| > 0 ==> b[0] in Elems(b);
    if |a| > 0 {
      assert a[0] in Elems(b);
      assert |b| > 0;
      assert b[0] in Elems(a);
      var i :| 0 <= i < |b| && b[i] == a[0];
      var j :| 0 <= j < |a| && a[j] == b[0];
      if i > 0 {
        assert Less(b[0], a[0]);
        if j > 0 { LessAsymmetric(a[0], a[j]); } else { LessIrreflexive(a[0]); }
      }
      assert b[0] == a[0];
      var a', b' := a[1..], b[1..];
      assert StrictlySorted(a') by {
        forall x, y | 0 <= x < y < |a'| ensures Less(a'[x], a'[y]) { assert a'[x] == a[x + 1] && a'[y] == a[y + 1]; }
      }
      assert StrictlySorted(b') by {
        forall x, y | 0 <= x < y < |b'| ensures Less(b'[x], b'[y]) { assert b'[x] == b[x + 1] && b'[y] == b[y + 1]; }
      }
      assert a[0] !in Elems(a') by {
        forall x | 0 <= x < |a'| ensures a'[x] != a[0] { assert Less(a[0], a[x + 1]); LessIrreflexive(a[0]); }
      }
      assert b[0] !in Elems(b') by {
        forall x | 0 <= x < |b'| ensures b'[x] != b[0] { assert Less(b[0], b[x + 1]); LessIrreflexive(b[0]); }
      }
      assert a == [a[0]] + a' && b == [b[0]] + b';
      assert Elems(a) == {a[0]} + Elems(a') && Elems(b) == {b[0]} + Elems(b');
      assert Elems(a') == Elems(b');
      SortedUnique(a', b');
    }
  }

  /** sorted() of a set of ids: each id once, in increasing order. */
  method SortedIds(keys: set<string>) returns (ids: seq<string>)
    ensures StrictlySorted(ids)
    ensures Elems(ids) == keys
    ensures |ids| == |keys|
  {
    ids := [];
    var remaining := keys;
    while remaining != {}
      invariant remaining <= keys
      invariant StrictlySorted(ids)
      invariant Elems(ids) == keys - remaining
      invariant |ids| + |remaining| == |keys|
      decreases |remaining|
    {
      var x :| x in remaining;
      InsertSorted(ids, x);
      InsertElems(ids, x);
      ids := Insert(ids, x);
      remaining := remaining - {x};
    }
  }

  // ---------------------------------------------------------------------
  // compute_pairwise_jaccard

  /** The pairs (a, b) of ids with a before b. */
  function OrderedPairs(keys: set<string>): set<Pair>
  {
    set a, b | a in keys && b in keys && Less(a, b) :: (a, b)
  }

  /** The pairwise table: the Jaccard similarity of every ordered pair. */
  function PairwiseJaccard(grams: map<string, set<string>>): map<Pair, real>
  {
    map p | p in OrderedPairs(grams.Keys) :: Similarity(grams[p.0], grams[p.1])
  }

  /** The table holds (a, b) exactly when a and b are ids and a comes
      first, with their Jaccard similarity, a value in [0, 1]; of two
      distinct ids exactly one order is present. */
  lemma PairwiseJaccardMeaning(grams: map<string, set<string>>, a: string, b: string)
    ensures (a, b) in PairwiseJaccard(grams) <==> a in grams && b in grams && Less(a, b)
    ensures (a, b) in PairwiseJaccard(grams) ==>
              PairwiseJaccard(grams)[(a, b)] == Similarity(grams[a], grams[b])
              && 0.0 <= PairwiseJaccard(grams)[(a, b)] <= 1.0
    ensures a in grams && b in grams && a != b ==>
              ((a, b) in PairwiseJaccard(grams) <==> (b, a) !in PairwiseJaccard(grams))
  {
    if a != b {
      LessTotal(a, b);
      if Less(a, b) { LessAsymmetric(a, b); }
    } else {
      LessIrreflexive(a);
    }
  }

  /** The ordered pairs of a sorted id list are those of its elements. */
  lemma SortedPairs(ids: seq<string>)
    requires StrictlySorted(ids)
    ensures Elems(PairwiseIds(ids)) == OrderedPairs(Elems(ids))
  {
    var ps := PairwiseIds(ids);
    forall p | p in Elems(ps) ensures p in OrderedPairs(Elems(ids)) {
      CombinationsMembership(ids, p);
      var i, j :| 0 <= i < j < |ids| && p == (ids[i], ids[j]);
      assert ids[i] in Elems(ids) && ids[j] in Elems(ids);
    }
    forall p | p in OrderedPairs(Elems(ids)) ensures p in Elems(ps) {
      var a, b := p.0, p.1;
      assert a in Elems(ids) && b in Elems(ids) && Less(a, b);
      var i :| 0 <= i < |ids| && ids[i] == a;
      var j :| 0 <= j < |ids| && ids[j] == b;
      if j <= i {
        LessIrreflexive(a);
        if j < i { LessAsymmetric(a, b); }
      }
      assert ps[PairIndex(|ids|, i, j)] == p;
    }
  }

  /** A table with the keys of the pairwise table and the same values is
      the pairwise table. */
  lemma TableIsPairwise(grams: map<string, set<string>>, results: map<Pair, real>)
    requires results.Keys == OrderedPairs(grams.Keys)
    requires forall p :: p in results ==> p.0 in grams && p.1 in grams && results[p] == Similarity(grams[p.0], grams[p.1])
    ensures results == PairwiseJaccard(grams)
  {
  }

  /** compute_pairwise_jaccard: the loop over pairwise_ids of the sorted
      ids fills exactly the pairwise table. */
  method ComputePairwiseJaccard(grams: map<string, set<string>>) returns (results: map<Pair, real>)
    ensures results == PairwiseJaccard(grams)
  {
    var ids := SortedIds(grams.Keys);
    var pairs := PairwiseIds(ids);
    SortedPairs(ids);
    results := FillTable(grams, pairs);
    TableIsPairwise(grams, results);
  }

  /** for a, b in pairs: results[(a, b)] = jaccard(grams[a], grams[b]). */
  method FillTable(grams: map<string, set<string>>, pairs: seq<Pair>) returns (results: map<Pair, real>)
    requires forall p :: p in Elems(pairs) ==> p.0 in grams && p.1 in grams
    ensures results.Keys == Elems(pairs)
    ensures forall p :: p in results ==> p.0 in grams && p.1 in grams && results[p] == Similarity(grams[p.0], grams[p.1])
  {
    results := map[];
    var i := 0;
    while i < |pairs|
      invariant 0 <= i <= |pairs|
      invariant results.Keys == Elems(pairs[..i])
      invariant forall p :: p in results ==> p.0 in grams && p.1 in grams && results[p] == Similarity(grams[p.0], grams[p.1])
    {
      var p := pairs[i];
      assert p in Elems(pairs);
      ElemsSnoc(pairs, i);
      results := results[p := Similarity(grams[p.0], grams[p.1])];
      i := i + 1;
    }
    assert pairs[..i] == pairs;
  }

  /** One more element of a prefix adds that element. */
  lemma ElemsSnoc(s: seq<Pair>, i: int)
    requires 0 <= i < |s|
    ensures Elems(s[..i + 1]) == Elems(s[..i]) + {s[i]}
  {
    assert s[..i + 1] == s[..i] + [s[i]];
  }

  // ---------------------------------------------------------------------
  // compute_kgram_jaccards

  /** f"{mode}_{k}": the report key of a k-gram configuration. */
  function SpecKey(mode: string, k: int): string
  {
    mode + "_" + IntToString(k)
  }

  lemma NoUnderscore(k: int)
    ensures '_' !in IntToString(k)
  {
    var r := IntToString(k);
    IntToStringDigits(k);
    forall i | 0 <= i < |r| ensures r[i] != '_' {
      if k < 0 && i == 0 { assert r[0] == '-'; }
    }
  }

  /** str(k) determines k. */
  lemma IntToStringInjective(k1: int, k2: int)
    requires IntToString(k1) == IntToString(k2)
    ensures k1 == k2
  {
    IntToStringDigits(k1);
    IntToStringDigits(k2);
  }

  /** Distinct configurations get distinct keys: str(k) has no '_', so the
      last '_' of a key separates the mode from k. */
  lemma SpecKeyInjective(m1: string, k1: int, m2: string, k2: int)
    requires SpecKey(m1, k1) == SpecKey(m2, k2)
    ensures m1 == m2 && k1 == k2
  {
    var key := SpecKey(m1, k1);
    var s1, s2 := IntToString(k1), IntToString(k2);
    NoUnderscore(k1);
    NoUnderscore(k2);
    assert key[|m1|] == '_' && key[|m2|] == '_';
    assert |m1| == |m2|;
    assert m1 == key[..|m1|] == m2;
    assert s1 == key[|m1| + 1..] == s2;
    IntToStringInjective(k1, k2);
  }

  /** The table reported for one configuration. */
  function SpecTable(documents: map<string, string>, mode: string, k: int): map<Pair, real>
  {
    if Supported(mode, k) then PairwiseJaccard(KgramsOf(documents, mode, k)) else map[]
  }

  /** The error build_kgrams_for_documents raises for an unsupported
      configuration. */
  function ModeError(mode: string): Error
  {
    if mode == "char" || mode == "word" then NonPositiveK else UnsupportedMode
  }

  /** A configuration's key, f"{mode}_{k}". */
  function KeyOf(spec: (string, int)): string
  {
    SpecKey(spec.0, spec.1)
  }

  /** Distinct configurations have distinct keys. */
  lemma KeyOfInjective()
    ensures forall c, d :: KeyOf(c) == KeyOf(d) ==> c == d
  {
    forall c, d | KeyOf(c) == KeyOf(d) ensures c == d {
      SpecKeyInjective(c.0, c.1, d.0, d.1);
    }
  }

  /** What one pass of the loop of compute_kgram_jaccards gives: the error
      of an unsupported configuration when there are documents, otherwise
      the configuration's table. */
  function ConfigOutcome(documents: map<string, string>, spec: (string, int)): Result<map<Pair, real>>
  {
    if |documents| > 0 && !Supported(spec.0, spec.1) then Err(ModeError(spec.0))
    else Ok(SpecTable(documents, spec.0, spec.1))
  }

  /** A successful pass gives the configuration's table. */
  lemma ConfigOutcomeOk(documents: map<string, string>, spec: (string, int), table: map<Pair, real>)
    requires ConfigOutcome(documents, spec) == Ok(table)
    ensures table == SpecTable(documents, spec.0, spec.1)
  {
  }

  /** ConfigOutcome for fixed documents, as a function value. */
  function Outcomes(documents: map<string, string>): ((string, int)) -> Result<map<Pair, real>>
  {
    spec => ConfigOutcome(documents, spec)
  }

  /** Running `step` on the first n configurations in order, storing each
      result under its key (a later result replacing an earlier one with
      the same key); the first error ends the run with that error. */
  function StoreUpTo<C, K, V>(cs: seq<C>, key: C -> K, step: C -> Result<V>, n: int): Result<map<K, V>>
    requires 0 <= n <= |cs|
    decreases n
  {
    if n == 0 then Ok(map[])
    else
      var before := StoreUpTo(cs, key, step, n - 1);
      if before.Err? then before
      else match step(cs[n - 1])
        case Err(e) => Err(e)
        case Ok(v) => Ok(before.value[key(cs[n - 1]) := v])
  }

  /** Once a step has failed, the run's outcome no longer changes. */
  lemma {:induction false} StoreUpToStops<C, K, V>(cs: seq<C>, key: C -> K, step: C -> Result<V>, n: int, m: int)
    requires 0 <= n <= m <= |cs|
    requires StoreUpTo(cs, key, step, n).Err?
    ensures StoreUpTo(cs, key, step, m) == StoreUpTo(cs, key, step, n)
    decreases m
  {
    if m > n {
      StoreUpToStops(cs, key, step, n, m - 1);
    }
  }

  /** The index of the first configuration from n on whose step fails, or
      |cs| when none does. */
  function FirstError<C, V>(cs: seq<C>, step: C -> Result<V>, n: int): (f: int)
    requires 0 <= n <= |cs|
    ensures n <= f <= |cs|
    decreases |cs| - n
  {
    if n == |cs| then n
    else if step(cs[n]).Err? then n
    else FirstError(cs, step, n + 1)
  }

  /** The first failing step fails, and every step before it succeeds. */
  lemma {:induction false} FirstErrorMeaning<C, V>(cs: seq<C>, step: C -> Result<V>, n: int)
    requires 0 <= n <= |cs|
    ensures FirstError(cs, step, n) < |cs| ==> step(cs[FirstError(cs, step, n)]).Err?
    ensures forall j :: n <= j < FirstError(cs, step, n) ==> step(cs[j]).Ok?
    decreases |cs| - n
  {
    if n < |cs| && step(cs[n]).Ok? {
      FirstErrorMeaning(cs, step, n + 1);
    }
  }

  /** The run fails exactly when one of its steps does, with the error of
      the first one that does. */
  lemma {:induction false} StoreUpToErrors<C, K, V>(cs: seq<C>, key: C -> K, step: C -> Result<V>, n: int)
    requires 0 <= n <= |cs|
    ensures StoreUpTo(cs, key, step, n).Err? <==> FirstError(cs, step, 0) < n
    ensures StoreUpTo(cs, key, step, n).Err? ==>
              step(cs[FirstError(cs, step, 0)]).Err?
              && StoreUpTo(cs, key, step, n).error == step(cs[FirstError(cs, step, 0)]).error
    decreases n
  {
    FirstErrorMeaning(cs, step, 0);
    if n > 0 {
      StoreUpToErrors(cs, key, step, n - 1);
    }
  }

  /** A successful run holds exactly the keys of its configurations, and
      with keys that identify configurations, each key holds the result of
      its configuration's step. */
  lemma {:induction false} StoreUpToContents<C, K, V>(cs: seq<C>, key: C -> K, step: C -> Result<V>, n: int)
    requires 0 <= n <= |cs|
    requires forall c, d :: key(c) == key(d) ==> c == d
    requires StoreUpTo(cs, key, step, n).Ok?
    ensures forall x :: x in StoreUpTo(cs, key, step, n).value <==> exists i :: 0 <= i < n && x == key(cs[i])
    ensures forall i :: 0 <= i < n ==>
              && key(cs[i]) in StoreUpTo(cs, key, step, n).value
              && step(cs[i]) == Ok(StoreUpTo(cs, key, step, n).value[key(cs[i])])
    decreases n
  {
    if n > 0 {
      StoreUpToContents(cs, key, step, n - 1);
    }
  }

  /** One pass of the loop of compute_kgram_jaccards: the k-grams of every
      document for the configuration, then their pairwise table. */
  method ConfigTable(documents: map<string, string>, mode: string, k: int) returns (res: Result<map<Pair, real>>)
    ensures res == ConfigOutcome(documents, (mode, k))
  {
    var grams := BuildKgramsForDocuments(documents, mode, k);
    if grams.Err? {
      return Err(grams.error);
    }
    var table := ComputePairwiseJaccard(grams.value);
    if |documents| == 0 {
      assert grams.value == map[];
      assert OrderedPairs({}) == {};
      assert Supported(mode, k) ==> KgramsOf(documents, mode, k) == map[];
    }
    return Ok(table);
  }

  /** compute_kgram_jaccards: one table per configuration, under its key;
      the first unsupported configuration raises, unless there are no
      documents. */
  method ComputeKgramJaccards(documents: map<string, string>, specs: seq<(string, int)>)
    returns (res: Result<map<string, map<Pair, real>>>)
    ensures res == StoreUpTo(specs, KeyOf, Outcomes(documents), |specs|)
  {
    res := Ok(map[]);
    var n := 0;
    while n < |specs|
      invariant 0 <= n <= |specs|
      invariant res == StoreUpTo(specs, KeyOf, Outcomes(documents), n)
    {
      res := StoreNext(documents, specs, n, res);
      n := n + 1;
    }
  }

  /** The body of the loop of compute_kgram_jaccards for configuration n.
      Once a configuration has raised, the report is that error and the
      remaining configurations change nothing (StoreUpToStops). */
  method StoreNext(documents: map<string, string>, specs: seq<(string, int)>, n: int, res0: Result<map<string, map<Pair, real>>>)
    returns (res: Result<map<string, map<Pair, real>>>)
    requires 0 <= n < |specs|
    requires StoreUpTo(specs, KeyOf, Outcomes(documents), n) == res0
    ensures res == StoreUpTo(specs, KeyOf, Outcomes(documents), n + 1)
  {
    if res0.Err? {
      return res0;
    }
    var mode, k := specs[n].0, specs[n].1;
    var table := ConfigTable(documents, mode, k);
    if table.Err? {
      return Err(table.error);
    }
    return Ok(res0.value[SpecKey(mode, k) := table.value]);
  }

  /** The report fails exactly when there are documents and some
      configuration is unsupported, with the error of the first such
      configuration. */
  lemma KgramJaccardsErrors(documents: map<string, string>, specs: seq<(string, int)>)
    ensures var r := StoreUpTo(specs, KeyOf, Outcomes(documents), |specs|);
            r.Err? <==> |documents| > 0 && exists i :: 0 <= i < |specs| && !Supported(specs[i].0, specs[i].1)
    ensures var r := StoreUpTo(specs, KeyOf, Outcomes(documents), |specs|);
            r.Err? ==>
              exists i :: && 0 <= i < |specs| && !Supported(specs[i].0, specs[i].1)
                          && (forall j :: 0 <= j < i ==> Supported(specs[j].0, specs[j].1))
                          && r.error == ModeError(specs[i].0)
  {
    var step := Outcomes(documents);
    StoreUpToErrors(specs, KeyOf, step, |specs|);
    FirstErrorMeaning(specs, step, 0);
  }

  /** A successful report holds one entry per configuration key. */
  lemma KgramJaccardsKeys(documents: map<string, string>, specs: seq<(string, int)>)
    requires StoreUpTo(specs, KeyOf, Outcomes(documents), |specs|).Ok?
    ensures var r := StoreUpTo(specs, KeyOf, Outcomes(documents), |specs|).value;
            forall x :: x in r <==> exists i :: 0 <= i < |specs| && x == SpecKey(specs[i].0, specs[i].1)
  {
    var step := Outcomes(documents);
    KeyOfInjective();
    StoreUpToContents(specs, KeyOf, step, |specs|);
    var r := StoreUpTo(specs, KeyOf, step, |specs|).value;
    forall x | x in r ensures exists i :: 0 <= i < |specs| && x == SpecKey(specs[i].0, specs[i].1) {
      var i :| 0 <= i < |specs| && x == KeyOf(specs[i]);
      assert x == SpecKey(specs[i].0, specs[i].1);
    }
    forall i | 0 <= i < |specs| ensures SpecKey(specs[i].0, specs[i].1) in r {
      assert KeyOf(specs[i]) in r;
    }
  }

  /** In a successful report each configuration's key holds that
      configuration's table. */
  lemma KgramJaccardsTables(documents: map<string, string>, specs: seq<(string, int)>)
    requires StoreUpTo(specs, KeyOf, Outcomes(documents), |specs|).Ok?
    ensures var r := StoreUpTo(specs, KeyOf, Outcomes(documents), |specs|).value;
            forall i :: 0 <= i < |specs| ==>
              SpecKey(specs[i].0, specs[i].1) in r && r[SpecKey(specs[i].0, specs[i].1)] == SpecTable(documents, specs[i].0, specs[i].1)
  {
    var step := Outcomes(documents);
    KeyOfInjective();
    StoreUpToContents(specs, KeyOf, step, |specs|);
    var r := StoreUpTo(specs, KeyOf, step, |specs|).value;
    forall i | 0 <= i < |specs|
      ensures SpecKey(specs[i].0, specs[i].1) in r && r[SpecKey(specs[i].0, specs[i].1)] == SpecTable(documents, specs[i].0, specs[i].1)
    {
      assert KeyOf(specs[i]) == SpecKey(specs[i].0, specs[i].1);
      assert step(specs[i]) == Ok(r[KeyOf(specs[i])]);
      ConfigOutcomeOk(documents, specs[i], r[KeyOf(specs[i])]);
    }
  }

  // ---------------------------------------------------------------------
  // compute_minhash_estimates

  /** One row of the estimate report. */
  datatype EstimateRow = EstimateRow(t: real, estimate: real, exact: real, absError: real)

  function Abs(x: real): (r: real)
    ensures r >= 0.0 && (r == x || r == -x)
  {
    if x < 0.0 then -x else x
  }

  /** Some enumeration of a set. */
  ghost function SeqOf<T>(s: set<T>): (xs: seq<T>)
    ensures Elems(xs) == s && |xs| == |s|
    decreases |s|
  {
    if s == {} then []
    else
      var x :| x in s;
      var rest := SeqOf(s - {x});
      assert Elems([x] + rest) == {x} + Elems(rest);
      [x] + rest
  }

  /** Token lists with the same set of tokens hash to the same set. */
  lemma HashAllSameSet(xs: seq<string>, ys: seq<string>, hashToken: string -> U64)
    requires Elems(xs) == Elems(ys)
    ensures Elems(HashAll(xs, hashToken)) == Elems(HashAll(ys, hashToken))
  {
    var hx, hy := HashAll(xs, hashToken), HashAll(ys, hashToken);
    forall v | v in Elems(hx) ensures v in Elems(hy) {
      var i :| 0 <= i < |hx| && hx[i] == v;
      assert xs[i] in Elems(ys);
      var j :| 0 <= j < |ys| && ys[j] == xs[i];
      assert hy[j] == v;
    }
    forall v | v in Elems(hy) ensures v in Elems(hx) {
      var i :| 0 <= i < |hy| && hy[i] == v;
      assert ys[i] in Elems(xs);
      var j :| 0 <= j < |xs| && xs[j] == ys[i];
      assert hx[j] == v;
    }
  }

  /** The estimate approximate_jaccard makes for two token sets. */
  ghost function SetEstimate(a: set<string>, b: set<string>, t: int, m: int, seed: int,
                             stream: (int, nat) -> int, hashToken: string -> U64): real
    requires t > 0 && |a| + |b| > 0 ==> m != 0
  {
    var fs := Family(t, seed, stream);
    EstimateFromSignatures(Signature(HashAll(SeqOf(a), hashToken), fs, m),
                           Signature(HashAll(SeqOf(b), hashToken), fs, m)).value
  }

  /** Whatever order the sets are iterated in, the estimate is the same. */
  lemma SetEstimateAnyOrder(xs: seq<string>, ys: seq<string>, t: int, m: int, seed: int,
                            stream: (int, nat) -> int, hashToken: string -> U64)
    requires t > 0 && |xs| + |ys| > 0 ==> m != 0
    ensures t > 0 && |Elems(xs)| + |Elems(ys)| > 0 ==> m != 0
    ensures var fs := Family(t, seed, stream);
            EstimateFromSignatures(Signature(HashAll(xs, hashToken), fs, m), Signature(HashAll(ys, hashToken), fs, m))
              == Ok(SetEstimate(Elems(xs), Elems(ys), t, m, seed, stream, hashToken))
  {
    if |xs| > 0 { assert xs[0] in Elems(xs); }
    if |ys| > 0 { assert ys[0] in Elems(ys); }
    var fs := Family(t, seed, stream);
    var sa, sb := SeqOf(Elems(xs)), SeqOf(Elems(ys));
    HashAllSameSet(xs, sa, hashToken);
    HashAllSameSet(ys, sb, hashToken);
    SignatureSetInvariant(HashAll(xs, hashToken), HashAll(sa, hashToken), fs, m);
    SignatureSetInvariant(HashAll(ys, hashToken), HashAll(sb, hashToken), fs, m);
  }

  /** The report row for one t: t as a float, the set estimate for t, the
      exact similarity and their absolute difference, both in [0, 1]. */
  ghost predicate RowFor(row: EstimateRow, t: int, gramsA: set<string>, gramsB: set<string>, m: int, seed: int,
                         stream: (int, nat) -> int, hashToken: string -> U64)
    requires t > 0 && |gramsA| + |gramsB| > 0 ==> m != 0
  {
    && row.t == t as real
    && row.exact == Similarity(gramsA, gramsB)
    && row.estimate == SetEstimate(gramsA, gramsB, t, m, seed, stream, hashToken)
    && 0.0 <= row.estimate <= 1.0
    && row.absError == Abs(row.estimate - row.exact)
    && row.absError <= 1.0
  }

  /** One row of compute_minhash_estimates. */
  method EstimateRowFor(tokensA: seq<string>, tokensB: seq<string>, exact: real, t: int, m: int, seed: int,
                        stream: (int, nat) -> int, hashToken: string -> U64)
    returns (row: EstimateRow)
    requires t > 0 && |tokensA| + |tokensB| > 0 ==> m != 0
    requires exact == Similarity(Elems(tokensA), Elems(tokensB))
    ensures t > 0 && |Elems(tokensA)| + |Elems(tokensB)| > 0 ==> m != 0
    ensures RowFor(row, t, Elems(tokensA), Elems(tokensB), m, seed, stream, hashToken)
  {
    var estimate := SetEstimateFor(tokensA, tokensB, t, m, seed, stream, hashToken);
    row := EstimateRow(t as real, estimate, exact, Abs(estimate - exact));
    RowForFields(row, t, Elems(tokensA), Elems(tokensB), m, seed, stream, hashToken);
  }

  /** A row built from the set estimate and the exact similarity is the
      row for t. */
  lemma RowForFields(row: EstimateRow, t: int, gramsA: set<string>, gramsB: set<string>, m: int, seed: int,
                     stream: (int, nat) -> int, hashToken: string -> U64)
    requires t > 0 && |gramsA| + |gramsB| > 0 ==> m != 0
    requires row.t == t as real && row.exact == Similarity(gramsA, gramsB)
    requires row.estimate == SetEstimate(gramsA, gramsB, t, m, seed, stream, hashToken)
    requires 0.0 <= row.estimate <= 1.0 && row.absError == Abs(row.estimate - row.exact)
    ensures RowFor(row, t, gramsA, gramsB, m, seed, stream, hashToken)
  {
  }

  /** approximate_jaccard on the enumerated token sets: the set estimate,
      a value in [0, 1]. */
  method SetEstimateFor(tokensA: seq<string>, tokensB: seq<string>, t: int, m: int, seed: int,
                        stream: (int, nat) -> int, hashToken: string -> U64)
    returns (estimate: real)
    requires t > 0 && |tokensA| + |tokensB| > 0 ==> m != 0
    ensures t > 0 && |Elems(tokensA)| + |Elems(tokensB)| > 0 ==> m != 0
    ensures estimate == SetEstimate(Elems(tokensA), Elems(tokensB), t, m, seed, stream, hashToken)
    ensures 0.0 <= estimate <= 1.0
  {
    estimate := ApproximateJaccard(tokensA, tokensB, t, m, seed, stream, hashToken);
    SetEstimateAnyOrder(tokensA, tokensB, t, m, seed, stream, hashToken);
  }

  /** compute_minhash_estimates: one row per t, in order. */
  method ComputeMinhashEstimates(gramsA: set<string>, gramsB: set<string>, tValues: seq<int>, m: int, seed: int,
                                 stream: (int, nat) -> int, hashToken: string -> U64)
    returns (rows: seq<EstimateRow>)
    requires |gramsA| + |gramsB| > 0 && m == 0 ==> forall i :: 0 <= i < |tValues| ==> tValues[i] <= 0
    ensures |rows| == |tValues|
    ensures forall i :: 0 <= i < |rows| ==> RowFor(rows[i], tValues[i], gramsA, gramsB, m, seed, stream, hashToken)
  {
    var exact := Similarity(gramsA, gramsB);
    var tokensA := Enumerate(gramsA);
    var tokensB := Enumerate(gramsB);
    rows := [];
    var i := 0;
    while i < |tValues|
      invariant 0 <= i <= |tValues| && |rows| == i
      invariant forall j :: 0 <= j < i ==> RowFor(rows[j], tValues[j], gramsA, gramsB, m, seed, stream, hashToken)
    {
      var t := tValues[i];
      assert t > 0 && |gramsA| + |gramsB| > 0 ==> m != 0;
      var row := EstimateRowFor(tokensA, tokensB, exact, t, m, seed, stream, hashToken);
      rows := rows + [row];
      i := i + 1;
    }
  }

  // ---------------------------------------------------------------------
  // recommend_t

  /** int() of a float: truncation toward zero. */
  function Trunc(x: real): (n: int)
    ensures x >= 0.0 ==> n as real <= x < n as real + 1.0
    ensures x < 0.0 ==> n as real - 1.0 < x <= n as real
  {
    if x >= 0.0 then x.Floor else -((-x).Floor)
  }

  /** Ordered by t, not necessarily strictly. */
  predicate SortedByT(s: seq<EstimateRow>)
  {
    forall i, j :: 0 <= i < j < |s| ==> s[i].t <= s[j].t
  }

  /** `x` placed after every row whose t is not larger than its own. */
  function InsertByT(s: seq<EstimateRow>, x: EstimateRow): seq<EstimateRow>
    decreases |s|
  {
    if |s| == 0 then [x]
    else if x.t < s[0].t then [x] + s
    else [s[0]] + InsertByT(s[1..], x)
  }

  /** sorted(rows, key=lambda r: r["t"]): a stable insertion sort by t. */
  function SortByT(rows: seq<EstimateRow>): seq<EstimateRow>
    decreases |rows|
  {
    if |rows| == 0 then [] else InsertByT(SortByT(rows[..|rows| - 1]), rows[|rows| - 1])
  }

  /** The rows with t == v, in their order. */
  function WithT(s: seq<EstimateRow>, v: real): seq<EstimateRow>
    decreases |s|
  {
    if |s| == 0 then [] else (if s[0].t == v then [s[0]] else []) + WithT(s[1..], v)
  }

  lemma {:induction false} WithTAppend(a: seq<EstimateRow>, b: seq<EstimateRow>, v: real)
    ensures WithT(a + b, v) == WithT(a, v) + WithT(b, v)
    decreases |a|
  {
    if |a| > 0 {
      WithTAppend(a[1..], b, v);
      assert (a + b)[0] == a[0];
      assert (a + b)[1..] == a[1..] + b;
    } else {
      assert a + b == b;
    }
  }

  lemma {:induction false} WithTNone(s: seq<EstimateRow>, v: real)
    requires forall i :: 0 <= i < |s| ==> s[i].t != v
    ensures WithT(s, v) == []
    decreases |s|
  {
    if |s| > 0 { WithTNone(s[1..], v); }
  }

  /** Inserting keeps a lower bound on t that `x` and every row satisfy. */
  lemma {:induction false} InsertByTBound(s: seq<EstimateRow>, x: EstimateRow, lo: real)
    requires x.t >= lo && forall i :: 0 <= i < |s| ==> s[i].t >= lo
    ensures forall j :: 0 <= j < |InsertByT(s, x)| ==> InsertByT(s, x)[j].t >= lo
    decreases |s|
  {
    if |s| > 0 && x.t >= s[0].t {
      InsertByTBound(s[1..], x, lo);
    }
  }

  /** The tail of a list ordered by t is ordered by t. */
  lemma TailSortedByT(s: seq<EstimateRow>)
    requires |s| > 0 && SortedByT(s)
    ensures SortedByT(s[1..])
  {
    var t := s[1..];
    forall i, j | 0 <= i < j < |t| ensures t[i].t <= t[j].t {
      assert t[i] == s[i + 1] && t[j] == s[j + 1];
    }
  }

  /** Inserting into a list ordered by t keeps it ordered by t. */
  lemma {:induction false} InsertByTSorted(s: seq<EstimateRow>, x: EstimateRow)
    requires SortedByT(s)
    ensures SortedByT(InsertByT(s, x))
    decreases |s|
  {
    if |s| > 0 && x.t >= s[0].t {
      var t := s[1..];
      TailSortedByT(s);
      InsertByTSorted(t, x);
      InsertByTBound(t, x, s[0].t);
      var u := InsertByT(t, x);
      var r := [s[0]] + u;
      forall i, j | 0 <= i < j < |r| ensures r[i].t <= r[j].t {
        if i > 0 { assert r[i] == u[i - 1]; }
        assert r[j] == u[j - 1];
      }
    }
  }

  /** Inserting adds exactly the one row. */
  lemma {:induction false} InsertByTPermutes(s: seq<EstimateRow>, x: EstimateRow)
    ensures multiset(InsertByT(s, x)) == multiset(s) + multiset{x}
    decreases |s|
  {
    if |s| > 0 && x.t >= s[0].t {
      InsertByTPermutes(s[1..], x);
      assert s == [s[0]] + s[1..];
    }
  }

  /** Inserting x into a list ordered by t puts it after every row of equal
      t: the rows with a given t keep their order, x last among its own. */
  lemma {:induction false} InsertByTStable(s: seq<EstimateRow>, x: EstimateRow, v: real)
    requires SortedByT(s)
    ensures WithT(InsertByT(s, x), v) == WithT(s, v) + (if x.t == v then [x] else [])
    decreases |s|
  {
    if |s| == 0 {
      WithTCons(x, [], v);
    } else if x.t < s[0].t {
      WithTCons(x, s, v);
      if x.t == v {
        forall i | 0 <= i < |s| ensures s[i].t != v {
          assert s[0].t <= s[i].t;
        }
        WithTNone(s, v);
      }
    } else {
      var t := s[1..];
      TailSortedByT(s);
      InsertByTStable(t, x, v);
      WithTCons(s[0], InsertByT(t, x), v);
      assert s == [s[0]] + t;
      WithTCons(s[0], t, v);
    }
  }

  /** The head row counts first among the rows with its t. */
  lemma WithTCons(y: EstimateRow, s: seq<EstimateRow>, v: real)
    ensures WithT([y] + s, v) == (if y.t == v then [y] else []) + WithT(s, v)
  {
    assert ([y] + s)[1..] == s;
  }

  /** The sort orders the rows by t. */
  lemma {:induction false} SortByTSorted(rows: seq<EstimateRow>)
    ensures SortedByT(SortByT(rows))
    decreases |rows|
  {
    if |rows| > 0 {
      var prefix := rows[..|rows| - 1];
      SortByTSorted(prefix);
      InsertByTSorted(SortByT(prefix), rows[|rows| - 1]);
    }
  }

  /** The sort permutes the rows. */
  lemma {:induction false} SortByTPermutes(rows: seq<EstimateRow>)
    ensures multiset(SortByT(rows)) == multiset(rows)
    decreases |rows|
  {
    if |rows| > 0 {
      var prefix, last := rows[..|rows| - 1], rows[|rows| - 1];
      SortByTPermutes(prefix);
      InsertByTPermutes(SortByT(prefix), last);
      assert rows == prefix + [last];
    }
  }

  /** The sort keeps rows with equal t in their input order. Ordered, a
      permutation and stable: together these determine it as Python's
      stable sort. */
  lemma {:induction false} SortByTStable(rows: seq<EstimateRow>, v: real)
    ensures WithT(SortByT(rows), v) == WithT(rows, v)
    decreases |rows|
  {
    if |rows| > 0 {
      var prefix, last := rows[..|rows| - 1], rows[|rows| - 1];
      SortByTStable(prefix, v);
      SortByTSorted(prefix);
      InsertByTStable(SortByT(prefix), last, v);
      assert rows == prefix + [last];
      WithTAppend(prefix, [last], v);
      assert WithT([last], v) == (if last.t == v then [last] else []) + WithT([], v);
    }
  }

  /** The drop in error from row j - 1 to row j. */
  function Gain(s: seq<EstimateRow>, j: int): real
    requires 1 <= j < |s|
  {
    s[j - 1].absError - s[j].absError
  }

  /** Row i is the one recommend_t picks: the first row from the second
      on whose gain is below 0.01, or the last row when there is none. */
  predicate Recommended(s: seq<EstimateRow>, i: int)
  {
    && 0 <= i < |s|
    && (forall j :: 1 <= j < i ==> Gain(s, j) >= 0.01)
    && ((i >= 1 && Gain(s, i) < 0.01) || (i == |s| - 1 && forall j :: 1 <= j < |s| ==> Gain(s, j) >= 0.01))
  }

  /** At most one row is the recommended one. */
  lemma RecommendedUnique(s: seq<EstimateRow>, i: int, i': int)
    requires Recommended(s, i) && Recommended(s, i')
    ensures i == i'
  {
  }

  /** recommend_t: NoRows for an empty list; otherwise the t (truncated to
      an int) of the recommended row of the rows sorted by t, which is the t
      of one of the input rows. */
  method RecommendT(rows: seq<EstimateRow>) returns (res: Result<int>)
    ensures res.Err? <==> |rows| == 0
    ensures res.Err? ==> res.error == NoRows
    ensures res.Ok? ==> exists i :: Recommended(SortByT(rows), i) && res.value == Trunc(SortByT(rows)[i].t)
    ensures res.Ok? ==> exists k :: 0 <= k < |rows| && res.value == Trunc(rows[k].t)
  {
    if |rows| == 0 {
      return Err(NoRows);
    }
    var sorted := SortByT(rows);
    SortByTPermutes(rows);
    assert |sorted| == |rows| by {
      assert |multiset(sorted)| == |multiset(rows)|;
    }
    var i := ScanGains(sorted);
    InputRow(rows, sorted, i);
    return Ok(Trunc(sorted[i].t));
  }

  /** The loop of recommend_t over the sorted rows: the first i from 1 on
      whose gain is below 0.01, or the last index. */
  method ScanGains(sorted: seq<EstimateRow>) returns (i: int)
    requires |sorted| > 0
    ensures Recommended(sorted, i)
  {
    i := 1;
    while i < |sorted|
      invariant 1 <= i <= |sorted|
      invariant forall j :: 1 <= j < i ==> Gain(sorted, j) >= 0.01
    {
      if sorted[i - 1].absError - sorted[i].absError < 0.01 {
        return i;
      }
      i := i + 1;
    }
    return |sorted| - 1;
  }

  /** A row of a permutation is a row of the input. */
  lemma InputRow(rows: seq<EstimateRow>, sorted: seq<EstimateRow>, i: int)
    requires multiset(sorted) == multiset(rows) && 0 <= i < |sorted|
    ensures exists k :: 0 <= k < |rows| && rows[k] == sorted[i]
  {
    assert sorted[i] in multiset(rows);
  }

  // ---------------------------------------------------------------------
  // compute_lsh_probabilities

  /** compute_lsh_probabilities: the candidate probability of every pair,
      under the same key; the first similarity lsh_probability rejects
      raises. */
  method ComputeLshProbabilities(jaccardByPair: map<Pair, real>, params: LshParams)
    returns (res: Result<map<Pair, real>>)
    ensures res.Ok? <==> forall p :: p in jaccardByPair ==> LshProbability(jaccardByPair[p], params.r, params.b).Ok?
    ensures res.Ok? ==> res.value.Keys == jaccardByPair.Keys
    ensures res.Ok? ==> forall p :: p in jaccardByPair ==>
              LshProbability(jaccardByPair[p], params.r, params.b) == Ok(res.value[p])
    ensures res.Err? ==> exists p :: p in jaccardByPair && LshProbability(jaccardByPair[p], params.r, params.b) == Err(res.error)
    ensures (forall p :: p in jaccardByPair ==> 0.0 <= jaccardByPair[p] <= 1.0) && params.r >= 0 && params.b >= 0 ==> res.Ok?
  {
    res := MapResults(jaccardByPair, s => LshProbability(s, params.r, params.b));
  }

  /** A pairwise table only holds similarities in [0, 1], so with
      non-negative r and b its probabilities never fail. */
  lemma PairwiseTableInRange(grams: map<string, set<string>>)
    ensures forall p :: p in PairwiseJaccard(grams) ==> 0.0 <= PairwiseJaccard(grams)[p] <= 1.0
  {
    forall p | p in PairwiseJaccard(grams) ensures 0.0 <= PairwiseJaccard(grams)[p] <= 1.0 {
      PairwiseJaccardMeaning(grams, p.0, p.1);
    }
  }
}
