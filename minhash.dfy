/** MinHash: a seeded family of affine hash functions, per-set signatures
    made of per-function minima, and the agreement-fraction estimate of
    Jaccard similarity. */
module MinHash {
  import opened Wrappers

  /** The modulus of every hash function (a value just above 2^32). */
  const PRIME: int := 4_294_967_311

  /** A non-zero modulus. */
  type NonZero = p: int | p != 0 witness 1

  /** A 64-bit unsigned value: the range of the pre-hash of a token. */
  type U64 = x: int | 0 <= x < 0x1_0000_0000_0000_0000

  /** Python's `x % m`: the remainder has the sign of the divisor. */
  function PyMod(x: int, m: int): (r: int)
    requires m != 0
    ensures m > 0 ==> 0 <= r < m
    ensures m < 0 ==> m < r <= 0
    ensures m > 0 ==> r == x % m
  {
    if m > 0 then x % m else -((-x) % (-m))
  }

  /** h(x) = (a·x + b) mod prime. A zero prime, which would make `apply`
      raise, is excluded by the type of the field. */
  datatype HashFunction = HashFunction(a: int, b: int, prime: NonZero)

  /** HashFunction.apply: h(x), reduced once more into the range [0, m). */
  function Apply(h: HashFunction, x: int, m: int): (r: int)
    requires m != 0
    ensures m > 0 ==> 0 <= r < m
  {
    PyMod(PyMod(h.a * x + h.b, h.prime), m)
  }

  /** random.Random(seed), as an abstract deterministic generator: the k-th
      value it draws is determined by `stream(seed, k)`, and randrange(lo, hi)
      reduces that value into [lo, hi). Every generator whose draws lie in
      the requested ranges has this form. */
  class Random {
    const seed: int
    const stream: (int, nat) -> int
    var drawn: nat

    constructor (seed: int, stream: (int, nat) -> int)
      ensures this.seed == seed && this.stream == stream && drawn == 0
    {
      this.seed := seed;
      this.stream := stream;
      drawn := 0;
    }

    /** randrange(lo, hi): the next value of the stream, in [lo, hi). */
    method RandRange(lo: int, hi: int) returns (v: int)
      requires lo < hi
      modifies this
      ensures v == Draw(stream, seed, old(drawn), lo, hi)
      ensures drawn == old(drawn) + 1
    {
      v := lo + stream(seed, drawn) % (hi - lo);
      drawn := drawn + 1;
    }
  }

  /** The k-th draw of the generator seeded with `seed`, for randrange(lo, hi). */
  function Draw(stream: (int, nat) -> int, seed: int, k: nat, lo: int, hi: int): (v: int)
    requires lo < hi
    ensures lo <= v < hi
  {
    lo + stream(seed, k) % (hi - lo)
  }

  /** The hash family of `count` functions for `seed`: function i takes its
      `a` from draw 2i and its `b` from draw 2i + 1. */
  function Family(count: int, seed: int, stream: (int, nat) -> int): seq<HashFunction>
  {
    seq(if count <= 0 then 0 else count, i requires 0 <= i =>
      HashFunction(Draw(stream, seed, 2 * i, 1, PRIME), Draw(stream, seed, 2 * i + 1, 0, PRIME), PRIME))
  }

  /** The family has `count` members (none for count <= 0), each with
      1 <= a < PRIME, 0 <= b < PRIME and the fixed prime. */
  lemma FamilyShape(count: int, seed: int, stream: (int, nat) -> int)
    ensures |Family(count, seed, stream)| == if count <= 0 then 0 else count
    ensures forall h :: h in Family(count, seed, stream) ==>
              1 <= h.a < PRIME && 0 <= h.b < PRIME && h.prime == PRIME
  {
  }

  /** Each call re-seeds, and the draws come in the same order, so a smaller
      family is a prefix of a larger one with the same seed. */
  lemma FamilyPrefix(c1: int, c2: int, seed: int, stream: (int, nat) -> int)
    requires 0 <= c1 <= c2
    ensures Family(c1, seed, stream) == Family(c2, seed, stream)[..c1]
  {
  }

  /** generate_hash_functions: draws a then b for each function in turn. */
  method GenerateHashFunctions(count: int, seed: int, stream: (int, nat) -> int)
    returns (fs: seq<HashFunction>)
    ensures fs == Family(count, seed, stream)
    ensures |fs| == if count <= 0 then 0 else count
    ensures forall k :: 0 <= k < |fs| ==> 1 <= fs[k].a < PRIME && 0 <= fs[k].b < PRIME && fs[k].prime == PRIME
  {
    var rng := new Random(seed, stream);
    fs := [];
    var n := if count <= 0 then 0 else count;
    var i := 0;
    while i < n
      invariant 0 <= i <= n
      invariant rng.seed == seed && rng.stream == stream && rng.drawn == 2 * i
      invariant fs == Family(i, seed, stream)
    {
      var a := rng.RandRange(1, PRIME);
      var b := rng.RandRange(0, PRIME);
      fs := fs + [HashFunction(a, b, PRIME)];
      i := i + 1;
    }
    FamilyShape(count, seed, stream);
  }

  /** The set of elements of a list. */
  function Elems<T>(xs: seq<T>): set<T>
  {
    set x | x in xs
  }

  /** min(h.apply(x, m) for x in xs). */
  function MinApply(h: HashFunction, xs: seq<int>, m: int): (r: int)
    requires |xs| > 0 && m != 0
    ensures forall i :: 0 <= i < |xs| ==> r <= Apply(h, xs[i], m)
    ensures exists i :: 0 <= i < |xs| && r == Apply(h, xs[i], m)
    decreases |xs|
  {
    if |xs| == 1 then Apply(h, xs[0], m)
    else
      var v := Apply(h, xs[0], m);
      var rest := MinApply(h, xs[1..], m);
      assert forall i :: 1 <= i < |xs| ==> xs[i] == xs[1..][i - 1];
      if v <= rest then v else rest
  }

  /** The MinHash signature of the item list `xs` under `fs`: the sentinel m
      everywhere for an empty list, otherwise the per-function minimum. */
  function Signature(xs: seq<int>, fs: seq<HashFunction>, m: int): (sig: seq<int>)
    requires |xs| > 0 && |fs| > 0 ==> m != 0
  {
    if |xs| == 0 then seq(|fs|, _ => m)
    else seq(|fs|, k requires 0 <= k < |fs| => MinApply(fs[k], xs, m))
  }

  /** `v` is the least value of h over the set `s`. */
  ghost predicate IsMinOf(v: int, h: HashFunction, s: set<int>, m: int)
    requires m != 0
  {
    && (forall x :: x in s ==> v <= Apply(h, x, m))
    && (exists x :: x in s && v == Apply(h, x, m))
  }

  /** `sig` is the MinHash signature of the set `s` under `fs`. */
  ghost predicate IsSignatureOf(sig: seq<int>, s: set<int>, fs: seq<HashFunction>, m: int)
    requires s != {} && |fs| > 0 ==> m != 0
  {
    && |sig| == |fs|
    && (s == {} ==> forall k :: 0 <= k < |sig| ==> sig[k] == m)
    && (s != {} ==> forall k :: 0 <= k < |sig| ==> IsMinOf(sig[k], fs[k], s, m))
  }

  /** The list-based signature is the signature of the list's set of items. */
  lemma SignatureOfSet(xs: seq<int>, fs: seq<HashFunction>, m: int)
    requires |xs| > 0 && |fs| > 0 ==> m != 0
    ensures IsSignatureOf(Signature(xs, fs, m), Elems(xs), fs, m)
  {
    var sig := Signature(xs, fs, m);
    if |xs| > 0 {
      assert xs[0] in Elems(xs);
      forall k | 0 <= k < |sig| ensures IsMinOf(sig[k], fs[k], Elems(xs), m) {
        var i :| 0 <= i < |xs| && sig[k] == Apply(fs[k], xs[i], m);
        assert xs[i] in Elems(xs);
      }
    }
  }

  /** A set has only one signature under a given family. */
  lemma SignatureUnique(s1: seq<int>, s2: seq<int>, s: set<int>, fs: seq<HashFunction>, m: int)
    requires s != {} && |fs| > 0 ==> m != 0
    requires IsSignatureOf(s1, s, fs, m) && IsSignatureOf(s2, s, fs, m)
    ensures s1 == s2
  {
    if s != {} {
      forall k | 0 <= k < |s1| ensures s1[k] == s2[k] {
        var x1 :| x1 in s && s1[k] == Apply(fs[k], x1, m);
        var x2 :| x2 in s && s2[k] == Apply(fs[k], x2, m);
        assert s2[k] <= s1[k] && s1[k] <= s2[k];
      }
    }
  }

  /** The signature depends only on the set of items, not on their order or
      on repetitions, so any enumeration of a set gives the same signature. */
  lemma SignatureSetInvariant(xs: seq<int>, ys: seq<int>, fs: seq<HashFunction>, m: int)
    requires Elems(xs) == Elems(ys)
    requires |xs| > 0 && |fs| > 0 ==> m != 0
    ensures |ys| > 0 && |fs| > 0 ==> m != 0
    ensures Signature(xs, fs, m) == Signature(ys, fs, m)
  {
    if |ys| > 0 { assert ys[0] in Elems(ys); }
    SignatureOfSet(xs, fs, m);
    SignatureOfSet(ys, fs, m);
    SignatureUnique(Signature(xs, fs, m), Signature(ys, fs, m), Elems(xs), fs, m);
  }

  /** For m > 0 every entry of a non-empty input's signature lies in [0, m),
      so it never equals the sentinel m; an empty input gives all sentinels. */
  lemma SignatureRange(xs: seq<int>, fs: seq<HashFunction>, m: int)
    requires m > 0
    ensures |Signature(xs, fs, m)| == |fs|
    ensures |xs| == 0 ==> forall k :: 0 <= k < |fs| ==> Signature(xs, fs, m)[k] == m
    ensures |xs| > 0 ==> forall k :: 0 <= k < |fs| ==> 0 <= Signature(xs, fs, m)[k] < m
  {
    if |xs| > 0 {
      forall k | 0 <= k < |fs| ensures 0 <= Signature(xs, fs, m)[k] < m {
        var i :| 0 <= i < |xs| && Signature(xs, fs, m)[k] == Apply(fs[k], xs[i], m);
      }
    }
  }

  /** The sentinel at work: with m > 0 and at least one hash function, an
      empty input and a non-empty one never share a signature position. */
  lemma SentinelSeparatesEmpty(xs: seq<int>, fs: seq<HashFunction>, m: int)
    requires m > 0 && |xs| > 0
    ensures forall k :: 0 <= k < |fs| ==> Signature(xs, fs, m)[k] != Signature([], fs, m)[k]
  {
    SignatureRange(xs, fs, m);
    SignatureRange([], fs, m);
  }

  /** minhash_signature_from_ints: one minimum per hash function. */
  method SignatureFromInts(items: seq<int>, fs: seq<HashFunction>, m: int) returns (sig: seq<int>)
    requires |items| > 0 && |fs| > 0 ==> m != 0
    ensures sig == Signature(items, fs, m)
  {
    if |items| == 0 {
      return seq(|fs|, _ => m);
    }
    sig := [];
    var k := 0;
    while k < |fs|
      invariant 0 <= k <= |fs|
      invariant |sig| == k
      invariant forall j :: 0 <= j < k ==> sig[j] == MinApply(fs[j], items, m)
    {
      sig := sig + [MinApply(fs[k], items, m)];
      k := k + 1;
    }
    assert sig == Signature(items, fs, m);
  }

  /** hash_token applied to each token, with the 64-bit digest abstract. */
  function HashAll(tokens: seq<string>, hashToken: string -> U64): (hs: seq<int>)
    ensures |hs| == |tokens|
    ensures forall i :: 0 <= i < |tokens| ==> hs[i] == hashToken(tokens[i]) as int
  {
    seq(|tokens|, i requires 0 <= i < |tokens| => hashToken(tokens[i]) as int)
  }

  /** minhash_signature: pre-hash every token, then take the minima. */
  method TokenSignature(tokens: seq<string>, fs: seq<HashFunction>, m: int, hashToken: string -> U64)
    returns (sig: seq<int>)
    requires |tokens| > 0 && |fs| > 0 ==> m != 0
    ensures sig == Signature(HashAll(tokens, hashToken), fs, m)
    ensures IsSignatureOf(sig, Elems(HashAll(tokens, hashToken)), fs, m)
  {
    var hashes := HashAll(tokens, hashToken);
    sig := SignatureFromInts(hashes, fs, m);
    SignatureOfSet(hashes, fs, m);
  }

  /** list(items) for a set: some enumeration of its elements, each once. */
  method Enumerate<T>(s: set<T>) returns (xs: seq<T>)
    ensures Elems(xs) == s
    ensures |xs| == |s|
  {
    xs := [];
    var rest := s;
    while rest != {}
      invariant rest <= s
      invariant Elems(xs) == s - rest
      invariant |xs| + |rest| == |s|
      invariant forall i, j :: 0 <= i < j < |xs| ==> xs[i] != xs[j]
    {
      var x :| x in rest;
      assert Elems(xs + [x]) == Elems(xs) + {x};
      xs := xs + [x];
      rest := rest - {x};
    }
  }

  /** minhash_signatures_for_sets: one signature per set, in input order. */
  method SignaturesForSets(itemSets: seq<set<int>>, fs: seq<HashFunction>, m: int)
    returns (sigs: seq<seq<int>>)
    requires forall i :: 0 <= i < |itemSets| && itemSets[i] != {} && |fs| > 0 ==> m != 0
    ensures |sigs| == |itemSets|
    ensures forall i :: 0 <= i < |itemSets| ==> IsSignatureOf(sigs[i], itemSets[i], fs, m)
  {
    sigs := [];
    var i := 0;
    while i < |itemSets|
      invariant 0 <= i <= |itemSets|
      invariant |sigs| == i
      invariant forall j :: 0 <= j < i ==> IsSignatureOf(sigs[j], itemSets[j], fs, m)
    {
      var items := Enumerate(itemSets[i]);
      if |items| > 0 { assert items[0] in itemSets[i]; }
      var sig := SignatureFromInts(items, fs, m);
      SignatureOfSet(items, fs, m);
      sigs := sigs + [sig];
      i := i + 1;
    }
  }

  /** The number of positions at which two equal-length signatures agree. */
  function Matches(a: seq<int>, b: seq<int>): (n: nat)
    requires |a| == |b|
    ensures n <= |a|
    decreases |a|
  {
    if |a| == 0 then 0
    else (if a[0] == b[0] then 1 else 0) + Matches(a[1..], b[1..])
  }

  lemma {:induction false} MatchesSymmetric(a: seq<int>, b: seq<int>)
    requires |a| == |b|
    ensures Matches(a, b) == Matches(b, a)
    decreases |a|
  {
    if |a| > 0 { MatchesSymmetric(a[1..], b[1..]); }
  }

  /** Every position agrees exactly when the signatures are identical. */
  lemma {:induction false} MatchesAllIffEqual(a: seq<int>, b: seq<int>)
    requires |a| == |b|
    ensures Matches(a, b) == |a| <==> a == b
    decreases |a|
  {
    if |a| > 0 {
      MatchesAllIffEqual(a[1..], b[1..]);
      if a[1..] == b[1..] && a[0] == b[0] {
        assert a == [a[0]] + a[1..] && b == [b[0]] + b[1..];
      }
    }
  }

  /** No position agrees exactly when the signatures differ everywhere. */
  lemma {:induction false} MatchesNoneIffDisjoint(a: seq<int>, b: seq<int>)
    requires |a| == |b|
    ensures Matches(a, b) == 0 <==> forall i :: 0 <= i < |a| ==> a[i] != b[i]
    decreases |a|
  {
    if |a| > 0 {
      MatchesNoneIffDisjoint(a[1..], b[1..]);
      assert forall i :: 1 <= i < |a| ==> a[i] == a[1..][i - 1] && b[i] == b[1..][i - 1];
    }
  }

  /** estimate_jaccard_from_signatures: the fraction of agreeing positions;
      a length mismatch is an error and two empty signatures give 1.0. */
  function EstimateFromSignatures(sigA: seq<int>, sigB: seq<int>): (r: Result<real>)
    ensures r.Err? <==> |sigA| != |sigB|
    ensures r.Err? ==> r.error == LengthMismatch
    ensures r.Ok? ==> 0.0 <= r.value <= 1.0
    ensures r.Ok? && |sigA| == 0 ==> r.value == 1.0
    ensures r.Ok? && |sigA| > 0 ==> r.value * (|sigA| as real) == Matches(sigA, sigB) as real
  {
    if |sigA| != |sigB| then Err(LengthMismatch)
    else if |sigA| == 0 then Ok(1.0)
    else Ok((Matches(sigA, sigB) as real) / (|sigA| as real))
  }

  /** The estimate does not depend on the order of its arguments. */
  lemma EstimateSymmetric(sigA: seq<int>, sigB: seq<int>)
    ensures EstimateFromSignatures(sigA, sigB) == EstimateFromSignatures(sigB, sigA)
  {
    if |sigA| == |sigB| { MatchesSymmetric(sigA, sigB); }
  }

  /** For equal lengths the estimate is 1.0 exactly when the signatures are
      identical (two empty signatures included). */
  lemma EstimateOneIffIdentical(sigA: seq<int>, sigB: seq<int>)
    requires |sigA| == |sigB|
    ensures EstimateFromSignatures(sigA, sigB) == Ok(1.0) <==> sigA == sigB
  {
    if |sigA| > 0 { MatchesAllIffEqual(sigA, sigB); }
  }

  /** approximate_jaccard: both token lists are signed with the same family
      of t functions, so both signatures have length t and the estimate is
      defined. */
  method ApproximateJaccard(tokensA: seq<string>, tokensB: seq<string>, t: int, m: int, seed: int,
                            stream: (int, nat) -> int, hashToken: string -> U64)
    returns (est: real)
    requires t > 0 && |tokensA| + |tokensB| > 0 ==> m != 0
    ensures var fs := Family(t, seed, stream);
            var sa := Signature(HashAll(tokensA, hashToken), fs, m);
            var sb := Signature(HashAll(tokensB, hashToken), fs, m);
            |sa| == |sb| == (if t <= 0 then 0 else t) && EstimateFromSignatures(sa, sb) == Ok(est)
    ensures 0.0 <= est <= 1.0
    ensures t <= 0 ==> est == 1.0
  {
    var fs := GenerateHashFunctions(t, seed, stream);
    var sa := TokenSignature(tokensA, fs, m, hashToken);
    var sb := TokenSignature(tokensB, fs, m, hashToken);
    var r := EstimateFromSignatures(sa, sb);
    est := r.value;
  }

  /** Two token lists with the same set of tokens are estimated fully similar. */
  lemma SameTokensEstimateOne(tokensA: seq<string>, tokensB: seq<string>, fs: seq<HashFunction>, m: int,
                              hashToken: string -> U64)
    requires Elems(tokensA) == Elems(tokensB)
    requires |tokensA| > 0 && |fs| > 0 ==> m != 0
    ensures |tokensB| > 0 && |fs| > 0 ==> m != 0
    ensures EstimateFromSignatures(Signature(HashAll(tokensA, hashToken), fs, m),
                                   Signature(HashAll(tokensB, hashToken), fs, m)) == Ok(1.0)
  {
    var ha := HashAll(tokensA, hashToken);
    var hb := HashAll(tokensB, hashToken);
    if |tokensB| > 0 { assert tokensB[0] in Elems(tokensA); }
    assert Elems(ha) == Elems(hb) by {
      forall x | x in Elems(ha) ensures x in Elems(hb) {
        var i :| 0 <= i < |ha| && ha[i] == x;
        assert tokensA[i] in Elems(tokensB);
        var j :| 0 <= j < |tokensB| && tokensB[j] == tokensA[i];
        assert hb[j] == x;
      }
      forall x | x in Elems(hb) ensures x in Elems(ha) {
        var i :| 0 <= i < |hb| && hb[i] == x;
        assert tokensB[i] in Elems(tokensA);
        var j :| 0 <= j < |tokensA| && tokensA[j] == tokensB[i];
        assert ha[j] == x;
      }
    }
    SignatureSetInvariant(ha, hb, fs, m);
    EstimateOneIffIdentical(Signature(ha, fs, m), Signature(hb, fs, m));
  }

  /** An empty token list against a non-empty one is estimated 0.0 whenever
      m > 0 and there is at least one hash function. */
  lemma EmptyAgainstNonEmptyEstimateZero(tokens: seq<string>, fs: seq<HashFunction>, m: int,
                                         hashToken: string -> U64)
    requires m > 0 && |tokens| > 0 && |fs| > 0
    ensures EstimateFromSignatures(Signature([], fs, m), Signature(HashAll(tokens, hashToken), fs, m)) == Ok(0.0)
  {
    var hs := HashAll(tokens, hashToken);
    var e := Signature([], fs, m);
    var sig := Signature(hs, fs, m);
    SentinelSeparatesEmpty(hs, fs, m);
    SignatureRange(hs, fs, m);
    MatchesNoneIffDisjoint(e, sig);
    assert Matches(e, sig) == 0;
  }
}
