/** itertools.combinations(xs, 2), which both the document reports and the
    MovieLens analysis use to enumerate unordered pairs. */
module Combinatorics {

  /** Every (xs[i], xs[j]) with i < j, ordered by i and then by j. */
  function Combinations2<T>(xs: seq<T>): (r: seq<(T, T)>)
    decreases |xs|
  {
    if |xs| == 0 then []
    else seq(|xs| - 1, d requires 0 <= d < |xs| - 1 => (xs[0], xs[d + 1])) + Combinations2(xs[1..])
  }

  /** Where the pair of positions (i, j) sits in the enumeration of n items:
      all pairs starting before i come first, then those starting at i. */
  function PairIndex(n: nat, i: nat, j: nat): nat
    requires i < j < n
    decreases i
  {
    if i == 0 then j - 1 else (n - 1) + PairIndex(n - 1, i - 1, j - 1)
  }

  /** n items give n(n-1)/2 pairs. */
  lemma {:induction false} CombinationsLength<T>(xs: seq<T>)
    ensures |Combinations2(xs)| == |xs| * (|xs| - 1) / 2
    decreases |xs|
  {
    if |xs| > 0 {
      var n := |xs|;
      CombinationsLength(xs[1..]);
      assert (n - 1) * (n - 2) + 2 * (n - 1) == n * (n - 1);
    }
  }

  /** The pair (xs[i], xs[j]) stands at PairIndex(n, i, j). */
  lemma {:induction false} CombinationsAt<T>(xs: seq<T>, i: nat, j: nat)
    requires i < j < |xs|
    ensures PairIndex(|xs|, i, j) < |Combinations2(xs)|
    ensures Combinations2(xs)[PairIndex(|xs|, i, j)] == (xs[i], xs[j])
    decreases i
  {
    var n := |xs|;
    var head := seq(n - 1, d requires 0 <= d < n - 1 => (xs[0], xs[d + 1]));
    assert Combinations2(xs) == head + Combinations2(xs[1..]);
    if i > 0 {
      CombinationsAt(xs[1..], i - 1, j - 1);
    }
  }

  /** Conversely, every entry is the pair of some positions i < j, sitting at
      PairIndex(n, i, j). */
  lemma {:induction false} CombinationsMember<T>(xs: seq<T>, k: nat)
    requires k < |Combinations2(xs)|
    ensures exists i: nat, j: nat :: i < j < |xs| && PairIndex(|xs|, i, j) == k
                                  && Combinations2(xs)[k] == (xs[i], xs[j])
    decreases |xs|
  {
    var n := |xs|;
    if k < n - 1 {
      CombinationsHead(xs, k);
      assert PairIndex(n, 0, k + 1) == k;
    } else {
      CombinationsTail(xs, k);
      var k' := k - (n - 1);
      CombinationsMember(xs[1..], k');
      var i: nat, j: nat :| i < j < n - 1 && PairIndex(n - 1, i, j) == k'
                            && Combinations2(xs[1..])[k'] == (xs[1..][i], xs[1..][j]);
      assert xs[1..][i] == xs[i + 1] && xs[1..][j] == xs[j + 1];
      assert PairIndex(n, i + 1, j + 1) == k;
    }
  }

  /** The first n - 1 entries pair xs[0] with each later item. */
  lemma CombinationsHead<T>(xs: seq<T>, k: nat)
    requires k + 1 < |xs|
    ensures k < |Combinations2(xs)| && Combinations2(xs)[k] == (xs[0], xs[k + 1])
  {
    var n := |xs|;
    var head := seq(n - 1, d requires 0 <= d < n - 1 => (xs[0], xs[d + 1]));
    assert Combinations2(xs) == head + Combinations2(xs[1..]);
  }

  /** The later entries are those of the items after xs[0]. */
  lemma CombinationsTail<T>(xs: seq<T>, k: nat)
    requires 0 < |xs| && |xs| - 1 <= k < |Combinations2(xs)|
    ensures k - (|xs| - 1) < |Combinations2(xs[1..])|
    ensures Combinations2(xs)[k] == Combinations2(xs[1..])[k - (|xs| - 1)]
  {
    var n := |xs|;
    var head := seq(n - 1, d requires 0 <= d < n - 1 => (xs[0], xs[d + 1]));
    assert Combinations2(xs) == head + Combinations2(xs[1..]);
  }

  /** The enumeration is in input order: (i, j) comes before (i', j')
      exactly when i < i', or i == i' and j < j'. */
  lemma {:induction false} PairIndexOrdered(n: nat, i: nat, j: nat, i': nat, j': nat)
    requires i < j < n && i' < j' < n
    ensures PairIndex(n, i, j) < PairIndex(n, i', j') <==> (i < i' || (i == i' && j < j'))
    decreases i + i'
  {
    if i > 0 && i' > 0 {
      PairIndexOrdered(n - 1, i - 1, j - 1, i' - 1, j' - 1);
    }
  }

  /** The pairs are exactly those of positions i < j. */
  lemma CombinationsMembership<T>(xs: seq<T>, p: (T, T))
    ensures p in Combinations2(xs) <==> exists i, j :: 0 <= i < j < |xs| && p == (xs[i], xs[j])
  {
    var r := Combinations2(xs);
    if p in r {
      var k :| 0 <= k < |r| && r[k] == p;
      CombinationsMember(xs, k);
    }
    if exists i, j :: 0 <= i < j < |xs| && p == (xs[i], xs[j]) {
      var i, j :| 0 <= i < j < |xs| && p == (xs[i], xs[j]);
      CombinationsAt(xs, i, j);
    }
  }

  /** Within a row, consecutive j are consecutive in the enumeration. */
  lemma {:induction false} PairIndexNext(n: nat, i: nat, j: nat)
    requires i < j && j + 1 < n
    ensures PairIndex(n, i, j + 1) == PairIndex(n, i, j) + 1
    decreases i
  {
    if i > 0 { PairIndexNext(n - 1, i - 1, j - 1); }
  }

  /** Within row i the pairs are consecutive: (i, j) is j - i - 1 places
      after (i, i + 1). */
  lemma {:induction false} PairIndexOffset(n: nat, i: nat, j: nat)
    requires i < j < n
    ensures PairIndex(n, i, j) == PairIndex(n, i, i + 1) + (j - i - 1)
    decreases j
  {
    if j > i + 1 {
      PairIndexOffset(n, i, j - 1);
      PairIndexNext(n, i, j - 1);
    }
  }

  /** The first pair of row i + 1 follows the last pair of row i. */
  lemma {:induction false} PairIndexNextRow(n: nat, i: nat)
    requires i + 2 < n
    ensures PairIndex(n, i + 1, i + 2) == PairIndex(n, i, n - 1) + 1
    decreases i
  {
    if i > 0 { PairIndexNextRow(n - 1, i - 1); }
  }

  /** The pair (n - 2, n - 1) comes last. */
  lemma {:induction false} PairIndexLast(n: nat)
    requires n >= 2
    ensures PairIndex(n, n - 2, n - 1) == n * (n - 1) / 2 - 1
    decreases n
  {
    if n > 2 {
      PairIndexLast(n - 1);
      assert (n - 1) * (n - 2) + 2 * (n - 1) == n * (n - 1);
    }
  }
}
