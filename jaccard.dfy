/** Exact Jaccard similarity of two finite sets. */
module Jaccard {

  /** |a ∩ b| / |a ∪ b|, with two empty sets defined to be identical (1.0).
      The source's second guard (an empty union once the sets are not both
      empty) is dead code: the `assert false` below proves it. */
  function Similarity<T>(a: set<T>, b: set<T>): (r: real)
    ensures a == {} && b == {} ==> r == 1.0
    ensures !(a == {} && b == {}) ==> r * (|a + b| as real) == |a * b| as real
    ensures 0.0 <= r <= 1.0
  {
    if a == {} && b == {} then 1.0
    else
      var union := a + b;
      if union == {} then assert false; 0.0
      else
        assert a * b <= union;
        SubsetCard(a * b, union);
        (|a * b| as real) / (|union| as real)
  }

  /** A subset is no larger than its superset. */
  lemma SubsetCard<T>(s: set<T>, u: set<T>)
    requires s <= u
    ensures |s| <= |u|
  {
    assert u == s + (u - s);
  }

  /** Jaccard similarity does not depend on the order of its arguments. */
  lemma Symmetric<T>(a: set<T>, b: set<T>)
    ensures Similarity(a, b) == Similarity(b, a)
  {
    assert a + b == b + a;
    assert a * b == b * a;
  }

  /** A non-empty set is fully similar to itself (and so is the empty set). */
  lemma SelfSimilar<T>(a: set<T>)
    ensures Similarity(a, a) == 1.0
  {
    assert a + a == a;
    assert a * a == a;
  }

  /** The similarity is 0 exactly when the sets are disjoint and not both empty. */
  lemma ZeroIffDisjoint<T>(a: set<T>, b: set<T>)
    ensures Similarity(a, b) == 0.0 <==> (a * b == {} && !(a == {} && b == {}))
  {
    if !(a == {} && b == {}) {
      var u := a + b;
      assert |u| > 0 by {
        if a != {} { var x :| x in a; assert x in u; }
        else { var x :| x in b; assert x in u; }
      }
      if a * b != {} {
        var x :| x in a * b;
        assert |a * b| > 0;
      }
    }
  }

  /** The similarity is 1 exactly when the sets are equal. */
  lemma OneIffEqual<T>(a: set<T>, b: set<T>)
    ensures Similarity(a, b) == 1.0 <==> a == b
  {
    if a == b {
      SelfSimilar(a);
    } else if !(a == {} && b == {}) {
      var u := a + b;
      var i := a * b;
      assert i < u by {
        assert i <= u;
        if a - b != {} {
          var x :| x in a - b;
          assert x in u && x !in i;
        } else {
          assert b - a != {};
          var x :| x in b - a;
          assert x in u && x !in i;
        }
      }
      assert |i| < |u|;
    }
  }
}
