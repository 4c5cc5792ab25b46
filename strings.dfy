/** Python string operations the core relies on: str.split(sep) for a
    one-character separator, sep.join, str.ljust, "-" * n, the ordering of
    sorted() on strings and f-string formatting of an int. */
module Strings {

  /** str.split(sep): the pieces between occurrences of `sep`, empty pieces
      included, so the result always has at least one element. */
  function Split(s: string, sep: char): (r: seq<string>)
    ensures |r| >= 1
    ensures forall i :: 0 <= i < |r| ==> sep !in r[i]
    decreases |s|
  {
    if |s| == 0 then [""]
    else
      var rest := Split(s[1..], sep);
      if s[0] == sep then [""] + rest
      else [[s[0]] + rest[0]] + rest[1..]
  }

  /** sep.join(ws). */
  function JoinBy(ws: seq<string>, sep: string): string
    decreases |ws|
  {
    if |ws| == 0 then ""
    else if |ws| == 1 then ws[0]
    else ws[0] + sep + JoinBy(ws[1..], sep)
  }

  /** sep.join(ws) for a one-character separator, the inverse of Split. */
  function Join(ws: seq<string>, sep: char): string
  {
    JoinBy(ws, [sep])
  }

  /** Joining the pieces of a split gives back the original string. */
  lemma {:induction false} JoinSplit(s: string, sep: char)
    ensures Join(Split(s, sep), sep) == s
    decreases |s|
  {
    if |s| > 0 {
      var rest := Split(s[1..], sep);
      JoinSplit(s[1..], sep);
      if s[0] == sep {
        assert Split(s, sep) == [""] + rest;
        assert s == [sep] + s[1..];
      } else {
        var r := Split(s, sep);
        assert r[0][1..] == rest[0];
        assert rest == [r[0][1..]] + r[1..];
        JoinPrefix(r, rest, sep);
        assert s == [s[0]] + s[1..];
      }
    }
  }

  /** Splitting a join of separator-free pieces gives back the pieces. */
  lemma {:induction false} SplitJoin(ws: seq<string>, sep: char)
    requires |ws| >= 1
    requires forall i :: 0 <= i < |ws| ==> sep !in ws[i]
    ensures Split(Join(ws, sep), sep) == ws
    decreases |ws|, |ws[0]|
  {
    if |ws[0]| > 0 {
      var w := ws[0];
      var tail := [w[1..]] + ws[1..];
      assert forall i :: 0 <= i < |tail| ==> sep !in tail[i] by {
        forall i | 0 <= i < |tail| ensures sep !in tail[i] {
          if i == 0 {
            assert forall c :: c in w[1..] ==> c in w;
          } else {
            assert tail[i] == ws[i];
          }
        }
      }
      SplitJoin(tail, sep);
      JoinPrefix(ws, tail, sep);
      var s := Join(ws, sep);
      assert s[1..] == Join(tail, sep);
      assert s[0] == w[0];
      assert w[0] != sep by { assert w[0] in w; }
      assert [w[0]] + w[1..] == w;
      assert ws == [w] + ws[1..];
    } else if |ws| > 1 {
      SplitJoin(ws[1..], sep);
      var s := Join(ws, sep);
      assert s == [sep] + Join(ws[1..], sep);
      assert s[1..] == Join(ws[1..], sep);
      assert ws == [""] + ws[1..];
    }
  }

  /** Peeling the first character of the first piece off a join. */
  lemma JoinPrefix(ws: seq<string>, tail: seq<string>, sep: char)
    requires |ws| >= 1 && |ws[0]| > 0
    requires tail == [ws[0][1..]] + ws[1..]
    ensures |Join(ws, sep)| > 0
    ensures Join(ws, sep) == [ws[0][0]] + Join(tail, sep)
  {
    var w := ws[0];
    assert w == [w[0]] + w[1..];
    if |ws| > 1 {
      assert tail[1..] == ws[1..];
    }
  }

  /** Joining a concatenation of two non-empty lists puts one separator
      between the two joins. */
  lemma {:induction false} JoinAppend(x: seq<string>, y: seq<string>, sep: char)
    requires |x| >= 1 && |y| >= 1
    ensures Join(x + y, sep) == Join(x, sep) + [sep] + Join(y, sep)
    decreases |x|
  {
    if |x| == 1 {
      assert (x + y)[1..] == y;
    } else {
      assert (x + y)[1..] == x[1..] + y;
      JoinAppend(x[1..], y, sep);
    }
  }

  /** `sub` occurs as a contiguous slice of `s`. */
  predicate IsSubstring(sub: string, s: string)
  {
    exists i, j :: 0 <= i <= j <= |s| && s[i..j] == sub
  }

  /** A string is a substring of anything it is the middle part of. */
  lemma MiddleIsSubstring(left: string, mid: string, right: string)
    ensures IsSubstring(mid, left + mid + right)
  {
    var s := left + mid + right;
    assert s[|left|..|left| + |mid|] == mid;
  }

  /** The join of a contiguous run of pieces is a substring of the join of
      all the pieces. */
  lemma JoinSliceIsSubstring(ws: seq<string>, i: nat, j: nat, sep: char)
    requires i < j <= |ws|
    ensures IsSubstring(Join(ws[i..j], sep), Join(ws, sep))
  {
    var mid := ws[i..j];
    var g := Join(mid, sep);
    var suffix := ws[i..];
    var right := if j == |ws| then "" else [sep] + Join(ws[j..], sep);
    assert Join(suffix, sep) == g + right by {
      if j < |ws| {
        assert suffix == mid + ws[j..];
        JoinAppend(mid, ws[j..], sep);
      } else {
        assert suffix == mid;
      }
    }
    var left := if i == 0 then "" else Join(ws[..i], sep) + [sep];
    assert Join(ws, sep) == left + Join(suffix, sep) by {
      if i == 0 {
        assert ws == suffix;
      } else {
        assert ws == ws[..i] + suffix;
        JoinAppend(ws[..i], suffix, sep);
      }
    }
    assert left + (g + right) == left + g + right;
    MiddleIsSubstring(left, g, right);
  }

  /** s.ljust(width): `s` padded on the right with spaces up to `width`. */
  function LJust(s: string, width: int): (r: string)
    ensures |r| == if |s| >= width then |s| else width
    ensures r[..|s|] == s
    ensures forall i :: |s| <= i < |r| ==> r[i] == ' '
  {
    if |s| >= width then s else s + Repeat(' ', width - |s|)
  }

  /** c * n: `n` copies of `c` (none for n <= 0). */
  function Repeat(c: char, n: int): (r: string)
    ensures |r| == if n <= 0 then 0 else n
    ensures forall i :: 0 <= i < |r| ==> r[i] == c
    decreases n
  {
    if n <= 0 then "" else [c] + Repeat(c, n - 1)
  }

  /** The order Python uses for strings: lexicographic by code point, a
      proper prefix coming first. */
  predicate Less(a: string, b: string)
    decreases |a|
  {
    if |a| == 0 then |b| > 0
    else if |b| == 0 then false
    else if a[0] != b[0] then a[0] < b[0]
    else Less(a[1..], b[1..])
  }

  lemma {:induction false} LessIrreflexive(a: string)
    ensures !Less(a, a)
    decreases |a|
  {
    if |a| > 0 { LessIrreflexive(a[1..]); }
  }

  lemma {:induction false} LessTransitive(a: string, b: string, c: string)
    requires Less(a, b) && Less(b, c)
    ensures Less(a, c)
    decreases |a|
  {
    if |a| > 0 && a[0] == b[0] && b[0] == c[0] {
      LessTransitive(a[1..], b[1..], c[1..]);
    }
  }

  /** Any two distinct strings are ordered one way or the other. */
  lemma {:induction false} LessTotal(a: string, b: string)
    requires a != b
    ensures Less(a, b) || Less(b, a)
    decreases |a|
  {
    if |a| > 0 && |b| > 0 && a[0] == b[0] {
      assert a == [a[0]] + a[1..];
      assert b == [b[0]] + b[1..];
      LessTotal(a[1..], b[1..]);
    }
  }

  lemma LessAsymmetric(a: string, b: string)
    requires Less(a, b)
    ensures !Less(b, a)
  {
    if Less(b, a) {
      LessTransitive(a, b, a);
      LessIrreflexive(a);
    }
  }

  /** The decimal digits of n, most significant first. */
  function NatToString(n: nat): (r: string)
    ensures |r| >= 1
    ensures forall i :: 0 <= i < |r| ==> '0' <= r[i] <= '9'
    decreases n
  {
    var d := [(48 + n % 10) as char];
    if n < 10 then d else NatToString(n / 10) + d
  }

  /** The value of a string of decimal digits. */
  function DigitsValue(s: string): (v: nat)
    requires forall i :: 0 <= i < |s| ==> '0' <= s[i] <= '9'
    decreases |s|
  {
    if |s| == 0 then 0 else 10 * DigitsValue(s[..|s| - 1]) + (s[|s| - 1] as int - 48)
  }

  /** Reading back the digits gives the number. */
  lemma {:induction false} NatToStringValue(n: nat)
    ensures DigitsValue(NatToString(n)) == n
    decreases n
  {
    var r := NatToString(n);
    if n >= 10 {
      NatToStringValue(n / 10);
      assert r[..|r| - 1] == NatToString(n / 10);
    }
  }

  /** str(n) for an int: a minus sign before the digits of |n| when negative. */
  function IntToString(n: int): string
  {
    if n < 0 then "-" + NatToString(-n) else NatToString(n)
  }

  /** str(n) starts with '-' exactly for negative n, and its digits spell |n|. */
  lemma IntToStringDigits(n: int)
    ensures var r := IntToString(n);
      && (n < 0 <==> |r| > 0 && r[0] == '-')
      && (n >= 0 ==> (forall i :: 0 <= i < |r| ==> '0' <= r[i] <= '9') && DigitsValue(r) == n)
      && (n < 0 ==> (forall i :: 1 <= i < |r| ==> '0' <= r[i] <= '9') && DigitsValue(r[1..]) == -n)
  {
    if n < 0 {
      var d := NatToString(-n);
      NatToStringValue(-n);
      assert ("-" + d)[1..] == d;
    } else {
      NatToStringValue(n);
    }
  }

  /** The total length of the pieces. */
  function TotalLength(ws: seq<string>): nat
    decreases |ws|
  {
    if |ws| == 0 then 0 else |ws[0]| + TotalLength(ws[1..])
  }

  /** A join is as long as its pieces plus one separator between each two. */
  lemma {:induction false} JoinByLength(ws: seq<string>, sep: string)
    requires |ws| >= 1
    ensures |JoinBy(ws, sep)| == TotalLength(ws) + |sep| * (|ws| - 1)
    decreases |ws|
  {
    if |ws| > 1 {
      JoinByLength(ws[1..], sep);
    }
  }

  /** A character in neither the pieces nor the separator is not in the join. */
  lemma {:induction false} JoinByAvoids(ws: seq<string>, sep: string, c: char)
    requires c !in sep
    requires forall i :: 0 <= i < |ws| ==> c !in ws[i]
    ensures c !in JoinBy(ws, sep)
    decreases |ws|
  {
    if |ws| > 1 {
      JoinByAvoids(ws[1..], sep, c);
      assert forall i :: 0 <= i < |ws| - 1 ==> ws[1..][i] == ws[i + 1];
    }
  }
}
