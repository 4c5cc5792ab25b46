/** normalize_document: strip the edges, lowercase, and turn every run of
    whitespace into one space. Lowercasing is modelled for ASCII letters
    only. */
module IoUtils {
  import Strings

  /** The characters str.isspace() accepts; the regular expression \s of a
      str pattern matches the same characters. */
  predicate IsSpace(c: char)
  {
    c == ' ' || ('\t' <= c <= '\r') || ('\U{1C}' <= c <= '\U{1F}') || c == '\U{85}' || c == '\U{A0}'
    || c == '\U{1680}' || ('\U{2000}' <= c <= '\U{200A}') || c == '\U{2028}' || c == '\U{2029}'
    || c == '\U{202F}' || c == '\U{205F}' || c == '\U{3000}'
  }

  predicate IsUpper(c: char)
  {
    'A' <= c <= 'Z'
  }

  /** str.lower() on one character, for the ASCII letters. */
  function LowerChar(c: char): (d: char)
    ensures !IsUpper(d)
    ensures IsSpace(d) <==> IsSpace(c)
    ensures !IsUpper(c) ==> d == c
  {
    if IsUpper(c) then (c as int + 32) as char else c
  }

  /** str.lower(). */
  function Lower(s: string): (r: string)
    ensures |r| == |s|
    ensures forall i :: 0 <= i < |s| ==> r[i] == LowerChar(s[i])
  {
    seq(|s|, i requires 0 <= i < |s| => LowerChar(s[i]))
  }

  /** Leading whitespace removed. */
  function StripLeft(s: string): (r: string)
    ensures |r| <= |s| && r == s[|s| - |r|..]
    ensures r == "" || !IsSpace(r[0])
    ensures forall i :: 0 <= i < |s| - |r| ==> IsSpace(s[i])
    decreases |s|
  {
    if |s| > 0 && IsSpace(s[0]) then StripLeft(s[1..]) else s
  }

  /** Trailing whitespace removed. */
  function StripRight(s: string): (r: string)
    ensures |r| <= |s| && r == s[..|r|]
    ensures r == "" || !IsSpace(r[|r| - 1])
    ensures forall i :: |r| <= i < |s| ==> IsSpace(s[i])
    decreases |s|
  {
    if |s| > 0 && IsSpace(s[|s| - 1]) then StripRight(s[..|s| - 1]) else s
  }

  /** str.strip(). */
  function Strip(s: string): string
  {
    StripRight(StripLeft(s))
  }

  /** No whitespace at either end. */
  predicate Trimmed(s: string)
  {
    s == "" || (!IsSpace(s[0]) && !IsSpace(s[|s| - 1]))
  }

  /** Every whitespace character is a plain space, and no two spaces are
      adjacent. */
  predicate SingleSpaced(s: string)
  {
    && (forall i :: 0 <= i < |s| && IsSpace(s[i]) ==> s[i] == ' ')
    && (forall i :: 0 < i < |s| && s[i] == ' ' ==> s[i - 1] != ' ')
  }

  predicate NoUpper(s: string)
  {
    forall i :: 0 <= i < |s| ==> !IsUpper(s[i])
  }

  /** What normalize_document promises of its result. */
  predicate Normal(s: string)
  {
    Trimmed(s) && SingleSpaced(s) && NoUpper(s)
  }

  /** Stripping leaves no whitespace at the ends, and changes nothing when
      there is none. */
  lemma StripTrimmed(s: string)
    ensures Trimmed(Strip(s))
    ensures Trimmed(s) ==> Strip(s) == s
  {
    var t := StripLeft(s);
    var r := StripRight(t);
    if r != "" {
      assert t[0] == r[0];
    }
    if s != "" && !IsSpace(s[0]) && !IsSpace(s[|s| - 1]) {
      assert t == s;
    }
  }

  /** Stripping gives "" exactly for an all-whitespace string. */
  lemma StripEmpty(s: string)
    ensures Strip(s) == "" <==> forall i :: 0 <= i < |s| ==> IsSpace(s[i])
  {
    var t := StripLeft(s);
    if forall i :: 0 <= i < |s| ==> IsSpace(s[i]) {
      StripLeftAllSpace(s);
    }
    if Strip(s) == "" {
      assert t == "";
    }
  }

  lemma {:induction false} StripLeftAllSpace(s: string)
    requires forall i :: 0 <= i < |s| ==> IsSpace(s[i])
    ensures StripLeft(s) == ""
    decreases |s|
  {
    if |s| > 0 {
      StripLeftAllSpace(s[1..]);
    }
  }

  /** re.sub(r"\s+", " ", s): every maximal whitespace run becomes one
      space. */
  function Collapse(s: string): (r: string)
    ensures |r| == 0 <==> |s| == 0
    ensures |s| > 0 ==> (r[0] == ' ' <==> IsSpace(s[0])) && (!IsSpace(s[0]) ==> r[0] == s[0])
    ensures |s| > 0 ==> (r[|r| - 1] == ' ' <==> IsSpace(s[|s| - 1]))
    decreases |s|
  {
    if |s| == 0 then ""
    else if IsSpace(s[0]) then
      var rest := StripLeft(s[1..]);
      var tail := Collapse(rest);
      assert rest != "" ==> rest[|rest| - 1] == s[|s| - 1];
      " " + tail
    else
      [s[0]] + Collapse(s[1..])
  }

  /** The substitution leaves single spaces only, and adds no capitals. */
  lemma {:induction false} CollapseSingleSpaced(s: string)
    ensures SingleSpaced(Collapse(s))
    ensures NoUpper(s) ==> NoUpper(Collapse(s))
    decreases |s|
  {
    if |s| > 0 {
      var r := Collapse(s);
      if IsSpace(s[0]) {
        var rest := StripLeft(s[1..]);
        CollapseSingleSpaced(rest);
        var tail := Collapse(rest);
        assert r == " " + tail;
        assert tail == "" || tail[0] != ' ';
        forall i | 0 < i < |r| ensures r[i] == tail[i - 1] { }
        assert NoUpper(s) ==> NoUpper(rest) by {
          if NoUpper(s) {
            forall i | 0 <= i < |rest| ensures !IsUpper(rest[i]) {
              assert rest[i] == s[|s| - |rest| + i];
            }
          }
        }
      } else {
        var t := s[1..];
        CollapseSingleSpaced(t);
        var tail := Collapse(t);
        assert r == [s[0]] + tail;
        forall i | 0 < i < |r| ensures r[i] == tail[i - 1] { }
        assert NoUpper(s) ==> NoUpper(t) by {
          if NoUpper(s) {
            forall i | 0 <= i < |t| ensures !IsUpper(t[i]) {
              assert t[i] == s[i + 1];
            }
          }
        }
      }
    }
  }

  /** A single-spaced string is left alone by the substitution. */
  lemma {:induction false} CollapseFixed(s: string)
    requires SingleSpaced(s)
    ensures Collapse(s) == s
    decreases |s|
  {
    if |s| > 0 {
      var t := s[1..];
      assert SingleSpaced(t) by {
        forall i | 0 < i < |t| && t[i] == ' ' ensures t[i - 1] != ' ' {
          assert s[i + 1] == ' ';
        }
      }
      CollapseFixed(t);
      if IsSpace(s[0]) {
        assert t == "" || !IsSpace(t[0]) by {
          if |s| > 1 {
            assert s[0] == ' ';
            assert s[1] != ' ';
          }
        }
        assert StripLeft(t) == t;
      }
      assert s == [s[0]] + t;
    }
  }

  /** The characters that are not whitespace, in order. */
  function NonSpace(s: string): string
    decreases |s|
  {
    if |s| == 0 then "" else (if IsSpace(s[0]) then "" else [s[0]]) + NonSpace(s[1..])
  }

  /** Dropping leading whitespace keeps every other character. */
  lemma {:induction false} StripLeftNonSpace(s: string)
    ensures NonSpace(StripLeft(s)) == NonSpace(s)
    decreases |s|
  {
    if |s| > 0 && IsSpace(s[0]) {
      StripLeftNonSpace(s[1..]);
    }
  }

  /** Dropping trailing whitespace keeps every other character. */
  lemma {:induction false} StripRightNonSpace(s: string)
    ensures NonSpace(StripRight(s)) == NonSpace(s)
    decreases |s|
  {
    if |s| > 0 && IsSpace(s[|s| - 1]) {
      var init := s[..|s| - 1];
      StripRightNonSpace(init);
      assert s == init + [s[|s| - 1]];
      NonSpaceAppend(init, [s[|s| - 1]]);
    }
  }

  /** The substitution keeps every non-whitespace character, in order. */
  lemma {:induction false} CollapseNonSpace(s: string)
    ensures NonSpace(Collapse(s)) == NonSpace(s)
    decreases |s|
  {
    if |s| > 0 {
      if IsSpace(s[0]) {
        var rest := StripLeft(s[1..]);
        CollapseNonSpace(rest);
        StripLeftNonSpace(s[1..]);
        var r := Collapse(s);
        assert r == " " + Collapse(rest);
        assert r[1..] == Collapse(rest);
      } else {
        CollapseNonSpace(s[1..]);
        var r := Collapse(s);
        assert r == [s[0]] + Collapse(s[1..]);
        assert r[1..] == Collapse(s[1..]);
      }
    }
  }

  /** normalize_document. */
  function Normalize(text: string): (r: string)
    ensures Normal(r)
  {
    var stripped := Strip(text);
    StripTrimmed(text);
    var lowered := Lower(stripped);
    CollapseSingleSpaced(lowered);
    Collapse(lowered)
  }

  /** The result is "" exactly when the text is empty or all whitespace. */
  lemma NormalizeEmpty(text: string)
    ensures Normalize(text) == "" <==> forall i :: 0 <= i < |text| ==> IsSpace(text[i])
  {
    StripEmpty(text);
  }

  /** Only whitespace is dropped or replaced: the other characters survive,
      lowercased, in their order. */
  lemma NormalizeKeepsText(text: string)
    ensures NonSpace(Normalize(text)) == NonSpace(Lower(text))
  {
    var s := Strip(text);
    CollapseNonSpace(Lower(s));
    LowerNonSpace(s);
    LowerNonSpace(text);
    StripNonSpace(text);
  }

  /** Stripping drops whitespace only. */
  lemma StripNonSpace(text: string)
    ensures NonSpace(Strip(text)) == NonSpace(text)
  {
    StripLeftNonSpace(text);
    StripRightNonSpace(StripLeft(text));
  }

  lemma {:induction false} LowerNonSpace(s: string)
    ensures NonSpace(Lower(s)) == Lower(NonSpace(s))
    decreases |s|
  {
    if |s| > 0 {
      LowerNonSpace(s[1..]);
      assert Lower(s)[1..] == Lower(s[1..]);
      var head := if IsSpace(s[0]) then "" else [s[0]];
      assert Lower(head + NonSpace(s[1..])) == Lower(head) + Lower(NonSpace(s[1..]));
    }
  }

  lemma {:induction false} NonSpaceAppend(a: string, b: string)
    ensures NonSpace(a + b) == NonSpace(a) + NonSpace(b)
    decreases |a|
  {
    if |a| > 0 {
      NonSpaceAppend(a[1..], b);
      assert (a + b)[0] == a[0];
      assert (a + b)[1..] == a[1..] + b;
    } else {
      assert a + b == b;
    }
  }

  /** A normal string is its own normalisation. */
  lemma NormalFixed(s: string)
    requires Normal(s)
    ensures Normalize(s) == s
  {
    StripTrimmed(s);
    assert Lower(s) == s;
    CollapseFixed(s);
  }

  /** Normalising twice is normalising once. */
  lemma NormalizeIdempotent(text: string)
    ensures Normalize(Normalize(text)) == Normalize(text)
  {
    NormalFixed(Normalize(text));
  }

  // ---------------------------------------------------------------------
  // The whitespace-separated words: what the substitution keeps apart

  /** A non-empty run of characters none of which is whitespace. */
  predicate Word(w: string)
  {
    |w| > 0 && forall i :: 0 <= i < |w| ==> !IsSpace(w[i])
  }

  /** str.split() with no argument: the maximal runs of non-whitespace
      characters, in order. */
  function Tokens(s: string): (ws: seq<string>)
    ensures |s| > 0 && !IsSpace(s[0]) ==> |ws| > 0 && |ws[0]| > 0 && ws[0][0] == s[0]
    decreases |s|
  {
    if |s| == 0 then []
    else if IsSpace(s[0]) then Tokens(s[1..])
    else
      var rest := Tokens(s[1..]);
      if |s| > 1 && !IsSpace(s[1]) then [[s[0]] + rest[0]] + rest[1..]
      else [[s[0]]] + rest
  }

  /** Every token is a word. */
  lemma {:induction false} TokensAreWords(s: string)
    ensures forall k :: 0 <= k < |Tokens(s)| ==> Word(Tokens(s)[k])
    decreases |s|
  {
    if |s| > 0 {
      TokensAreWords(s[1..]);
      var rest := Tokens(s[1..]);
      if !IsSpace(s[0]) && |s| > 1 && !IsSpace(s[1]) {
        var w := [s[0]] + rest[0];
        assert Word(rest[0]);
        assert forall i :: 1 <= i < |w| ==> w[i] == rest[0][i - 1];
        assert Word(w);
      }
    }
  }

  /** A word on its own is one token. */
  lemma {:induction false} TokensOfWord(w: string)
    requires Word(w)
    ensures Tokens(w) == [w]
    decreases |w|
  {
    if |w| > 1 {
      var t := w[1..];
      assert Word(t) by {
        forall i | 0 <= i < |t| ensures !IsSpace(t[i]) {
          assert t[i] == w[i + 1];
        }
      }
      TokensOfWord(t);
      assert w == [w[0]] + t;
    } else {
      assert w == [w[0]];
    }
  }

  /** A whitespace character separates the tokens on its two sides. */
  lemma {:induction false} TokensSplit(a: string, c: char, b: string)
    requires IsSpace(c)
    ensures Tokens(a + [c] + b) == Tokens(a) + Tokens(b)
    decreases |a|
  {
    var s := a + [c] + b;
    if |a| == 0 {
      assert s[1..] == b;
    } else {
      assert s[0] == a[0];
      assert s[1..] == a[1..] + [c] + b;
      TokensSplit(a[1..], c, b);
      if !IsSpace(a[0]) {
        TokensSplitAfterWord(a, c, b);
      }
    }
  }

  /** TokensSplit, the step at a non-whitespace first character. */
  lemma TokensSplitAfterWord(a: string, c: char, b: string)
    requires IsSpace(c) && |a| > 0 && !IsSpace(a[0])
    requires Tokens(a[1..] + [c] + b) == Tokens(a[1..]) + Tokens(b)
    ensures Tokens(a + [c] + b) == Tokens(a) + Tokens(b)
  {
    var s := a + [c] + b;
    assert s[0] == a[0];
    assert s[1..] == a[1..] + [c] + b;
    if |a| > 1 && !IsSpace(a[1]) {
      assert s[1] == a[1];
      TokensSplitInWord(a, s, Tokens(a[1..]), Tokens(b));
    } else {
      assert s[1] == if |a| == 1 then c else a[1];
      TokensSplitAtBreak(a, s, Tokens(b));
    }
  }

  /** TokensSplitAfterWord when the word ends after one character: it is a
      token of its own on both sides. */
  lemma TokensSplitAtBreak(a: string, s: string, tb: seq<string>)
    requires |a| > 0 && !IsSpace(a[0]) && (|a| == 1 || IsSpace(a[1]))
    requires |s| > 1 && s[0] == a[0] && IsSpace(s[1])
    requires Tokens(s[1..]) == Tokens(a[1..]) + tb
    ensures Tokens(s) == Tokens(a) + tb
  {
  }

  /** TokensSplitAfterWord when the word goes on: the first token of the
      rest is extended on both sides alike. */
  lemma TokensSplitInWord(a: string, s: string, restA: seq<string>, tb: seq<string>)
    requires |a| > 1 && !IsSpace(a[0]) && !IsSpace(a[1])
    requires |s| > 1 && s[0] == a[0] && s[1] == a[1]
    requires restA == Tokens(a[1..]) && Tokens(s[1..]) == restA + tb
    ensures Tokens(s) == Tokens(a) + tb
  {
    var rest := Tokens(s[1..]);
    assert rest[0] == restA[0];
    assert rest[1..] == restA[1..] + tb;
  }

  /** Whitespace with no word gives no token. */
  lemma TokensAllSpace(s: string)
    requires forall i :: 0 <= i < |s| ==> IsSpace(s[i])
    ensures Tokens(s) == []
  {
    StripLeftAllSpace(s);
    TokensStripLeft(s);
  }

  /** Leading whitespace does not change the tokens. */
  lemma {:induction false} TokensStripLeft(s: string)
    ensures Tokens(StripLeft(s)) == Tokens(s)
    decreases |s|
  {
    if |s| > 0 && IsSpace(s[0]) {
      TokensStripLeft(s[1..]);
    }
  }

  /** Trailing whitespace does not change the tokens. */
  lemma {:induction false} TokensStripRight(s: string)
    ensures Tokens(StripRight(s)) == Tokens(s)
    decreases |s|
  {
    if |s| > 0 && IsSpace(s[|s| - 1]) {
      var init := s[..|s| - 1];
      TokensStripRight(init);
      TokensSplit(init, s[|s| - 1], "");
      assert init + [s[|s| - 1]] + "" == s;
    }
  }

  /** Lowercasing and dropping leading whitespace commute. */
  lemma {:induction false} StripLeftLower(s: string)
    ensures StripLeft(Lower(s)) == Lower(StripLeft(s))
    decreases |s|
  {
    if |s| > 0 && IsSpace(s[0]) {
      assert Lower(s)[1..] == Lower(s[1..]);
      StripLeftLower(s[1..]);
    }
  }

  /** Lowercasing and dropping trailing whitespace commute. */
  lemma {:induction false} StripRightLower(s: string)
    ensures StripRight(Lower(s)) == Lower(StripRight(s))
    decreases |s|
  {
    if |s| > 0 && IsSpace(s[|s| - 1]) {
      assert Lower(s)[..|s| - 1] == Lower(s[..|s| - 1]);
      StripRightLower(s[..|s| - 1]);
    }
  }

  /** The one space the substitution leaves at the end of a string that
      ends in whitespace. */
  function Trail(s: string): string
  {
    if |s| > 0 && IsSpace(s[|s| - 1]) then " " else ""
  }

  /** On a string that does not start with whitespace, the substitution
      puts exactly one space between consecutive tokens, and one more at
      the end when the string ends in whitespace. */
  lemma {:induction false} CollapseTokens(s: string)
    requires s == "" || !IsSpace(s[0])
    ensures Collapse(s) == Strings.Join(Tokens(s), ' ') + Trail(s)
    decreases |s|
  {
    if |s| > 0 {
      var t := s[1..];
      if |t| == 0 {
        assert Tokens(s) == [[s[0]]];
      } else if !IsSpace(t[0]) {
        CollapseTokens(t);
        CollapseTokensInWord(s);
      } else {
        var u := StripLeft(t[1..]);
        if |u| > 0 {
          CollapseTokens(u);
        }
        CollapseTokensAtSpace(s);
      }
    }
  }

  /** CollapseTokens, the step inside a word. */
  lemma CollapseTokensInWord(s: string)
    requires |s| > 1 && !IsSpace(s[0]) && !IsSpace(s[1])
    requires Collapse(s[1..]) == Strings.Join(Tokens(s[1..]), ' ') + Trail(s[1..])
    ensures Collapse(s) == Strings.Join(Tokens(s), ' ') + Trail(s)
  {
    var t := s[1..];
    var ws := Tokens(s);
    var rest := Tokens(t);
    assert ws == [[s[0]] + rest[0]] + rest[1..];
    assert ws[0][1..] == rest[0];
    assert rest == [ws[0][1..]] + ws[1..];
    Strings.JoinPrefix(ws, rest, ' ');
    assert Collapse(s) == [s[0]] + Collapse(t);
    assert Trail(s) == Trail(t);
    var j := Strings.Join(rest, ' ');
    assert ws[0][0] == s[0];
    assert Strings.Join(ws, ' ') == [s[0]] + j;
    assert Collapse(t) == j + Trail(t);
    AppendAssoc([s[0]], j, Trail(t));
  }

  /** Concatenation is associative (a step the solver misses in a large
      context). */
  lemma AppendAssoc(a: string, b: string, c: string)
    ensures a + (b + c) == (a + b) + c
  {
  }

  /** CollapseTokens, the step at the whitespace after a word. */
  lemma CollapseTokensAtSpace(s: string)
    requires |s| > 1 && !IsSpace(s[0]) && IsSpace(s[1])
    requires var u := StripLeft(s[2..]);
             |u| > 0 ==> Collapse(u) == Strings.Join(Tokens(u), ' ') + Trail(u)
    ensures Collapse(s) == Strings.Join(Tokens(s), ' ') + Trail(s)
  {
    var u := StripLeft(s[2..]);
    AfterWord(s);
    if |u| == 0 {
      assert Tokens(u) == [] && Collapse(u) == "";
      if |s| > 2 {
        StripLeftEmptyLast(s[2..]);
        assert s[|s| - 1] == s[2..][|s| - 3];
      }
      AfterLastWord(s);
    } else {
      BeforeNextWord(s, u);
    }
  }

  /** A word followed by a whitespace run: one token, one space, and what
      follows the run. */
  lemma AfterWord(s: string)
    requires |s| > 1 && !IsSpace(s[0]) && IsSpace(s[1])
    ensures Tokens(s) == [[s[0]]] + Tokens(StripLeft(s[2..]))
    ensures Collapse(s) == [s[0]] + (" " + Collapse(StripLeft(s[2..])))
  {
    var t := s[1..];
    assert t[1..] == s[2..];
    TokensStripLeft(t[1..]);
    assert t[0] == s[1];
    assert Tokens(s) == [[s[0]]] + Tokens(t);
    assert Tokens(t) == Tokens(t[1..]);
  }

  /** CollapseTokensAtSpace when only whitespace follows the word. */
  lemma AfterLastWord(s: string)
    requires |s| > 1 && IsSpace(s[|s| - 1])
    requires Tokens(s) == [[s[0]]] && Collapse(s) == [s[0]] + " "
    ensures Collapse(s) == Strings.Join(Tokens(s), ' ') + Trail(s)
  {
    assert Strings.Join(Tokens(s), ' ') == [s[0]];
  }

  /** A string that is all whitespace ends in whitespace. */
  lemma StripLeftEmptyLast(x: string)
    requires |x| > 0 && StripLeft(x) == ""
    ensures IsSpace(x[|x| - 1])
  {
    var k := |x| - 1;
    assert 0 <= k < |x| - |StripLeft(x)|;
  }

  /** CollapseTokensAtSpace when another word follows the run. */
  lemma BeforeNextWord(s: string, u: string)
    requires |s| > 1 && !IsSpace(s[0]) && IsSpace(s[1]) && u == StripLeft(s[2..]) && |u| > 0
    requires Collapse(u) == Strings.Join(Tokens(u), ' ') + Trail(u)
    requires Tokens(s) == [[s[0]]] + Tokens(u)
    requires Collapse(s) == [s[0]] + (" " + Collapse(u))
    ensures Collapse(s) == Strings.Join(Tokens(s), ' ') + Trail(s)
  {
    var ws := Tokens(s);
    var j := Strings.Join(Tokens(u), ' ');
    assert ws[1..] == Tokens(u);
    assert Strings.Join(ws, ' ') == [s[0]] + " " + j;
    assert u[|u| - 1] == s[|s| - 1];
    assert Trail(u) == Trail(s);
    AppendAssoc(" ", j, Trail(s));
    AppendAssoc([s[0]], " " + j, Trail(s));
    AppendAssoc([s[0]], " ", j);
  }

  /** normalize_document is " ".join(text.lower().split()): the words of the
      lowercased text, one space between each two. */
  lemma NormalizeTokens(text: string)
    ensures Normalize(text) == Strings.Join(Tokens(Lower(text)), ' ')
  {
    var left := StripLeft(text);
    var lowered := Lower(StripRight(left));
    StripTrimmed(text);
    CollapseTokens(lowered);
    StripRightLower(left);
    StripLeftLower(text);
    assert lowered == StripRight(StripLeft(Lower(text)));
    TokensStripRight(StripLeft(Lower(text)));
    TokensStripLeft(Lower(text));
  }
}
