/** Shingling: character k-grams, space-delimited word k-grams and the
    per-document k-gram sets. */
module Kgrams {
  import opened Wrappers
  import opened Strings

  /** The k characters of `text` from position i. */
  function Gram(text: string, k: nat, i: int): string
    requires 0 <= i <= |text| - k
  {
    text[i..i + k]
  }

  /** The slices text[i..i+k] for 0 <= i < n. */
  function SlicesUpTo(text: string, k: nat, n: int): set<string>
    requires n <= |text| - k + 1
  {
    set i | 0 <= i < n :: Gram(text, k, i)
  }

  /** char_kgrams: ValueError for k <= 0, nothing when the text is shorter
      than k, otherwise every slice of length k, spaces included. */
  function CharKgrams(text: string, k: int): (r: Result<set<string>>)
    ensures r.Err? <==> k <= 0
    ensures r.Err? ==> r.error == NonPositiveK
    ensures k > 0 && |text| < k ==> r == Ok({})
    ensures r.Ok? ==> forall g :: g in r.value <==> exists i :: 0 <= i <= |text| - k && g == Gram(text, k, i)
    ensures r.Ok? ==> forall g :: g in r.value ==> |g| == k
  {
    if k <= 0 then Err(NonPositiveK)
    else if |text| < k then Ok({})
    else Ok(SlicesUpTo(text, k, |text| - k + 1))
  }

  /** n slices give at most n distinct grams. */
  lemma {:induction false} SlicesCount(text: string, k: nat, n: nat)
    requires n <= |text| - k + 1
    ensures |SlicesUpTo(text, k, n)| <= n
    decreases n
  {
    if n > 0 {
      SlicesCount(text, k, n - 1);
      assert SlicesUpTo(text, k, n) == SlicesUpTo(text, k, n - 1) + {Gram(text, k, n - 1)};
    }
  }

  /** A text of length L has at most L - k + 1 distinct character k-grams. */
  lemma CharKgramsCount(text: string, k: int)
    requires k > 0
    ensures |CharKgrams(text, k).value| <= if |text| < k then 0 else |text| - k + 1
  {
    if |text| >= k {
      SlicesCount(text, k, |text| - k + 1);
    }
  }

  /** text.split(" ") if text else []: the words of a text. */
  function Words(text: string): (ws: seq<string>)
    ensures text == "" <==> ws == []
    ensures forall i :: 0 <= i < |ws| ==> ' ' !in ws[i]
  {
    if text == "" then [] else Split(text, ' ')
  }

  /** Rejoining the words with single spaces gives back the text. */
  lemma WordsJoin(text: string)
    ensures Join(Words(text), ' ') == text
  {
    if text != "" {
      JoinSplit(text, ' ');
    }
  }

  /** The k words of `ws` from position i, joined by single spaces. */
  function WordRun(ws: seq<string>, k: nat, i: int): string
    requires 0 <= i <= |ws| - k
  {
    Join(ws[i..i + k], ' ')
  }

  /** The runs of k words starting before n. */
  function WordRunsUpTo(ws: seq<string>, k: nat, n: int): set<string>
    requires n <= |ws| - k + 1
  {
    set i | 0 <= i < n :: WordRun(ws, k, i)
  }

  /** word_kgrams: ValueError for k <= 0, nothing when there are fewer than k
      words, otherwise every run of k consecutive words joined by " ". */
  function WordKgrams(text: string, k: int): (r: Result<set<string>>)
    ensures r.Err? <==> k <= 0
    ensures r.Err? ==> r.error == NonPositiveK
    ensures k > 0 && (text == "" || |Words(text)| < k) ==> r == Ok({})
    ensures r.Ok? ==> forall g :: g in r.value <==>
              exists i :: 0 <= i <= |Words(text)| - k && g == WordRun(Words(text), k, i)
  {
    var words := Words(text);
    if k <= 0 then Err(NonPositiveK)
    else if |words| < k then Ok({})
    else Ok(WordRunsUpTo(words, k, |words| - k + 1))
  }

  /** Every word gram is a contiguous piece of the text. */
  lemma WordGramIsSubstring(text: string, k: int, g: string)
    requires k > 0 && g in WordKgrams(text, k).value
    ensures IsSubstring(g, text)
  {
    var ws := Words(text);
    var i :| 0 <= i <= |ws| - k && g == WordRun(ws, k, i);
    JoinSliceIsSubstring(ws, i, i + k, ' ');
    WordsJoin(text);
  }

  /** Every word gram splits back into exactly the k words it was made of. */
  lemma WordGramWords(text: string, k: int, g: string)
    requires k > 0 && g in WordKgrams(text, k).value
    ensures |Split(g, ' ')| == k
    ensures Join(Split(g, ' '), ' ') == g
  {
    var ws := Words(text);
    var i :| 0 <= i <= |ws| - k && g == WordRun(ws, k, i);
    var run := ws[i..i + k];
    assert forall x :: 0 <= x < |run| ==> ' ' !in run[x] by {
      forall x | 0 <= x < |run| ensures ' ' !in run[x] {
        assert run[x] == ws[i + x];
      }
    }
    SplitJoin(run, ' ');
    JoinSplit(g, ' ');
  }

  /** The k-grams of one document for `mode`. */
  function DocGrams(text: string, mode: string, k: int): (r: Result<set<string>>)
    ensures r.Err? <==> (mode != "char" && mode != "word") || k <= 0
    ensures r.Err? ==> r.error == (if mode == "char" || mode == "word" then NonPositiveK else UnsupportedMode)
  {
    if mode == "char" then CharKgrams(text, k)
    else if mode == "word" then WordKgrams(text, k)
    else Err(UnsupportedMode)
  }

  /** Whether `mode` and `k` are accepted by build_kgrams_for_documents. */
  predicate Supported(mode: string, k: int)
  {
    (mode == "char" || mode == "word") && k > 0
  }

  /** The k-gram set of every document, for a supported mode and k. */
  function KgramsOf(documents: map<string, string>, mode: string, k: int): map<string, set<string>>
    requires Supported(mode, k)
  {
    map id | id in documents :: DocGrams(documents[id], mode, k).value
  }

  /** The mapping has the documents' keys, and holds each document's grams. */
  lemma KgramsOfMeaning(documents: map<string, string>, mode: string, k: int)
    requires Supported(mode, k)
    ensures KgramsOf(documents, mode, k).Keys == documents.Keys
    ensures forall id :: id in documents ==> DocGrams(documents[id], mode, k) == Ok(KgramsOf(documents, mode, k)[id])
  {
  }

  /** A mapping with the documents' keys holding each document's grams is
      the k-gram mapping. */
  lemma KgramsOfUnique(documents: map<string, string>, mode: string, k: int, grams: map<string, set<string>>)
    requires Supported(mode, k) && grams.Keys == documents.Keys
    requires forall id :: id in grams ==> DocGrams(documents[id], mode, k) == Ok(grams[id])
    ensures grams == KgramsOf(documents, mode, k)
  {
  }

  /** build_kgrams_for_documents: the first document processed raises when
      the mode is unsupported or k <= 0; an empty mapping raises nothing. */
  method BuildKgramsForDocuments(documents: map<string, string>, mode: string, k: int)
    returns (res: Result<map<string, set<string>>>)
    ensures res.Err? <==> |documents| > 0 && !Supported(mode, k)
    ensures res.Err? ==> res.error == (if mode == "char" || mode == "word" then NonPositiveK else UnsupportedMode)
    ensures res.Ok? ==> res.value.Keys == documents.Keys
    ensures res.Ok? && |documents| > 0 ==> res.value == KgramsOf(documents, mode, k)
  {
    res := MapResults(documents, text => DocGrams(text, mode, k));
    if |documents| > 0 {
      var id :| id in documents;
      assert res.Ok? ==> Supported(mode, k) by {
        if res.Ok? { assert DocGrams(documents[id], mode, k).Ok?; }
      }
      if res.Ok? {
        KgramsOfUnique(documents, mode, k, res.value);
      }
    }
  }

  /** iter_kgram_types: the configurations the document part reports on. */
  const KgramTypes: seq<(string, int)> := [("char", 2), ("char", 3), ("word", 2)]

  /** Every listed configuration is accepted. */
  lemma KgramTypesSupported()
    ensures forall i :: 0 <= i < |KgramTypes| ==> Supported(KgramTypes[i].0, KgramTypes[i].1)
  {
  }

  /** "a b c".split(" ") is ["a", "b", "c"]. */
  lemma SplitExample()
    ensures Split("a b c", ' ') == ["a", "b", "c"]
  {
    assert Split("", ' ') == [""];
    assert "c"[1..] == "" && ['c'] + "" == "c";
    assert Split("c", ' ') == ["c"];
    assert " c"[1..] == "c";
    assert Split(" c", ' ') == ["", "c"];
    assert "b c"[1..] == " c" && ['b'] + "" == "b";
    assert Split("b c", ' ') == ["b", "c"];
    assert " b c"[1..] == "b c";
    assert Split(" b c", ' ') == ["", "b", "c"];
    assert "a b c"[1..] == " b c" && ['a'] + "" == "a";
  }

  /** A concrete check of the word split: "a b c" gives the two 2-grams
      "a b" and "b c". */
  lemma WordBigramsExample()
    ensures WordKgrams("a b c", 2) == Ok({"a b", "b c"})
  {
    SplitExample();
    var ws := Words("a b c");
    assert ws == ["a", "b", "c"];
    assert ws[0..2] == ["a", "b"] && ws[1..3] == ["b", "c"];
    assert WordRun(ws, 2, 0) == "a b";
    assert WordRun(ws, 2, 1) == "b c";
    assert WordRunsUpTo(ws, 2, 2) == {"a b", "b c"};
  }

  /** A concrete check of the character grams: "abab" has the 2-grams "ab"
      and "ba" only. */
  lemma CharBigramsExample()
    ensures CharKgrams("abab", 2) == Ok({"ab", "ba"})
  {
    assert Gram("abab", 2, 0) == "ab" && Gram("abab", 2, 1) == "ba" && Gram("abab", 2, 2) == "ab";
    assert SlicesUpTo("abab", 2, 3) == {"ab", "ba"};
  }
}
