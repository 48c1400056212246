/**
 * `SchemaValidator::extractKeywords`: the words of a question or section
 * that are longer than three bytes and are not French stop words, of which
 * the first three are kept for image suggestions.
 *
 * The model starts from the token sequence. Lower-casing the text, blanking
 * out every character that is not a letter or white space and splitting on
 * runs of white space are not modelled; a token is any string.
 */
module Keywords {
  import opened Php

  const StopWords: seq<string> := [
    "le", "la", "les", "un", "une", "des", "de", "du", "et", "ou", "est", "sont", "a", "\U{e0}", "en",
    "dans", "sur", "pour", "par", "avec", "ce", "qui", "que", "quoi", "comment", "pourquoi"]

  /** The filter's test: `strlen($word) > 3` (bytes, not characters) and not a stop word. */
  predicate IsKeyword(w: string) {
    StrLen(w) > 3 && w !in StopWords
  }

  /** `array_values(array_filter($words, ...))`: the keywords of `ws`, in order. */
  function Qualifying(ws: seq<string>): (r: seq<string>)
    ensures |r| <= |ws|
    ensures forall w :: w in r ==> w in ws && IsKeyword(w)
  {
    if ws == [] then [] else (if IsKeyword(ws[0]) then [ws[0]] else []) + Qualifying(ws[1..])
  }

  /** Every keyword of `ws` is kept, as often as it occurs, and nothing else is. */
  lemma {:induction false} QualifyingCounts(ws: seq<string>, w: string)
    ensures multiset(Qualifying(ws))[w] == if IsKeyword(w) then multiset(ws)[w] else 0
  {
    if ws != [] {
      assert ws == [ws[0]] + ws[1..];
      QualifyingCounts(ws[1..], w);
    }
  }

  /** Filtering a concatenation filters each part. */
  lemma {:induction false} QualifyingAppend(a: seq<string>, b: seq<string>)
    ensures Qualifying(a + b) == Qualifying(a) + Qualifying(b)
  {
    if a == [] {
      assert a + b == b;
    } else {
      assert (a + b)[0] == a[0];
      assert (a + b)[1..] == a[1..] + b;
      QualifyingAppend(a[1..], b);
    }
  }

  /** Filtering the first `k + 1` words adds at most the word at `k`. */
  lemma QualifyingStep(ws: seq<string>, k: nat)
    requires k < |ws|
    ensures Qualifying(ws[..k + 1]) == Qualifying(ws[..k]) + (if IsKeyword(ws[k]) then [ws[k]] else [])
  {
    assert ws[..k + 1] == ws[..k] + [ws[k]];
    QualifyingAppend(ws[..k], [ws[k]]);
    assert Qualifying([ws[k]]) == (if IsKeyword(ws[k]) then [ws[k]] else []) + Qualifying([]);
  }

  /** The keywords of a prefix of the words are a prefix of the keywords. */
  lemma QualifyingPrefix(ws: seq<string>, k: nat)
    requires k <= |ws|
    ensures |Qualifying(ws[..k])| <= |Qualifying(ws)|
    ensures Qualifying(ws)[..|Qualifying(ws[..k])|] == Qualifying(ws[..k])
  {
    assert ws == ws[..k] + ws[k..];
    QualifyingAppend(ws[..k], ws[k..]);
  }

  /**
   * `array_slice(..., 0, 3)` of the keywords, computed by scanning the words
   * and stopping at the third keyword.
   */
  method ExtractKeywords(words: seq<string>) returns (r: seq<string>)
    ensures |r| <= 3
    ensures forall w :: w in r ==> w in words && IsKeyword(w)
    ensures |r| <= |Qualifying(words)| && r == Qualifying(words)[..|r|]
    ensures |r| < 3 ==> r == Qualifying(words)
  {
    r := [];
    var k := 0;
    while k < |words| && |r| < 3
      invariant 0 <= k <= |words|
      invariant r == Qualifying(words[..k])
      invariant |r| <= 3
    {
      QualifyingStep(words, k);
      if IsKeyword(words[k]) {
        r := r + [words[k]];
      }
      k := k + 1;
    }
    FirstKeywords(words, k, r);
  }

  /** Where the scan stops, it holds the first keywords: all of them, or the first three. */
  lemma FirstKeywords(words: seq<string>, k: nat, r: seq<string>)
    requires k <= |words| && r == Qualifying(words[..k]) && |r| <= 3
    requires k == |words| || |r| == 3
    ensures forall w :: w in r ==> w in words && IsKeyword(w)
    ensures |r| <= |Qualifying(words)| && r == Qualifying(words)[..|r|]
    ensures |r| < 3 ==> r == Qualifying(words)
  {
    QualifyingPrefix(words, k);
    if k == |words| {
      assert words[..k] == words;
    }
    forall w | w in r
      ensures w in words
    {
      assert w in words[..k];
    }
  }

  lemma PourIsStopWord()
    ensures !IsKeyword("pour")
  {
    assert StopWords[17] == "pour";
  }

  lemma EteIsKeyword()
    ensures IsKeyword("\U{e9}t\U{e9}")
  {
    assert StrLen("\U{e9}t\U{e9}") == 5;
    forall k | 0 <= k < |StopWords|
      ensures StopWords[k] != "\U{e9}t\U{e9}"
    {
      assert |StopWords[k]| != 3 || StopWords[k][0] != '\U{e9}';
    }
  }

  /** A long stop word is dropped; a three-letter word with two accents is five bytes long and kept. */
  lemma QualifyingExample()
    ensures Qualifying(["pour", "\U{e9}t\U{e9}"]) == ["\U{e9}t\U{e9}"]
  {
    PourIsStopWord();
    EteIsKeyword();
  }
}
