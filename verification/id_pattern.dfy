/**
 * The item id patterns `^q[0-9]+$` and `^f[0-9]+$` of the schema validator.
 *
 * PCRE's `$` without the `D` modifier also matches just before a final
 * newline, so the patterns as the source runs them accept "q1\n". The
 * validator model uses the pattern as evidently intended (the prefix
 * character followed by one or more digits and nothing else); the
 * as-written reading is kept here beside it, with the input that separates
 * the two.
 */
module IdPattern {

  predicate IsDigit(c: char) {
    '0' <= c <= '9'
  }

  predicate AllDigits(s: string) {
    forall k :: 0 <= k < |s| ==> IsDigit(s[k])
  }

  /** The intended reading: `prefix` followed by a non-empty run of digits. */
  predicate IdMatches(prefix: char, s: string) {
    |s| >= 2 && s[0] == prefix && AllDigits(s[1..])
  }

  /** The reading PCRE gives the source's pattern: `$` may stand before a final "\n". */
  predicate PcreIdMatches(prefix: char, s: string): (b: bool)
    ensures IdMatches(prefix, s) ==> b
    ensures b ==> 2 <= |s| && s[0] == prefix
    ensures b && !IdMatches(prefix, s) ==> 3 <= |s| && s[|s| - 1] == '\n' && AllDigits(s[1..|s| - 1])
  {
    || IdMatches(prefix, s)
    || (|s| >= 1 && s[|s| - 1] == '\n' && IdMatches(prefix, s[..|s| - 1]))
  }

  /** The discrepancy: the as-written pattern accepts an id with a trailing newline. */
  lemma TrailingNewlineAccepted()
    ensures PcreIdMatches('q', "q1\n")
    ensures !IdMatches('q', "q1\n")
  {
    assert "q1\n"[..2] == "q1";
    assert "q1"[1..] == "1";
  }

  /** The intended pattern accepts exactly the prefix followed by one or more digits. */
  lemma IdMatchesExactly(prefix: char, s: string)
    ensures IdMatches(prefix, s) <==> exists d :: |d| > 0 && AllDigits(d) && s == [prefix] + d
  {
    if IdMatches(prefix, s) {
      assert s == [prefix] + s[1..];
    }
  }

  /** The intended pattern never accepts a newline, and agrees with PCRE on newline-free ids. */
  lemma IdMatchesHasNoNewline(prefix: char, s: string)
    ensures IdMatches(prefix, s) && prefix != '\n' ==> forall k :: 0 <= k < |s| ==> s[k] != '\n'
    ensures (forall k :: 0 <= k < |s| ==> s[k] != '\n') ==> (PcreIdMatches(prefix, s) <==> IdMatches(prefix, s))
  {
    if IdMatches(prefix, s) && prefix != '\n' {
      forall k | 0 <= k < |s|
        ensures s[k] != '\n'
      {
        if k > 0 {
          assert s[k] == s[1..][k - 1];
        }
      }
    }
  }
}
