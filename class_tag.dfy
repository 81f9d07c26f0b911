/**
 * Tagging the `pre` element's class string: testing it against the pattern
 * `\s*\bline-numbers\b\s*` and, when that fails, the append
 * `pre.className += ' line-numbers'`.
 */
module ClassTag {

  /** The class the tagging looks for and adds. */
  const Token: string := "line-numbers"

  /** A character of the regular-expression class `\w` (no `u` flag): ASCII
      letters, digits and underscore. `\b` is defined by it. */
  predicate IsWordChar(c: char) {
    ('A' <= c <= 'Z') || ('a' <= c <= 'z') || ('0' <= c <= '9') || c == '_'
  }

  /** A character of the regular-expression class `\s`: the ASCII white space,
      no-break space, the byte-order mark and the Unicode space separators and
      line/paragraph separators. */
  predicate IsSpace(c: char) {
    || c == '\t' || c == '\n' || c == '\U{000B}' || c == '\U{000C}' || c == '\r' || c == ' '
    || c == '\U{00A0}' || c == '\U{1680}' || ('\U{2000}' <= c <= '\U{200A}')
    || c == '\U{2028}' || c == '\U{2029}' || c == '\U{202F}' || c == '\U{205F}'
    || c == '\U{3000}' || c == '\U{FEFF}'
  }

  predicate AllSpaces(s: string) {
    forall i :: 0 <= i < |s| ==> IsSpace(s[i])
  }

  /** `\bline-numbers\b` matches at position k of s: the token occurs there,
      the character before it (if any) is not a word character and neither is
      the character after it (if any). A hyphen is not a word character, so
      `line-numbers-rows` and `no-line-numbers` both contain a match. */
  predicate TokenAt(s: string, k: int) {
    && 0 <= k && k + |Token| <= |s|
    && s[k..k + |Token|] == Token
    && (k == 0 || !IsWordChar(s[k - 1]))
    && (k + |Token| == |s| || !IsWordChar(s[k + |Token|]))
  }

  /** The pattern with its optional spaces as written: some run of `\s`
      starting at i and ending at k, followed by a bounded token at k (the
      trailing `\s*` can always match nothing). */
  predicate PatternAt(s: string, i: int, k: int) {
    0 <= i <= k <= |s| && AllSpaces(s[i..k]) && TokenAt(s, k)
  }

  /** `test` of the pattern `\s*\bline-numbers\b\s*` on s: a match starts somewhere. */
  ghost predicate PatternTest(s: string) {
    exists i, k :: PatternAt(s, i, k)
  }

  /** The class string already carries a word-bounded `line-numbers`. */
  predicate HasToken(s: string) {
    exists k :: 0 <= k <= |s| && TokenAt(s, k)
  }

  /** The surrounding `\s*` of the pattern change nothing: the test succeeds
      exactly when a word-bounded token occurs. */
  lemma PatternTestIsHasToken(s: string)
    ensures PatternTest(s) <==> HasToken(s)
  {
    if HasToken(s) {
      var k :| 0 <= k <= |s| && TokenAt(s, k);
      assert s[k..k] == [];
      assert PatternAt(s, k, k);
    }
  }

  /** A class string ending in `" line-numbers"` carries the token. */
  lemma AppendedTokenIsFound(c: string)
    ensures HasToken(c + " " + Token)
  {
    var s := c + " " + Token;
    var k := |c| + 1;
    assert s[k..k + |Token|] == Token;
    assert s[k - 1] == ' ';
    assert TokenAt(s, k);
  }

  /** Lines 7-8: append `" line-numbers"` unless the class already carries the
      token. The result always carries it, extends the old class string, and
      differs from it only when the token was missing. */
  function Tag(c: string): (r: string)
    ensures HasToken(r)
    ensures HasToken(c) <==> r == c
    ensures r == c || r == c + " " + Token
  {
    AppendedTokenIsFound(c);
    if HasToken(c) then c else c + " " + Token
  }

  /** Tagging twice is tagging once. */
  lemma TagIdempotent(c: string)
    ensures Tag(Tag(c)) == Tag(c)
  {
  }

  /** A match begins with the letter `l`. */
  lemma TokenStartsWithL(s: string, k: int)
    requires TokenAt(s, k)
    ensures s[k] == 'l'
  {
    assert s[k] == s[k..k + |Token|][0];
  }

  /** Class strings without a word-bounded token gain one, including one in
      which the token is glued to a word character. */
  lemma TagAppendsExamples()
    ensures Tag("") == " line-numbers"
    ensures Tag("language-js") == "language-js line-numbers"
    ensures Tag("xline-numbers") == "xline-numbers line-numbers"
  {
    assert "" + " " + Token == " line-numbers";
    assert "language-js" + " " + Token == "language-js line-numbers";
    assert "xline-numbers" + " " + Token == "xline-numbers line-numbers";
    assert !HasToken("xline-numbers") by {
      forall k | 0 <= k <= 13 && TokenAt("xline-numbers", k) ensures false {
        TokenStartsWithL("xline-numbers", k);
      }
    }
  }

  /** Class strings that already carry the token are kept, including one in
      which a hyphen, not white space, follows it. */
  lemma TagKeepsExamples()
    ensures Tag("x line-numbers") == "x line-numbers"
    ensures Tag("line-numbers-off") == "line-numbers-off"
  {
    assert TokenAt("x line-numbers", 2) by {
      assert "x line-numbers"[2..14] == Token;
    }
    assert TokenAt("line-numbers-off", 0) by {
      assert "line-numbers-off"[0..12] == Token;
    }
  }
}
