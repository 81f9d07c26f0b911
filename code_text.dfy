/**
 * The two string steps that addLineNumbers applies to a code block's text:
 * removing one leading line break (`code.replace(/^(?:\r?\n|\r)/, '')`) and
 * counting visual lines (`code.match(/\n(?!$)/g).length + 1`).
 */
module CodeText {

  /** What evaluating a source expression that may throw produces. */
  datatype Result<T> = Success(value: T) | Failure(error: Error)

  /** `match` with the `g` flag returns null when nothing matches; reading
      `.length` of null raises a TypeError. */
  datatype Error = NullMatchLength

  datatype Option<T> = None | Some(value: T)

  /** A character that can begin a line break: `\n` or `\r`. */
  predicate IsBreakChar(c: char) {
    c == '\n' || c == '\r'
  }

  /** The three line breaks the leading-break pattern accepts. */
  const Breaks: set<string> := {"\r\n", "\n", "\r"}

  // ---------------------------------------------------------------------------
  // Leading-break strip
  // ---------------------------------------------------------------------------

  /** `s.replace(/^(?:\r?\n|\r)/, '')`: without the `m` flag `^` anchors at the
      start of the string only, and the first alternative `\r?\n` is tried
      before `\r`, so a leading CRLF is removed as a whole. */
  function StripLeadingBreak(s: string): (r: string)
    // r is what remains after a prefix of s ...
    ensures |r| <= |s| && s[|s| - |r|..] == r
    // ... and that prefix is nothing or exactly one line break
    ensures s[..|s| - |r|] == "" || s[..|s| - |r|] in Breaks
    // something is removed exactly when s begins with a break character
    ensures |r| < |s| <==> (|s| > 0 && IsBreakChar(s[0]))
    // a leading CRLF is removed whole, never just its `\r`
    ensures |s| >= 2 && s[0] == '\r' && s[1] == '\n' ==> r == s[2..]
  {
    if |s| >= 2 && s[0] == '\r' && s[1] == '\n' then
      assert s[..2] == "\r\n";
      s[2..]
    else if |s| >= 1 && IsBreakChar(s[0]) then
      assert s[..1] == [s[0]];
      s[1..]
    else s
  }

  /** Stripping a break placed in front of t gives back t, unless the break
      is a lone `\r` and t begins with `\n` (then the two form one CRLF). In
      particular only one of several leading breaks is removed. */
  lemma StripRemovesOneBreak(b: string, t: string)
    requires b in Breaks
    requires !(b == "\r" && |t| > 0 && t[0] == '\n')
    ensures StripLeadingBreak(b + t) == t
  {
    if b == "\r\n" {
      assert (b + t)[2..] == t;
    } else {
      assert (b + t)[1..] == t;
    }
  }

  /** A string that does not begin with a break is left as it is. */
  lemma StripKeepsUnbrokenText(s: string)
    requires |s| == 0 || !IsBreakChar(s[0])
    ensures StripLeadingBreak(s) == s
  {
  }

  /** Stripping twice removes a second leading break: the strip is not
      idempotent, which is why the source applies it once. */
  lemma StripIsNotIdempotent()
    ensures StripLeadingBreak("\n\nx") == "\nx"
    ensures StripLeadingBreak(StripLeadingBreak("\n\nx")) == "x"
  {
    StripRemovesOneBreak("\n", "\nx");
    StripRemovesOneBreak("\n", "x");
  }

  // ---------------------------------------------------------------------------
  // Visual line count
  // ---------------------------------------------------------------------------

  /** Reference definition: the positions holding a `\n` that is not the last
      character of s, from position `from` on. */
  ghost function NonFinalNewlinesFrom(s: string, from: int): set<int> {
    set k | 0 <= from <= k < |s| - 1 && s[k] == '\n'
  }

  ghost function NonFinalNewlines(s: string): set<int> {
    NonFinalNewlinesFrom(s, 0)
  }

  ghost predicate HasNonFinalNewline(s: string) {
    exists k :: 0 <= k < |s| - 1 && s[k] == '\n'
  }

  /** The positions where the global search `/\n(?!$)/g` matches, scanning from
      `from` to the end: a `\n` matches unless the lookahead sees the end of
      input right after it (`$` without the `m` flag is end of input only). */
  function MatchesFrom(s: string, from: nat): (ms: seq<nat>)
    requires from <= |s|
    decreases |s| - from
  {
    if from == |s| then []
    else if s[from] == '\n' && from + 1 != |s| then [from] + MatchesFrom(s, from + 1)
    else MatchesFrom(s, from + 1)
  }

  /** `s.match(/\n(?!$)/g)`: the list of matches, or null when there is none. */
  function MatchAll(s: string): Option<seq<nat>> {
    var ms := MatchesFrom(s, 0);
    if |ms| == 0 then None else Some(ms)
  }

  /** The matches are exactly the non-final newlines. */
  lemma {:induction false} MatchesFromMembers(s: string, from: nat)
    requires from <= |s|
    ensures forall k :: k in MatchesFrom(s, from) <==> k in NonFinalNewlinesFrom(s, from)
    decreases |s| - from
  {
    if from < |s| {
      MatchesFromMembers(s, from + 1);
    }
  }

  /** The matches come in increasing order, each position once. */
  lemma {:induction false} MatchesFromIncreasing(s: string, from: nat)
    requires from <= |s|
    ensures forall i, j :: 0 <= i < j < |MatchesFrom(s, from)| ==> MatchesFrom(s, from)[i] < MatchesFrom(s, from)[j]
    decreases |s| - from
  {
    if from < |s| {
      MatchesFromIncreasing(s, from + 1);
      MatchesFromMembers(s, from + 1);
      var ms, rest := MatchesFrom(s, from), MatchesFrom(s, from + 1);
      if s[from] == '\n' && from + 1 != |s| {
        forall i, j | 0 <= i < j < |ms| ensures ms[i] < ms[j] {
          assert ms[j] == rest[j - 1];
          if i == 0 {
            assert rest[j - 1] in NonFinalNewlinesFrom(s, from + 1);
          } else {
            assert ms[i] == rest[i - 1];
          }
        }
      }
    }
  }

  /** There are as many matches as non-final newlines. */
  lemma {:induction false} MatchesFromCount(s: string, from: nat)
    requires from <= |s|
    ensures |MatchesFrom(s, from)| == |NonFinalNewlinesFrom(s, from)|
    decreases |s| - from
  {
    if from == |s| {
      assert NonFinalNewlinesFrom(s, from) == {};
    } else {
      MatchesFromCount(s, from + 1);
      if s[from] == '\n' && from + 1 != |s| {
        assert NonFinalNewlinesFrom(s, from) == {from} + NonFinalNewlinesFrom(s, from + 1);
      } else {
        assert NonFinalNewlinesFrom(s, from) == NonFinalNewlinesFrom(s, from + 1);
      }
    }
  }

  /** The line count as the source computes it: `match(...).length + 1`, which
      throws when `match` returns null. It succeeds exactly when some `\n`
      other than the last character exists, and then counts those plus one,
      so a successful count is never below 2. */
  function LineCount(s: string): (r: Result<nat>)
    ensures r.Success? <==> HasNonFinalNewline(s)
    ensures r.Success? ==> r.value == |NonFinalNewlines(s)| + 1
    ensures r.Success? ==> r.value >= 2
  {
    MatchesFromMembers(s, 0);
    MatchesFromCount(s, 0);
    match MatchAll(s)
    case None =>
      assert forall k :: 0 <= k < |s| - 1 && s[k] == '\n' ==> k in NonFinalNewlines(s);
      Failure(NullMatchLength)
    case Some(ms) => Success(|ms| + 1)
  }

  /** The intended line count: zero matches count as zero, so a text with no
      non-final newline is one line. It agrees with LineCount wherever that
      succeeds. */
  function VisualLineCount(s: string): (r: nat)
    ensures r == |NonFinalNewlines(s)| + 1
    ensures r >= 1
    ensures !HasNonFinalNewline(s) ==> r == 1
    ensures LineCount(s).Success? ==> r == LineCount(s).value
  {
    MatchesFromCount(s, 0);
    assert !HasNonFinalNewline(s) ==> NonFinalNewlines(s) == {};
    |MatchesFrom(s, 0)| + 1
  }

  /** A single trailing newline adds no line: appending `\n` to a text that
      does not already end in one leaves the count (and whether it throws)
      unchanged. */
  lemma TrailingNewlineAddsNoLine(s: string)
    requires |s| == 0 || s[|s| - 1] != '\n'
    ensures LineCount(s + "\n") == LineCount(s)
    ensures VisualLineCount(s + "\n") == VisualLineCount(s)
  {
    var t := s + "\n";
    assert NonFinalNewlines(t) == NonFinalNewlines(s) by {
      forall k ensures k in NonFinalNewlines(t) <==> k in NonFinalNewlines(s) {
        if 0 <= k < |s| {
          assert t[k] == s[k];
        }
      }
    }
    assert HasNonFinalNewline(t) <==> HasNonFinalNewline(s) by {
      if HasNonFinalNewline(t) {
        var k :| 0 <= k < |t| - 1 && t[k] == '\n';
        assert k in NonFinalNewlines(t);
        assert k in NonFinalNewlines(s);
      }
      if HasNonFinalNewline(s) {
        var k :| 0 <= k < |s| - 1 && s[k] == '\n';
        assert t[k] == s[k];
      }
    }
  }

  /** A text without any `\n` has no match however many `\r` it holds: the
      count throws (and the intended count is 1). */
  lemma NoNewlineThrows(s: string)
    requires forall k :: 0 <= k < |s| ==> s[k] != '\n'
    ensures LineCount(s).Failure?
    ensures VisualLineCount(s) == 1
  {
  }

  /** Three lines, with or without a trailing newline. */
  lemma ThreeLineExamples()
    ensures LineCount("a\nb\nc") == Success(3)
    ensures LineCount("a\nb\nc\n") == Success(3)
  {
    var abc := "a\nb\nc";
    assert NonFinalNewlines(abc) == {1, 3} by {
      forall k ensures k in NonFinalNewlines(abc) <==> k in {1, 3} {
        if 0 <= k < 4 {
          assert abc[k] == '\n' <==> k == 1 || k == 3;
        }
      }
    }
    assert abc[1] == '\n';
    TrailingNewlineAddsNoLine(abc);
    assert abc + "\n" == "a\nb\nc\n";
  }

  /** A stripped leading newline does not count: `"\na\nb"` is two lines. */
  lemma StrippedExample()
    ensures LineCount(StripLeadingBreak("\na\nb")) == Success(2)
  {
    StripRemovesOneBreak("\n", "a\nb");
    assert NonFinalNewlines("a\nb") == {1} by {
      forall k ensures k in NonFinalNewlines("a\nb") <==> k == 1 {
      }
    }
    assert "a\nb"[1] == '\n';
  }

  /** Texts on which the source's count throws: one line, one line with a
      trailing newline, carriage returns only, and a lone newline (which the
      strip empties). */
  lemma ThrowingExamples()
    ensures LineCount("abc").Failure? && LineCount("a\n").Failure?
    ensures LineCount("a\rb\rc").Failure?
    ensures LineCount(StripLeadingBreak("\n")).Failure?
  {
    NoNewlineThrows("abc");
    NoNewlineThrows("a\rb\rc");
    assert !HasNonFinalNewline("a\n");
    StripRemovesOneBreak("\n", "");
    assert "\n" + "" == "\n";
  }
}
