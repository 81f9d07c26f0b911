# Line-number gutters for code blocks

A model of `addLineNumbers` from `public/js/line-numbers.js`. When the page has
loaded, this routine walks every code element matched by
`.highlight.line-numbers pre code`. For each element whose text is non-empty, it:

1. tags the parent `pre` with the class `line-numbers`, unless a word-bounded
   `line-numbers` is already in its class string;
2. removes one leading line break from the text;
3. counts the visual lines;
4. appends to the code element a `span.line-numbers-rows` wrapper holding one
   empty `<span>` per line.

The project has four modules:

- `CodeText` (`code_text.dfy`): the leading-break strip (line 11) and the line
  count (line 12), as functions. A set-based reference definition of
  "non-final newline" sits beside them.
- `ClassTag` (`class_tag.dfy`): the word-bounded class test and the append
  (lines 7-8). `\w`, `\s` and `\b` are written out as predicates.
- `Gutter` (`gutter.dfy`): the wrapper (lines 13-15). `new Array(len + 1).join(...)`
  becomes a `Join` over holes. `innerHTML` parsing is modelled only for runs
  of `<span></span>`.
- `LineNumbers` (`line_numbers.dfy`): the matched elements are an
  `array<Block>` of records. Each record holds the `pre` class string, the
  `textContent` and the code element's children. `AddLineNumbers` is the `for`
  loop (lines 3-18) and updates the array in place. It is proved equal to the
  specification function `Pass`, and the lemmas about the pass are stated on
  `Pass`.

The line count in the source throws when the text has no newline other than
a final one. `match` then returns `null`, and reading `.length` of it raises a
TypeError. The model keeps this as an error outcome: `CountRule.AsWritten`,
`Outcome.Aborted`. The exception escapes the loop. The block being handled
keeps its freshly tagged class but gets no wrapper, and no later block is
visited. A one-line block is evidently meant to count as one line: the `+ 1`
counts the line after the last matched break, so zero matches should give 1.
The model follows the code and records the difference under Findings. The
intended count is `CountRule.OneLineWhenNoMatch`.

The class test is not a test for a whitespace-delimited class token. The
code tests `\bline-numbers\b`, and a hyphen is not a word character. So `line-numbers-off` already counts as tagged, and
`xline-numbers` does not. The model follows the code: see
`ClassTag.TagKeepsExamples` and `ClassTag.TagAppendsExamples`.

## Model

| member | source | states |
|---|---|---|
| `CodeText.StripLeadingBreak` | public/js/line-numbers.js:11 | the result is a suffix of the text; the removed prefix is empty or exactly one of `\r\n`, `\n`, `\r`; something is removed iff the text begins with `\n` or `\r`; a leading CRLF is removed whole |
| `CodeText.StripRemovesOneBreak` | public/js/line-numbers.js:11 | stripping `b + t` for a break `b` gives back `t` (unless a lone `\r` meets a `\n` in `t`), so a second leading break is kept |
| `CodeText.StripKeepsUnbrokenText` | public/js/line-numbers.js:11 | a text not beginning with `\n` or `\r` is unchanged |
| `CodeText.StripIsNotIdempotent` | public/js/line-numbers.js:11 | of `"\n\nx"` one strip removes one newline, a second strip the other |
| `CodeText.MatchesFromMembers` | public/js/line-numbers.js:12 | the matches of `/\n(?!$)/g` are exactly the positions of newlines that are not the last character |
| `CodeText.MatchesFromIncreasing` | public/js/line-numbers.js:12 | the global search reports its matches left to right, each position once |
| `CodeText.MatchesFromCount` | public/js/line-numbers.js:12 | there are as many matches as non-final newlines |
| `CodeText.LineCount` | public/js/line-numbers.js:12 | the source's count succeeds iff some non-final newline exists, and then equals their number plus one, hence at least 2; otherwise it is the null-`length` error |
| `CodeText.VisualLineCount` | public/js/line-numbers.js:12 | the intended count: non-final newlines plus one, at least 1, 1 when there is none, equal to `LineCount` wherever that succeeds |
| `CodeText.TrailingNewlineAddsNoLine` | public/js/line-numbers.js:12 | appending one `\n` to a text not ending in `\n` changes neither count nor whether it throws |
| `CodeText.NoNewlineThrows` | public/js/line-numbers.js:12 | a text with no `\n` (whatever `\r` it holds) makes the source's count throw; the intended count is 1 |
| `CodeText.ThreeLineExamples` | public/js/line-numbers.js:12 | `"a\nb\nc"` and `"a\nb\nc\n"` both count 3 |
| `CodeText.StrippedExample` | public/js/line-numbers.js:11-12 | `"\na\nb"` with its leading newline stripped counts 2 |
| `CodeText.ThrowingExamples` | public/js/line-numbers.js:11-12 | the source's count throws on `"abc"`, `"a\n"`, `"a\rb\rc"` and on `"\n"` once stripped |
| `ClassTag.PatternTestIsHasToken` | public/js/line-numbers.js:7 | the test of `\s*\bline-numbers\b\s*` succeeds iff a word-bounded `line-numbers` occurs in the class string |
| `ClassTag.AppendedTokenIsFound` | public/js/line-numbers.js:8 | a class string with `" line-numbers"` appended passes the test |
| `ClassTag.Tag` | public/js/line-numbers.js:7-8 | after tagging the test holds; the class is unchanged iff it already passed, otherwise it becomes `old + " line-numbers"` |
| `ClassTag.TagIdempotent` | public/js/line-numbers.js:7-8 | tagging twice equals tagging once |
| `ClassTag.TagAppendsExamples` | public/js/line-numbers.js:7-8 | `""`, `language-js` and `xline-numbers` gain `" line-numbers"` |
| `ClassTag.TagKeepsExamples` | public/js/line-numbers.js:7-8 | `x line-numbers` and `line-numbers-off` are left alone |
| `Gutter.JoinHolesRepeats` | public/js/line-numbers.js:15 | joining `len + 1` holes with a separator gives `len` copies of it |
| `Gutter.ParseRows` | public/js/line-numbers.js:15 | parsing row markup yields only empty spans, no more than the markup has room for |
| `Gutter.ParseRepeatedRows` | public/js/line-numbers.js:15 | `n` copies of `<span></span>` parse to exactly `n` empty spans |
| `Gutter.RowsWrapper` | public/js/line-numbers.js:13-15 | the wrapper is a span of class `line-numbers-rows` with exactly `len` children, each an empty span |
| `Gutter.WrapperAddsNoText` | public/js/line-numbers.js:13-15 | the wrapper contributes no text |
| `Gutter.TextOfAppend` | public/js/line-numbers.js:16 | appending a child appends its text to the element's text |
| `LineNumbers.CountLines` | public/js/line-numbers.js:12 | either rule yields non-final newlines plus one when it succeeds; only the source's rule fails, and exactly when no non-final newline exists |
| `LineNumbers.VisitBlockSpec` | public/js/line-numbers.js:4-16 | text unchanged; an empty text leaves the block as it is; otherwise the class is tagged; the visit throws iff the count of the stripped text fails, and then the children are unchanged; otherwise the old children are kept in order and one wrapper with one row per visual line is appended |
| `LineNumbers.RunFrom` | public/js/line-numbers.js:3-18 | the loop from index `i` keeps the number of blocks and the blocks before `i`, and aborts, if at all, at an index from `i` on |
| `LineNumbers.RunFromSpec` | public/js/line-numbers.js:3-18 | from `i` on, blocks are replaced by their visits in order until the first visit that throws; that block is kept as the visit left it; every block after it is untouched |
| `LineNumbers.PassSpec` | public/js/line-numbers.js:3-18 | the same for the whole pass under a count rule, from the first block: every block before the throwing one is visited, that one is left as its visit left it, and those after it are untouched |
| `LineNumbers.AnnotateElement` | public/js/line-numbers.js:4-16 | the loop body updates only index `i` of the array, to the visited block, and reports whether the count threw |
| `LineNumbers.AddLineNumbers` | public/js/line-numbers.js:1-19 | the in-place loop leaves the array and returns the outcome that `Pass` specifies for the old array |
| `LineNumbers.VisitKeepsTextContent` | public/js/line-numbers.js:4-16 | if the text field is the text of the children before a visit, it still is afterwards |
| `LineNumbers.PassLeavesEmptyBlocks` | public/js/line-numbers.js:4-5 | a block with empty text comes out of the pass exactly as it went in |
| `LineNumbers.CompletedPassAnnotates` | public/js/line-numbers.js:5-16 | after a completed pass every block with text has a tagged class and exactly one more child, a wrapper of one row per visual line |
| `LineNumbers.OneLineBlockAborts` | public/js/line-numbers.js:12 | a first block with text `"abc"` aborts the pass at index 0 with its class tagged, no wrapper, and the rest untouched |
| `LineNumbers.RepairedPassCompletes` | public/js/line-numbers.js:3-18 | with the intended count the pass never aborts |
| `LineNumbers.RepairedOneLineBlock` | public/js/line-numbers.js:12-16 | with the intended count a one-line block is tagged and gains a wrapper of one row |
| `LineNumbers.VisitTwice` | public/js/line-numbers.js:7-16 | visiting a visited block again keeps its class and appends a second copy of its wrapper |
| `LineNumbers.SecondPassAddsSecondWrapper` | public/js/line-numbers.js:3-18 | a second run over the result of a completed run also completes; classes stay the same; each block with text then has two identical wrappers |

## Findings

| source | as written | input that shows it | evidently intended | confidence | as-written member | corrected member |
|---|---|---|---|---|---|---|
| public/js/line-numbers.js:12 | `code.match(/\n(?!$)/g).length + 1` reads `length` of the `null` that `match` returns when no newline other than a final one exists; the TypeError aborts the whole pass | a block whose text is `"abc"` (any one-line block) | zero matches count as zero, so the block is one line and gets one row, and the pass continues | high, not executed | `LineNumbers.OneLineBlockAborts` | `LineNumbers.RepairedPassCompletes` |

## Left out

- Selector matching (line 2): the CSS selector engine is not modelled. The
  matched code elements are the input array, in document order.
- Event registration (lines 21-23): the `DOMContentLoaded` hook and the
  `document.addEventListener` presence check belong to the host lifecycle.
- `textContent` (line 4) is a field of the block record. It is not computed
  from the DOM. `VisitKeepsTextContent` shows that the pass keeps it
  consistent with the children.
- `innerHTML` (line 15): only the run-of-empty-spans shape the source writes
  is parsed. General HTML parsing and serialisation are not modelled.
- Aliasing: each block record carries its own copy of its `pre` class string.
  If two matched code elements share one `pre`, that sharing is not
  represented. The record of an empty or unreached block then does not show a
  tag that an earlier visit put on the shared `pre`. Only after a completed
  pass, and only for the records of blocks with text, does each record's class
  match the real class of its `pre`.
- Node identity: objects, parents and the rest of the document tree are not
  modelled beyond the records.
- The error value does not model the exception's message or its stack.
- CSS rendering of the gutter through counters happens outside the script.
