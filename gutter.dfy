/**
 * The gutter wrapper that addLineNumbers builds for a block: a `span` of class
 * `line-numbers-rows` whose markup is `new Array(len + 1).join('<span></span>')`.
 */
module Gutter {

  /** A node among the children of a code element: text, or a `span` with its
      class string and children. */
  datatype Node = Text(data: string) | Span(className: string, children: seq<Node>)

  const RowsClass: string := "line-numbers-rows"

  /** The markup of one row placeholder. */
  const RowMarkup: string := "<span></span>"

  /** An empty placeholder row, as the browser builds it from RowMarkup. */
  const EmptyRow: Node := Span("", [])

  /** `Array.prototype.join`: the elements separated by sep. */
  function Join(elems: seq<string>, sep: string): string {
    if |elems| == 0 then ""
    else if |elems| == 1 then elems[0]
    else elems[0] + sep + Join(elems[1..], sep)
  }

  /** `new Array(n)`: n holes, each of which `join` renders as "". */
  function Holes(n: nat): (h: seq<string>)
    ensures |h| == n
  {
    seq(n, _ => "")
  }

  function Repeat(s: string, n: nat): (r: string)
    ensures |r| == n * |s|
  {
    if n == 0 then "" else s + Repeat(s, n - 1)
  }

  /** Joining n + 1 holes with sep yields n copies of sep: the idiom the
      source uses to repeat the row markup `len` times. */
  lemma {:induction false} JoinHolesRepeats(n: nat, sep: string)
    ensures Join(Holes(n + 1), sep) == Repeat(sep, n)
  {
    if n > 0 {
      JoinHolesRepeats(n - 1, sep);
      assert Holes(n + 1)[1..] == Holes(n);
    }
  }

  /** Assigning markup to `innerHTML` for the one shape the source writes: a
      run of empty `<span></span>` elements, parsed from the front; parsing
      stops at anything else. */
  function ParseRows(m: string): (rows: seq<Node>)
    ensures forall i :: 0 <= i < |rows| ==> rows[i] == EmptyRow
    ensures |rows| * |RowMarkup| <= |m|
    decreases |m|
  {
    if |m| >= |RowMarkup| && m[..|RowMarkup|] == RowMarkup
    then [EmptyRow] + ParseRows(m[|RowMarkup|..])
    else []
  }

  /** n copies of the row markup parse to exactly n empty rows. */
  lemma {:induction false} ParseRepeatedRows(n: nat)
    ensures ParseRows(Repeat(RowMarkup, n)) == seq(n, _ => EmptyRow)
  {
    var m := Repeat(RowMarkup, n);
    if n > 0 {
      ParseRepeatedRows(n - 1);
      assert m[..|RowMarkup|] == RowMarkup;
      assert m[|RowMarkup|..] == Repeat(RowMarkup, n - 1);
    } else {
      assert m[..0] != RowMarkup;
    }
  }

  /** Lines 13-15: the wrapper span for a block of len lines. Its class is
      `line-numbers-rows` and it holds exactly len empty rows, in the shape the
      markup `new Array(len + 1).join('<span></span>')` describes. */
  function RowsWrapper(len: nat): (w: Node)
    ensures w.Span? && w.className == RowsClass
    ensures |w.children| == len
    ensures forall i :: 0 <= i < len ==> w.children[i] == EmptyRow
  {
    JoinHolesRepeats(len, RowMarkup);
    ParseRepeatedRows(len);
    Span(RowsClass, ParseRows(Join(Holes(len + 1), RowMarkup)))
  }

  /** The text a node contributes to its element's `textContent`. */
  function TextOf(n: Node): string
    decreases n, 0
  {
    match n
    case Text(d) => d
    case Span(_, ch) => TextOfAll(ch)
  }

  function TextOfAll(ns: seq<Node>): string
    decreases ns, 1
  {
    if |ns| == 0 then "" else TextOf(ns[0]) + TextOfAll(ns[1..])
  }

  /** A wrapper adds no text: appending it leaves the code element's
      `textContent` as it was. */
  lemma {:induction false} WrapperAddsNoText(len: nat)
    ensures TextOf(RowsWrapper(len)) == ""
  {
    var rows := RowsWrapper(len).children;
    EmptyRowsHaveNoText(rows);
  }

  lemma {:induction false} EmptyRowsHaveNoText(rows: seq<Node>)
    requires forall i :: 0 <= i < |rows| ==> rows[i] == EmptyRow
    ensures TextOfAll(rows) == ""
    decreases |rows|
  {
    if |rows| > 0 {
      EmptyRowsHaveNoText(rows[1..]);
    }
  }

  /** Appending a node adds its text at the end of the children's text. */
  lemma {:induction false} TextOfAppend(ns: seq<Node>, n: Node)
    ensures TextOfAll(ns + [n]) == TextOfAll(ns) + TextOf(n)
    decreases |ns|
  {
    if |ns| > 0 {
      TextOfAppend(ns[1..], n);
      assert (ns + [n])[1..] == ns[1..] + [n];
    }
  }
}
