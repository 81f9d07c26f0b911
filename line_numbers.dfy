/**
 * addLineNumbers: the pass over the code elements matched by
 * `.highlight.line-numbers pre code`, taken here as an array of block records.
 */
module LineNumbers {
  import opened CodeText
  import opened ClassTag
  import opened Gutter

  /** One matched code element with what the pass reads and writes of it: the
      class string of its parent `pre`, its `textContent`, and its children. */
  datatype Block = Block(preClass: string, text: string, codeChildren: seq<Node>)

  /** How a block's lines are counted. AsWritten is the source's
      `match(...).length + 1`, which throws on a text without a non-final
      newline; OneLineWhenNoMatch counts zero matches as zero. */
  datatype CountRule = AsWritten | OneLineWhenNoMatch

  function CountLines(rule: CountRule, s: string): (r: Result<nat>)
    ensures r.Success? ==> r.value == |NonFinalNewlines(s)| + 1
    ensures r.Failure? <==> rule == AsWritten && !HasNonFinalNewline(s)
  {
    match rule
    case AsWritten => LineCount(s)
    case OneLineWhenNoMatch => Success(VisualLineCount(s))
  }

  /** What handling one block does: Done with the block afterwards, or Threw
      with the block as it stands when the count throws. */
  datatype Visit = Done(block: Block) | Threw(block: Block)

  /** The code element holds exactly its old children followed by one gutter
      wrapper of len rows. */
  ghost predicate GainedWrapper(before: Block, after: Block, len: nat) {
    && |after.codeChildren| == |before.codeChildren| + 1
    && after.codeChildren[..|before.codeChildren|] == before.codeChildren
    && after.codeChildren[|before.codeChildren|] == RowsWrapper(len)
  }

  /** The loop body, lines 4-16: skip an empty text; otherwise tag the class
      first, then count the stripped text, and either throw (keeping the
      tagged class) or append a wrapper of that many rows. */
  function VisitBlock(b: Block, rule: CountRule): Visit {
    if b.text == "" then Done(b)
    else
      var tagged := b.(preClass := Tag(b.preClass));
      var code := StripLeadingBreak(b.text);
      match CountLines(rule, code)
      case Failure(_) => Threw(tagged)
      case Success(len) => Done(tagged.(codeChildren := b.codeChildren + [RowsWrapper(len)]))
  }

  /** What one visit does. The text is unchanged. A block with empty text is
      left as it is. Otherwise the class ends up tagged. The visit throws
      exactly when the count of the stripped text fails, and then the code
      element keeps its children. Otherwise its old children stay in order and
      one wrapper follows them, with one row per visual line. */
  lemma VisitBlockSpec(b: Block, rule: CountRule)
    ensures var v := VisitBlock(b, rule);
      && v.block.text == b.text
      && (b.text == "" ==> v == Done(b))
      && (b.text != "" ==> v.block.preClass == Tag(b.preClass) && HasToken(v.block.preClass))
      && (v.Threw? <==> b.text != "" && CountLines(rule, StripLeadingBreak(b.text)).Failure?)
      && (v.Threw? ==> v.block.codeChildren == b.codeChildren)
      && (v.Done? && b.text != "" ==>
            GainedWrapper(b, v.block, |NonFinalNewlines(StripLeadingBreak(b.text))| + 1))
  {
    var v := VisitBlock(b, rule);
    if v.Done? && b.text != "" {
      assert v.block.codeChildren[..|b.codeChildren|] == b.codeChildren;
    }
  }

  /** How the pass ends: it runs through, or the TypeError raised at block
      `at` escapes the loop and leaves the blocks after it untouched. */
  datatype Outcome = Completed | Aborted(at: nat)

  datatype PassResult = PassResult(blocks: seq<Block>, outcome: Outcome)

  /** The visit the loop applies to every block under a count rule. */
  function Visitor(rule: CountRule): Block -> Visit {
    b => VisitBlock(b, rule)
  }

  /** The loop from index i on, for a given per-block visit, the blocks before
      i being already handled: a visit that throws ends the loop. */
  function RunFrom(bs: seq<Block>, i: nat, visit: Block -> Visit): (r: PassResult)
    requires i <= |bs|
    ensures |r.blocks| == |bs|
    ensures r.blocks[..i] == bs[..i]
    ensures r.outcome.Aborted? ==> i <= r.outcome.at < |bs|
    decreases |bs| - i
  {
    if i == |bs| then PassResult(bs, Completed)
    else match visit(bs[i])
      case Threw(b) => PassResult(bs[i := b], Aborted(i))
      case Done(b) => RunFrom(bs[i := b], i + 1, visit)
  }

  /** addLineNumbers over the matched blocks, in order. */
  function Pass(bs: seq<Block>, rule: CountRule): PassResult {
    RunFrom(bs, 0, Visitor(rule))
  }

  /** Blocks lo..hi of after are blocks lo..hi of before, each visited
      without a throw. */
  ghost predicate HandledRange(before: seq<Block>, after: seq<Block>, lo: int, hi: int, visit: Block -> Visit)
    requires |before| == |after|
  {
    && 0 <= lo <= hi <= |before|
    && forall j :: lo <= j < hi ==>
         visit(before[j]).Done? && after[j] == visit(before[j]).block
  }

  /** The loop from i handles the blocks in order: each block from i on is
      replaced by its visit until the first visit that throws, whose block
      is kept as that visit left it, and every block after that one is left
      exactly as it was. */
  lemma {:induction false} RunFromSpec(bs: seq<Block>, i: nat, visit: Block -> Visit)
    requires i <= |bs|
    ensures var r := RunFrom(bs, i, visit);
      match r.outcome
      case Completed => HandledRange(bs, r.blocks, i, |bs|, visit)
      case Aborted(k) =>
        && HandledRange(bs, r.blocks, i, k, visit)
        && visit(bs[k]).Threw?
        && r.blocks[k] == visit(bs[k]).block
        && r.blocks[k + 1..] == bs[k + 1..]
    decreases |bs| - i
  {
    if i < |bs| {
      match visit(bs[i])
      case Threw(b) =>
        assert bs[i := b][i + 1..] == bs[i + 1..];
      case Done(b) =>
        var next := bs[i := b];
        RunFromSpec(next, i + 1, visit);
        var r := RunFrom(next, i + 1, visit);
        assert r.blocks[i] == b by {
          assert r.blocks[..i + 1] == next[..i + 1];
        }
        match r.outcome
        case Completed =>
          HandledExtend(bs, next, r.blocks, i, |bs|, visit);
        case Aborted(k) =>
          HandledExtend(bs, next, r.blocks, i, k, visit);
          assert next[k] == bs[k];
          assert next[k + 1..] == bs[k + 1..];
    }
  }

  /** Handling block i in front of a range handled from i + 1 gives a range
      handled from i. */
  lemma HandledExtend(bs: seq<Block>, next: seq<Block>, after: seq<Block>, i: nat, hi: int, visit: Block -> Visit)
    requires |next| == |bs| == |after| && i < |bs|
    requires next == bs[i := after[i]]
    requires visit(bs[i]) == Done(after[i])
    requires HandledRange(next, after, i + 1, hi, visit)
    ensures HandledRange(bs, after, i, hi, visit)
  {
    forall j | i < j < hi
      ensures visit(bs[j]).Done? && after[j] == visit(bs[j]).block
    {
      assert next[j] == bs[j];
    }
  }

  /** The whole pass: blocks are visited in order until the first one whose
      count throws; that one keeps the class tagging done before the throw,
      and the blocks after it are not reached. */
  lemma PassSpec(bs: seq<Block>, rule: CountRule)
    ensures var r := Pass(bs, rule);
      && |r.blocks| == |bs|
      && match r.outcome
         case Completed => HandledRange(bs, r.blocks, 0, |bs|, Visitor(rule))
         case Aborted(k) =>
           && k < |bs|
           && HandledRange(bs, r.blocks, 0, k, Visitor(rule))
           && VisitBlock(bs[k], rule).Threw?
           && r.blocks[k] == VisitBlock(bs[k], rule).block
           && r.blocks[k + 1..] == bs[k + 1..]
  {
    RunFromSpec(bs, 0, Visitor(rule));
  }

  /** One turn of the loop: the block at i is replaced by its visit, and the
      loop either stops there or goes on with the next block. */
  lemma RunFromStep(bs: seq<Block>, i: nat, visit: Block -> Visit)
    requires i < |bs|
    ensures visit(bs[i]).Threw? ==> RunFrom(bs, i, visit) == PassResult(bs[i := visit(bs[i]).block], Aborted(i))
    ensures visit(bs[i]).Done? ==> RunFrom(bs, i, visit) == RunFrom(bs[i := visit(bs[i]).block], i + 1, visit)
  {
  }

  /** Lines 4-16 on the element at index i, in place: the array afterwards
      holds the visited block at i, and the result says whether the count
      threw. */
  method AnnotateElement(elements: array<Block>, i: nat, rule: CountRule) returns (threw: bool)
    requires i < elements.Length
    modifies elements
    ensures elements[..] == old(elements[..])[i := VisitBlock(old(elements[i]), rule).block]
    ensures threw == VisitBlock(old(elements[i]), rule).Threw?
  {
    var b := elements[i];
    if b.text != "" {
      if !HasToken(b.preClass) {
        b := b.(preClass := b.preClass + " " + Token);
        elements[i] := b;
      }
      var code := StripLeadingBreak(b.text);
      var count := CountLines(rule, code);
      if count.Failure? {
        return true;
      }
      elements[i] := b.(codeChildren := b.codeChildren + [RowsWrapper(count.value)]);
    }
    threw := false;
  }

  /** Lines 1-19: the loop over the matched elements, updating each element's
      record in place; a throw leaves the loop at once. */
  method AddLineNumbers(elements: array<Block>, rule: CountRule) returns (outcome: Outcome)
    modifies elements
    ensures PassResult(elements[..], outcome) == Pass(old(elements[..]), rule)
  {
    var i := 0;
    while i < elements.Length
      invariant 0 <= i <= elements.Length
      invariant RunFrom(elements[..], i, Visitor(rule)) == Pass(old(elements[..]), rule)
    {
      RunFromStep(elements[..], i, Visitor(rule));
      var threw := AnnotateElement(elements, i, rule);
      if threw {
        return Aborted(i);
      }
      i := i + 1;
    }
    outcome := Completed;
  }

  // ---------------------------------------------------------------------------
  // Properties of the pass
  // ---------------------------------------------------------------------------

  /** The `textContent` field stays the text of the code element's children:
      a visit adds only a wrapper of empty rows. */
  lemma VisitKeepsTextContent(b: Block, rule: CountRule)
    requires b.text == TextOfAll(b.codeChildren)
    ensures VisitBlock(b, rule).block.text == TextOfAll(VisitBlock(b, rule).block.codeChildren)
  {
    var v := VisitBlock(b, rule);
    if v.Done? && b.text != "" {
      var len := |NonFinalNewlines(StripLeadingBreak(b.text))| + 1;
      assert v.block.codeChildren == b.codeChildren + [RowsWrapper(len)];
      TextOfAppend(b.codeChildren, RowsWrapper(len));
      WrapperAddsNoText(len);
    }
  }

  /** A block whose text is empty comes out of the pass exactly as it went in,
      whatever happens to the others. */
  lemma PassLeavesEmptyBlocks(bs: seq<Block>, rule: CountRule, j: int)
    requires 0 <= j < |bs| && bs[j].text == ""
    ensures Pass(bs, rule).blocks[j] == bs[j]
  {
    PassSpec(bs, rule);
    var r := Pass(bs, rule);
    if r.outcome.Aborted? && j > r.outcome.at {
      var k := r.outcome.at;
      assert r.blocks[j] == r.blocks[k + 1..][j - k - 1];
    }
  }

  /** After a pass that runs through, every block with text has its `pre`
      tagged and exactly one wrapper more, holding one row per visual line
      of the text with its leading break stripped. */
  lemma CompletedPassAnnotates(bs: seq<Block>, rule: CountRule, j: int)
    requires 0 <= j < |bs| && bs[j].text != ""
    requires Pass(bs, rule).outcome == Completed
    ensures var after := Pass(bs, rule).blocks[j];
      && after.preClass == Tag(bs[j].preClass)
      && HasToken(after.preClass)
      && GainedWrapper(bs[j], after, |NonFinalNewlines(StripLeadingBreak(bs[j].text))| + 1)
  {
    PassSpec(bs, rule);
  }

  /** The source's count aborts the pass at a one-line block: the class of
      that block is already tagged, no wrapper is added, and the blocks after
      it are not reached. */
  lemma OneLineBlockAborts(preClass: string, children: seq<Node>, rest: seq<Block>)
    ensures var b := Block(preClass, "abc", children);
      Pass([b] + rest, AsWritten) == PassResult([b.(preClass := Tag(preClass))] + rest, Aborted(0))
  {
    var b := Block(preClass, "abc", children);
    StripKeepsUnbrokenText("abc");
    NoNewlineThrows("abc");
    assert VisitBlock(b, AsWritten) == Threw(b.(preClass := Tag(preClass)));
    assert ([b] + rest)[0 := b.(preClass := Tag(preClass))] == [b.(preClass := Tag(preClass))] + rest;
  }

  /** Under the corrected count the pass always runs through, and the
      one-line block gets a wrapper of one row. */
  lemma RepairedPassCompletes(bs: seq<Block>)
    ensures Pass(bs, OneLineWhenNoMatch).outcome == Completed
  {
    PassSpec(bs, OneLineWhenNoMatch);
  }

  lemma RepairedOneLineBlock(preClass: string, children: seq<Node>)
    ensures Pass([Block(preClass, "abc", children)], OneLineWhenNoMatch).blocks
         == [Block(Tag(preClass), "abc", children + [RowsWrapper(1)])]
  {
    var b := Block(preClass, "abc", children);
    StripKeepsUnbrokenText("abc");
    NoNewlineThrows("abc");
    RepairedPassCompletes([b]);
    PassSpec([b], OneLineWhenNoMatch);
    var after := Pass([b], OneLineWhenNoMatch).blocks[0];
    assert GainedWrapper(b, after, 1);
    assert after.codeChildren == children + [RowsWrapper(1)];
  }

  /** Visiting a visited block again keeps its class (tagging is idempotent)
      and appends a second, identical wrapper. */
  lemma VisitTwice(b: Block, rule: CountRule)
    requires VisitBlock(b, rule).Done? && b.text != ""
    ensures var once := VisitBlock(b, rule).block;
      var twice := VisitBlock(once, rule);
      && twice.Done?
      && twice.block.preClass == once.preClass
      && twice.block.codeChildren == once.codeChildren + [once.codeChildren[|b.codeChildren|]]
  {
    var once := VisitBlock(b, rule).block;
    TagIdempotent(b.preClass);
    var len := |NonFinalNewlines(StripLeadingBreak(b.text))| + 1;
    assert GainedWrapper(once, VisitBlock(once, rule).block, len);
  }

  /** Running the pass a second time is not idempotent: the classes stay as
      they are but every block with text gains a second wrapper. */
  lemma SecondPassAddsSecondWrapper(bs: seq<Block>, rule: CountRule, j: int)
    requires 0 <= j < |bs| && bs[j].text != ""
    requires Pass(bs, rule).outcome == Completed
    ensures var once := Pass(bs, rule).blocks;
      var twice := Pass(once, rule);
      && twice.outcome == Completed
      && twice.blocks[j].preClass == once[j].preClass
      && |twice.blocks[j].codeChildren| == |bs[j].codeChildren| + 2
      && twice.blocks[j].codeChildren[|bs[j].codeChildren|] == twice.blocks[j].codeChildren[|bs[j].codeChildren| + 1]
  {
    var once := Pass(bs, rule).blocks;
    PassSpec(bs, rule);
    PassSpec(once, rule);
    var twice := Pass(once, rule);
    VisitTwice(bs[j], rule);
  }
}
