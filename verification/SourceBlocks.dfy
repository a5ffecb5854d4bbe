/** The brace tree and the blocks around an offset (`parse_blocks` and `enclosing_chain` in `scripts/json_census.py`). */
module SourceBlocks {
  import opened SourceLexer
  import opened SourceText

  // ---------------------------------------------------------------- braces outside literals

  datatype Mark = Opens | Closes | Other

  function MarkOf(c: char): Mark
  {
    if c == '{' then Opens else if c == '}' then Closes else Other
  }

  /** Which characters are braces of the program rather than of a literal. */
  function Marks(s: string): (m: seq<Mark>)
    ensures |m| == |s|
    decreases |s|
  {
    if s == [] then []
    else if IsQuote(s[0]) then
      var n := 1 + QuotedLength(s[1..], s[0]);
      seq(n, _ => Other) + Marks(s[n..])
    else [MarkOf(s[0])] + Marks(s[1..])
  }

  function Delta(mark: Mark): int
  {
    match mark
    case Opens => 1
    case Closes => -1
    case Other => 0
  }

  /** Opening minus closing braces in a stretch. */
  function Excess(m: seq<Mark>, a: nat, b: nat): int
    requires a <= b <= |m|
  {
    if a == b then 0 else Excess(m, a, b - 1) + Delta(m[b - 1])
  }

  lemma {:induction false} ExcessSplits(m: seq<Mark>, a: nat, b: nat, c: nat)
    requires a <= b <= c <= |m|
    ensures Excess(m, a, c) == Excess(m, a, b) + Excess(m, b, c)
    decreases c
  {
    if b < c { ExcessSplits(m, a, b, c - 1); }
  }

  /** The stretch never closes more than it opens. */
  predicate Within(m: seq<Mark>, s: nat, e: nat)
    requires s <= e <= |m|
  {
    forall k | s <= k <= e :: Excess(m, s, k) >= 0
  }

  /** A block: just after an opening brace, up to the brace that matches it or to the end of the text. */
  predicate IsBlock(m: seq<Mark>, s: nat, e: nat)
  {
    && 1 <= s <= e <= |m| && m[s - 1].Opens? && Within(m, s, e)
    && (e < |m| ==> m[e].Closes? && Excess(m, s, e) == 0)
  }

  lemma EndIsUnique(m: seq<Mark>, s: nat, e: nat, e': nat)
    requires IsBlock(m, s, e) && IsBlock(m, s, e')
    ensures e == e'
  {
    if e < e' { assert Excess(m, s, e + 1) == -1; }
    if e' < e { assert Excess(m, s, e' + 1) == -1; }
  }

  /** Two blocks are nested or apart. */
  lemma Laminar(m: seq<Mark>, s: nat, e: nat, s': nat, e': nat)
    requires IsBlock(m, s, e) && IsBlock(m, s', e') && s < s'
    ensures e < s' || e' <= e
  {
    if s' <= e < e' {
      ExcessSplits(m, s, s', e + 1);
      assert Excess(m, s, s') == Excess(m, s, s' - 1) + 1;
      assert Excess(m, s, s' - 1) >= 0 && Excess(m, s', e + 1) >= 0;
      AfterEnd(m, s, e);
    }
  }

  lemma AfterEnd(m: seq<Mark>, s: nat, e: nat)
    requires IsBlock(m, s, e) && e < |m|
    ensures Excess(m, s, e + 1) == -1
  {}

  // ---------------------------------------------------------------- the tree

  datatype Block = Block(start: nat, end: nat, children: seq<Block>)

  /** Every block of a forest, each before its children. */
  function All(blocks: seq<Block>): seq<Block>
  {
    if blocks == [] then [] else [blocks[0]] + All(blocks[0].children) + All(blocks[1..])
  }

  /** A forest of blocks in order inside a stretch. */
  ghost predicate Nested(m: seq<Mark>, blocks: seq<Block>, lo: nat, hi: nat)
    decreases blocks
  {
    && (forall j | 0 <= j < |blocks| ::
          lo < blocks[j].start && blocks[j].end <= hi && IsBlock(m, blocks[j].start, blocks[j].end)
          && Nested(m, blocks[j].children, blocks[j].start, blocks[j].end))
    && (forall j, k | 0 <= j < k < |blocks| :: blocks[j].end < blocks[k].start)
  }

  ghost predicate HasStart(blocks: seq<Block>, s: nat)
  {
    exists b | b in All(blocks) :: b.start == s
  }

  ghost predicate Complete(m: seq<Mark>, blocks: seq<Block>, lo: nat, hi: nat)
    requires hi <= |m|
  {
    forall p | lo <= p < hi && m[p].Opens? :: HasStart(blocks, p + 1)
  }

  lemma {:induction false} AllAppended(blocks: seq<Block>, b: Block)
    ensures All(blocks + [b]) == All(blocks) + [b] + All(b.children)
  {
    if blocks == [] {
      assert All([b]) == [b] + All(b.children) + All([]);
    } else {
      AllAppended(blocks[1..], b);
      assert (blocks + [b])[1..] == blocks[1..] + [b];
    }
  }

  lemma {:induction false} NestedWider(m: seq<Mark>, blocks: seq<Block>, lo: nat, hi: nat, hi': nat)
    requires Nested(m, blocks, lo, hi) && hi <= hi'
    ensures Nested(m, blocks, lo, hi')
  {}

  /** Every block of the forest is a block of the text, inside the stretch. */
  lemma {:induction false} AllAreBlocks(m: seq<Mark>, blocks: seq<Block>, lo: nat, hi: nat)
    requires Nested(m, blocks, lo, hi)
    ensures forall b | b in All(blocks) :: lo < b.start <= b.end <= hi && IsBlock(m, b.start, b.end)
    decreases blocks
  {
    hide IsBlock;
    if blocks != [] {
      var b := blocks[0];
      BlockIsOrdered(m, b.start, b.end);
      AllAreBlocks(m, b.children, b.start, b.end);
      NestedRest(m, blocks, lo, hi);
      AllAreBlocks(m, blocks[1..], lo, hi);
    }
  }

  lemma BlockIsOrdered(m: seq<Mark>, s: nat, e: nat)
    requires IsBlock(m, s, e)
    ensures 1 <= s <= e <= |m|
  {}

  lemma NestedRest(m: seq<Mark>, blocks: seq<Block>, lo: nat, hi: nat)
    requires Nested(m, blocks, lo, hi) && blocks != []
    ensures Nested(m, blocks[1..], lo, hi)
    ensures Nested(m, blocks[1..], blocks[0].end, hi)
  {}

  /** Blocks come in the order of their opening braces. */
  lemma {:induction false} AllAscending(m: seq<Mark>, blocks: seq<Block>, lo: nat, hi: nat)
    requires Nested(m, blocks, lo, hi)
    ensures forall i, j | 0 <= i < j < |All(blocks)| :: All(blocks)[i].start < All(blocks)[j].start
    decreases blocks
  {
    hide IsBlock;
    if blocks != [] {
      var b := blocks[0];
      BlockIsOrdered(m, b.start, b.end);
      AllAscending(m, b.children, b.start, b.end);
      AllAreBlocks(m, b.children, b.start, b.end);
      NestedRest(m, blocks, lo, hi);
      AllAscending(m, blocks[1..], b.end, hi);
      AllAreBlocks(m, blocks[1..], b.end, hi);
      ThreeParts(b, All(b.children), All(blocks[1..]));
    }
  }

  lemma ThreeParts(b: Block, inner: seq<Block>, after: seq<Block>)
    requires b.start <= b.end
    requires forall x | x in inner :: b.start < x.start && x.start <= x.end <= b.end
    requires forall x | x in after :: b.end < x.start
    requires forall i, j | 0 <= i < j < |inner| :: inner[i].start < inner[j].start
    requires forall i, j | 0 <= i < j < |after| :: after[i].start < after[j].start
    ensures var all := [b] + inner + after; forall i, j | 0 <= i < j < |all| :: all[i].start < all[j].start
  {
    var all := [b] + inner + after;
    forall i, j | 0 <= i < j < |all| ensures all[i].start < all[j].start {
      if 1 <= i <= |inner| { assert all[i] == inner[i - 1] && all[i] in inner; }
      if 1 <= j <= |inner| { assert all[j] == inner[j - 1] && all[j] in inner; }
      if |inner| < j { assert all[j] == after[j - 1 - |inner|] && all[j] in after; }
      if |inner| < i { assert all[i] == after[i - 1 - |inner|]; }
    }
  }

  /** The tree of a text: a nested forest with a block for every opening brace. */
  ghost predicate IsTree(m: seq<Mark>, root: Block)
  {
    root.start == 0 && root.end == |m| && Nested(m, root.children, 0, |m|) && Complete(m, root.children, 0, |m|)
  }

  /** The tree holds exactly the blocks of the text. */
  lemma TreeIsExact(m: seq<Mark>, root: Block, s: nat, e: nat)
    requires IsTree(m, root)
    ensures IsBlock(m, s, e) <==> exists b | b in All(root.children) :: b.start == s && b.end == e
  {
    AllAreBlocks(m, root.children, 0, |m|);
    if IsBlock(m, s, e) {
      assert m[s - 1].Opens?;
      assert HasStart(root.children, s - 1 + 1);
      var b :| b in All(root.children) && b.start == s;
      EndIsUnique(m, s, e, b.end);
    }
  }

  // ---------------------------------------------------------------- the blocks around an offset

  predicate Contains(b: Block, offset: nat)
  {
    b.start <= offset < b.end
  }

  function Holding(blocks: seq<Block>, offset: nat): seq<Block>
  {
    if blocks == [] then []
    else (if Contains(blocks[0], offset) then [blocks[0]] else []) + Holding(blocks[1..], offset)
  }

  lemma HoldingOne(b: Block, rest: seq<Block>, offset: nat)
    ensures Holding([b] + rest, offset) == (if Contains(b, offset) then [b] else []) + Holding(rest, offset)
  {
    assert ([b] + rest)[1..] == rest;
  }

  lemma {:induction false} HoldingTogether(a: seq<Block>, b: seq<Block>, offset: nat)
    ensures Holding(a + b, offset) == Holding(a, offset) + Holding(b, offset)
  {
    if a == [] {
      assert a + b == b;
    } else {
      HoldingOne(a[0], a[1..], offset);
      HoldingOne(a[0], a[1..] + b, offset);
      hide Holding, Contains;
      HoldingTogether(a[1..], b, offset);
      assert a + b == [a[0]] + (a[1..] + b) && a == [a[0]] + a[1..];
    }
  }

  lemma {:induction false} HoldingNone(blocks: seq<Block>, offset: nat)
    requires forall b | b in blocks :: !Contains(b, offset)
    ensures Holding(blocks, offset) == []
  {
    if blocks != [] { HoldingNone(blocks[1..], offset); }
  }

  /** The first block that contains the offset, or the number of blocks. */
  function FirstHolding(blocks: seq<Block>, offset: nat): (k: nat)
    ensures k <= |blocks| && (k < |blocks| ==> Contains(blocks[k], offset))
    ensures forall j | 0 <= j < k :: !Contains(blocks[j], offset)
  {
    if blocks == [] || Contains(blocks[0], offset) then 0 else 1 + FirstHolding(blocks[1..], offset)
  }

  lemma Apart(m: seq<Mark>, blocks: seq<Block>, lo: nat, hi: nat, offset: nat)
    requires Nested(m, blocks, lo, hi) && blocks != []
    ensures Contains(blocks[0], offset) ==> forall b | b in All(blocks[1..]) :: !Contains(b, offset)
    ensures !Contains(blocks[0], offset) ==> forall b | b in All(blocks[0].children) :: !Contains(b, offset)
  {
    hide IsBlock, All;
    AllAreBlocks(m, blocks[0].children, blocks[0].start, blocks[0].end);
    NestedRest(m, blocks, lo, hi);
    AllAreBlocks(m, blocks[1..], blocks[0].end, hi);
  }

  /** Where a forest is entered. */
  lemma {:induction false} HoldingEnters(m: seq<Mark>, blocks: seq<Block>, lo: nat, hi: nat, offset: nat)
    requires Nested(m, blocks, lo, hi)
    ensures var k := FirstHolding(blocks, offset);
            Holding(All(blocks), offset) == if k == |blocks| then [] else [blocks[k]] + Holding(All(blocks[k].children), offset)
    decreases blocks
  {
    if blocks != [] {
      var b := blocks[0];
      NestedRest(m, blocks, lo, hi);
      Apart(m, blocks, lo, hi, offset);
      hide Nested, Holding, Contains;
      HoldingTogether([b] + All(b.children), All(blocks[1..]), offset);
      HoldingOne(b, All(b.children), offset);
      if Contains(b, offset) {
        HoldingNone(All(blocks[1..]), offset);
      } else {
        HoldingNone(All(b.children), offset);
        HoldingEnters(m, blocks[1..], lo, hi, offset);
      }
    }
  }

  lemma NestedChild(m: seq<Mark>, blocks: seq<Block>, lo: nat, hi: nat, k: nat)
    requires Nested(m, blocks, lo, hi) && k < |blocks|
    ensures Nested(m, blocks[k].children, blocks[k].start, blocks[k].end)
  {}

  method FindChild(children: seq<Block>, offset: nat) returns (k: nat)
    ensures k == FirstHolding(children, offset)
  {
    k := 0;
    while k < |children| && !Contains(children[k], offset)
      invariant k <= FirstHolding(children, offset)
    {
      k := k + 1;
    }
  }

  lemma Regroup(chain: seq<Block>, b: Block, rest: seq<Block>)
    ensures chain + ([b] + rest) == (chain + [b]) + rest
  {}

  /** The descent finds every block around the offset, outermost first. */
  method EnclosingChain(ghost m: seq<Mark>, root: Block, offset: nat) returns (chain: seq<Block>)
    requires IsTree(m, root)
    ensures chain == Holding(All(root.children), offset)
  {
    assert Nested(m, root.children, 0, |m|);
    hide IsBlock, All, Holding, Nested, IsTree, FirstHolding, Contains;
    chain := [];
    var node := root;
    ghost var lo: nat, hi: nat := 0, |m|;
    while true
      invariant Nested(m, node.children, lo, hi)
      invariant chain + Holding(All(node.children), offset) == Holding(All(root.children), offset)
      decreases node
    {
      HoldingEnters(m, node.children, lo, hi, offset);
      var k := FindChild(node.children, offset);
      if k == |node.children| { return; }
      NestedChild(m, node.children, lo, hi, k);
      var child := node.children[k];
      Regroup(chain, child, Holding(All(child.children), offset));
      chain := chain + [child];
      lo, hi := child.start, child.end;
      node := child;
    }
  }

  // ---------------------------------------------------------------- building the tree

  /** A block whose closing brace has not been seen. */
  datatype Open = Open(start: nat, children: seq<Block>)

  ghost predicate IsOpen(m: seq<Mark>, start: nat, i: nat, above: nat)
  {
    1 <= start <= i <= |m| && m[start - 1].Opens? && Within(m, start, i) && Excess(m, start, i) == above
  }

  ghost predicate Filled(m: seq<Mark>, o: Open, hi: nat)
  {
    o.start <= hi <= |m| && Nested(m, o.children, o.start, hi) && Complete(m, o.children, o.start, hi)
  }

  function Limit(stack: seq<Open>, j: nat, i: nat): int
    requires j < |stack|
  {
    if j == |stack| - 1 then i else stack[j + 1].start - 1
  }

  ghost predicate FilledTo(m: seq<Mark>, stack: seq<Open>, j: nat, i: nat)
    requires j < |stack|
  {
    Limit(stack, j, i) >= 0 && Filled(m, stack[j], Limit(stack, j, i))
  }

  /** After `i` characters: every open block is unmatched so far and its finished children are in place. */
  ghost predicate Parsing(m: seq<Mark>, stack: seq<Open>, i: nat)
  {
    && stack != [] && stack[0].start == 0 && i <= |m|
    && (forall j | 1 <= j < |stack| :: IsOpen(m, stack[j].start, i, |stack| - 1 - j))
    && (forall j | 0 <= j < |stack| :: FilledTo(m, stack, j, i))
  }

  lemma FilledOn(m: seq<Mark>, o: Open, i: nat)
    requires Filled(m, o, i) && i < |m| && !m[i].Opens?
    ensures Filled(m, o, i + 1)
  {
    NestedWider(m, o.children, o.start, i, i + 1);
  }

  lemma OpenOn(m: seq<Mark>, start: nat, i: nat, above: nat)
    requires IsOpen(m, start, i, above) && i < |m| && above + Delta(m[i]) >= 0
    ensures IsOpen(m, start, i + 1, above + Delta(m[i]))
  {
    assert Excess(m, start, i + 1) == above + Delta(m[i]);
  }

  /** Neither brace: only the innermost stretch grows. */
  lemma StepOther(m: seq<Mark>, stack: seq<Open>, i: nat)
    requires Parsing(m, stack, i) && i < |m| && m[i].Other?
    ensures Parsing(m, stack, i + 1)
  {
    hide IsOpen, Filled;
    var next := i + 1;
    forall j | 1 <= j < |stack| ensures IsOpen(m, stack[j].start, next, |stack| - 1 - j) { OpenOn(m, stack[j].start, i, |stack| - 1 - j); }
    forall j | 0 <= j < |stack| ensures FilledTo(m, stack, j, next) {
      assert FilledTo(m, stack, j, i);
      if j == |stack| - 1 { FilledOn(m, stack[j], i); }
    }
  }

  lemma FreshIsOpen(m: seq<Mark>, i: nat)
    requires i < |m| && m[i].Opens?
    ensures IsOpen(m, i + 1, i + 1, 0) && Filled(m, Open(i + 1, []), i + 1)
  {}

  lemma StepOpens(m: seq<Mark>, stack: seq<Open>, i: nat)
    requires Parsing(m, stack, i) && i < |m| && m[i].Opens?
    ensures Parsing(m, stack + [Open(i + 1, [])], i + 1)
  {
    hide IsOpen, Filled;
    var next := i + 1;
    var after := stack + [Open(i + 1, [])];
    FreshIsOpen(m, i);
    forall j | 1 <= j < |after| ensures IsOpen(m, after[j].start, next, |after| - 1 - j) {
      if j < |stack| { OpenOn(m, stack[j].start, i, |stack| - 1 - j); }
    }
    forall j | 0 <= j < |after| ensures FilledTo(m, after, j, next) {
      if j < |stack| { assert FilledTo(m, stack, j, i) && Limit(after, j, next) == Limit(stack, j, i); }
    }
  }

  /** The innermost open block becomes its parent's last child. */
  function Closed(stack: seq<Open>, end: nat): (r: seq<Open>)
    requires |stack| >= 2
    ensures |r| == |stack| - 1
  {
    var top, parent := stack[|stack| - 1], stack[|stack| - 2];
    stack[..|stack| - 2] + [parent.(children := parent.children + [Block(top.start, end, top.children)])]
  }

  lemma NestedAppended(m: seq<Mark>, blocks: seq<Block>, lo: nat, hi: nat, b: Block, end: nat)
    requires Nested(m, blocks, lo, hi) && hi < b.start && lo < b.start && b.end <= end
    requires IsBlock(m, b.start, b.end) && Nested(m, b.children, b.start, b.end)
    ensures Nested(m, blocks + [b], lo, end)
  {
    hide IsBlock;
    BlockIsOrdered(m, b.start, b.end);
    var all := blocks + [b];
    assert forall j | 0 <= j < |blocks| :: all[j] == blocks[j];
  }

  /** The parent with its new child is filled as far as the child reaches. */
  lemma FilledAppended(m: seq<Mark>, parent: Open, top: Open, end: nat, hi: nat)
    requires top.start >= 1 && Filled(m, parent, top.start - 1) && Filled(m, top, end) && IsBlock(m, top.start, end)
    requires end <= hi <= |m| && hi <= end + 1 && (hi == end + 1 ==> m[end].Closes?)
    ensures Filled(m, parent.(children := parent.children + [Block(top.start, end, top.children)]), hi)
  {
    hide IsBlock;
    var b := Block(top.start, end, top.children);
    NestedAppended(m, parent.children, parent.start, top.start - 1, b, hi);
    AllAppended(parent.children, b);
    forall p | parent.start <= p < hi && m[p].Opens? ensures HasStart(parent.children + [b], p + 1) {
      if p < top.start - 1 {
        assert HasStart(parent.children, p + 1);
      } else if p == top.start - 1 {
        assert b in All(parent.children + [b]);
      } else {
        assert HasStart(top.children, p + 1);
      }
    }
  }

  lemma OpenIsBlock(m: seq<Mark>, s: nat, i: nat)
    requires IsOpen(m, s, i, 0) && (i < |m| ==> m[i].Closes?)
    ensures IsBlock(m, s, i)
  {}

  /** A closing brace matches the innermost open block; without one it is ignored. */
  lemma StepCloses(m: seq<Mark>, stack: seq<Open>, i: nat)
    requires Parsing(m, stack, i) && i < |m| && m[i].Closes?
    ensures Parsing(m, if |stack| >= 2 then Closed(stack, i) else stack, i + 1)
  {
    hide IsOpen, Filled;
    var next := i + 1;
    if |stack| < 2 {
      assert FilledTo(m, stack, 0, i);
      FilledOn(m, stack[0], i);
    } else {
      var after, t := Closed(stack, i), |stack| - 1;
      assert FilledTo(m, stack, t, i) && FilledTo(m, stack, t - 1, i);
      OpenIsBlock(m, stack[t].start, i);
      OpenStart(m, stack[t].start, i, 0);
      FilledAppended(m, stack[t - 1], stack[t], i, i + 1);
      forall j | 1 <= j < |after| ensures IsOpen(m, after[j].start, next, |after| - 1 - j) { OpenOn(m, stack[j].start, i, t - j); }
      forall j | 0 <= j < |after| ensures FilledTo(m, after, j, next) {
        if j < t - 1 { assert FilledTo(m, stack, j, i) && Limit(after, j, next) == Limit(stack, j, i); }
      }
    }
  }

  lemma OpenStart(m: seq<Mark>, start: nat, i: nat, above: nat)
    requires IsOpen(m, start, i, above)
    ensures start >= 1
  {}

  /** At the end of the text only the nesting matters: each open block still ends there. */
  ghost predicate Unclosed(m: seq<Mark>, stack: seq<Open>)
  {
    && stack != [] && stack[0].start == 0
    && (forall j | 1 <= j < |stack| :: IsBlock(m, stack[j].start, |m|))
    && (forall j | 0 <= j < |stack| :: FilledTo(m, stack, j, |m|))
  }

  lemma ParsedIsUnclosed(m: seq<Mark>, stack: seq<Open>)
    requires Parsing(m, stack, |m|)
    ensures Unclosed(m, stack)
  {}

  lemma CloseAtEnd(m: seq<Mark>, stack: seq<Open>)
    requires Unclosed(m, stack) && |stack| >= 2
    ensures Unclosed(m, Closed(stack, |m|))
  {
    hide IsBlock, Filled;
    var after, t := Closed(stack, |m|), |stack| - 1;
    assert FilledTo(m, stack, t, |m|) && FilledTo(m, stack, t - 1, |m|);
    BlockIsOrdered(m, stack[t].start, |m|);
    FilledAppended(m, stack[t - 1], stack[t], |m|, |m|);
    forall j | 0 <= j < |after| ensures FilledTo(m, after, j, |m|) {
      if j < t - 1 { assert FilledTo(m, stack, j, |m|) && Limit(after, j, |m|) == Limit(stack, j, |m|); }
    }
  }

  lemma PlainMark(text: string, i: nat)
    requires i < |text| && Marks(text)[i..] == Marks(text[i..]) && !IsQuote(text[i])
    ensures Marks(text)[i] == MarkOf(text[i]) && Marks(text)[i + 1..] == Marks(text[i + 1..])
  {
    var m, s := Marks(text), text[i..];
    assert s[0] == text[i] && s[1..] == text[i + 1..];
    assert Marks(s) == [MarkOf(s[0])] + Marks(s[1..]);
    hide Marks;
    assert m[i..][0] == m[i] && m[i..][1..] == m[i + 1..];
  }

  lemma LiteralAhead(s: string, n: nat)
    requires s != [] && IsQuote(s[0]) && n == 1 + QuotedLength(s[1..], s[0])
    ensures n <= |s| && Marks(s)[n..] == Marks(s[n..])
    ensures forall k | 0 <= k < n :: Marks(s)[k].Other?
  {
    var others := seq(n, _ => Other);
    assert Marks(s) == others + Marks(s[n..]);
    hide Marks, QuotedLength;
    assert forall k | 0 <= k < n :: Marks(s)[k] == others[k];
  }

  lemma LiteralMarks(text: string, i: nat, n: nat)
    requires i < |text| && Marks(text)[i..] == Marks(text[i..]) && IsQuote(text[i])
    requires n == 1 + QuotedLength(text[i + 1..], text[i])
    ensures i + n <= |text| && Marks(text)[i + n..] == Marks(text[i + n..])
    ensures forall k | i <= k < i + n :: Marks(text)[k].Other?
  {
    hide Marks, QuotedLength;
    var m, s := Marks(text), text[i..];
    assert s[0] == text[i] && s[1..] == text[i + 1..];
    LiteralAhead(s, n);
    assert s[n..] == text[i + n..];
    assert m[i..][n..] == m[i + n..];
    forall k | i <= k < i + n ensures m[k].Other? { assert m[i..][k - i] == m[k]; }
  }

  lemma {:induction false} StepLiteral(m: seq<Mark>, stack: seq<Open>, i: nat, end: nat)
    requires Parsing(m, stack, i) && i <= end <= |m| && forall k | i <= k < end :: m[k].Other?
    ensures Parsing(m, stack, end)
    decreases end - i
  {
    hide Parsing;
    if i < end {
      StepOther(m, stack, i);
      StepLiteral(m, stack, i + 1, end);
    }
  }

  lemma NothingParsed(m: seq<Mark>)
    ensures Parsing(m, [Open(0, [])], 0)
  {}

  lemma StackNotEmpty(m: seq<Mark>, stack: seq<Open>, i: nat)
    requires Parsing(m, stack, i)
    ensures stack != []
  {}

  lemma WholeTree(m: seq<Mark>, stack: seq<Open>)
    requires Unclosed(m, stack) && |stack| <= 1
    ensures stack != [] && IsTree(m, Block(0, |m|, stack[0].children))
  {
    assert FilledTo(m, stack, 0, |m|);
  }

  /** One pass with a stack builds the tree of the text. */
  method ParseBlocks(text: string) returns (root: Block)
    ensures IsTree(Marks(text), root)
  {
    hide Parsing, Marks, Unclosed, Closed;
    ghost var m := Marks(text);
    var stack := [Open(0, [])];
    NothingParsed(m);
    var i := 0;
    assert text[0..] == text && m[0..] == m;
    while i < |text|
      invariant 0 <= i <= |text| && Parsing(m, stack, i) && m[i..] == Marks(text[i..])
    {
      StackNotEmpty(m, stack, i);
      if IsQuote(text[i]) {
        LiteralMarks(text, i, 1 + QuotedLength(text[i + 1..], text[i]));
        var next := SkipLiteral(text, i + 1, text[i]);
        next := if next > |text| then |text| else next;
        StepLiteral(m, stack, i, next);
        i := next;
        continue;
      }
      PlainMark(text, i);
      if text[i] == '{' {
        StepOpens(m, stack, i);
        stack := stack + [Open(i + 1, [])];
      } else if text[i] == '}' {
        StepCloses(m, stack, i);
        if |stack| > 1 { stack := Closed(stack, i); }
      } else {
        StepOther(m, stack, i);
      }
      i := i + 1;
    }
    ParsedIsUnclosed(m, stack);
    while |stack| > 1
      invariant Unclosed(m, stack)
      decreases |stack|
    {
      CloseAtEnd(m, stack);
      stack := Closed(stack, |text|);
    }
    WholeTree(m, stack);
    root := Block(0, |text|, stack[0].children);
  }
}
