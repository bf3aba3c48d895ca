/** The parser object: `finalize`, `add_child`, `check_open_blocks`, `open_new_blocks` and
    `add_text_to_container` as they update the tree in place, against `BlockParser`. */
module BlockMachine {
  import opened NodeKinds
  import opened Lists
  import opened Blocks
  import opened ListTight
  import opened BlockParser

  class Parser {
    var blocks: Store
    var current: nat
    const preserve: bool          // CMARK_OPT_PRESERVE_WHITESPACE
    ghost var path: seq<nat>      // the open blocks, between lines

    ghost predicate Ready()
      reads this
    {
      Valid(blocks, path) && current == Last(path)
    }

    constructor (preserve: bool)
      ensures Ready() && (blocks, path) == ProcessLines([], preserve) && this.preserve == preserve
    {
      blocks, current, path := FRESH_STORE, ROOT, [ROOT];
      this.preserve := preserve;
    }

    /** `S_ends_with_blank_line` */
    method EndsWithBlankLine(b: nat) returns (r: bool)
      requires b < |blocks|
      modifies this`blocks
      ensures r == Answer(old(blocks), b) && blocks == Asked(old(blocks), b)
      decreases |blocks| - b
    {
      if blocks[b].checked {
        r := blocks[b].blank;
      } else if GoesOn(blocks, b) {
        CheckedAnswer(blocks, b);
        blocks := blocks[b := blocks[b].(checked := true)];
        r := EndsWithBlankLine(Last(blocks[b].children));
      } else {
        blocks := blocks[b := blocks[b].(checked := true)];
        r := blocks[b].blank;
      }
    }

    /** The LIST case of `finalize`. */
    method DecideTight(l: nat)
      requires l < |blocks|
      modifies this`blocks
      ensures blocks == Decided(old(blocks), l)
    {
      hide Answer, Asked, AskKids;
      ghost var t0 := blocks;
      var items := blocks[l].children;
      var i: nat, tight := 0, true;
      while i < |items|
        invariant i <= |items| && tight && SameTree(t0, blocks) && AskItems(t0, items, 0) == AskItems(blocks, items, i)
      {
        if items[i] < |blocks| {
          var last := i + 1 == |items|;
          if blocks[items[i]].blank && !last {
            tight := false;
            break;
          }
          ghost var u := blocks;
          var loose := AnyEndsBlank(blocks[items[i]].children, last);
          SameTrans(t0, u, blocks);
          if loose {
            tight := false;
            break;
          }
        }
        i := i + 1;
      }
      blocks := blocks[l := blocks[l].(tight := tight)];
    }

    /** Its inner loop. */
    method AnyEndsBlank(kids: seq<nat>, last: bool) returns (loose: bool)
      modifies this`blocks
      ensures (loose, blocks) == AskKids(old(blocks), kids, last, 0)
    {
      hide Answer, Asked;
      ghost var t0 := blocks;
      var j: nat := 0;
      while j < |kids|
        invariant j <= |kids| && AskKids(t0, kids, last, 0) == AskKids(blocks, kids, last, j)
      {
        if (!last || j + 1 < |kids|) && kids[j] < |blocks| {
          var ends := EndsWithBlankLine(kids[j]);
          if ends {
            return true;
          }
        }
        j := j + 1;
      }
      loose := false;
    }

    /** `finalize`; the precondition is its assertion that the block is open. */
    method Finalize(b: nat, line: Line) returns (parent: int)
      requires b < |blocks| && blocks[b].parent < b && blocks[b].open
      modifies this`blocks
      ensures blocks == Finalized(old(blocks), b, line, preserve) && parent == old(blocks[b].parent)
    {
      hide Decided;
      parent := blocks[b].parent;
      DecidedBits(blocks, b);
      if blocks[b].kind == List {
        DecideTight(b);
      }
      blocks := blocks[b := blocks[b].(open := false, finals := blocks[b].finals + 1)];
      if blocks[b].kind == Paragraph && line.definitionsOnly(b) && !preserve {
        blocks := blocks[b := blocks[b].(freed := true, parent := -1)];
        if parent >= 0 {
          blocks := blocks[parent := blocks[parent].(children := Minus(blocks[parent].children, b))];
        }
      }
    }

    /** What `add_text_to_container` notes of the line before it places it. */
    method NoteLine(container: nat, line: Line, start: nat)
      requires container < |blocks|
      modifies this`blocks
      ensures blocks == Noted(old(blocks), container, line, start)
    {
      ghost var t0 := blocks;
      hide ClearAbove;
      if line.blank && blocks[container].children != [] && Last(blocks[container].children) < |blocks| {
        blocks := Flag(blocks, Last(blocks[container].children), true);
      }
      blocks := Flag(blocks, container, HeldAgainst(blocks, container, line, start));
      ClearParents(container);
    }

    method ClearParents(b: nat)
      requires b < |blocks|
      modifies this`blocks
      ensures blocks == ClearAbove(old(blocks), b)
    {
      ghost var t0 := blocks;
      var tmp: nat := b;
      while 0 <= blocks[tmp].parent < tmp
        invariant tmp < |blocks| && ClearAbove(t0, b) == ClearAbove(blocks, tmp)
        decreases tmp
      {
        var p: nat := blocks[tmp].parent;
        blocks := Flag(blocks, p, false);
        tmp := p;
      }
    }

    /** `add_child`. */
    method AddChildTo(container: nat, kind: Kind, fenced: bool, line: Line, ghost m: Mid) returns (child: nat)
      requires MidOk(m) && MayAdd(m, kind) && blocks == m.t && container == Last(m.spine)
      modifies this`blocks
      ensures var r := AddChild(m, kind, fenced, line, preserve); blocks == r.t && child == Last(r.spine)
    {
      hide AddChild, MidOk, MayAdd, CanContain, Finalized, Push, CloseEnd;
      var parent := container;
      ghost var n := m;
      AddChildStep(n, kind, fenced, line, preserve);
      while !CanContain(blocks[parent].kind, kind)
        invariant MidOk(n) && MayAdd(n, kind) && n.spine != [] && blocks == n.t && parent == Last(n.spine) < |n.t|
        invariant AddChild(n, kind, fenced, line, preserve) == AddChild(m, kind, fenced, line, preserve)
        decreases |n.spine|
      {
        AddChildStep(n, kind, fenced, line, preserve);
        n := CloseEnd(n, line, preserve);
        parent := Finalize(parent, line);
      }
      AddChildStep(n, kind, fenced, line, preserve);
      child := LinkChild(parent, kind, fenced, n);
    }

    /** A new open block, as the last child of `parent`. */
    method LinkChild(parent: nat, kind: Kind, fenced: bool, ghost m: Mid) returns (child: nat)
      requires parent < |blocks| && blocks == m.t && m.spine != [] && parent == Last(m.spine)
      modifies this`blocks
      ensures blocks == Push(m, kind, fenced).t && child == Last(Push(m, kind, fenced).spine)
    {
      child := |blocks|;
      blocks := blocks + [NewBlock(kind, fenced, parent)];
      blocks := blocks[parent := blocks[parent].(children := blocks[parent].children + [child])];
    }

    /** `check_open_blocks`: the last block that matches; `fenceEnd` if a closing fence ended the line. */
    method CheckOpenBlocks(line: Line) returns (container: nat, allMatched: bool, fenceEnd: bool)
      requires Ready()
      modifies this`blocks, this`current, this`path
      ensures var t := old(blocks); var p := old(path); var j := MatchDepth(t, p, line, 0);
              && fenceEnd == (j + 1 < |p| && ClosesFence(t[p[j + 1]], j + 1, line))
              && (if fenceEnd then Ready() && (blocks, path) == CloseCurrent(t, p, line, preserve)
                  else blocks == t && path == p && current == old(current)
                       && container == p[j] && allMatched == (j + 1 == |p|))
    {
      hide Valid, PrefixMatches, ClosesFence, CloseCurrent;
      container, allMatched, fenceEnd := ROOT, false, false;
      var depth: nat := 0;
      PathInRange(blocks, path);
      PathStep(blocks, path, 0);
      while blocks[container].children != [] && blocks[Last(blocks[container].children)].open
        invariant blocks == old(blocks) && path == old(path) && current == old(current)
        invariant depth < |path| && container == path[depth]
        invariant MatchDepth(blocks, path, line, 0) == MatchDepth(blocks, path, line, depth)
        invariant var kids := blocks[container].children;
                  && (kids != [] ==> Last(kids) < |blocks|)
                  && (kids != [] && blocks[Last(kids)].open <==> depth + 1 < |path|)
                  && (depth + 1 < |path| ==> Last(kids) == path[depth + 1])
        decreases |path| - depth
      {
        var next := Last(blocks[container].children);
        FenceStops(blocks[next], depth + 1, line);
        if ClosesFence(blocks[next], depth + 1, line) {
          CloseFence(next, depth + 1, line);
          fenceEnd := true;
          return;
        }
        if !PrefixMatches(blocks[next], depth + 1, line) {
          return;
        }
        container, depth := next, depth + 1;
        PathStep(blocks, path, depth);
      }
      allMatched := true;
    }

    /** A closing fence finalizes the code block, which is always the deepest open block. */
    method CloseFence(b: nat, ghost depth: nat, line: Line)
      requires Ready() && 1 <= depth < |path| && b == path[depth] && blocks[b].kind == CodeBlock
      modifies this`blocks, this`current, this`path
      ensures Ready() && (blocks, path) == CloseCurrent(old(blocks), old(path), line, preserve)
    {
      CodeIsLast(blocks, path, depth);
      CloseDeepest(line);
    }

    /** Finalizes `current`. */
    method CloseDeepest(line: Line)
      requires Ready() && |path| >= 2
      modifies this`blocks, this`current, this`path
      ensures Ready() && (blocks, path) == CloseCurrent(old(blocks), old(path), line, preserve)
    {
      hide Finalized;
      WholeOk(blocks, path);
      CloseEndOk(Mid(blocks, path, [], Last(path)), line, preserve);
      ghost var r := CloseCurrent(blocks, path, line, preserve);
      path := Init(path);
      current := Finalize(current, line);
    }

    /** One block start; false when nothing starts here. */
    method OpenBlock(container: nat, s: Start, depth: nat, allMatched: bool, maybeLazy: bool, line: Line, ghost m: Mid)
      returns (block: nat, started: bool)
      requires MidOk(m) && ValidStart(s) && blocks == m.t && container == Last(m.spine)
      modifies this`blocks
      ensures var r := OpenOne(m, s, depth, allMatched, maybeLazy, line, preserve);
              blocks == r.0.t && block == Last(r.0.spine) && started == r.1
    {
      hide AddChild, Valid;
      var kind := blocks[container].kind;
      block, started := container, true;
      match s
      case Opens(k, fenced) =>
        if (k == ThematicBreak && kind == Paragraph && !allMatched) || (k == FootnoteDefinition && depth >= MAX_LIST_DEPTH) {
          started := false;
        } else {
          block := AddChildTo(container, k, fenced, line, m);
        }
      case Underline(content) =>
        if kind != Paragraph {
          started := false;
        } else if content {
          blocks := blocks[container := blocks[container].(kind := Heading)];
        }
      case Marker(joins) =>
        if depth >= MAX_LIST_DEPTH {
          started := false;
        } else {
          block := OpenItem(container, joins, line, m);
        }
      case Indented =>
        if maybeLazy {
          started := false;
        } else {
          block := AddChildTo(container, CodeBlock, false, line, m);
        }
    }

    method OpenItem(container: nat, joins: bool, line: Line, ghost m: Mid) returns (item: nat)
      requires MidOk(m) && blocks == m.t && container == Last(m.spine)
      modifies this`blocks
      ensures var r := AddItem(m, joins, line, preserve); blocks == r.t && item == Last(r.spine)
    {
      hide AddChild;
      ghost var n := m;
      var list := container;
      if !(blocks[container].kind == List && joins) {
        n := AddChild(m, List, false, line, preserve);
        list := AddChildTo(container, List, false, line, m);
      }
      item := AddChildTo(list, Item, false, line, n);
    }

    /** `open_new_blocks`. */
    method OpenNewBlocks(container: nat, allMatched: bool, line: Line, ghost m: Mid) returns (block: nat)
      requires MidOk(m) && ValidLine(line) && EndsAt(m, blocks, container) && current < |m.t|
      modifies this`blocks
      ensures EndsAt(OpenNew(m, line.starts, 1, allMatched, m.t[current].kind == Paragraph, line, preserve), blocks, block)
    {
      hide MidOk, ValidLine, OpenFrom, OpenNew;
      var maybeLazy := blocks[current].kind == Paragraph;
      ghost var r := OpenFrom(m, line, 0, allMatched, maybeLazy, preserve);
      ghost var n := m;
      var i: nat := 0;
      block := container;
      OpenFromStart(m, line, allMatched, maybeLazy, preserve);
      EndInRange(n);
      while i < |line.starts| && blocks[block].kind != CodeBlock && blocks[block].kind != HtmlBlock
        invariant i <= |line.starts| && MidOk(n) && EndsAt(n, blocks, block) && block < |blocks|
        invariant OpenFrom(n, line, i, allMatched, maybeLazy, preserve) == r
      {
        var more;
        block, more, n := OpenTurn(block, i, allMatched, maybeLazy, line, n);
        if !more {
          return;
        }
        maybeLazy, i := false, i + 1;
      }
      OpenFromEnd(n, line, i, allMatched, maybeLazy, preserve);
    }

    /** One turn of its loop; `more` if the loop goes on. */
    method OpenTurn(container: nat, i: nat, allMatched: bool, maybeLazy: bool, line: Line, ghost m: Mid)
      returns (block: nat, more: bool, ghost n: Mid)
      requires MidOk(m) && ValidLine(line) && EndsAt(m, blocks, container) && i < |line.starts|
      requires container < |m.t| && m.t[container].kind != CodeBlock && m.t[container].kind != HtmlBlock
      modifies this`blocks
      ensures MidOk(n) && EndsAt(n, blocks, block) && block < |blocks|
      ensures OpenFrom(m, line, i, allMatched, maybeLazy, preserve)
           == if more then OpenFrom(n, line, i + 1, allMatched, false, preserve) else n
    {
      hide OpenOne, MidOk, OpenNew, ValidStart;
      OpenNewStep(m, line.starts, i, allMatched, maybeLazy, line, preserve);
      n := OpenOne(m, line.starts[i], i + 1, allMatched, maybeLazy, line, preserve).0;
      var started;
      block, started := OpenBlock(container, line.starts[i], i + 1, allMatched, maybeLazy, line, m);
      EndInRange(n);
      more := started && !AcceptsLines(blocks[block].kind);
    }

    method AppendLine(b: nat)
      requires b < |blocks| && blocks[b].open    // `add_line` asserts it
      modifies this`blocks
      ensures blocks == AddLine(old(blocks), b)
    {
      blocks := blocks[b := blocks[b].(lines := blocks[b].lines + 1)];
    }

    /** Finalizes the blocks that were not matched. */
    method CloseUnmatched(lastMatched: nat, line: Line, ghost m: Mid)
      requires MidOk(m) && blocks == m.t && current == Current(m) && lastMatched == m.top
      modifies this`blocks, this`current
      ensures blocks == CloseAllLeft(m, line, preserve).t && current == lastMatched
    {
      hide MidOk, CloseAllLeft, CloseLeft, Current, Finalized;
      ghost var n := m;
      LeftStep(n, line, preserve);
      while current != lastMatched
        invariant MidOk(n) && blocks == n.t && current == Current(n) && lastMatched == n.top
        invariant CloseAllLeft(n, line, preserve) == CloseAllLeft(m, line, preserve)
        decreases |n.left|
      {
        LeftStep(n, line, preserve);
        n := CloseLeft(n, line, preserve);
        current := Finalize(current, line);
      }
      LeftStep(n, line, preserve);
    }

    /** `add_text_to_container` on a line that is not a lazy continuation. */
    method AddTextTo(container: nat, lastMatched: nat, line: Line, ghost m: Mid)
      requires MidOk(m) && blocks == m.t && current == Current(m) && lastMatched == m.top && container == Last(m.spine)
      modifies this`blocks, this`current, this`path
      ensures Ready() && (blocks, path) == AddText(m, line, preserve)
    {
      ghost var r := AddText(m, line, preserve);
      CloseUnmatched(lastMatched, line, m);
      ghost var n := CloseAllLeft(m, line, preserve);
      ParagraphMayGo(n);
      hide CloseAllLeft, AddChild, Finalized, Valid, MidOk, MayAdd;
      EndInRange(n);
      LineKeeps(n, container);
      EndIsOpen(n);
      var block := container;
      if blocks[block].kind == CodeBlock {
        AppendLine(block);
      } else if blocks[block].kind == HtmlBlock {
        AppendLine(block);
        if line.htmlEnd {
          HtmlIsNoRoot(n);
          CloseEndOk(n.(t := AddLine(n.t, block)), line, preserve);
          block := Finalize(block, line);
        }
      } else if line.blank && !preserve {
      } else if AcceptsLines(blocks[block].kind) {
        AppendLine(block);
      } else {
        block := AddChildTo(block, Paragraph, false, line, n);
        EndIsOpen(AddChild(n, Paragraph, false, line, preserve));
        AppendLine(block);
      }
      current := block;
      path := r.1;
    }

    /** `S_process_line`. */
    method ProcessOneLine(line: Line)
      requires Ready() && ValidLine(line)
      modifies this`blocks, this`current, this`path
      ensures Ready() && (blocks, path) == ProcessLine(old(blocks), old(path), line, preserve)
    {
      hide Valid, OpenNew, AddText, CloseCurrent, RestOfLine, MatchDepth;
      PathInRange(blocks, path);
      var container, allMatched, fenceEnd := CheckOpenBlocks(line);
      if !fenceEnd {
        AfterPrefixes(container, allMatched, line, MatchDepth(blocks, path, line, 0));
      }
    }

    /** The rest of `S_process_line`, once the prefixes are matched. */
    method AfterPrefixes(lastMatched: nat, allMatched: bool, line: Line, ghost j: nat)
      requires Ready() && ValidLine(line) && j < |path| && lastMatched == path[j] && allMatched == (j + 1 == |path|)
      modifies this`blocks, this`current, this`path
      ensures Ready() && (blocks, path) == RestOfLine(old(blocks), old(path), j, line, preserve)
    {
      hide OpenNew, AddText, Valid, MidOk, Matched, SameShape;
      ghost var m := Matched(blocks, path, j);
      MatchedEnds(blocks, path, j);
      ghost var r := OpenNew(m, line.starts, 1, allMatched, blocks[current].kind == Paragraph, line, preserve);
      var start := |blocks|;
      var container := OpenNewBlocks(lastMatched, allMatched, line, m);
      EndInRange(r);
      NoteLine(container, line, start);
      ShapeTrans(m, r, NotedMid(r, line, start));
      NotedIs(r, line, start);
      AddLineOrText(container, lastMatched, line, m, NotedMid(r, line, start));
    }

    /** The choice of `add_text_to_container`: a lazy continuation, or text for the container. */
    method AddLineOrText(container: nat, lastMatched: nat, line: Line, ghost m: Mid, ghost r: Mid)
      requires MidOk(r) && r.left == m.left && r.top == m.top && m.spine + m.left == path && Valid(m.t, path)
      requires |r.t| >= |m.t| && (Last(r.spine) >= |m.t| || (r.spine == m.spine && SameShape(m.t, r.t)))
      requires m.top < |m.t| && blocks == r.t && current == Current(r) && container == Last(r.spine) && lastMatched == r.top
      modifies this`blocks, this`current, this`path
      ensures Ready()
      ensures (blocks, path) == if IsLazy(r, line, preserve) then ContinueLazily(m.t, old(path), m, r) else AddText(r, line, preserve)
    {
      hide AddText;
      if current != lastMatched && container == lastMatched && (!line.blank || preserve) && blocks[current].kind == Paragraph {
        LazyOk(m.t, path, m, r);
        AppendLine(current);
      } else {
        AddTextTo(container, lastMatched, line, r);
      }
    }

    /** `finalize_document`: nothing stays open. */
    method FinalizeDocument(end: Line)
      requires Ready()
      modifies this`blocks, this`current, this`path
      ensures blocks == FinishFrom(old(blocks), old(path), end, preserve)
    {
      hide Valid, CloseCurrent, Finalized;
      CurrentIsRoot(blocks, path);
      while current != ROOT
        invariant Ready() && (current == ROOT <==> |path| == 1)
        invariant FinishFrom(blocks, path, end, preserve) == FinishFrom(old(blocks), old(path), end, preserve)
        decreases |path|
      {
        PathInRange(blocks, path);
        CloseDeepest(end);
        CurrentIsRoot(blocks, path);
      }
      RootOpen(blocks, path);
      var parent := Finalize(ROOT, end);
    }

    /** A whole document, line by line. */
    method Parse(lines: seq<Line>, end: Line)
      requires ValidLines(lines) && Ready() && (blocks, path) == ProcessLines([], preserve)
      modifies this`blocks, this`current, this`path
      ensures blocks == ParsedDocument(lines, end, preserve)
      ensures Tree(blocks) && forall b :: 0 <= b < |blocks| ==> !blocks[b].open && blocks[b].finals == 1
    {
      hide Valid, ProcessLine, FinishFrom;
      var i := 0;
      while i < |lines|
        invariant 0 <= i <= |lines| && Ready() && (blocks, path) == ProcessLines(lines[..i], preserve)
      {
        assert lines[..i + 1][..i] == lines[..i];
        ProcessOneLine(lines[i]);
        i := i + 1;
      }
      assert lines[..i] == lines;
      FinalizeDocument(end);
      EveryBlockFinalizedOnce(lines, end, preserve);
    }
  }

  /** The store and the end of the path. */
  ghost predicate EndsAt(m: Mid, t: Store, b: nat) {
    m.t == t && m.spine != [] && Last(m.spine) == b
  }

  lemma SameTrans(t: Store, u: Store, v: Store)
    requires SameTree(t, u) && SameTree(u, v)
    ensures SameTree(t, v)
  {
  }

  lemma NotedIs(r: Mid, line: Line, start: nat)
    requires MidOk(r)
    ensures Last(r.spine) < |r.t| && NotedMid(r, line, start).t == Noted(r.t, Last(r.spine), line, start)
  {
  }

  lemma CurrentIsRoot(t: Store, path: seq<nat>)
    requires Valid(t, path)
    ensures path != [] && (Last(path) == ROOT <==> |path| == 1)
  {
    if |path| > 1 { SpineAscends(t, path, 0, |path| - 1); }
  }

  lemma RootOpen(t: Store, path: seq<nat>)
    requires Valid(t, path)
    ensures ROOT < |t| && t[ROOT].open && t[ROOT].parent < 0
  {
    assert path[0] in path;
  }

  lemma EndIsOpen(m: Mid)
    requires MidOk(m)
    ensures m.spine != [] && Last(m.spine) < |m.t| && m.t[Last(m.spine)].open
  {
  }

  /** A block that is not the document has the path above it. */
  lemma EndInRange(m: Mid)
    requires MidOk(m)
    ensures m.spine != [] && Last(m.spine) < |m.t|
  {
  }

  lemma MatchedEnds(t: Store, path: seq<nat>, j: nat)
    requires Valid(t, path) && j < |path|
    ensures var m := Matched(t, path, j);
            m.spine != [] && Last(m.spine) == path[j] && m.top == path[j] && Current(m) == Last(path) < |t| && m.top < |t|
  {
  }

  lemma OpenNewStep(m: Mid, starts: seq<Start>, i: nat, allMatched: bool, maybeLazy: bool, line: Line, preserve: bool)
    requires MidOk(m) && i <= |starts| && forall k :: 0 <= k < |starts| ==> ValidStart(starts[k])
    ensures m.spine != [] && Last(m.spine) < |m.t|
    ensures var n := OpenNew(m, starts[i..], i + 1, allMatched, maybeLazy, line, preserve);
            var cont := m.t[Last(m.spine)].kind;
            if i == |starts| || cont == CodeBlock || cont == HtmlBlock then n == m
            else
              var r := OpenOne(m, starts[i], i + 1, allMatched, maybeLazy, line, preserve);
              && r.0.spine != [] && Last(r.0.spine) < |r.0.t|
              && n == if !r.1 || AcceptsLines(r.0.t[Last(r.0.spine)].kind) then r.0
                 else OpenNew(r.0, starts[i + 1..], i + 2, allMatched, false, line, preserve)
  {
    hide OpenOne, Tree, Counted;
    EndInRange(m);
    if i < |starts| {
      assert starts[i..][0] == starts[i] && starts[i..][1..] == starts[i + 1..];
      EndInRange(OpenOne(m, starts[i], i + 1, allMatched, maybeLazy, line, preserve).0);
    }
  }

  /** `open_new_blocks`, from the `i`-th block start on. */
  ghost function OpenFrom(m: Mid, line: Line, i: nat, allMatched: bool, maybeLazy: bool, preserve: bool): Mid
    requires MidOk(m) && ValidLine(line) && i <= |line.starts|
  {
    hide MidOk;
    OpenNew(m, line.starts[i..], i + 1, allMatched, maybeLazy, line, preserve)
  }

  lemma OpenFromStart(m: Mid, line: Line, allMatched: bool, maybeLazy: bool, preserve: bool)
    requires MidOk(m) && ValidLine(line)
    ensures OpenFrom(m, line, 0, allMatched, maybeLazy, preserve) == OpenNew(m, line.starts, 1, allMatched, maybeLazy, line, preserve)
  {
    hide MidOk;
    assert line.starts[0..] == line.starts;
  }

  lemma OpenFromEnd(m: Mid, line: Line, i: nat, allMatched: bool, maybeLazy: bool, preserve: bool)
    requires MidOk(m) && ValidLine(line) && i <= |line.starts| && m.spine != [] && Last(m.spine) < |m.t|
    requires i < |line.starts| ==> m.t[Last(m.spine)].kind in {CodeBlock, HtmlBlock}
    ensures OpenFrom(m, line, i, allMatched, maybeLazy, preserve) == m
  {
    hide OpenOne, MidOk;
  }

  lemma FenceStops(b: Block, depth: nat, line: Line)
    ensures ClosesFence(b, depth, line) ==> b.kind == CodeBlock && !PrefixMatches(b, depth, line)
  {
  }
}
