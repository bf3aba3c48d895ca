/** What `finalize` asserts of a fenced code block: it holds the line of its info string by then. */
module BlockFence {
  import opened NodeKinds
  import opened Lists
  import opened Blocks
  import opened ListTight
  import opened BlockParser

  predicate Holds(b: Block) {
    b.kind == CodeBlock && b.fenced ==> b.lines > 0
  }

  /** Every fenced code block holds a line, but perhaps the block `but`. */
  ghost predicate AllHold(t: Store, but: int) {
    forall b :: 0 <= b < |t| && b != but ==> Holds(t[b])
  }

  ghost predicate SameText(t: Store, u: Store) {
    |u| == |t| && forall b :: 0 <= b < |t| ==> u[b].kind == t[b].kind && u[b].fenced == t[b].fenced && u[b].lines == t[b].lines
  }

  lemma FinalizedText(t: Store, b: nat, line: Line, preserve: bool)
    requires b < |t| && t[b].parent < b
    ensures SameText(t, Finalized(t, b, line, preserve))
  {
    hide Decided, Minus;
    DecidedBits(t, b);
  }

  lemma {:induction false} CloseAllText(m: Mid, line: Line, preserve: bool)
    requires MidOk(m)
    ensures SameText(m.t, CloseAllLeft(m, line, preserve).t)
    decreases |m.left|
  {
    hide MidOk, Finalized;
    if m.left != [] {
      CloseLeftOk(m, line, preserve);
      FinalizedText(m.t, Last(m.left), line, preserve);
      CloseAllText(CloseLeft(m, line, preserve), line, preserve);
    }
  }

  /** Every block that the climb finalizes holds its line; just the new block may hold none. */
  lemma {:induction false} AddChildHolds(m: Mid, kind: Kind, fenced: bool, line: Line, preserve: bool)
    requires MidOk(m) && MayAdd(m, kind) && AllHold(m.t, -1)
    ensures var r := AddChild(m, kind, fenced, line, preserve); AllHold(r.t, Last(r.spine)) && (kind != CodeBlock ==> AllHold(r.t, -1))
    decreases |m.spine|
  {
    hide MidOk, MayAdd, CanContain, Finalized;
    SpineInRange(m);
    if !CanContain(m.t[Last(m.spine)].kind, kind) {
      ClimbOk(m, kind, line, preserve);
      FinalizedText(m.t, Last(m.spine), line, preserve);
      AddChildHolds(CloseEnd(m, line, preserve), kind, fenced, line, preserve);
    }
  }

  /** All hold their line, or just the code block that ends the path does not. */
  ghost predicate BlocksHold(m: Mid) {
    m.spine != [] && Last(m.spine) < |m.t| && AllHold(m.t, Last(m.spine)) && (m.t[Last(m.spine)].kind != CodeBlock ==> AllHold(m.t, -1))
  }

  lemma AddItemHolds(m: Mid, joins: bool, line: Line, preserve: bool)
    requires MidOk(m) && AllHold(m.t, -1)
    ensures BlocksHold(AddItem(m, joins, line, preserve))
  {
    hide AddChild, MidOk;
    SpineInRange(m);
    var list := if m.t[Last(m.spine)].kind == List && joins then m else AddChild(m, List, false, line, preserve);
    if list != m { AddChildHolds(m, List, false, line, preserve); }
    AddChildHolds(list, Item, false, line, preserve);
    SpineInRange(AddChild(list, Item, false, line, preserve));
  }

  lemma OpenOneHolds(m: Mid, s: Start, depth: nat, allMatched: bool, maybeLazy: bool, line: Line, preserve: bool)
    requires MidOk(m) && ValidStart(s) && AllHold(m.t, -1)
    ensures var r := OpenOne(m, s, depth, allMatched, maybeLazy, line, preserve).0;
            BlocksHold(r) && (Last(r.spine) < |m.t| ==> AllHold(r.t, -1))
  {
    hide AddChild, AddItem, MidOk;
    SpineInRange(m);
    SpineInRange(OpenOne(m, s, depth, allMatched, maybeLazy, line, preserve).0);
    match s
    case Opens(kind, fenced) => AddChildHolds(m, kind, fenced, line, preserve);
    case Underline(content) =>
    case Marker(joins) => AddItemHolds(m, joins, line, preserve);
    case Indented => AddChildHolds(m, CodeBlock, false, line, preserve);
  }

  lemma {:induction false} OpenNewHolds(m: Mid, starts: seq<Start>, depth: nat, allMatched: bool, maybeLazy: bool, line: Line, preserve: bool)
    requires MidOk(m) && AllHold(m.t, -1) && forall i :: 0 <= i < |starts| ==> ValidStart(starts[i])
    ensures var r := OpenNew(m, starts, depth, allMatched, maybeLazy, line, preserve);
            BlocksHold(r) && (Last(r.spine) < |m.t| ==> AllHold(r.t, -1))
    decreases |starts|
  {
    hide MidOk, OpenOne;
    SpineInRange(m);
    if starts != [] {
      var r := OpenOne(m, starts[0], depth, allMatched, maybeLazy, line, preserve).0;
      OpenOneHolds(m, starts[0], depth, allMatched, maybeLazy, line, preserve);
      if !AcceptsLines(r.t[Last(r.spine)].kind) {
        OpenNewHolds(r, starts[1..], depth + 1, allMatched, false, line, preserve);
      }
    }
  }

  /** The code block that the line opened gets the line. */
  lemma AddTextHolds(m: Mid, line: Line, preserve: bool)
    requires MidOk(m) && BlocksHold(m)
    ensures AllHold(AddText(m, line, preserve).0, -1)
  {
    hide MidOk, AddChild, CloseAllLeft, Finalized;
    CloseAllText(m, line, preserve);
    var n := CloseAllLeft(m, line, preserve);
    SpineInRange(n);
    var c := Last(n.spine);
    if n.t[c].kind == HtmlBlock {
      if line.htmlEnd {
        LineKeeps(n, c);
        HtmlIsNoRoot(n);
        CloseEndOk(n.(t := AddLine(n.t, c)), line, preserve);
        FinalizedText(AddLine(n.t, c), c, line, preserve);
      }
    } else if n.t[c].kind != CodeBlock && !AcceptsLines(n.t[c].kind) && (!line.blank || preserve) {
      ParagraphMayGo(n);
      AddChildHolds(n, Paragraph, false, line, preserve);
    }
  }

  lemma RestHolds(t: Store, path: seq<nat>, j: nat, line: Line, preserve: bool)
    requires Valid(t, path) && ValidLine(line) && j < |path| && AllHold(t, -1)
    ensures AllHold(RestOfLine(t, path, j, line, preserve).0, -1)
  {
    hide MidOk, OpenNew, AddText, Valid, Matched, Noted, AddLine;
    PathInRange(t, path);
    var m := Matched(t, path, j);
    var lazy := t[Last(path)].kind == Paragraph;
    OpenNewHolds(m, line.starts, 1, j + 1 == |path|, lazy, line, preserve);
    var r := OpenNew(m, line.starts, 1, j + 1 == |path|, lazy, line, preserve);
    var n := NotedMid(r, line, |t|);
    SpineInRange(n);
    TopInRange(m);
    TopInRange(n);
    NotedHolds(r, n);
    if IsLazy(n, line, preserve) { LineHolds(n.t, Last(n.left)); } else { AddTextHolds(n, line, preserve); }
  }

  lemma TopInRange(m: Mid)
    requires MidOk(m)
    ensures m.top < |m.t| && (m.left != [] ==> Last(m.left) < |m.t|)
  {
  }

  lemma NotedHolds(r: Mid, n: Mid)
    requires SameButBits(r.t, n.t) && n.spine == r.spine && BlocksHold(r)
    ensures BlocksHold(n) && (AllHold(r.t, -1) ==> AllHold(n.t, -1))
  {
  }

  lemma LineHolds(t: Store, b: nat)
    requires b < |t| && AllHold(t, -1)
    ensures AllHold(AddLine(t, b), -1)
  {
  }

  lemma LineKeepsHolding(t: Store, path: seq<nat>, line: Line, preserve: bool)
    requires Valid(t, path) && ValidLine(line) && AllHold(t, -1)
    ensures AllHold(ProcessLine(t, path, line, preserve).0, -1)
  {
    hide MidOk, Valid, RestOfLine;
    PathInRange(t, path);
    var j := MatchDepth(t, path, line, 0);
    if j + 1 < |path| && ClosesFence(t[path[j + 1]], j + 1, line) {
      CodeIsLast(t, path, j + 1);
      CurrentHolds(t, path, line, preserve);
    } else {
      RestHolds(t, path, j, line, preserve);
    }
  }

  lemma CurrentHolds(t: Store, path: seq<nat>, line: Line, preserve: bool)
    requires Valid(t, path) && |path| >= 2 && AllHold(t, -1)
    ensures AllHold(CloseCurrent(t, path, line, preserve).0, -1)
  {
    hide MidOk, Valid, Finalized;
    WholeOk(t, path);
    CloseEndOk(Mid(t, path, [], Last(path)), line, preserve);
    FinalizedText(t, Last(path), line, preserve);
  }

  lemma {:induction false} LinesHold(lines: seq<Line>, preserve: bool)
    requires ValidLines(lines)
    ensures AllHold(ProcessLines(lines, preserve).0, -1)
  {
    hide Valid, ProcessLine;
    if lines != [] {
      LinesHold(Init(lines), preserve);
      var r := ProcessLines(Init(lines), preserve);
      LineKeepsHolding(r.0, r.1, Last(lines), preserve);
    }
  }

  lemma {:induction false} FinishHolds(t: Store, path: seq<nat>, end: Line, preserve: bool)
    requires Valid(t, path) && AllHold(t, -1)
    ensures AllHold(FinishFrom(t, path, end, preserve), -1)
    decreases |path|
  {
    hide Valid, CloseCurrent, Finalized;
    PathInRange(t, path);
    if |path| == 1 {
      FinishRoot(t, path);
      FinalizedText(t, ROOT, end, preserve);
    } else {
      CurrentHolds(t, path, end, preserve);
      var r := CloseCurrent(t, path, end, preserve);
      FinishHolds(r.0, r.1, end, preserve);
    }
  }

  lemma FinishRoot(t: Store, path: seq<nat>)
    requires Valid(t, path)
    ensures t != [] && t[ROOT].parent < ROOT
  {
  }

  /** In all lines and at the end: no fenced code block is finalized before it holds the line of its info string. */
  lemma FencesHoldInfo(lines: seq<Line>, end: Line, preserve: bool)
    requires ValidLines(lines)
    ensures var t := ParsedDocument(lines, end, preserve);
            forall b :: 0 <= b < |t| && t[b].kind == CodeBlock && t[b].fenced ==> t[b].lines > 0 && t[b].finals == 1
  {
    hide Valid, ProcessLines, FinishFrom, MidOk;
    LinesHold(lines, preserve);
    var r := ProcessLines(lines, preserve);
    FinishHolds(r.0, r.1, end, preserve);
    EveryBlockFinalizedOnce(lines, end, preserve);
  }
}
