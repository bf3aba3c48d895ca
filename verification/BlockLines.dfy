/** Where lines go: every line is added to exactly one block, unless it ends a fence or is blank. */
module BlockLines {
  import opened NodeKinds
  import opened Lists
  import opened Blocks
  import opened ListTight
  import opened BlockParser

  /** How many lines have been added to blocks so far. */
  function TotalLines(t: Store): nat {
    if t == [] then 0 else TotalLines(Init(t)) + Last(t).lines
  }

  lemma {:induction false} TotalSet(t: Store, b: nat, r: Block)
    requires b < |t|
    ensures TotalLines(t[b := r]) == TotalLines(t) - t[b].lines + r.lines
  {
    var u := t[b := r];
    if b < |t| - 1 {
      TotalSet(Init(t), b, r);
      assert Init(u) == Init(t)[b := r];
    } else {
      assert Init(u) == Init(t);
    }
  }

  lemma FinalizedTotal(t: Store, b: nat, line: Line, preserve: bool)
    requires Tree(t) && b < |t|
    ensures TotalLines(Finalized(t, b, line, preserve)) == TotalLines(t)
  {
    hide TotalLines, Decided, Shut;
    var u := if t[b].kind == List then Decided(t, b) else t;
    DecidedBits(t, b);
    TotalSame(t, u);
    ShutTotal(u, b, line, preserve);
  }

  lemma {:induction false} TotalSame(t: Store, u: Store)
    requires SameButBits(t, u)
    ensures TotalLines(u) == TotalLines(t)
  {
    if t != [] {
      TotalSame(Init(t), Init(u));
    }
  }

  lemma ShutTotal(t: Store, b: nat, line: Line, preserve: bool)
    requires Tree(t) && b < |t|
    ensures TotalLines(Shut(t, b, line, preserve)) == TotalLines(t)
  {
    hide KidsOk;
    var c := t[b].(open := false, finals := t[b].finals + 1);
    TotalSet(t, b, c);
    var d := c.(freed := true, parent := -1);
    TotalSet(t, b, d);
    if c.parent >= 0 {
      var u := t[b := d];
      TotalSet(u, c.parent, u[c.parent].(children := Minus(u[c.parent].children, b)));
    }
  }

  lemma PushTotal(m: Mid, kind: Kind, fenced: bool)
    requires m.spine != [] && Last(m.spine) < |m.t|
    ensures TotalLines(Push(m, kind, fenced).t) == TotalLines(m.t)
  {
    var p := Last(m.spine);
    var t := m.t + [NewBlock(kind, fenced, p)];
    assert Init(t) == m.t;
    TotalSet(t, p, t[p].(children := t[p].children + [|m.t|]));
  }

  lemma {:induction false} AddChildTotal(m: Mid, kind: Kind, fenced: bool, line: Line, preserve: bool)
    requires MidOk(m) && MayAdd(m, kind)
    ensures TotalLines(AddChild(m, kind, fenced, line, preserve).t) == TotalLines(m.t)
    decreases |m.spine|
  {
    if CanContain(m.t[Last(m.spine)].kind, kind) {
      PushTotal(m, kind, fenced);
    } else {
      CloseEndOk(m, line, preserve);
      FinalizedTotal(m.t, Last(m.spine), line, preserve);
      AddChildTotal(CloseEnd(m, line, preserve), kind, fenced, line, preserve);
    }
  }

  lemma AddItemTotal(m: Mid, joins: bool, line: Line, preserve: bool)
    requires MidOk(m)
    ensures TotalLines(AddItem(m, joins, line, preserve).t) == TotalLines(m.t)
  {
    hide AddChild, TotalLines;
    var list := if m.t[Last(m.spine)].kind == List && joins then m else AddChild(m, List, false, line, preserve);
    if list != m { AddChildTotal(m, List, false, line, preserve); }
    AddChildTotal(list, Item, false, line, preserve);
  }

  lemma OpenOneTotal(m: Mid, s: Start, depth: nat, allMatched: bool, maybeLazy: bool, line: Line, preserve: bool)
    requires MidOk(m) && ValidStart(s)
    ensures TotalLines(OpenOne(m, s, depth, allMatched, maybeLazy, line, preserve).0.t) == TotalLines(m.t)
  {
    hide AddChild, AddItem, TotalLines;
    match s
    case Opens(kind, fenced) => AddChildTotal(m, kind, fenced, line, preserve);
    case Underline(content) =>
      var c := Last(m.spine);
      TotalSet(m.t, c, m.t[c].(kind := Heading));
    case Marker(joins) => AddItemTotal(m, joins, line, preserve);
    case Indented => AddChildTotal(m, CodeBlock, false, line, preserve);
  }

  lemma {:induction false} OpenNewTotal(m: Mid, starts: seq<Start>, depth: nat, allMatched: bool, maybeLazy: bool, line: Line, preserve: bool)
    requires MidOk(m) && forall i :: 0 <= i < |starts| ==> ValidStart(starts[i])
    ensures TotalLines(OpenNew(m, starts, depth, allMatched, maybeLazy, line, preserve).t) == TotalLines(m.t)
    decreases |starts|
  {
    hide MidOk, OpenOne, TotalLines;
    if starts != [] {
      var r := OpenOne(m, starts[0], depth, allMatched, maybeLazy, line, preserve).0;
      OpenOneTotal(m, starts[0], depth, allMatched, maybeLazy, line, preserve);
      OpenNewTotal(r, starts[1..], depth + 1, allMatched, false, line, preserve);
    }
  }

  lemma {:induction false} CloseAllLeftTotal(m: Mid, line: Line, preserve: bool)
    requires MidOk(m)
    ensures TotalLines(CloseAllLeft(m, line, preserve).t) == TotalLines(m.t)
    decreases |m.left|
  {
    if m.left != [] {
      CloseLeftOk(m, line, preserve);
      FinalizedTotal(m.t, Last(m.left), line, preserve);
      CloseAllLeftTotal(CloseLeft(m, line, preserve), line, preserve);
    }
  }

  lemma AddLineTotal(t: Store, b: nat)
    requires b < |t|
    ensures TotalLines(AddLine(t, b)) == TotalLines(t) + 1
  {
    TotalSet(t, b, t[b].(lines := t[b].lines + 1));
  }

  /** Does the block that gets a line keep it although it is blank? */
  predicate Verbatim(kind: Kind) { kind == CodeBlock || kind == HtmlBlock }

  lemma AddTextTotal(m: Mid, line: Line, preserve: bool)
    requires MidOk(m)
    ensures var n := CloseAllLeft(m, line, preserve);
            TotalLines(AddText(m, line, preserve).0) == TotalLines(m.t)
              + (if Verbatim(n.t[Last(n.spine)].kind) || !line.blank || preserve then 1 else 0)
  {
    hide AddChild, TotalLines, CloseAllLeft;
    CloseAllLeftTotal(m, line, preserve);
    var n := CloseAllLeft(m, line, preserve);
    var c := Last(n.spine);
    AddLineTotal(n.t, c);
    if n.t[c].kind == HtmlBlock {
      if line.htmlEnd {
        LineKeeps(n, c);
        FinalizedTotal(AddLine(n.t, c), c, line, preserve);
      }
    } else if n.t[c].kind != CodeBlock && !AcceptsLines(n.t[c].kind) && (!line.blank || preserve) {
      AddChildTotal(n, Paragraph, false, line, preserve);
      var p := AddChild(n, Paragraph, false, line, preserve);
      AddLineTotal(p.t, Last(p.spine));
    }
  }

  /** A line that ends a fenced code block. */
  ghost predicate EndsFence(t: Store, path: seq<nat>, line: Line)
    requires Valid(t, path)
  {
    var j := MatchDepth(t, path, line, 0);
    j + 1 < |path| && ClosesFence(t[path[j + 1]], j + 1, line)
  }

  /** A line that is not blank and does not end a fence is added to exactly one block; no line to two. */
  lemma LineGoesToOneBlock(t: Store, path: seq<nat>, line: Line, preserve: bool)
    requires Valid(t, path) && ValidLine(line)
    ensures var u := ProcessLine(t, path, line, preserve).0;
            && TotalLines(t) <= TotalLines(u) <= TotalLines(t) + 1
            && (EndsFence(t, path, line) ==> TotalLines(u) == TotalLines(t))
            && (!EndsFence(t, path, line) && (!line.blank || preserve) ==> TotalLines(u) == TotalLines(t) + 1)
  {
    hide TotalLines, OpenNew, AddText;
    var j := MatchDepth(t, path, line, 0);
    if EndsFence(t, path, line) {
      CodeIsLast(t, path, j + 1);
      FinalizedTotal(t, Last(path), line, preserve);
    } else {
      RestTotal(t, path, j, line, preserve);
    }
  }

  lemma RestTotal(t: Store, path: seq<nat>, j: nat, line: Line, preserve: bool)
    requires Valid(t, path) && ValidLine(line) && j < |path|
    ensures var u := RestOfLine(t, path, j, line, preserve).0;
            && TotalLines(t) <= TotalLines(u) <= TotalLines(t) + 1
            && (!line.blank || preserve ==> TotalLines(u) == TotalLines(t) + 1)
  {
    hide TotalLines, OpenNew, AddText, Valid;
    var m := Matched(t, path, j);
    var paragraph := t[Last(path)].kind == Paragraph;
    OpenNewTotal(m, line.starts, 1, j + 1 == |path|, paragraph, line, preserve);
    var o := OpenNew(m, line.starts, 1, j + 1 == |path|, paragraph, line, preserve);
    var r := NotedMid(o, line, |t|);
    TotalSame(o.t, r.t);
    if IsLazy(r, line, preserve) {
      AddLineTotal(r.t, Last(r.left));
    } else {
      AddTextTotal(r, line, preserve);
    }
  }
}
