/** Where things come to stand: the parent of a new block, what a block start opens, which blocks a line goes on
    with, and which block gets it. */
module BlockPlaces {
  import opened NodeKinds
  import opened Lists
  import opened Blocks
  import opened ListTight
  import opened BlockParser

  // ---------------------------------------------------------------- a child

  /** Blocks that hold paragraphs, headings, lists and other blocks. */
  predicate HoldsBlocks(kind: Kind) {
    kind in {Document, BlockQuote, FootnoteDefinition, Item, CustomBlock}
  }

  /** Block `|m.t|` is new, under the block at depth `d` of the path; just the blocks below that are finalized. */
  ghost predicate PlacedUnder(m: Mid, d: nat, kind: Kind, fenced: bool, r: Mid) {
    && d < |m.spine| && |r.t| == |m.t| + 1
    && r.spine == m.spine[..d + 1] + [|m.t|]
    && r.t[|m.t|].kind == kind && r.t[|m.t|].fenced == fenced && r.t[|m.t|].parent == m.spine[d] && r.t[|m.t|].open
    && r.t[|m.t|].lines == 0 && r.t[|m.t|].children == []
    && forall b :: 0 <= b < |m.t| ==>
         (&& r.t[b].finals == m.t[b].finals + (if b in m.spine[d + 1..] then 1 else 0)
          && r.t[b].open == (m.t[b].open && b !in m.spine[d + 1..])
          && r.t[b].kind == m.t[b].kind && r.t[b].fenced == m.t[b].fenced && r.t[b].lines == m.t[b].lines)
  }

  /** The deepest block of the path that may hold it; of an item, the list that ends the path. */
  ghost predicate Deepest(m: Mid, d: nat, kind: Kind) {
    && d < |m.spine| && (forall k :: 0 <= k < |m.spine| ==> m.spine[k] < |m.t|)
    && if kind == Item then d == |m.spine| - 1 && m.t[m.spine[d]].kind == List
       else HoldsBlocks(m.t[m.spine[d]].kind) && forall k :: d < k < |m.spine| ==> !HoldsBlocks(m.t[m.spine[k]].kind)
  }

  lemma EndHolds(m: Mid, kind: Kind)
    requires MidOk(m) && MayAdd(m, kind)
    ensures CanContain(m.t[Last(m.spine)].kind, kind) <==> kind == Item || HoldsBlocks(m.t[Last(m.spine)].kind)
  {
    hide Tree, Counted, Hanging;
  }

  /** What one closing changes besides links and flags. */
  ghost predicate JustClosed(m: Mid, n: Mid) {
    && |m.spine| >= 2 && |n.t| == |m.t| && n.spine == Init(m.spine)
    && var e := Last(m.spine);
       e !in n.spine && forall b :: 0 <= b < |m.t| ==>
         (&& n.t[b].finals == m.t[b].finals + (if b == e then 1 else 0) && n.t[b].open == (m.t[b].open && b != e)
          && n.t[b].kind == m.t[b].kind && n.t[b].fenced == m.t[b].fenced && n.t[b].lines == m.t[b].lines)
  }

  lemma ClosedOnly(m: Mid, line: Line, preserve: bool)
    requires MidOk(m) && |m.spine| >= 2 && Last(m.spine) < |m.t| && m.t[Last(m.spine)].parent < Last(m.spine)
    ensures JustClosed(m, CloseEnd(m, line, preserve))
  {
    hide Decided, Tree, Counted, Spine, Hanging, Minus;
    DecidedBits(m.t, Last(m.spine));
    LastIsNew(m);
  }

  /** `add_child`: the child stands there, and just what is below is finalized. */
  lemma {:induction false} AddChildPlace(m: Mid, kind: Kind, fenced: bool, line: Line, preserve: bool) returns (d: nat)
    requires MidOk(m) && MayAdd(m, kind)
    ensures Deepest(m, d, kind) && PlacedUnder(m, d, kind, fenced, AddChild(m, kind, fenced, line, preserve))
    decreases |m.spine|
  {
    hide MidOk, MayAdd, CanContain, CloseEnd, Push, AddChild, Finalized;
    SpineBlocks(m);
    EndHolds(m, kind);
    AddChildStep(m, kind, fenced, line, preserve);
    if CanContain(m.t[Last(m.spine)].kind, kind) {
      d := |m.spine| - 1;
      PushPlace(m, kind, fenced);
      ItemInList(m, kind);
    } else {
      ClosedOnly(m, line, preserve);
      var n := CloseEnd(m, line, preserve);
      d := AddChildPlace(n, kind, fenced, line, preserve);
      CarryPlace(m, n, d, kind, fenced, AddChild(m, kind, fenced, line, preserve));
    }
  }

  lemma SpineBlocks(m: Mid)
    requires MidOk(m)
    ensures m.spine != [] && forall k :: 0 <= k < |m.spine| ==> m.spine[k] < |m.t|
  {
  }

  lemma ItemInList(m: Mid, kind: Kind)
    requires MidOk(m) && MayAdd(m, kind)
    ensures m.spine != [] && Last(m.spine) < |m.t| && (kind == Item ==> m.t[Last(m.spine)].kind == List)
  {
  }

  lemma PushPlace(m: Mid, kind: Kind, fenced: bool)
    requires MidOk(m) && Last(m.spine) < |m.t|
    ensures PlacedUnder(m, |m.spine| - 1, kind, fenced, Push(m, kind, fenced))
  {
    hide Tree, Counted, Hanging;
    assert m.spine[..|m.spine|] == m.spine && m.spine[|m.spine|..] == [];
  }

  lemma CarryPlace(m: Mid, n: Mid, d: nat, kind: Kind, fenced: bool, r: Mid)
    requires JustClosed(m, n) && PlacedUnder(n, d, kind, fenced, r) && Deepest(n, d, kind) && kind != Item
    requires Last(m.spine) < |m.t| && !HoldsBlocks(m.t[Last(m.spine)].kind)
    ensures Deepest(m, d, kind) && PlacedUnder(m, d, kind, fenced, r)
  {
    assert m.spine[..d + 1] == n.spine[..d + 1];
    assert m.spine[d + 1..] == n.spine[d + 1..] + [Last(m.spine)];
    InitElements(m.spine[d + 1..]);
    assert Init(m.spine[d + 1..]) == n.spine[d + 1..];
    assert Last(m.spine) !in n.spine[d + 1..];
  }

  // ---------------------------------------------------------------- what a block start opens

  /** Lists go on with items that join them, at the end of the path. */
  ghost predicate ItemPlaced(m: Mid, joins: bool, r: Mid) {
    && m.spine != [] && Last(m.spine) < |m.t|
    && if joins && m.t[Last(m.spine)].kind == List
       then PlacedUnder(m, |m.spine| - 1, Item, false, r)
       else exists d: nat :: Deepest(m, d, List) && |r.t| == |m.t| + 2
              && r.t[|m.t|].kind == List && r.t[|m.t|].parent == m.spine[d] && r.t[|m.t|].open && r.t[|m.t|].children == [|m.t| + 1]
              && r.t[|m.t| + 1].kind == Item && r.t[|m.t| + 1].parent == |m.t|
              && r.spine == m.spine[..d + 1] + [|m.t|, |m.t| + 1]
  }

  lemma AddItemPlace(m: Mid, joins: bool, line: Line, preserve: bool)
    requires MidOk(m)
    ensures ItemPlaced(m, joins, AddItem(m, joins, line, preserve))
  {
    hide MidOk, AddChild, PlacedUnder, Deepest;
    SpineBlocks(m);
    var r := AddItem(m, joins, line, preserve);
    if m.t[Last(m.spine)].kind == List && joins {
      JoinPlace(m, line, preserve);
    } else {
      ListMayGo(m);
      var d := AddChildPlace(m, List, false, line, preserve);
      var list := AddChild(m, List, false, line, preserve);
      SpineBlocks(list);
      JoinPlace(list, line, preserve);
      ItemUnderList(m, d, list, r);
    }
  }

  /** An item that joins the open list at the end of the path becomes its next child; nothing is closed. */
  lemma ItemJoins(m: Mid, depth: nat, allMatched: bool, maybeLazy: bool, line: Line, preserve: bool)
    requires MidOk(m) && Last(m.spine) < |m.t| && m.t[Last(m.spine)].kind == List && depth < 100
    ensures var r, l := OpenOne(m, Marker(true), depth, allMatched, maybeLazy, line, preserve), Last(m.spine);
            && r.1 && |r.0.t| == |m.t| + 1 && r.0.spine == m.spine + [|m.t|]
            && r.0.t[|m.t|].kind == Item && r.0.t[|m.t|].parent == l && r.0.t[l].children == m.t[l].children + [|m.t|]
            && forall b :: 0 <= b < |m.t| ==> r.0.t[b].open == m.t[b].open && r.0.t[b].finals == m.t[b].finals
  {
    hide MidOk, AddChild;
    SpineBlocks(m);
    JoinPlace(m, line, preserve);
    assert m.spine[|m.spine|..] == [];
  }

  lemma ListMayGo(m: Mid)
    requires MidOk(m)
    ensures MayAdd(m, List)
  {
  }

  lemma JoinPlace(m: Mid, line: Line, preserve: bool)
    requires MidOk(m) && Last(m.spine) < |m.t| && m.t[Last(m.spine)].kind == List
    ensures MayAdd(m, Item)
    ensures var r := AddChild(m, Item, false, line, preserve);
            PlacedUnder(m, |m.spine| - 1, Item, false, r) && r.spine == m.spine + [|m.t|]
            && r.t[Last(m.spine)].children == m.t[Last(m.spine)].children + [|m.t|]
            && forall b :: 0 <= b < |m.t| ==> r.t[b].parent == m.t[b].parent
  {
    hide MidOk, AddChild;
    AddChildStep(m, Item, false, line, preserve);
    PushPlace(m, Item, false);
    PushedLast(m, Item);
  }

  lemma PushedLast(m: Mid, kind: Kind)
    requires m.spine != [] && Last(m.spine) < |m.t|
    ensures var r, p := Push(m, kind, false), Last(m.spine);
            && |r.t| > p && r.spine == m.spine + [|m.t|] && r.t[p].children == m.t[p].children + [|m.t|]
            && forall b :: 0 <= b < |m.t| ==> r.t[b].parent == m.t[b].parent
  {
  }

  lemma ItemUnderList(m: Mid, d: nat, list: Mid, r: Mid)
    requires m.spine != [] && Last(m.spine) < |m.t| && Deepest(m, d, List) && PlacedUnder(m, d, List, false, list)
    requires list.spine != [] && PlacedUnder(list, |list.spine| - 1, Item, false, r) && r.spine == list.spine + [|list.t|]
    requires Last(list.spine) < |r.t| && r.t[Last(list.spine)].children == list.t[Last(list.spine)].children + [|list.t|]
    requires Last(list.spine) == |m.t| && r.t[|m.t|].parent == list.t[|m.t|].parent
    ensures Deepest(m, d, List) && |r.t| == |m.t| + 2
            && r.t[|m.t|].kind == List && r.t[|m.t|].parent == m.spine[d] && r.t[|m.t|].open && r.t[|m.t|].children == [|m.t| + 1]
            && r.t[|m.t| + 1].kind == Item && r.t[|m.t| + 1].parent == |m.t|
            && r.spine == m.spine[..d + 1] + [|m.t|, |m.t| + 1]
  {
  }

  /** What one block start does, in terms of the container the path ends with. */
  ghost predicate StartPlaced(m: Mid, s: Start, depth: nat, allMatched: bool, maybeLazy: bool, r: Mid, started: bool) {
    && m.spine != [] && Last(m.spine) < |m.t|
    && var cont := m.t[Last(m.spine)].kind;
    match s
    case Opens(kind, fenced) =>
      && (started <==> !(kind == ThematicBreak && cont == Paragraph && !allMatched) && !(kind == FootnoteDefinition && depth >= 100))
      && if started then exists d: nat :: Deepest(m, d, kind) && PlacedUnder(m, d, kind, fenced, r) else r == m
    case Underline(content) =>
      && (started <==> cont == Paragraph)
      && r == if started && content then m.(t := m.t[Last(m.spine) := m.t[Last(m.spine)].(kind := Heading)]) else m
    case Marker(joins) =>
      && (started <==> depth < 100) && if started then ItemPlaced(m, joins, r) else r == m
    case Indented =>
      && (started <==> !maybeLazy)
      && if started then exists d: nat :: Deepest(m, d, CodeBlock) && PlacedUnder(m, d, CodeBlock, false, r) else r == m
  }

  lemma OpenOnePlace(m: Mid, s: Start, depth: nat, allMatched: bool, maybeLazy: bool, line: Line, preserve: bool)
    requires MidOk(m) && ValidStart(s)
    ensures var r := OpenOne(m, s, depth, allMatched, maybeLazy, line, preserve); StartPlaced(m, s, depth, allMatched, maybeLazy, r.0, r.1)
  {
    hide MidOk, AddChild, AddItem, Deepest, PlacedUnder, ItemPlaced;
    SpineBlocks(m);
    match s
    case Opens(kind, fenced) => var d := AddChildPlace(m, kind, fenced, line, preserve);
    case Underline(content) =>
    case Marker(joins) => AddItemPlace(m, joins, line, preserve);
    case Indented => var d := AddChildPlace(m, CodeBlock, false, line, preserve);
  }

  // ---------------------------------------------------------------- what the starts of a line leave alone

  /** Blocks that were there keep their lines, new ones have none; and kinds stay, but that a paragraph that ends
      the path may become a heading. */
  ghost predicate LinesKept(m: Mid, r: Mid) {
    && |r.t| >= |m.t| && m.spine != [] && r.spine != [] && r.left == m.left && r.top == m.top
    && (forall b :: 0 <= b < |r.t| ==> r.t[b].lines == if b < |m.t| then m.t[b].lines else 0)
    && forall b :: 0 <= b < |m.t| ==>
         (r.t[b].kind == m.t[b].kind
          || (m.t[b].kind == Paragraph && r.t[b].kind == Heading && b == Last(m.spine) == Last(r.spine) && r.spine == m.spine))
  }

  lemma ChildKeeps(m: Mid, kind: Kind, fenced: bool, line: Line, preserve: bool)
    requires MidOk(m) && MayAdd(m, kind)
    ensures var r := AddChild(m, kind, fenced, line, preserve); LinesKept(m, r) && Last(r.spine) == |m.t|
  {
    hide MidOk, MayAdd, AddChild, Deepest;
    var d := AddChildPlace(m, kind, fenced, line, preserve);
    SpineBlocks(m);
  }

  lemma KeepsOn(m: Mid, n: Mid, r: Mid)
    requires LinesKept(m, n) && LinesKept(n, r) && (n == m || Last(n.spine) >= |m.t|)
    ensures LinesKept(m, r)
  {
  }

  lemma StartKeeps(m: Mid, s: Start, depth: nat, allMatched: bool, maybeLazy: bool, line: Line, preserve: bool)
    requires MidOk(m) && ValidStart(s)
    ensures LinesKept(m, OpenOne(m, s, depth, allMatched, maybeLazy, line, preserve).0)
  {
    hide MidOk, AddChild, LinesKept;
    SpineBlocks(m);
    match s
    case Opens(kind, fenced) => ChildKeeps(m, kind, fenced, line, preserve); SameKeeps(m);
    case Underline(content) => SameKeeps(m); HeadingKeeps(m);
    case Marker(joins) => SameKeeps(m); ItemKeeps(m, joins, line, preserve);
    case Indented => ChildKeeps(m, CodeBlock, false, line, preserve); SameKeeps(m);
  }

  lemma SameKeeps(m: Mid)
    requires m.spine != []
    ensures LinesKept(m, m)
  {
  }

  lemma HeadingKeeps(m: Mid)
    requires MidOk(m)
    ensures m.spine != [] && Last(m.spine) < |m.t| && (m.t[Last(m.spine)].kind == Paragraph ==> LinesKept(m, SetHeading(m)))
  {
  }

  lemma ItemKeeps(m: Mid, joins: bool, line: Line, preserve: bool)
    requires MidOk(m)
    ensures LinesKept(m, AddItem(m, joins, line, preserve))
  {
    hide MidOk, AddChild, LinesKept;
    SpineBlocks(m);
    if m.t[Last(m.spine)].kind == List && joins {
      ChildKeeps(m, Item, false, line, preserve);
    } else {
      ListMayGo(m);
      ChildKeeps(m, List, false, line, preserve);
      var list := AddChild(m, List, false, line, preserve);
      ChildKeeps(list, Item, false, line, preserve);
      KeepsOn(m, list, AddChild(list, Item, false, line, preserve));
    }
  }

  lemma {:induction false} StartsKeep(m: Mid, starts: seq<Start>, depth: nat, allMatched: bool, maybeLazy: bool, line: Line, preserve: bool)
    requires MidOk(m) && forall i :: 0 <= i < |starts| ==> ValidStart(starts[i])
    ensures LinesKept(m, OpenNew(m, starts, depth, allMatched, maybeLazy, line, preserve))
    decreases |starts|
  {
    hide MidOk, OpenOne, LinesKept;
    SpineBlocks(m);
    SameKeeps(m);
    if starts != [] {
      var r := OpenOne(m, starts[0], depth, allMatched, maybeLazy, line, preserve).0;
      StartKeeps(m, starts[0], depth, allMatched, maybeLazy, line, preserve);
      SpineBlocks(r);
      if !AcceptsLines(r.t[Last(r.spine)].kind) && Last(r.spine) >= |m.t| {
        StartsKeep(r, starts[1..], depth + 1, allMatched, false, line, preserve);
        KeepsOn(m, r, OpenNew(r, starts[1..], depth + 1, allMatched, false, line, preserve));
      }
    }
  }

  // ---------------------------------------------------------------- which block gets the line

  ghost predicate NoLine(t: Store, u: Store) {
    |u| >= |t| && forall b :: 0 <= b < |u| ==> u[b].lines == if b < |t| then t[b].lines else 0
  }

  /** One more line for `c`, and for no other block. */
  ghost predicate LineTo(t: Store, u: Store, c: nat) {
    |u| >= |t| && c < |u| && forall b :: 0 <= b < |u| ==> u[b].lines == (if b < |t| then t[b].lines else 0) + (if b == c then 1 else 0)
  }

  /** A new paragraph, under the deepest block of the path that holds blocks, with the line. */
  ghost predicate ParagraphTo(m: Mid, u: Store, path: seq<nat>) {
    && LineTo(m.t, u, |m.t|) && |u| == |m.t| + 1 && u[|m.t|].kind == Paragraph
    && exists d: nat :: Deepest(m, d, Paragraph) && u[|m.t|].parent == m.spine[d] && path == m.spine[..d + 1] + [|m.t|]
  }

  /** Where a line goes that is no lazy continuation: by the kind of the container. */
  ghost predicate TextPlaced(m: Mid, line: Line, preserve: bool, u: Store, path: seq<nat>) {
    && m.spine != [] && Last(m.spine) < |m.t| && |u| >= |m.t|
    && (forall b :: b in m.left ==> b < |u| && !u[b].open) && KindsKept(m.t, u)
    && var c := Last(m.spine);
       var kind := m.t[c].kind;
       if kind == CodeBlock then LineTo(m.t, u, c) && path == m.spine
       else if kind == HtmlBlock then LineTo(m.t, u, c) && path == if line.htmlEnd then Init(m.spine) else m.spine
       else if line.blank && !preserve then NoLine(m.t, u) && path == m.spine
       else if kind == Paragraph || kind == Heading then LineTo(m.t, u, c) && path == m.spine
       else ParagraphTo(m, u, path)
  }

  ghost predicate KindsKept(t: Store, u: Store) {
    |u| >= |t| && forall b :: 0 <= b < |t| ==> u[b].kind == t[b].kind
  }

  /** The same blocks, but for flags, links and what is open. */
  ghost predicate SameLines(t: Store, u: Store) {
    |u| == |t| && forall b :: 0 <= b < |t| ==> u[b].kind == t[b].kind && u[b].lines == t[b].lines
  }

  lemma ClosedLines(t: Store, b: nat, line: Line, preserve: bool)
    requires b < |t| && t[b].parent < b
    ensures SameLines(t, Finalized(t, b, line, preserve))
  {
    hide Decided, Minus;
    DecidedBits(t, b);
  }

  lemma {:induction false} CloseAllLines(m: Mid, line: Line, preserve: bool)
    requires MidOk(m)
    ensures SameLines(m.t, CloseAllLeft(m, line, preserve).t)
    decreases |m.left|
  {
    hide MidOk, Finalized;
    if m.left != [] {
      CloseLeftOk(m, line, preserve);
      ClosedLines(m.t, Last(m.left), line, preserve);
      CloseAllLines(CloseLeft(m, line, preserve), line, preserve);
    }
  }

  lemma AddTextPlace(m: Mid, line: Line, preserve: bool)
    requires MidOk(m)
    ensures var r := AddText(m, line, preserve); TextPlaced(m, line, preserve, r.0, r.1)
  {
    hide MidOk, AddChild, CloseAllLeft, CloseEnd, ParagraphTo, AddLine, LineTo, NoLine, SameLines, KindsKept;
    CloseAllLines(m, line, preserve);
    var n, r := CloseAllLeft(m, line, preserve), AddText(m, line, preserve);
    SpineBlocks(n);
    var c := Last(n.spine);
    SameKind(m.t, n.t, c);
    LineKeeps(n, c);
    AddedLine(m.t, n.t, c);
    if n.t[c].kind == HtmlBlock {
      if line.htmlEnd { HtmlPlaced(m.t, n, line, preserve); }
    } else if n.t[c].kind != CodeBlock && !AcceptsLines(n.t[c].kind) && (!line.blank || preserve) {
      NewParagraph(m, n, line, preserve);
    }
    TextSize(m, r.0, r.1, c);
    PathWithin(m, r.0, r.1);
    LeftClosed(m, r.0, r.1);
  }

  lemma SameKind(t: Store, u: Store, c: nat)
    requires SameLines(t, u) && c < |u|
    ensures |u| == |t| && u[c].kind == t[c].kind
  {
  }

  lemma TextSize(m: Mid, u: Store, path: seq<nat>, c: nat)
    requires LineTo(m.t, u, c) || NoLine(m.t, u) || ParagraphTo(m, u, path)
    ensures |u| >= |m.t|
  {
  }

  lemma HtmlPlaced(t: Store, n: Mid, line: Line, preserve: bool)
    requires MidOk(n) && n.left == [] && n.spine != [] && Last(n.spine) < |n.t| && n.t[Last(n.spine)].kind == HtmlBlock && SameLines(t, n.t)
    ensures var u := n.(t := AddLine(n.t, Last(n.spine)));
            && |n.spine| >= 2 && MidOk(u) && Last(u.spine) < |u.t| && u.t[Last(u.spine)].parent < Last(u.spine)
            && LineTo(t, CloseEnd(u, line, preserve).t, Last(n.spine)) && KindsKept(t, CloseEnd(u, line, preserve).t) && CloseEnd(u, line, preserve).spine == Init(n.spine)
  {
    hide MidOk, Finalized;
    var c := Last(n.spine);
    HtmlIsNoRoot(n);
    CloseEndOk(n.(t := AddLine(n.t, c)), line, preserve);
    ClosedLines(AddLine(n.t, c), c, line, preserve);
  }

  lemma AddedLine(t: Store, u: Store, c: nat)
    requires SameLines(t, u) && c < |u|
    ensures LineTo(t, AddLine(u, c), c) && NoLine(t, u) && KindsKept(t, u) && KindsKept(t, AddLine(u, c))
  {
  }

  lemma NewParagraph(m: Mid, n: Mid, line: Line, preserve: bool)
    requires MidOk(m) && MidOk(n) && n.spine == m.spine && SameLines(m.t, n.t)
    ensures MayAdd(n, Paragraph)
    ensures var p := AddChild(n, Paragraph, false, line, preserve);
            ParagraphTo(m, AddLine(p.t, Last(p.spine)), p.spine) && KindsKept(m.t, AddLine(p.t, Last(p.spine)))
  {
    hide MidOk, AddChild;
    ParagraphMayGo(n);
    SpineBlocks(n);
    var d := AddChildPlace(n, Paragraph, false, line, preserve);
    assert Deepest(m, d, Paragraph);
  }

  /** What was not matched is closed: it is not on the path. */
  lemma LeftClosed(m: Mid, u: Store, path: seq<nat>)
    requires MidOk(m) && Valid(u, path) && |u| >= |m.t| && forall x :: x in path ==> x in m.spine || x == |m.t|
    ensures forall b :: b in m.left ==> b < |u| && !u[b].open
  {
    hide Tree, Counted, Spine;
    forall b | b in m.left ensures b < |m.t| && b !in m.spine {
      var i: nat :| i < |m.left| && m.left[i] == b;
      assert m.top < m.left[i];
    }
  }

  lemma PathWithin(m: Mid, u: Store, path: seq<nat>)
    requires path == m.spine || (m.spine != [] && path == Init(m.spine)) || ParagraphTo(m, u, path)
    ensures forall x :: x in path ==> x in m.spine || x == |m.t|
  {
    hide LineTo, Deepest;
  }

  // ---------------------------------------------------------------- a whole line

  /** What decides that a block goes on: containers, paragraphs and HTML by the prefix they find, code by its prefix
      or the lack of a closing fence; a heading never does, and lists, breaks and the document always do. */
  predicate GoesOnWith(b: Block, prefix: bool, closingFence: bool) {
    && b.kind != Heading
    && (b.kind in {BlockQuote, Item, FootnoteDefinition, Paragraph, HtmlBlock} ==> prefix)
    && (b.kind == CodeBlock && b.fenced ==> !closingFence) && (b.kind == CodeBlock && !b.fenced ==> prefix)
  }

  /** The line goes on with the open blocks down to depth `j`, and no further. */
  ghost predicate GoesDownTo(t: Store, path: seq<nat>, line: Line, j: nat) {
    && j < |path| && (forall k :: 0 <= k < |path| ==> path[k] < |t|)
    && (forall k :: 1 <= k <= j ==> GoesOnWith(t[path[k]], line.prefix(k), line.closesFence(k)))
    && (j + 1 < |path| ==> !GoesOnWith(t[path[j + 1]], line.prefix(j + 1), line.closesFence(j + 1)))
  }

  lemma {:induction false} DownTo(t: Store, path: seq<nat>, line: Line, i: nat, j: nat)
    requires GoesDownTo(t, path, line, j) && i <= j
    ensures MatchDepth(t, path, line, i) == j
    decreases j - i
  {
    if i < j { DownTo(t, path, line, i + 1, j); }
  }

  /** One line, from any scanner answers: `r` is what the starts of the line leave, `u` and `after` the store and the
      path behind it.  A closing fence closes its block.  Text that opens nothing, when the deepest open block is a
      paragraph that the line did not go on with, goes to that paragraph all the same; all blocks stay open.  Other
      text goes by the container that the starts have come to. */
  ghost predicate LinePlaced(t: Store, path: seq<nat>, line: Line, preserve: bool, j: nat, r: Mid, u: Store, after: seq<nat>)
    requires j < |path| && (forall k :: 0 <= k < |path| ==> path[k] < |t|) && r.spine != []
  {
    if j + 1 < |path| && t[path[j + 1]].kind == CodeBlock && t[path[j + 1]].fenced && line.closesFence(j + 1) then
      NoLine(t, u) && |u| == |t| && !u[path[j + 1]].open && after == path[..j + 1]
    else if j + 1 < |path| && Last(r.spine) == path[j] && t[Last(path)].kind == Paragraph && (!line.blank || preserve) then
      LineTo(t, u, Last(path)) && |u| == |t| && after == path
    else
      TextPlaced(r, line, preserve, u, after) && LinesKept(Mid(t, path[..j + 1], path[j + 1..], path[j]), r)
  }

  lemma WhereLineGoes(t: Store, path: seq<nat>, line: Line, preserve: bool, j: nat) returns (r: Mid)
    requires Valid(t, path) && ValidLine(line) && GoesDownTo(t, path, line, j)
    ensures var m := Mid(t, path[..j + 1], path[j + 1..], path[j]);
            MidOk(m) && r == OpenNew(m, line.starts, 1, j + 1 == |path|, t[Last(path)].kind == Paragraph, line, preserve) && r.spine != []
    ensures var s := ProcessLine(t, path, line, preserve); LinePlaced(t, path, line, preserve, j, r, s.0, s.1)
  {
    hide Valid, MidOk, OpenNew, RestOfLine, GoesOnWith, TextPlaced, LinesKept, CloseCurrent, NoLine, LineTo, MatchDepth;
    PathInRange(t, path);
    DownTo(t, path, line, 0, j);
    var m := Mid(t, path[..j + 1], path[j + 1..], path[j]);
    MatchedOk(t, path, j);
    r := OpenNew(m, line.starts, 1, j + 1 == |path|, t[Last(path)].kind == Paragraph, line, preserve);
    SpineBlocks(r);
    if j + 1 < |path| && ClosesFence(t[path[j + 1]], j + 1, line) {
      CodeIsLast(t, path, j + 1);
      FencePlaced(t, path, line, preserve);
    } else {
      StartsKeep(m, line.starts, 1, j + 1 == |path|, t[Last(path)].kind == Paragraph, line, preserve);
      RestPlaced(t, path, j, line, preserve, m, r);
    }
  }

  lemma FencePlaced(t: Store, path: seq<nat>, line: Line, preserve: bool)
    requires Valid(t, path) && |path| >= 2
    ensures var s := CloseCurrent(t, path, line, preserve);
            Last(path) < |t| && NoLine(t, s.0) && |s.0| == |t| && !s.0[Last(path)].open && s.1 == Init(path)
  {
    hide MidOk, Valid, Finalized, Spine;
    PathInRange(t, path);
    var m := Mid(t, path, [], Last(path));
    WholeOk(t, path);
    CloseEndOk(m, line, preserve);
    ClosedOnly(m, line, preserve);
  }

  lemma RestPlaced(t: Store, path: seq<nat>, j: nat, line: Line, preserve: bool, m: Mid, r: Mid)
    requires Valid(t, path) && ValidLine(line) && j < |path| && (forall k :: 0 <= k < |path| ==> path[k] < |t|)
    requires m == Mid(t, path[..j + 1], path[j + 1..], path[j]) && MidOk(m)
    requires r == OpenNew(m, line.starts, 1, j + 1 == |path|, t[Last(path)].kind == Paragraph, line, preserve) && LinesKept(m, r) && r.spine != []
    ensures var s := RestOfLine(t, path, j, line, preserve);
            if j + 1 < |path| && Last(r.spine) == path[j] && t[Last(path)].kind == Paragraph && (!line.blank || preserve)
            then LineTo(t, s.0, Last(path)) && |s.0| == |t| && s.1 == path
            else TextPlaced(r, line, preserve, s.0, s.1)
  {
    hide Valid, MidOk, OpenNew, TextPlaced, AddText, Noted, LineTo, AddLine;
    var n := NotedMid(r, line, |t|);
    LazyKind(m, r);
    SpineBlocks(n);
    if IsLazy(n, line, preserve) {
      LazyLine(t, r, n);
    } else {
      AddTextPlace(n, line, preserve);
      var s := AddText(n, line, preserve);
      NotedPlaced(r, n, line, preserve, s.0, s.1);
    }
  }

  /** The last block that was not matched is still what it was. */
  lemma LazyKind(m: Mid, r: Mid)
    requires MidOk(m) && MidOk(r) && LinesKept(m, r)
    ensures m.left != [] ==> Last(m.left) < |m.t| && Last(m.left) < |r.t| && r.t[Last(m.left)].kind == m.t[Last(m.left)].kind
  {
    hide Tree, Counted, Hanging;
    if m.left != [] {
      assert Last(m.left) in m.left && Last(m.spine) in m.spine;
      LeftRange(m);
    }
  }

  lemma LeftRange(m: Mid)
    requires MidOk(m) && m.left != []
    ensures Last(m.left) < |m.t|
  {
  }

  lemma LazyLine(t: Store, r: Mid, n: Mid)
    requires SameButBits(r.t, n.t) && |r.t| == |t| && r.left != [] && Last(r.left) < |t| && (forall b :: 0 <= b < |t| ==> r.t[b].lines == t[b].lines)
    ensures LineTo(t, AddLine(n.t, Last(r.left)), Last(r.left)) && |AddLine(n.t, Last(r.left))| == |t|
  {
  }

  /** Flags do not matter. */
  lemma NotedPlaced(r: Mid, n: Mid, line: Line, preserve: bool, u: Store, path: seq<nat>)
    requires SameButBits(r.t, n.t) && n.spine == r.spine && n.left == r.left && TextPlaced(n, line, preserve, u, path)
    ensures TextPlaced(r, line, preserve, u, path)
  {
    if ParagraphTo(n, u, path) {
      var d: nat :| Deepest(n, d, Paragraph) && u[|n.t|].parent == n.spine[d] && path == n.spine[..d + 1] + [|n.t|];
      assert Deepest(r, d, Paragraph);
      assert ParagraphTo(r, u, path);
    }
  }

  /** There is such a depth for every line. */
  lemma DepthFound(t: Store, path: seq<nat>, line: Line) returns (j: nat)
    requires Valid(t, path)
    ensures GoesDownTo(t, path, line, j)
  {
    hide Valid, PrefixMatches, GoesOnWith;
    PathInRange(t, path);
    j := MatchDepth(t, path, line, 0);
    forall k | 0 <= k < |path| ensures PrefixMatches(t[path[k]], k, line) <==> GoesOnWith(t[path[k]], line.prefix(k), line.closesFence(k)) {
      Prefixes(t[path[k]], k, line);
    }
  }

  lemma Prefixes(b: Block, k: nat, line: Line)
    ensures PrefixMatches(b, k, line) <==> GoesOnWith(b, line.prefix(k), line.closesFence(k))
  {
  }

  /** Where no block starts, the line goes on with the open blocks and then to the deepest of them by its kind. */
  lemma TextGoes(t: Store, path: seq<nat>, line: Line, preserve: bool, j: nat)
    requires Valid(t, path) && ValidLine(line) && GoesDownTo(t, path, line, j) && line.starts == []
    ensures var s, m, c := ProcessLine(t, path, line, preserve), Mid(t, path[..j + 1], path[j + 1..], path[j]), path[j];
            if j + 1 < |path| && t[path[j + 1]].kind == CodeBlock && t[path[j + 1]].fenced && line.closesFence(j + 1)
            then NoLine(t, s.0) && s.1 == path[..j + 1]
            else if j + 1 < |path| && t[Last(path)].kind == Paragraph && (!line.blank || preserve) then LineTo(t, s.0, Last(path)) && s.1 == path
            else TextPlaced(m, line, preserve, s.0, s.1)
  {
    hide Valid, MidOk, TextPlaced, GoesDownTo, NoLine, LineTo, ProcessLine, LinesKept;
    DepthRange(t, path, line, j);
    var r := WhereLineGoes(t, path, line, preserve, j);
    NoStarts(Mid(t, path[..j + 1], path[j + 1..], path[j]), 1, j + 1 == |path|, t[Last(path)].kind == Paragraph, line, preserve);
  }

  lemma DepthRange(t: Store, path: seq<nat>, line: Line, j: nat)
    requires GoesDownTo(t, path, line, j)
    ensures j < |path| && forall k :: 0 <= k < |path| ==> path[k] < |t|
  {
  }

  lemma NoStarts(m: Mid, depth: nat, allMatched: bool, maybeLazy: bool, line: Line, preserve: bool)
    requires MidOk(m)
    ensures OpenNew(m, [], depth, allMatched, maybeLazy, line, preserve) == m
  {
    hide MidOk;
  }

  /** Below a heading there are no blocks. */
  lemma {:induction false} BelowHeading(t: Store, path: seq<nat>, k: nat, i: nat)
    requires Valid(t, path) && k < i < |path| && path[k] < |t| && t[path[k]].kind == Heading && path[i] < |t|
    ensures IsInline(t[path[i]].kind)
    decreases i
  {
    SpineLink(t, path, i - 1);
    if k < i - 1 { BelowHeading(t, path, k, i - 1); }
  }

  /** A heading never has a second line: one that is open when a line begins is closed behind it, and has the lines
      it had. */
  lemma HeadingEnds(t: Store, path: seq<nat>, line: Line, preserve: bool, b: nat)
    requires Valid(t, path) && ValidLine(line) && b < |t| && t[b].kind == Heading && t[b].open
    ensures var u := ProcessLine(t, path, line, preserve).0; b < |u| && !u[b].open && u[b].lines == t[b].lines
  {
    var k := OnPath(t, path, b);
    hide Valid, MidOk, ProcessLine, OpenNew, TextPlaced, LinesKept, GoesDownTo;
    var j := DepthFound(t, path, line);
    HeadingOut(t, path, line, j, k);
    var r := WhereLineGoes(t, path, line, preserve, j);
    var s := ProcessLine(t, path, line, preserve);
    var m := Mid(t, path[..j + 1], path[j + 1..], path[j]);
    assert m.left[k - j - 1] == b && b in m.left;
    SpineBlocks(r);
    StartsKeep(m, line.starts, 1, j + 1 == |path|, t[Last(path)].kind == Paragraph, line, preserve);
    LeftOut(m, r, line, preserve, s.0, s.1, b);
  }

  lemma OnPath(t: Store, path: seq<nat>, b: nat) returns (k: nat)
    requires Valid(t, path) && b < |t| && t[b].open
    ensures k < |path| && path[k] == b
  {
    k :| k < |path| && path[k] == b;
  }

  /** The line does not go on with the heading, nor is there a fence or a paragraph to go on with. */
  lemma HeadingOut(t: Store, path: seq<nat>, line: Line, j: nat, k: nat)
    requires Valid(t, path) && GoesDownTo(t, path, line, j) && k < |path| && path[k] < |t| && t[path[k]].kind == Heading
    ensures j < k && (forall i :: 0 <= i < |path| ==> path[i] < |t|) && t[Last(path)].kind != Paragraph && t[path[j + 1]].kind != CodeBlock
  {
    hide Valid;
    PathInRange(t, path);
    DocumentOnTop(t, path);
    if k < |path| - 1 { BelowHeading(t, path, k, |path| - 1); }
    if t[path[j + 1]].kind == CodeBlock { CodeIsLast(t, path, j + 1); }
  }

  lemma DocumentOnTop(t: Store, path: seq<nat>)
    requires Valid(t, path)
    ensures path != [] && path[0] == ROOT < |t| && t[ROOT].kind == Document
  {
  }

  /** A block that was not matched gets no line, and is closed. */
  lemma LeftOut(m: Mid, r: Mid, line: Line, preserve: bool, u: Store, path: seq<nat>, b: nat)
    requires LinesKept(m, r) && MidOk(r) && TextPlaced(r, line, preserve, u, path) && b in m.left && b < |m.t|
    ensures b < |u| && !u[b].open && u[b].lines == m.t[b].lines
  {
    hide Spine, Tree, Counted, Hanging, Deepest;
    assert Last(r.spine) in r.spine;
  }

  /** After any starts, a heading, a code block or an HTML block among the new blocks is the last of them: no start
      is looked for inside it or behind it. */
  lemma {:induction false} OneLeaf(m: Mid, starts: seq<Start>, depth: nat, allMatched: bool, maybeLazy: bool, line: Line, preserve: bool)
    requires MidOk(m) && forall i :: 0 <= i < |starts| ==> ValidStart(starts[i])
    ensures var r := OpenNew(m, starts, depth, allMatched, maybeLazy, line, preserve);
            |r.t| >= |m.t| && forall b :: |m.t| <= b < |r.t| && r.t[b].kind in {Heading, CodeBlock, HtmlBlock} ==> b == |r.t| - 1 == Last(r.spine)
    decreases |starts|
  {
    hide MidOk, OpenOne, LinesKept, StartPlaced;
    SpineBlocks(m);
    if starts != [] && m.t[Last(m.spine)].kind != CodeBlock && m.t[Last(m.spine)].kind != HtmlBlock {
      var o := OpenOne(m, starts[0], depth, allMatched, maybeLazy, line, preserve);
      OpenOnePlace(m, starts[0], depth, allMatched, maybeLazy, line, preserve);
      OneOpened(m, starts[0], depth, allMatched, maybeLazy, o.0, o.1);
      SpineBlocks(o.0);
      if o.1 && !AcceptsLines(o.0.t[Last(o.0.spine)].kind) {
        var r := OpenNew(o.0, starts[1..], depth + 1, allMatched, false, line, preserve);
        StartsKeep(o.0, starts[1..], depth + 1, allMatched, false, line, preserve);
        OneLeaf(o.0, starts[1..], depth + 1, allMatched, false, line, preserve);
        if o.0.t[Last(o.0.spine)].kind == HtmlBlock { assert r == o.0; } else { OlderKinds(m, o.0, r); }
      }
    }
  }

  lemma OneOpened(m: Mid, s: Start, depth: nat, allMatched: bool, maybeLazy: bool, r: Mid, started: bool)
    requires ValidStart(s) && StartPlaced(m, s, depth, allMatched, maybeLazy, r, started)
    ensures |r.t| >= |m.t| && r.spine != []
    ensures forall b :: |m.t| <= b < |r.t| && r.t[b].kind in {Heading, CodeBlock, HtmlBlock} ==> b == |r.t| - 1 == Last(r.spine)
    ensures |r.t| > |m.t| ==> Last(r.spine) == |r.t| - 1
  {
    hide Deepest;
  }

  lemma OlderKinds(m: Mid, o: Mid, r: Mid)
    requires o.spine != [] && Last(o.spine) < |o.t| && |o.t| >= |m.t| && LinesKept(o, r) && !AcceptsLines(o.t[Last(o.spine)].kind) && o.t[Last(o.spine)].kind != HtmlBlock
    requires forall b :: |m.t| <= b < |o.t| && o.t[b].kind in {Heading, CodeBlock, HtmlBlock} ==> b == Last(o.spine)
    ensures forall b :: |m.t| <= b < |o.t| ==> r.t[b].kind !in {Heading, CodeBlock, HtmlBlock}
  {
  }

  // ---------------------------------------------------------------- from the first line

  /** A fresh document and a line with one `>`: the paragraph is in the quote. */
  lemma QuoteHolds(line: Line, preserve: bool)
    requires line.starts == [Opens(BlockQuote, false)] && !line.blank
    ensures Valid(FRESH_STORE, [ROOT]) && ValidLine(line)
    ensures var s := ProcessLine(FRESH_STORE, [ROOT], line, preserve);
            && |s.0| == 3 && s.1 == [0, 1, 2] && s.0[1].kind == BlockQuote && s.0[2].kind == Paragraph && s.0[2].parent == 1
            && s.0[0].children == [1] && s.0[1].children == [2] && s.0[2].lines == 1 && s.0[2].open && s.0[1].open
  {
    hide MidOk, ProcessLine, OpenNew, TextPlaced;
    var t, path := FRESH_STORE, [ROOT];
    FreshOpen();
    var r := WhereLineGoes(t, path, line, preserve, 0);
    var m := Mid(t, [ROOT], [], ROOT);
    assert path[..1] == [ROOT] && path[1..] == [];
    QuoteOpens(m, line, preserve);
    QuoteParagraph(r, line, preserve, ProcessLine(t, path, line, preserve).0, ProcessLine(t, path, line, preserve).1);
    var s := ProcessLine(t, path, line, preserve);
    ThreeDeep(s.0, s.1);
  }

  lemma FreshOpen()
    ensures Valid(FRESH_STORE, [ROOT])
  {
  }

  lemma QuoteOpens(m: Mid, line: Line, preserve: bool)
    requires MidOk(m) && m.spine == [ROOT] && |m.t| == 1 && m.left == [] && line.starts == [Opens(BlockQuote, false)] && ValidLine(line)
    requires m.t[ROOT].kind == Document
    ensures var r := OpenNew(m, line.starts, 1, true, false, line, preserve);
            r.spine == [0, 1] && |r.t| == 2 && r.t[0].kind == Document && r.t[1].kind == BlockQuote && r.left == [] && r.t[1].lines == 0
  {
    hide MidOk, OpenOne;
    var o := OpenOne(m, line.starts[0], 1, true, false, line, preserve);
    OpenOnePlace(m, line.starts[0], 1, true, false, line, preserve);
    NoStarts(o.0, 2, true, false, line, preserve);
    assert line.starts[1..] == [];
  }

  lemma QuoteParagraph(r: Mid, line: Line, preserve: bool, u: Store, path: seq<nat>)
    requires TextPlaced(r, line, preserve, u, path) && !line.blank
    requires r.spine == [0, 1] && |r.t| == 2 && r.t[0].kind == Document && r.t[1].kind == BlockQuote
    ensures |u| == 3 && path == [0, 1, 2] && u[1].kind == BlockQuote && u[2].kind == Paragraph && u[2].parent == 1 && u[2].lines == 1
  {
    var d: nat :| Deepest(r, d, Paragraph) && u[|r.t|].parent == r.spine[d] && path == r.spine[..d + 1] + [|r.t|];
    assert HoldsBlocks(r.t[r.spine[1]].kind);
    assert d == 1;
    assert r.spine[..2] == r.spine;
  }

  lemma ThreeDeep(u: Store, path: seq<nat>)
    requires Valid(u, path) && |u| == 3 && path == [0, 1, 2]
    ensures u[0].children == [1] && u[1].children == [2] && u[1].open && u[2].open
  {
    Kids(u, 0);
    Kids(u, 1);
    assert path[0] in path && path[1] in path && path[2] in path;
    SpineLink(u, path, 0);
    SpineLink(u, path, 1);
    forall i: nat | i < |u[0].children| ensures u[0].children[i] == 1 { Kid(u, 0, i); }
    forall i: nat | i < |u[1].children| ensures u[1].children[i] == 2 { Kid(u, 1, i); }
    JustOne(u[0].children, 1);
    JustOne(u[1].children, 2);
  }

  lemma JustOne(s: seq<nat>, x: nat)
    requires s != [] && Distinct(s) && forall i :: 0 <= i < |s| ==> s[i] == x
    ensures s == [x]
  {
    var k := |s| - 1;
    assert s[0] == s[k];
  }

  // ---------------------------------------------------------------- the flags

  /** `s` runs up by parents from its end to the root. */
  ghost predicate RunsUp(t: Store, s: seq<nat>) {
    && s != [] && (forall k :: 0 <= k < |s| ==> s[k] < |t|) && t[s[0]].parent < 0
    && forall k :: 0 <= k < |s| - 1 ==> t[s[k + 1]].parent == s[k] < s[k + 1]
  }

  lemma {:induction false} ClearIs(t: Store, s: seq<nat>, b: nat)
    requires RunsUp(t, s) && b < |t|
    ensures ClearAbove(t, Last(s))[b] == if b in Init(s) then t[b].(blank := false) else t[b]
    decreases |s|
  {
    if |s| > 1 {
      ClearIs(Flag(t, Last(Init(s)), false), Init(s), b);
      InitElements(Init(s));
    }
  }

  lemma SpineUp(m: Mid)
    requires MidOk(m)
    ensures RunsUp(m.t, m.spine)
  {
    hide Counted, Hanging;
    DocumentAlone(m.t);
    forall k | 0 <= k < |m.spine| - 1 ensures m.t[m.spine[k + 1]].parent == m.spine[k] < m.spine[k + 1] { SpineLink(m.t, m.spine, k); }
  }

  /** The flags that a line leaves. */
  lemma FlagsAre(r: Mid, line: Line, start: nat, b: nat)
    requires MidOk(r) && b < |r.t|
    ensures var c, u := Last(r.spine), NotedMid(r, line, start).t;
            && c < |r.t| && b < |u|
            && u[b] == r.t[b].(blank := if b == c then HeldAgainst(r.t, c, line, start)
                                        else if b in r.spine then false
                                        else if line.blank && r.t[c].children != [] && Last(r.t[c].children) == b then true
                                        else r.t[b].blank)
  {
    hide MidOk, ClearAbove;
    SpineUp(r);
    var c := Last(r.spine);
    var u := FlagLast(r.t, c, line.blank);
    var f := Flag(u, c, HeldAgainst(r.t, c, line, start));
    ClearIs(f, r.spine, b);
    InitElements(r.spine);
    LastIsNew(r);
    EndKids(r);
  }

  lemma EndKids(r: Mid)
    requires MidOk(r)
    ensures forall x :: x in r.t[Last(r.spine)].children ==> x < |r.t| && x !in r.spine
  {
    hide Counted, Hanging;
    var c := Last(r.spine);
    assert KidsOk(r.t, c);
    forall x | x in r.t[c].children ensures x < |r.t| && x !in r.spine {
      if x in r.spine {
        var k: nat :| k < |r.spine| && r.spine[k] == x;
        if k < |r.spine| - 1 { SpineAscends(r.t, r.spine, k, |r.spine| - 1); }
      }
    }
  }

  lemma DocumentAlone(t: Store)
    requires Tree(t)
    ensures t != [] && t[ROOT].parent < 0
  {
  }

  /** What a line leaves flagged: a blank line the last block in its container, and the container itself unless that
      is a quote, a heading, a break, a fenced block, or an item begun on this line and still empty; no line any
      block above. */
  lemma FlagsOfLine(r: Mid, line: Line, start: nat)
    requires MidOk(r)
    ensures Last(r.spine) < |r.t| && |NotedMid(r, line, start).t| == |r.t|
    ensures var u, c := NotedMid(r, line, start).t, Last(r.spine);
            && (u[c].blank <==> line.blank && r.t[c].kind !in {BlockQuote, Heading, ThematicBreak} && !(r.t[c].kind == CodeBlock && r.t[c].fenced)
                                && !(r.t[c].kind == Item && r.t[c].children == [] && c >= start))
            && (forall b :: b in Init(r.spine) ==> b < |u| && !u[b].blank)
            && forall b :: 0 <= b < |u| && b !in r.spine ==>
                 (u[b].blank <==> (line.blank && r.t[c].children != [] && Last(r.t[c].children) == b) || r.t[b].blank)
  {
    hide MidOk, Noted;
    SpineBlocks(r);
    InitElements(r.spine);
    LastIsNew(r);
    forall b: nat | b < |r.t|
      ensures NotedMid(r, line, start).t[b] == r.t[b].(blank := if b == Last(r.spine) then HeldAgainst(r.t, Last(r.spine), line, start)
                                                    else if b in r.spine then false
                                                    else if line.blank && r.t[Last(r.spine)].children != [] && Last(r.t[Last(r.spine)].children) == b then true
                                                    else r.t[b].blank)
    {
      FlagsAre(r, line, start, b);
    }
  }

  // ---------------------------------------------------------------- a block that is finalized

  /** Just a paragraph of definitions only is freed, unless white space is preserved: it loses its parent, and the
      parent loses it and no other child. */
  lemma FinalizedMeans(t: Store, b: nat, line: Line, preserve: bool)
    requires Tree(t) && b < |t| && t[b].open && !t[b].freed
    ensures t[b].parent < b
    ensures var u := Finalized(t, b, line, preserve);
            && |u| == |t| && !u[b].open && (u[b].freed <==> t[b].kind == Paragraph && line.definitionsOnly(b) && !preserve)
            && (u[b].freed ==> u[b].parent < 0)
            && (u[b].freed ==> forall p :: 0 <= p < |u| && p != t[b].parent ==> u[p].children == t[p].children)
            && (u[b].freed && t[b].parent >= 0 ==> forall c :: c in u[t[b].parent].children <==> c in t[t[b].parent].children && c != b)
            && (!u[b].freed ==> forall p :: 0 <= p < |u| ==> u[p].children == t[p].children && u[p].parent == t[p].parent)
  {
    hide Decided, KidsOk;
    OlderParent(t, b);
    DecidedBits(t, b);
  }

  /** Indented code in a new item, on the line after a paragraph: once the item is open the paragraph no longer counts. */
  lemma IndentedInItem(m: Mid, joins: bool, depth: nat, allMatched: bool, maybeLazy: bool, line: Line, preserve: bool)
    requires MidOk(m) && m.t[Last(m.spine)].kind !in {CodeBlock, HtmlBlock} && depth < 100
    ensures var r := OpenNew(m, [Marker(joins), Indented], depth, allMatched, maybeLazy, line, preserve);
            var n := |r.t|;
            && n >= |m.t| + 2 && r.t[n - 1].kind == CodeBlock && !r.t[n - 1].fenced && r.t[n - 2].kind == Item && r.t[n - 1].parent == n - 2
  {
    hide MidOk, OpenOne, StartPlaced;
    var starts := [Marker(joins), Indented];
    var o := OpenOne(m, starts[0], depth, allMatched, maybeLazy, line, preserve);
    OpenOnePlace(m, starts[0], depth, allMatched, maybeLazy, line, preserve);
    ItemEnds(m, joins, depth, allMatched, maybeLazy, o.0, o.1);
    SpineBlocks(o.0);
    var c := OpenOne(o.0, starts[1], depth + 1, allMatched, false, line, preserve);
    OpenOnePlace(o.0, starts[1], depth + 1, allMatched, false, line, preserve);
    CodeEnds(o.0, depth + 1, allMatched, c.0, c.1);
    SpineBlocks(c.0);
    assert starts[1..][0] == Indented;
  }

  lemma ItemEnds(m: Mid, joins: bool, depth: nat, allMatched: bool, maybeLazy: bool, r: Mid, started: bool)
    requires StartPlaced(m, Marker(joins), depth, allMatched, maybeLazy, r, started) && depth < 100
    ensures started && |r.t| >= |m.t| + 1 && r.spine != [] && Last(r.spine) == |r.t| - 1 && r.t[|r.t| - 1].kind == Item
  {
    hide Deepest;
  }

  lemma CodeEnds(m: Mid, depth: nat, allMatched: bool, r: Mid, started: bool)
    requires StartPlaced(m, Indented, depth, allMatched, false, r, started) && m.spine != [] && Last(m.spine) < |m.t| && m.t[Last(m.spine)].kind == Item
    ensures started && |r.t| == |m.t| + 1 && r.t[|m.t|].kind == CodeBlock && !r.t[|m.t|].fenced && r.t[|m.t|].parent == Last(m.spine)
    ensures r.spine == m.spine + [|m.t|] && r.t[Last(m.spine)].kind == Item
  {
    var d: nat :| Deepest(m, d, CodeBlock) && PlacedUnder(m, d, CodeBlock, false, r);
    assert HoldsBlocks(m.t[m.spine[|m.spine| - 1]].kind);
    assert d == |m.spine| - 1;
    assert m.spine[..d + 1] == m.spine;
  }
}
