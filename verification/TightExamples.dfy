/** Two texts for which a list comes out wrongly tight or loose. */
module TightExamples {
  import opened NodeKinds
  import opened Lists
  import opened Blocks
  import opened ListTight
  import opened BlockParser
  import opened BlockTight
  import opened BlockPlaces

  /** What is known of a block. */
  predicate Is(t: Store, b: nat, kind: Kind, open: bool, parent: int, kids: seq<nat>, blank: bool, checked: bool) {
    b < |t| && t[b].kind == kind && t[b].open == open && t[b].parent == parent && t[b].children == kids
    && t[b].blank == blank && t[b].checked == checked && !t[b].fenced
  }

  /** A line whose blocks at the depths of `prefix` find their prefixes; `definitions` are the paragraphs of definitions only. */
  function Text(prefix: set<nat>, starts: seq<Start>, blank: bool, definitions: set<nat>): Line {
    Line(d => d in prefix, d => false, starts, blank, b => b in definitions, false)
  }

  // ---------------------------------------------------------------- what a line does, by parts

  /** A line that is no lazy continuation and ends no fence. */
  lemma LineDoes(t: Store, path: seq<nat>, j: nat, line: Line, m: Mid, r: Mid)
    requires Valid(t, path) && ValidLine(line) && j == MatchDepth(t, path, line, 0) && j < |path|
    requires (j + 1 < |path| ==> t[path[j + 1]].kind != CodeBlock) && m == Matched(t, path, j)
    requires MidOk(m) && r == OpenNew(m, line.starts, 1, j + 1 == |path|, t[Last(path)].kind == Paragraph, line, false)
    requires m.left == [] || line.blank || Last(r.spine) != r.top || (Last(m.left) < |r.t| && r.t[Last(m.left)].kind != Paragraph)
    ensures MidOk(NotedMid(r, line, |t|)) && ProcessLine(t, path, line, false) == AddText(NotedMid(r, line, |t|), line, false)
  {
    hide Valid, MidOk, OpenNew, AddText, Noted;
  }

  /** A list marker under a block that is not a list opens a list and an item. */
  lemma MarkerOpens(m: Mid, starts: seq<Start>, depth: nat, allMatched: bool, maybeLazy: bool, line: Line)
    requires MidOk(m) && starts != [] && starts[0] == Marker(false) && depth < MAX_LIST_DEPTH
    requires forall i :: 0 <= i < |starts| ==> ValidStart(starts[i])
    requires Last(m.spine) < |m.t| && CanContain(m.t[Last(m.spine)].kind, List) && m.t[Last(m.spine)].kind in {Document, Item}
    ensures var n := Push(Push(m, List, false), Item, false);
            MidOk(n) && OpenNew(m, starts, depth, allMatched, maybeLazy, line, false) == OpenNew(n, starts[1..], depth + 1, allMatched, false, line, false)
  {
    hide MidOk, AddChild;
    AddChildStep(m, List, false, line, false);
    PushOk(m, List, false);
    AddChildStep(Push(m, List, false), Item, false, line, false);
    PushOk(Push(m, List, false), Item, false);
  }

  lemma CloseOne(m: Mid, line: Line)
    requires MidOk(m) && |m.left| == 1
    ensures Last(m.left) < |m.t| && m.t[Last(m.left)].parent < Last(m.left) && CloseAllLeft(m, line, false) == CloseLeft(m, line, false)
  {
    hide MidOk, Finalized;
    LeftStep(m, line, false);
    LeftStep(CloseLeft(m, line, false), line, false);
  }

  lemma CloseTwo(m: Mid, line: Line)
    requires MidOk(m) && |m.left| == 2
    ensures Last(m.left) < |m.t| && m.t[Last(m.left)].parent < Last(m.left)
    ensures var n := CloseLeft(m, line, false);
            && n.left == [m.left[0]] && MidOk(n) && m.left[0] < |n.t| && n.t[m.left[0]].parent < m.left[0]
            && CloseAllLeft(m, line, false) == CloseLeft(n, line, false)
  {
    hide MidOk, Finalized;
    LeftStep(m, line, false);
    CloseOne(CloseLeft(m, line, false), line);
  }

  /** Text under a container opens a paragraph. */
  lemma TextOpens(m: Mid, line: Line)
    requires MidOk(m) && m.left == [] && !line.blank && Last(m.spine) < |m.t| && m.t[Last(m.spine)].kind in {Document, Item}
    ensures AddText(m, line, false) == (AddLine(Push(m, Paragraph, false).t, |m.t|), m.spine + [|m.t|])
  {
    hide MidOk, AddChild;
    AddChildStep(m, Paragraph, false, line, false);
  }

  /** A blank line in a container just closes what it did not match. */
  lemma BlankCloses(m: Mid, line: Line)
    requires MidOk(m) && line.blank && Last(m.spine) < |m.t| && CloseAllLeft(m, line, false).t[Last(m.spine)].kind == Item
    ensures AddText(m, line, false) == (CloseAllLeft(m, line, false).t, m.spine)
  {
    hide MidOk, CloseAllLeft;
  }

  /** The text of a heading goes to it. */
  lemma HeadingTakes(m: Mid, line: Line)
    requires MidOk(m) && !line.blank && Last(m.spine) < |m.t| && CloseAllLeft(m, line, false).t[Last(m.spine)].kind == Heading
    ensures AddText(m, line, false) == (AddLine(CloseAllLeft(m, line, false).t, Last(m.spine)), m.spine)
  {
    hide MidOk, CloseAllLeft;
  }

  // - a
  //
  //   [x]: /u
  // # h
  const FREED: seq<Line> := [
    Text({}, [Marker(false)], false, {}),
    Text({2}, [], true, {}),
    Text({2}, [], false, {}),
    Text({}, [Opens(Heading, false)], false, {4})
  ]

  predicate BeforeHeading(t: Store, path: seq<nat>) {
    && |t| == 5 && path == [0, 1, 2, 4]
    && Is(t, 0, Document, true, -1, [1], false, false)
    && Is(t, 1, List, true, 0, [2], false, false)
    && Is(t, 2, Item, true, 1, [3, 4], false, false)
    && Is(t, 3, Paragraph, false, 2, [], true, false)
    && Is(t, 4, Paragraph, true, 2, [], false, false)
  }

  lemma HeadingMatches(t: Store, path: seq<nat>)
    requires Valid(t, path) && BeforeHeading(t, path)
    ensures MatchDepth(t, path, FREED[3], 0) == 1 && Matched(t, path, 1) == Mid(t, [0, 1], [2, 4], 1)
    ensures PathRanges(t, path) && |path| == 4 && t[path[2]].kind == Item && t[Last(path)].kind == Paragraph
    ensures ValidLine(FREED[3]) && FREED[3].starts == [Opens(Heading, false)] && !FREED[3].blank
  {
    hide Valid, MidOk;
    assert MatchDepth(t, path, FREED[3], 1) == 1;
  }

  /** The list as it is found: its item holds two blocks with a blank line between. */
  function ListFound(t: Store): Store
    requires |t| == 5
  {
    t[3 := t[3].(checked := true)][1 := t[1].(tight := false, open := false, finals := t[1].finals + 1)]
  }

  lemma FindsList(t: Store)
    requires |t| == 5 && Is(t, 1, List, true, 0, [2], false, false) && Is(t, 2, Item, true, 1, [3, 4], false, false)
    requires Is(t, 3, Paragraph, false, 2, [], true, false)
    ensures Finalized(t, 1, FREED[3], false) == ListFound(t)
  {
    assert AskKids(t, [3, 4], true, 0) == (true, t[3 := t[3].(checked := true)]);
  }

  /** A heading under a list climbs out of it. */
  lemma HeadingClimbs(m: Mid, line: Line, n: Mid)
    requires MidOk(m) && line.starts == [Opens(Heading, false)] && |m.spine| >= 2 && Last(m.spine) < |m.t| && m.t[Last(m.spine)].kind == List
    requires m.t[Last(m.spine)].parent < Last(m.spine) && n == CloseEnd(m, line, false)
    requires n.spine != [] && Last(n.spine) < |n.t| && n.t[Last(n.spine)].kind in {Document, Item}
    ensures OpenNew(m, line.starts, 1, false, true, line, false) == Push(n, Heading, false)
  {
    hide MidOk, AddChild, CloseEnd, Push;
    AddChildStep(m, Heading, false, line, false);
    AddChildStep(n, Heading, false, line, false);
  }

  /** A heading comes where a list matched but not its item: `m` is cut there, and the list is closed in `n`. */
  ghost predicate HeadingUp(t: Store, path: seq<nat>, j: nat, line: Line, m: Mid, n: Mid)
    requires Valid(t, path)
  {
    && PathRanges(t, path) && ValidLine(line) && j + 1 < |path| && j == MatchDepth(t, path, line, 0) && t[path[j + 1]].kind == Item
    && t[Last(path)].kind == Paragraph && line.starts == [Opens(Heading, false)] && !line.blank
    && m == Matched(t, path, j) && m.top < |m.t| && UnderList(m)
    && n == CloseEnd(m, line, false) && |n.t| == |m.t| && EndKind(n) && NoneFlagged(Push(n, Heading, false))
  }

  predicate UnderList(m: Mid) {
    |m.spine| >= 2 && Last(m.spine) < |m.t| && m.t[Last(m.spine)].kind == List && m.t[Last(m.spine)].parent < Last(m.spine)
  }

  /** The path ends with the document or an item. */
  predicate EndKind(m: Mid) {
    m.spine != [] && Last(m.spine) < |m.t| && m.t[Last(m.spine)].kind in {Document, Item}
  }

  ghost predicate PathRanges(t: Store, path: seq<nat>) {
    path != [] && forall k :: 0 <= k < |path| ==> path[k] < |t|
  }

  lemma HeadingDoes(t: Store, path: seq<nat>, j: nat, line: Line, m: Mid, n: Mid)
    requires Valid(t, path) && HeadingUp(t, path, j, line, m, n) && EndKind(n)
    ensures var r := Push(n, Heading, false); MidOk(r) && ProcessLine(t, path, line, false) == AddText(r, line, false)
  {
    hide Valid, MidOk, OpenNew, AddText, Noted, NotedMid, Push, CloseEnd, NoneFlagged, Matched, MatchDepth;
    HeadingClimbs(m, line, n);
    PushIs(n, Heading);
    var r := Push(n, Heading, false);
    LineDoes(t, path, j, line, m, r);
    NotedSame(r, line, |t|);
  }

  predicate AfterFirst(t: Store, path: seq<nat>) {
    && |t| == 4 && path == [0, 1, 2, 3]
    && Is(t, 0, Document, true, -1, [1], false, false)
    && Is(t, 1, List, true, 0, [2], false, false)
    && Is(t, 2, Item, true, 1, [3], false, false)
    && Is(t, 3, Paragraph, true, 2, [], false, false)
  }

  lemma FirstLine()
    ensures var r := ProcessLine(FRESH_STORE, [ROOT], FREED[0], false); AfterFirst(r.0, r.1)
  {
    hide MidOk, OpenNew, AddText, Noted, NotedMid, Is;
    var t, path, line := FRESH_STORE, [ROOT], FREED[0];
    var m := Matched(t, path, 0);
    assert m == Mid(t, [0], [], 0);
    IsFresh();
    FirstOpens(m, line);
    var r := OpenNew(m, line.starts, 1, true, false, line, false);
    LineDoes(t, path, 0, line, m, r);
    NotedSame(r, line, |t|);
    FirstPlaces(r);
  }

  lemma IsFresh()
    ensures Is(FRESH_STORE, 0, Document, true, -1, [], false, false)
  {
  }

  predicate FirstOpened(r: Mid) {
    && |r.t| == 3 && r.spine == [0, 1, 2] && r.left == []
    && Is(r.t, 0, Document, true, -1, [1], false, false)
    && Is(r.t, 1, List, true, 0, [2], false, false)
    && Is(r.t, 2, Item, true, 1, [], false, false)
  }

  predicate Empty(m: Mid) {
    |m.t| == 1 && m.spine == [0] && m.left == [] && Is(m.t, 0, Document, true, -1, [], false, false)
  }

  lemma FirstOpens(m: Mid, line: Line)
    requires MidOk(m) && Empty(m) && line.starts == [Marker(false)]
    ensures var r := OpenNew(m, line.starts, 1, true, false, line, false); FirstOpened(r) && NoneFlagged(r)
  {
    hide MidOk, OpenNew, Push;
    MarkerOpens(m, line.starts, 1, true, false, line);
    assert line.starts[1..] == [];
    FirstPushed(m);
    OpensNoMore(Push(Push(m, List, false), Item, false), 2, true, false, line);
  }

  lemma FirstPushed(m: Mid)
    requires Empty(m)
    ensures var n := Push(m, List, false); n.spine != [] && Last(n.spine) < |n.t|
    ensures var r := Push(Push(m, List, false), Item, false); FirstOpened(r) && NoneFlagged(r)
  {
    hide Push;
    PushIs(m, List);
    PushIs(Push(m, List, false), Item);
  }

  /** What a new block changes. */
  lemma PushIs(m: Mid, kind: Kind)
    requires m.spine != [] && Last(m.spine) < |m.t|
    ensures var n, p := Push(m, kind, false), Last(m.spine);
            && |n.t| == |m.t| + 1 && n.spine == m.spine + [|m.t|] && n.left == m.left && n.top == m.top
            && n.t[|m.t|] == NewBlock(kind, false, p) && n.t[p] == m.t[p].(children := m.t[p].children + [|m.t|])
            && forall b: nat :: b < |m.t| && b != p ==> n.t[b] == m.t[b]
  {
  }

  lemma FirstPlaces(r: Mid)
    requires MidOk(r) && FirstOpened(r)
    ensures var s := AddText(r, FREED[0], false); AfterFirst(s.0, s.1)
  {
    hide MidOk, AddText;
    TextOpens(r, FREED[0]);
  }

  lemma OpensNoMore(m: Mid, depth: nat, allMatched: bool, maybeLazy: bool, line: Line)
    requires MidOk(m)
    ensures OpenNew(m, [], depth, allMatched, maybeLazy, line, false) == m
  {
    hide MidOk;
  }

  predicate NoneFlagged(r: Mid) {
    forall b :: b in r.spine ==> b < |r.t| && !r.t[b].blank
  }

  /** A line that is not blank leaves the flags of such a path as they are. */
  lemma NotedSame(r: Mid, line: Line, start: nat)
    requires MidOk(r) && !line.blank && NoneFlagged(r)
    ensures NotedMid(r, line, start) == r
  {
    hide MidOk, Noted;
    SpineInRange(r);
    InitElements(r.spine);
    var n := NotedMid(r, line, start);
    forall b: nat | b < |r.t| ensures n.t[b] == r.t[b] { FlagsAre(r, line, start, b); }
    assert n.t == r.t;
  }

  predicate AfterBlank(t: Store, path: seq<nat>) {
    && |t| == 4 && path == [0, 1, 2]
    && Is(t, 0, Document, true, -1, [1], false, false)
    && Is(t, 1, List, true, 0, [2], false, false)
    && Is(t, 2, Item, true, 1, [3], true, false)
    && Is(t, 3, Paragraph, false, 2, [], true, false)
  }

  /** The blank line closes the paragraph and is held against it and its item. */
  lemma BlankLine(t: Store, path: seq<nat>)
    requires Valid(t, path) && AfterFirst(t, path)
    ensures var r := ProcessLine(t, path, FREED[1], false); AfterBlank(r.0, r.1)
  {
    hide Valid, MidOk, OpenNew, AddText, Noted, NotedMid;
    var line := FREED[1];
    assert MatchDepth(t, path, line, 1) == 2;
    var m := Matched(t, path, 2);
    assert m == Mid(t, [0, 1, 2], [3], 2);
    OpensNoMore(m, 1, false, true, line);
    LineDoes(t, path, 2, line, m, m);
    BlankPlaces(m);
  }

  lemma BlankPlaces(m: Mid)
    requires MidOk(m) && m.spine == [0, 1, 2] && m.left == [3] && m.top == 2 && AfterFirst(m.t, m.spine + m.left)
    ensures var s := AddText(NotedMid(m, FREED[1], 4), FREED[1], false); AfterBlank(s.0, s.1)
  {
    hide MidOk, AddText, NotedMid, CloseAllLeft, CloseLeft;
    var line, n := FREED[1], NotedMid(m, FREED[1], 4);
    BlankNoted(m);
    CloseOne(n, line);
    LeafClosed(n, line, 3);
    BlankCloses(n, line);
  }

  lemma BlankNoted(m: Mid)
    requires MidOk(m) && m.spine == [0, 1, 2] && m.left == [3] && AfterFirst(m.t, m.spine + m.left)
    ensures var n := NotedMid(m, FREED[1], 4);
            && |n.t| == 4 && n.t[0] == m.t[0] && n.t[1] == m.t[1]
            && Is(n.t, 2, Item, true, 1, [3], true, false) && Is(n.t, 3, Paragraph, true, 2, [], true, false)
  {
    hide MidOk, NotedMid;
    BlankNotes(m, FREED[1], 4);
  }

  /** A block that was not matched, no list and not freed, is closed. */
  lemma LeafClosed(n: Mid, line: Line, b: nat)
    requires n.left == [b] && b < |n.t| && n.t[b].kind != List && n.t[b].parent < b && !line.definitionsOnly(b)
    ensures CloseLeft(n, line, false) == n.(t := n.t[b := n.t[b].(open := false, finals := n.t[b].finals + 1)], left := [])
  {
  }

  /** Text behind it opens a second paragraph in the item. */
  lemma SecondText(t: Store, path: seq<nat>)
    requires Valid(t, path) && AfterBlank(t, path)
    ensures var r := ProcessLine(t, path, FREED[2], false); BeforeHeading(r.0, r.1)
  {
    hide Valid, MidOk, OpenNew, AddText, Noted, NotedMid;
    var line := FREED[2];
    assert MatchDepth(t, path, line, 1) == 2;
    var m := Matched(t, path, 2);
    assert m == Mid(t, [0, 1, 2], [], 2);
    OpensNoMore(m, 1, true, false, line);
    LineDoes(t, path, 2, line, m, m);
    SecondPlaces(m);
  }

  lemma SecondPlaces(m: Mid)
    requires MidOk(m) && m.spine == [0, 1, 2] && m.left == [] && m.top == 2 && AfterBlank(m.t, [0, 1, 2])
    ensures var s := AddText(NotedMid(m, FREED[2], 4), FREED[2], false); BeforeHeading(s.0, s.1)
  {
    hide MidOk, AddText, NotedMid, Push;
    var line, n := FREED[2], NotedMid(m, FREED[2], 4);
    forall b: nat | b < 4 ensures n.t[b] == m.t[b].(blank := b == 3) { FlagsAre(m, line, 4, b); }
    TextOpens(n, line);
    PushIs(n, Paragraph);
  }

  predicate AfterHeading(t: Store, path: seq<nat>) {
    && |t| == 6 && path == [0, 5]
    && Is(t, 0, Document, true, -1, [1, 5], false, false)
    && Is(t, 1, List, false, 0, [2], false, false) && !t[1].tight
    && Is(t, 2, Item, false, 1, [3], false, false)
    && Is(t, 3, Paragraph, false, 2, [], true, true)
    && Is(t, 4, Paragraph, false, -1, [], false, false)
    && Is(t, 5, Heading, true, 0, [], false, false)
  }

  /** The heading finalizes the list, which is found not tight, then the second paragraph is freed. */
  lemma HeadingLine(t: Store, path: seq<nat>)
    requires Valid(t, path) && BeforeHeading(t, path)
    ensures var r := ProcessLine(t, path, FREED[3], false); AfterHeading(r.0, r.1)
  {
    FoundIs(t);
    var n := Mid(ListFound(t), [0], [2, 4], 1);
    HeadingIsUp(t, path, n);
    hide Valid, MidOk, AddText, ProcessLine, Push, ListFound, HeadingUp, AfterHeading, HeadingOpened, BeforeHeading;
    HeadingDoes(t, path, 1, FREED[3], Matched(t, path, 1), n);
    HeadingPlaces(Push(n, Heading, false));
  }

  lemma HeadingIsUp(t: Store, path: seq<nat>, n: Mid)
    requires Valid(t, path) && BeforeHeading(t, path) && n == Mid(ListFound(t), [0], [2, 4], 1)
    ensures HeadingUp(t, path, 1, FREED[3], Matched(t, path, 1), n) && EndKind(n)
    ensures var r := Push(n, Heading, false); r.spine == [0, 5] && r.left == [2, 4] && r.top == 1 && HeadingOpened(r.t)
  {
    HeadingMatches(t, path);
    ListClimbs(t, Matched(t, path, 1));
    hide Valid, MidOk, Push, CloseEnd, ListFound, Matched, MatchDepth, NoneFlagged, HeadingOpened, BeforeHeading, Is, Last;
  }

  lemma ListClimbs(t: Store, m: Mid)
    requires m == Mid(t, [0, 1], [2, 4], 1) && BeforeHeading(t, [0, 1, 2, 4])
    ensures UnderList(m) && m.top < |m.t|
    ensures var n := Mid(ListFound(t), [0], [2, 4], 1);
            && |n.t| == 5 && n == CloseEnd(m, FREED[3], false) && EndKind(n)
            && var r := Push(n, Heading, false);
               r.spine == [0, 5] && r.left == [2, 4] && r.top == 1 && HeadingOpened(r.t) && NoneFlagged(r)
  {
    hide ListFound, Push, Finalized, HeadingOpened, NoneFlagged;
    FoundIs(t);
    FindsList(t);
    var n := Mid(ListFound(t), [0], [2, 4], 1);
    ListOpens(t, n);
  }

  lemma ListOpens(t: Store, n: Mid)
    requires BeforeHeading(t, [0, 1, 2, 4]) && n == Mid(ListFound(t), [0], [2, 4], 1)
    ensures var r := Push(n, Heading, false); r.spine == [0, 5] && r.left == [2, 4] && r.top == 1 && HeadingOpened(r.t) && NoneFlagged(r)
  {
    hide ListFound, Push;
    FoundIs(t);
    PushIs(n, Heading);
  }

  lemma FoundIs(t: Store)
    requires |t| == 5
    ensures |ListFound(t)| == 5 && ListFound(t)[3] == t[3].(checked := true)
    ensures ListFound(t)[1] == t[1].(tight := false, open := false, finals := t[1].finals + 1)
    ensures forall b: nat :: b < 5 && b != 1 && b != 3 ==> ListFound(t)[b] == t[b]
  {
  }

  predicate HeadingOpened(t: Store) {
    && |t| == 6
    && Is(t, 0, Document, true, -1, [1, 5], false, false)
    && Is(t, 1, List, false, 0, [2], false, false) && !t[1].tight
    && Is(t, 2, Item, true, 1, [3, 4], false, false)
    && Is(t, 3, Paragraph, false, 2, [], true, true)
    && Is(t, 4, Paragraph, true, 2, [], false, false)
    && Is(t, 5, Heading, true, 0, [], false, false)
  }

  lemma HeadingPlaces(r: Mid)
    requires MidOk(r) && r.spine == [0, 5] && r.left == [2, 4] && r.top == 1 && HeadingOpened(r.t)
    ensures var s := AddText(r, FREED[3], false); AfterHeading(s.0, s.1)
  {
    hide MidOk, AddText, CloseAllLeft, CloseLeft;
    var line := FREED[3];
    CloseTwo(r, line);
    TwoClosed(r, line);
    HeadingTakes(r, line);
  }

  lemma TwoClosed(r: Mid, line: Line)
    requires MidOk(r) && r.left == [2, 4] && r.top == 1 && HeadingOpened(r.t) && line.definitionsOnly(4) && MidOk(CloseLeft(r, line, false))
    requires CloseLeft(r, line, false).left == [2]
    ensures var s := CloseLeft(CloseLeft(r, line, false), line, false);
            && s.left == [] && s.spine == r.spine && |s.t| == 6
            && (forall b: nat :: b < 6 && b != 2 && b != 4 ==> s.t[b] == r.t[b])
            && Is(s.t, 2, Item, false, 1, [3], false, false) && Is(s.t, 4, Paragraph, false, -1, [], false, false)
  {
  }

  lemma HeadingEnds(t: Store, path: seq<nat>, end: Line)
    requires Valid(t, path) && AfterHeading(t, path)
    ensures FinishFrom(t, path, end, false) == Closing(Closing(t, 5), 0)
  {
    hide Valid, MidOk, FinishFrom;
    EndsLeaf(t, path, end);
    assert Init(path) == [0];
    EndsRoot(Closing(t, 5), end);
  }

  /** The list is not tight, although its one item holds one block. */
  lemma LooseForNothing(end: Line)
    ensures ValidLines(FREED)
    ensures var t := ParsedDocument(FREED, end, false); Tree(t) && |t| == 6 && t[1].kind == List && !t[1].tight && !Loose(t, 1)
  {
    hide Valid, ProcessLine, FinishFrom, AfterFirst, AfterBlank, BeforeHeading, AfterHeading, Closing;
    FreshIs();
    var a := ProcessLine(FRESH_STORE, [ROOT], FREED[0], false);
    FirstLine();
    var b := ProcessLine(a.0, a.1, FREED[1], false);
    BlankLine(a.0, a.1);
    var c := ProcessLine(b.0, b.1, FREED[2], false);
    SecondText(b.0, b.1);
    var d := ProcessLine(c.0, c.1, FREED[3], false);
    HeadingLine(c.0, c.1);
    Four(FREED);
    HeadingEnds(d.0, d.1, end);
    OneBlock(d.0, d.1, FinishFrom(d.0, d.1, end, false));
  }

  lemma FreshIs()
    ensures Valid(FRESH_STORE, [ROOT])
  {
  }

  lemma OneBlock(t: Store, path: seq<nat>, u: Store)
    requires AfterHeading(t, path) && u == Closing(Closing(t, 5), 0) && Tree(u)
    ensures |u| == 6 && u[1].kind == List && !u[1].tight && !Loose(u, 1)
  {
    hide Ends, Tree;
  }

  /** Four lines, one after another. */
  lemma Four(lines: seq<Line>)
    requires |lines| == 4 && ValidLines(lines)
    ensures Valid(FRESH_STORE, [ROOT])
    ensures var a := ProcessLine(FRESH_STORE, [ROOT], lines[0], false);
            var b := ProcessLine(a.0, a.1, lines[1], false);
            var c := ProcessLine(b.0, b.1, lines[2], false);
            ProcessLines(lines, false) == ProcessLine(c.0, c.1, lines[3], false)
  {
    hide Valid, ProcessLine;
    FreshIs();
    assert lines[..3][..2] == lines[..2] && lines[..2][..1] == lines[..1] && lines[..1][..0] == [];
    assert ProcessLines([], false) == (FRESH_STORE, [ROOT]);
    OneMore(lines, 1);
    OneMore(lines, 2);
    OneMore(lines, 3);
    OneMore(lines, 4);
    assert lines[..4] == lines;
  }

  lemma OneMore(lines: seq<Line>, k: nat)
    requires ValidLines(lines) && 0 < k <= |lines|
    ensures var r := ProcessLines(lines[..k - 1], false); ProcessLines(lines[..k], false) == ProcessLine(r.0, r.1, lines[k - 1], false)
  {
    hide Valid, ProcessLine;
    assert lines[..k][..k - 1] == lines[..k - 1];
  }

  // ---------------------------------------------------------------- the second text

  // - - - x
  //
  //     [d]: /u
  //   # h
  const STALE: seq<Line> := [
    Text({}, [Marker(false), Marker(false), Marker(false)], false, {}),
    Text({2, 4, 6}, [], true, {}),
    Text({2, 4}, [], false, {}),
    Text({2}, [Opens(Heading, false)], false, {8})
  ]

  /** The items and lists down to the innermost list. */
  predicate Nest(t: Store) {
    && Is(t, 0, Document, true, -1, [1], false, false)
    && Is(t, 1, List, true, 0, [2], false, false)
    && Is(t, 2, Item, true, 1, [3], false, false)
    && Is(t, 3, List, true, 2, [4], false, false)
    && Is(t, 4, Item, true, 3, [5], false, false)
    && Is(t, 5, List, true, 4, [6], false, false)
  }

  predicate NestOpened(r: Mid) {
    |r.t| == 7 && r.spine == [0, 1, 2, 3, 4, 5, 6] && r.left == [] && Nest(r.t) && Is(r.t, 6, Item, true, 5, [], false, false)
  }

  predicate NestText(t: Store, path: seq<nat>) {
    && |t| == 8 && path == [0, 1, 2, 3, 4, 5, 6, 7] && Nest(t)
    && Is(t, 6, Item, true, 5, [7], false, false) && Is(t, 7, Paragraph, true, 6, [], false, false)
  }

  /** What a marker opens. */
  function Deeper(m: Mid): Mid
    requires m.spine != [] && Last(m.spine) < |m.t|
  {
    Push(Push(m, List, false), Item, false)
  }

  lemma DeeperIs(m: Mid)
    requires m.spine != [] && Last(m.spine) < |m.t|
    ensures var r, n, p := Deeper(m), |m.t|, Last(m.spine);
            && |r.t| == n + 2 && r.spine == m.spine + [n, n + 1] && r.left == m.left && r.top == m.top
            && r.t[n] == NewBlock(List, false, p).(children := [n + 1]) && r.t[n + 1] == NewBlock(Item, false, n)
            && r.t[p] == m.t[p].(children := m.t[p].children + [n]) && forall b: nat :: b < n && b != p ==> r.t[b] == m.t[b]
  {
    hide Push;
    PushIs(m, List);
    PushIs(Push(m, List, false), Item);
  }

  lemma NestOpens(m: Mid, line: Line)
    requires MidOk(m) && Empty(m) && line.starts == [Marker(false), Marker(false), Marker(false)]
    ensures var r := OpenNew(m, line.starts, 1, true, false, line, false); NestOpened(r) && NoneFlagged(r)
  {
    hide MidOk, OpenNew, Deeper, NestOpened, NoneFlagged, Is;
    var s := line.starts;
    NestDeep(m);
    var a := Deeper(m);
    var b := Deeper(a);
    MarkerOne(m, s, 1, line);
    MarkerOne(a, s[1..], 2, line);
    MarkerOne(b, s[1..][1..], 3, line);
    OpensNoMore(Deeper(b), 4, true, false, line);
    assert s[1..][1..][1..] == [];
  }

  lemma NestDeep(m: Mid)
    requires Empty(m)
    ensures EndKind(m) && EndKind(Deeper(m)) && EndKind(Deeper(Deeper(m)))
    ensures var r := Deeper(Deeper(Deeper(m))); r.spine != [] && Last(r.spine) < |r.t| && NestOpened(r) && NoneFlagged(r)
  {
    hide Deeper, FirstOpened, TwiceOpened, NestOpened, NoneFlagged, Is;
    EmptyEnds(m);
    DeeperOnce(m);
    DeeperTwice(Deeper(m));
    DeeperThrice(Deeper(Deeper(m)));
  }

  lemma EmptyEnds(m: Mid)
    requires Empty(m)
    ensures EndKind(m)
  {
  }

  lemma DeeperOnce(m: Mid)
    requires Empty(m)
    ensures EndKind(Deeper(m)) && FirstOpened(Deeper(m))
  {
    hide Deeper;
    DeeperIs(m);
  }

  lemma DeeperTwice(m: Mid)
    requires EndKind(m) && FirstOpened(m)
    ensures EndKind(Deeper(m)) && TwiceOpened(Deeper(m))
  {
    hide Deeper;
    DeeperIs(m);
  }

  lemma DeeperThrice(m: Mid)
    requires EndKind(m) && TwiceOpened(m)
    ensures var r := Deeper(m); r.spine != [] && Last(r.spine) < |r.t| && NestOpened(r) && NoneFlagged(r)
  {
    hide Deeper;
    DeeperIs(m);
    NestUnflagged(Deeper(m));
  }

  lemma NestUnflagged(r: Mid)
    requires NestOpened(r)
    ensures NoneFlagged(r)
  {
  }

  predicate TwiceOpened(r: Mid) {
    && |r.t| == 5 && r.spine == [0, 1, 2, 3, 4] && r.left == []
    && Is(r.t, 0, Document, true, -1, [1], false, false)
    && Is(r.t, 1, List, true, 0, [2], false, false)
    && Is(r.t, 2, Item, true, 1, [3], false, false)
    && Is(r.t, 3, List, true, 2, [4], false, false)
    && Is(r.t, 4, Item, true, 3, [], false, false)
  }

  lemma MarkerOne(m: Mid, starts: seq<Start>, depth: nat, line: Line)
    requires MidOk(m) && starts != [] && (forall i :: 0 <= i < |starts| ==> starts[i] == Marker(false)) && depth < MAX_LIST_DEPTH
    requires EndKind(m)
    ensures MidOk(Deeper(m))
    ensures OpenNew(m, starts, depth, true, false, line, false) == OpenNew(Deeper(m), starts[1..], depth + 1, true, false, line, false)
  {
    hide MidOk, OpenNew, Push;
    PushIs(m, List);
    MarkerOpens(m, starts, depth, true, false, line);
  }

  lemma NestLine()
    ensures var r := ProcessLine(FRESH_STORE, [ROOT], STALE[0], false); NestText(r.0, r.1)
  {
    hide MidOk, OpenNew, AddText, Noted, NotedMid, Is;
    var t, path, line := FRESH_STORE, [ROOT], STALE[0];
    var m := Matched(t, path, 0);
    assert m == Mid(t, [0], [], 0);
    IsFresh();
    NestOpens(m, line);
    var r := OpenNew(m, line.starts, 1, true, false, line, false);
    LineDoes(t, path, 0, line, m, r);
    NotedSame(r, line, |t|);
    NestPlaces(r);
  }

  lemma NestPlaces(r: Mid)
    requires MidOk(r) && NestOpened(r)
    ensures var s := AddText(r, STALE[0], false); NestText(s.0, s.1)
  {
    NestPlaced(r);
    hide MidOk, AddText, Push, NestText, Nest, AddLine;
    TextOpens(r, STALE[0]);
  }

  lemma NestPlaced(r: Mid)
    requires NestOpened(r)
    ensures var p := Push(r, Paragraph, false); |p.t| == 8 && NestText(AddLine(p.t, 7), r.spine + [7])
  {
    hide Push, Nest;
    PushIs(r, Paragraph);
    var p := Push(r, Paragraph, false);
    NestSame(r.t, AddLine(p.t, 7)) by { NestClean(r.t); }
  }

  /** The blocks of the nest are not flagged. */
  lemma NestClean(t: Store)
    requires Nest(t)
    ensures |t| >= 6 && forall b: nat :: b < 6 ==> t[b] == t[b].(blank := false)
  {
  }

  predicate NestBlank(t: Store, path: seq<nat>) {
    && |t| == 8 && path == [0, 1, 2, 3, 4, 5, 6] && Nest(t)
    && Is(t, 6, Item, true, 5, [7], true, false) && Is(t, 7, Paragraph, false, 6, [], true, false)
  }

  lemma NestBlankLine(t: Store, path: seq<nat>)
    requires Valid(t, path) && NestText(t, path)
    ensures var r := ProcessLine(t, path, STALE[1], false); NestBlank(r.0, r.1)
  {
    BlankMatches(t, path);
    hide Valid, MidOk, OpenNew, AddText, Noted, NotedMid, Is, NestBlank, MatchDepth;
    var line := STALE[1];
    var m := Matched(t, path, 6);
    OpensNoMore(m, 1, false, true, line);
    LineDoes(t, path, 6, line, m, m);
    NestBlankPlaces(m);
  }

  /** All items go on at a blank line. */
  lemma BlankMatches(t: Store, path: seq<nat>)
    requires Valid(t, path) && NestText(t, path)
    ensures MatchDepth(t, path, STALE[1], 0) == 6 && Matched(t, path, 6) == Mid(t, [0, 1, 2, 3, 4, 5, 6], [7], 6)
    ensures path[7] == 7 && t[7].kind == Paragraph
  {
    hide Valid, MidOk, MatchDepth, Is;
    BlankDepth(t, path, STALE[1]);
    CutSix(t, path);
    LastKind(t);
  }

  lemma LastKind(t: Store)
    requires NestText(t, [0, 1, 2, 3, 4, 5, 6, 7])
    ensures t[7].kind == Paragraph
  {
  }

  lemma BlankDepth(t: Store, path: seq<nat>, line: Line)
    requires NestText(t, path) && line.prefix(2) && line.prefix(4) && line.prefix(6) && !line.prefix(7)
    ensures PathRanges(t, path) && MatchDepth(t, path, line, 0) == 6
  {
    assert MatchDepth(t, path, line, 5) == 6;
    assert MatchDepth(t, path, line, 3) == 6;
    assert MatchDepth(t, path, line, 1) == 6;
  }

  lemma CutSix(t: Store, path: seq<nat>)
    requires Valid(t, path) && path == [0, 1, 2, 3, 4, 5, 6, 7]
    ensures Matched(t, path, 6) == Mid(t, [0, 1, 2, 3, 4, 5, 6], [7], 6)
  {
    hide Valid, MidOk;
  }

  lemma NestBlankPlaces(m: Mid)
    requires MidOk(m) && m.spine == [0, 1, 2, 3, 4, 5, 6] && m.left == [7] && m.top == 6 && NestText(m.t, m.spine + m.left)
    ensures var s := AddText(NotedMid(m, STALE[1], 8), STALE[1], false); NestBlank(s.0, s.1)
  {
    hide MidOk, AddText, NotedMid, CloseAllLeft, CloseLeft;
    var line, n := STALE[1], NotedMid(m, STALE[1], 8);
    NestNoted(m);
    CloseOne(n, line);
    LeafClosed(n, line, 7);
    BlankCloses(n, line);
  }

  lemma NestNoted(m: Mid)
    requires MidOk(m) && m.spine == [0, 1, 2, 3, 4, 5, 6] && m.left == [7] && NestText(m.t, m.spine + m.left)
    ensures var n := NotedMid(m, STALE[1], 8);
            && |n.t| == 8 && Nest(n.t) && Is(n.t, 6, Item, true, 5, [7], true, false) && Is(n.t, 7, Paragraph, true, 6, [], true, false)
  {
    hide MidOk, NotedMid, Nest;
    var n := NotedMid(m, STALE[1], 8);
    forall b: nat | b < 6 ensures n.t[b] == m.t[b].(blank := false) { NestNotes(m, STALE[1], b); }
    NestNotesEnd(m, STALE[1]);
    NestSame(m.t, n.t);
  }

  lemma NestNotes(m: Mid, line: Line, b: nat)
    requires MidOk(m) && m.spine == [0, 1, 2, 3, 4, 5, 6] && b < 6 < |m.t|
    ensures NotedMid(m, line, 8).t[b] == m.t[b].(blank := false)
  {
    hide MidOk, NotedMid;
    assert m.spine[b] in m.spine;
    FlagsAre(m, line, 8, b);
  }

  lemma NestNotesEnd(m: Mid, line: Line)
    requires MidOk(m) && m.spine == [0, 1, 2, 3, 4, 5, 6] && 7 < |m.t| && line.blank && Is(m.t, 6, Item, true, 5, [7], false, false)
    ensures var n := NotedMid(m, line, 8); n.t[6] == m.t[6].(blank := true) && n.t[7] == m.t[7].(blank := true)
  {
    hide MidOk, NotedMid;
    assert 7 !in m.spine;
    FlagsAre(m, line, 8, 6);
    FlagsAre(m, line, 8, 7);
  }

  lemma NestSame(t: Store, u: Store)
    requires Nest(t) && |u| >= 6 && forall b: nat :: b < 6 ==> u[b] == t[b].(blank := false)
    ensures Nest(u)
  {
  }

  lemma ItemHeld(t: Store, c: nat, line: Line, start: nat)
    requires c < |t| && line.blank && t[c].kind == Item && t[c].children != []
    ensures HeldAgainst(t, c, line, start)
  {
  }

  /** A blank line that comes to an item is held against it and its last block, and against no block above. */
  lemma BlankNotes(m: Mid, line: Line, start: nat)
    requires MidOk(m) && line.blank && m.spine != [] && Last(m.spine) < |m.t|
    requires m.t[Last(m.spine)].kind == Item && m.t[Last(m.spine)].children != []
    ensures var c, n := Last(m.spine), NotedMid(m, line, start); forall b: nat :: b < |m.t| ==>
              n.t[b] == m.t[b].(blank := b == c || (b !in m.spine && (b == Last(m.t[c].children) || m.t[b].blank)))
  {
    hide MidOk, NotedMid, HeldAgainst;
    SpineInRange(m);
    var c := Last(m.spine);
    assert HeldAgainst(m.t, c, line, start) by { ItemHeld(m.t, c, line, start); }
    forall b: nat | b < |m.t|
      ensures NotedMid(m, line, start).t[b] == m.t[b].(blank := b == c || (b !in m.spine && (b == Last(m.t[c].children) || m.t[b].blank)))
    {
      FlagsAre(m, line, start, b);
    }
  }

  predicate NestSecond(t: Store, path: seq<nat>) {
    && |t| == 9 && path == [0, 1, 2, 3, 4, 8]
    && Is(t, 0, Document, true, -1, [1], false, false)
    && Is(t, 1, List, true, 0, [2], false, false)
    && Is(t, 2, Item, true, 1, [3], false, false)
    && Is(t, 3, List, true, 2, [4], false, false)
    && Is(t, 4, Item, true, 3, [5, 8], false, false)
    && Is(t, 5, List, false, 4, [6], false, false)
    && Is(t, 6, Item, false, 5, [7], true, false)
    && Is(t, 7, Paragraph, false, 6, [], true, false)
    && Is(t, 8, Paragraph, true, 4, [], false, false)
  }

  /** The definition goes to the item in the middle; the innermost list is finalized. */
  lemma NestSecondLine(t: Store, path: seq<nat>)
    requires Valid(t, path) && NestBlank(t, path)
    ensures var r := ProcessLine(t, path, STALE[2], false); NestSecond(r.0, r.1)
  {
    SecondMatches(t, path);
    hide Valid, MidOk, OpenNew, AddText, Noted, NotedMid, NestBlank, NestSecond, MatchDepth, NoneFlagged;
    var line := STALE[2];
    var m := Matched(t, path, 5);
    OpensNoMore(m, 1, false, false, line);
    NotedSame(m, line, 8);
    LineDoes(t, path, 5, line, m, m);
    NestSecondPlaces(m);
  }

  lemma SecondMatches(t: Store, path: seq<nat>)
    requires Valid(t, path) && NestBlank(t, path)
    ensures MatchDepth(t, path, STALE[2], 0) == 5 && Matched(t, path, 5) == Mid(t, [0, 1, 2, 3, 4, 5], [6], 5)
    ensures NoneFlagged(Matched(t, path, 5)) && path[6] == 6 && Last(path) == 6 && t[6].kind == Item
  {
    hide Valid, MidOk;
    assert MatchDepth(t, path, STALE[2], 5) == 5;
    assert MatchDepth(t, path, STALE[2], 3) == 5;
    assert MatchDepth(t, path, STALE[2], 1) == 5;
  }

  /** Text that comes to a list opens a paragraph above it. */
  lemma TextClimbs(m: Mid, line: Line, n: Mid)
    requires MidOk(m) && !line.blank && n == CloseAllLeft(m, line, false) && Last(n.spine) < |n.t| && n.t[Last(n.spine)].kind == List
    ensures MidOk(n) && n.left == [] && var p := AddChild(n, Paragraph, false, line, false);
            AddText(m, line, false) == (AddLine(p.t, Last(p.spine)), p.spine)
  {
    hide MidOk, CloseAllLeft, AddChild;
  }

  lemma NestSecondPlaces(m: Mid)
    requires MidOk(m) && m.spine == [0, 1, 2, 3, 4, 5] && m.left == [6] && m.top == 5 && NestBlank(m.t, m.spine + m.left)
    ensures var s := AddText(m, STALE[2], false); NestSecond(s.0, s.1)
  {
    hide MidOk, AddText, CloseAllLeft, AddChild, NestSecond;
    var line, n := STALE[2], CloseAllLeft(m, STALE[2], false);
    CloseOne(m, line);
    LeafClosed(m, line, 6);
    TextClimbs(m, line, n);
    NestClimbs(n, line);
  }

  lemma NestClimbs(n: Mid, line: Line)
    requires MidOk(n) && n.spine == [0, 1, 2, 3, 4, 5] && n.left == [] && |n.t| == 8 && Nest(n.t)
    requires Is(n.t, 6, Item, false, 5, [7], true, false) && Is(n.t, 7, Paragraph, false, 6, [], true, false)
    ensures MayAdd(n, Paragraph)
    ensures var p := AddChild(n, Paragraph, false, line, false); NestSecond(AddLine(p.t, Last(p.spine)), p.spine)
  {
    hide MidOk, AddChild, CloseEnd, Push, MayAdd;
    ParagraphMayGo(n);
    InnerFound(n, line);
    var p := CloseEnd(n, line, false);
    AddChildStep(n, Paragraph, false, line, false);
    AddChildStep(p, Paragraph, false, line, false);
    PushIs(p, Paragraph);
  }

  /** A list with one block is found tight without asking. */
  lemma InnerFound(n: Mid, line: Line)
    requires n.spine == [0, 1, 2, 3, 4, 5] && |n.t| == 8 && Is(n.t, 5, List, true, 4, [6], false, false) && Is(n.t, 6, Item, false, 5, [7], true, false)
    ensures CloseEnd(n, line, false) == n.(t := n.t[5 := n.t[5].(open := false, finals := n.t[5].finals + 1, tight := true)], spine := [0, 1, 2, 3, 4])
  {
    assert AskKids(n.t, [7], true, 0) == (false, n.t);
    assert AskItems(n.t, [6], 1) == (false, n.t);
  }

  predicate NestHeading(t: Store, path: seq<nat>) {
    && |t| == 10 && path == [0, 1, 2, 9]
    && Is(t, 0, Document, true, -1, [1], false, false)
    && Is(t, 1, List, true, 0, [2], false, false)
    && Is(t, 2, Item, true, 1, [3, 9], false, false)
    && Is(t, 3, List, false, 2, [4], false, false) && !t[3].tight
    && Is(t, 4, Item, false, 3, [5], false, false)
    && Is(t, 5, List, false, 4, [6], false, true)
    && Is(t, 6, Item, false, 5, [7], true, true)
    && Is(t, 7, Paragraph, false, 6, [], true, true)
    && Is(t, 9, Heading, true, 2, [], false, false)
  }

  /** The list in the middle as it is found: a blank line ends its first block, which leaves bits down to the text. */
  function MiddleFound(t: Store): Store
    requires |t| == 9
  {
    t[5 := t[5].(checked := true)][6 := t[6].(checked := true)][7 := t[7].(checked := true)]
     [3 := t[3].(tight := false, open := false, finals := t[3].finals + 1)]
  }

  lemma FindsMiddle(t: Store)
    requires |t| == 9 && NestSecond(t, [0, 1, 2, 3, 4, 8])
    ensures Finalized(t, 3, STALE[3], false) == MiddleFound(t)
  {
    var w := t[5 := t[5].(checked := true)][6 := t[6].(checked := true)][7 := t[7].(checked := true)];
    MiddleAsked(t);
    hide Answer, Asked;
    assert AskKids(t, [5, 8], true, 0) == (true, w);
    assert AskItems(t, [4], 0) == (true, w);
  }

  lemma MiddleAsked(t: Store)
    requires |t| == 9 && NestSecond(t, [0, 1, 2, 3, 4, 8])
    ensures Answer(t, 5) && Asked(t, 5) == t[5 := t[5].(checked := true)][6 := t[6].(checked := true)][7 := t[7].(checked := true)]
  {
    assert Answer(t, 6);
    var u := Check(t, 5);
    var v := Check(u, 6);
    assert Asked(v, 7) == Check(v, 7);
    assert Asked(u, 6) == Asked(v, 7);
  }

  predicate MiddleShut(u: Store) {
    && |u| == 9
    && Is(u, 0, Document, true, -1, [1], false, false)
    && Is(u, 1, List, true, 0, [2], false, false)
    && Is(u, 2, Item, true, 1, [3], false, false)
    && Is(u, 3, List, false, 2, [4], false, false) && !u[3].tight
    && Is(u, 4, Item, true, 3, [5, 8], false, false)
    && Is(u, 5, List, false, 4, [6], false, true)
    && Is(u, 6, Item, false, 5, [7], true, true)
    && Is(u, 7, Paragraph, false, 6, [], true, true)
    && Is(u, 8, Paragraph, true, 4, [], false, false)
  }

  lemma MiddleIs(t: Store)
    requires |t| == 9 && NestSecond(t, [0, 1, 2, 3, 4, 8])
    ensures MiddleShut(MiddleFound(t))
  {
  }

  lemma NestHeadingMatches(t: Store, path: seq<nat>)
    requires Valid(t, path) && NestSecond(t, path)
    ensures MatchDepth(t, path, STALE[3], 0) == 3 && Matched(t, path, 3) == Mid(t, [0, 1, 2, 3], [4, 8], 3)
    ensures PathRanges(t, path) && |path| == 6 && t[path[4]].kind == Item && t[Last(path)].kind == Paragraph
    ensures ValidLine(STALE[3]) && STALE[3].starts == [Opens(Heading, false)] && !STALE[3].blank
  {
    NestSecondKinds(t, path);
    hide Valid, MidOk, NestSecond, Is, NestKinds;
    MatchesThree(t, path, STALE[3]);
    CutThree(t, path);
  }

  lemma NestSecondKinds(t: Store, path: seq<nat>)
    requires NestSecond(t, path)
    ensures NestKinds(t) && path == [0, 1, 2, 3, 4, 8] && |t| == 9 && PathRanges(t, path) && t[4].kind == Item && t[8].kind == Paragraph
  {
  }

  lemma CutThree(t: Store, path: seq<nat>)
    requires Valid(t, path) && path == [0, 1, 2, 3, 4, 8]
    ensures Matched(t, path, 3) == Mid(t, [0, 1, 2, 3], [4, 8], 3)
  {
    hide Valid, MidOk;
  }

  lemma MatchesThree(t: Store, path: seq<nat>, line: Line)
    requires path == [0, 1, 2, 3, 4, 8] && PathRanges(t, path) && NestKinds(t) && line.prefix(2) && !line.prefix(4)
    ensures MatchDepth(t, path, line, 0) == 3
  {
    assert MatchDepth(t, path, line, 3) == 3;
    assert MatchDepth(t, path, line, 1) == 3;
  }

  predicate NestKinds(t: Store) {
    |t| >= 6 && t[1].kind == List && t[2].kind == Item && t[3].kind == List && t[4].kind == Item && t[5].kind == List
  }

  predicate NestHeadingOpened(t: Store) {
    && |t| == 10
    && Is(t, 0, Document, true, -1, [1], false, false)
    && Is(t, 1, List, true, 0, [2], false, false)
    && Is(t, 2, Item, true, 1, [3, 9], false, false)
    && Is(t, 3, List, false, 2, [4], false, false) && !t[3].tight
    && Is(t, 4, Item, true, 3, [5, 8], false, false)
    && Is(t, 5, List, false, 4, [6], false, true)
    && Is(t, 6, Item, false, 5, [7], true, true)
    && Is(t, 7, Paragraph, false, 6, [], true, true)
    && Is(t, 8, Paragraph, true, 4, [], false, false)
    && Is(t, 9, Heading, true, 2, [], false, false)
  }

  /** The heading climbs out of the list in the middle. */
  lemma MiddleClimbs(t: Store, m: Mid)
    requires m == Mid(t, [0, 1, 2, 3], [4, 8], 3) && NestSecond(t, [0, 1, 2, 3, 4, 8])
    ensures |MiddleFound(t)| == 9 && UnderList(m) && m.top < |m.t| && Mid(MiddleFound(t), [0, 1, 2], [4, 8], 3) == CloseEnd(m, STALE[3], false)
  {
    hide MiddleFound, Finalized, Is;
    MiddleIs(t);
    FindsMiddle(t);
    MiddleUnder(t);
    assert Init([0, 1, 2, 3]) == [0, 1, 2];
  }

  lemma MiddleUnder(t: Store)
    requires NestSecond(t, [0, 1, 2, 3, 4, 8])
    ensures |t| == 9 && t[3].kind == List && t[3].parent == 2
  {
  }

  lemma MiddleOpens(n: Mid)
    requires MiddleShut(n.t) && n.spine == [0, 1, 2] && n.left == [4, 8] && n.top == 3
    ensures EndKind(n)
    ensures var r := Push(n, Heading, false); r.spine == [0, 1, 2, 9] && r.left == [4, 8] && r.top == 3 && NestHeadingOpened(r.t) && NoneFlagged(r)
  {
    hide Push, NestHeadingOpened, NoneFlagged;
    PushIs(n, Heading);
    MiddleTable(n.t, Push(n, Heading, false).t);
    MiddleUnflagged(Push(n, Heading, false));
  }

  lemma MiddleTable(t: Store, u: Store)
    requires MiddleShut(t) && |u| == 10 && u[9] == NewBlock(Heading, false, 2) && u[2] == t[2].(children := [3, 9])
    requires forall b: nat :: b < 9 && b != 2 ==> u[b] == t[b]
    ensures NestHeadingOpened(u)
  {
  }

  lemma MiddleUnflagged(r: Mid)
    requires NestHeadingOpened(r.t) && r.spine == [0, 1, 2, 9]
    ensures NoneFlagged(r)
  {
  }

  /** The heading finalizes the list in the middle, then the definition is freed. */
  lemma NestHeadingLine(t: Store, path: seq<nat>)
    requires Valid(t, path) && NestSecond(t, path)
    ensures var r := ProcessLine(t, path, STALE[3], false); NestHeading(r.0, r.1)
  {
    MiddleIs(t);
    var n := Mid(MiddleFound(t), [0, 1, 2], [4, 8], 3);
    NestHeadingUp(t, path, n);
    hide Valid, MidOk, AddText, ProcessLine, Push, MiddleFound, HeadingUp, NestHeading, NestHeadingOpened, NestSecond;
    HeadingDoes(t, path, 3, STALE[3], Matched(t, path, 3), n);
    NestHeadingPlaces(Push(n, Heading, false));
  }

  lemma NestHeadingUp(t: Store, path: seq<nat>, n: Mid)
    requires Valid(t, path) && NestSecond(t, path) && n == Mid(MiddleFound(t), [0, 1, 2], [4, 8], 3)
    ensures HeadingUp(t, path, 3, STALE[3], Matched(t, path, 3), n) && EndKind(n)
    ensures var r := Push(n, Heading, false); r.spine == [0, 1, 2, 9] && r.left == [4, 8] && r.top == 3 && NestHeadingOpened(r.t)
  {
    NestHeadingMatches(t, path);
    MiddleClimbs(t, Matched(t, path, 3));
    MiddleIs(t);
    MiddleOpens(n);
    hide Valid, MidOk, Push, CloseEnd, MiddleShut, MiddleFound, Matched, MatchDepth, NoneFlagged, NestHeadingOpened, NestSecond, Is, Last;
  }

  lemma NestHeadingPlaces(r: Mid)
    requires MidOk(r) && r.spine == [0, 1, 2, 9] && r.left == [4, 8] && r.top == 3 && NestHeadingOpened(r.t)
    ensures var s := AddText(r, STALE[3], false); NestHeading(s.0, s.1)
  {
    hide MidOk, AddText, CloseAllLeft, CloseLeft, NestHeadingOpened, NestHeading, Is, AddLine;
    var line := STALE[3];
    CloseTwo(r, line);
    NestTwoClosed(r, line);
    var s := CloseLeft(CloseLeft(r, line, false), line, false);
    NestDone(r.t, s.t);
    HeadingTakes(r, line);
  }

  lemma NestDone(t: Store, u: Store)
    requires NestHeadingOpened(t) && |u| == 10 && (forall b: nat :: b < 10 && b != 4 && b != 8 ==> u[b] == t[b])
    requires Is(u, 4, Item, false, 3, [5], false, false)
    ensures NestHeading(AddLine(u, 9), [0, 1, 2, 9]) && u[9].kind == Heading
  {
  }

  lemma NestTwoClosed(r: Mid, line: Line)
    requires MidOk(r) && r.left == [4, 8] && r.top == 3 && NestHeadingOpened(r.t) && line.definitionsOnly(8) && MidOk(CloseLeft(r, line, false))
    requires CloseLeft(r, line, false).left == [4] && !line.definitionsOnly(4)
    ensures var s := CloseLeft(CloseLeft(r, line, false), line, false);
            && s.left == [] && s.spine == r.spine && |s.t| == 10
            && (forall b: nat :: b < 10 && b != 4 && b != 8 ==> s.t[b] == r.t[b]) && Is(s.t, 4, Item, false, 3, [5], false, false)
  {
    hide MidOk, NestHeadingOpened, CloseLeft;
    NestFrees(r, line);
    LeafClosed(CloseLeft(r, line, false), line, 4);
  }

  lemma NestFrees(r: Mid, line: Line)
    requires r.left == [4, 8] && NestHeadingOpened(r.t) && line.definitionsOnly(8)
    ensures Last(r.left) < |r.t| && r.t[Last(r.left)].parent < Last(r.left)
    ensures var q := CloseLeft(r, line, false);
            && q.left == [4] && q.spine == r.spine && |q.t| == 10
            && (forall b: nat :: b < 10 && b != 4 && b != 8 ==> q.t[b] == r.t[b]) && Is(q.t, 4, Item, true, 3, [5], false, false)
  {
    MinusLast([5, 8]);
    assert Init([5, 8]) == [5] && Init([4, 8]) == [4];
    ParagraphFreed(r, line, 8, 4);
    hide CloseLeft, Minus;
  }

  /** A paragraph of definitions that was not matched is freed. */
  lemma ParagraphFreed(m: Mid, line: Line, b: nat, p: nat)
    requires m.left != [] && Last(m.left) == b < |m.t| && m.t[b].kind == Paragraph && m.t[b].parent == p < b && line.definitionsOnly(b)
    ensures var n := CloseLeft(m, line, false);
            && n.left == Init(m.left) && n.spine == m.spine && |n.t| == |m.t| && n.t[p] == m.t[p].(children := Minus(m.t[p].children, b))
            && forall x: nat :: x < |m.t| && x != b && x != p ==> n.t[x] == m.t[x]
  {
    hide Minus;
  }

  /** The outer list is finalized last: asked about its first block, the code comes to a bit and answers its flag. */
  lemma NestEnds(t: Store, path: seq<nat>, end: Line)
    requires Valid(t, path) && NestHeading(t, path)
    ensures FinishFrom(t, path, end, false) == OuterFound(t)
  {
    hide Valid, Decided, FinishFrom, NestHeading, Is, Closing;
    NestLeaves(t, path);
    var b := Closing(Closing(t, 9), 2);
    EndsTwice(t, path, end);
    FindsOuter(b, end);
    EndsOuter(b, end);
  }

  lemma EndsTwice(t: Store, path: seq<nat>, end: Line)
    requires Valid(t, path) && path == [0, 1, 2, 9] && |t| == 10 && t[9].kind == Heading && t[2].kind == Item
    ensures var b := Closing(Closing(t, 9), 2); Valid(b, [0, 1]) && FinishFrom(t, path, end, false) == FinishFrom(b, [0, 1], end, false)
  {
    hide Valid, FinishFrom;
    EndsLeaf(t, path, end);
    assert Init(path) == [0, 1, 2] && Init([0, 1, 2]) == [0, 1];
    EndsLeaf(Closing(t, 9), [0, 1, 2], end);
  }

  lemma EndsOuter(b: Store, end: Line)
    requires Valid(b, [0, 1]) && |b| == 10 && b[1].kind == List && b[0].kind == Document
    ensures FinishFrom(b, [0, 1], end, false) == Closing(Closing(Decided(b, 1), 1), 0)
  {
    hide Valid, FinishFrom, Decided;
    EndsList(b, [0, 1], end);
    assert Init([0, 1]) == [0];
    EndsRoot(Closing(Decided(b, 1), 1), end);
  }

  lemma NestLeaves(t: Store, path: seq<nat>)
    requires NestHeading(t, path)
    ensures |t| == 10 && path == [0, 1, 2, 9] && t[0].kind == Document && t[9].kind == Heading && t[2].kind == Item
    ensures var b := Closing(Closing(t, 9), 2);
            && Is(b, 1, List, true, 0, [2], false, false) && Is(b, 2, Item, false, 1, [3, 9], false, false)
            && Is(b, 3, List, false, 2, [4], false, false) && Is(b, 4, Item, false, 3, [5], false, false) && Is(b, 5, List, false, 4, [6], false, true)
            && b[3] == t[3] && b[4] == t[4] && b[0] == t[0] && b[1].kind == List && |b| == 10
  {
  }

  lemma EndsLeaf(t: Store, path: seq<nat>, end: Line)
    requires Valid(t, path) && |path| >= 2 && Last(path) < |t| && t[Last(path)].kind in {Heading, Item}
    ensures var u := Closing(t, Last(path)); Valid(u, Init(path)) && FinishFrom(t, path, end, false) == FinishFrom(u, Init(path), end, false)
  {
    hide Valid, MidOk;
    var r := CloseCurrent(t, path, end, false);
  }

  lemma EndsList(t: Store, path: seq<nat>, end: Line)
    requires Valid(t, path) && |path| >= 2 && Last(path) < |t| && t[Last(path)].kind == List
    ensures var d := Decided(t, Last(path));
            && Last(path) < |d| && var u := Closing(d, Last(path));
               Valid(u, Init(path)) && FinishFrom(t, path, end, false) == FinishFrom(u, Init(path), end, false)
  {
    hide Valid, MidOk, Decided;
    var r := CloseCurrent(t, path, end, false);
  }

  lemma EndsRoot(t: Store, end: Line)
    requires Valid(t, [0]) && t != [] && t[0].kind == Document
    ensures FinishFrom(t, [0], end, false) == Closing(t, 0)
  {
    hide Valid, MidOk, Decided;
  }

  function Closing(t: Store, b: nat): (u: Store)
    requires b < |t|
    ensures |u| == |t|
  {
    t[b := t[b].(open := false, finals := t[b].finals + 1)]
  }

  function OuterFound(t: Store): Store
    requires |t| == 10
  {
    var b := Closing(Closing(t, 9), 2);
    var u := b[3 := b[3].(checked := true)][4 := b[4].(checked := true)];
    Closing(Closing(u[1 := u[1].(tight := true)], 1), 0)
  }

  lemma FindsOuter(t: Store, end: Line)
    requires |t| == 10 && Is(t, 1, List, true, 0, [2], false, false) && Is(t, 2, Item, false, 1, [3, 9], false, false)
    requires Is(t, 3, List, false, 2, [4], false, false) && Is(t, 4, Item, false, 3, [5], false, false) && Is(t, 5, List, false, 4, [6], false, true)
    ensures var u := t[3 := t[3].(checked := true)][4 := t[4].(checked := true)]; Decided(t, 1) == u[1 := u[1].(tight := true)]
  {
    var u := Check(Check(t, 3), 4);
    OuterAsked(t);
    hide Answer, Asked;
    assert AskKids(u, [3, 9], true, 1) == (false, u);
    assert AskKids(t, [3, 9], true, 0) == (false, u);
    assert AskItems(u, [2], 1) == (false, u);
    assert AskItems(t, [2], 0) == (false, u);
  }

  lemma OuterAsked(t: Store)
    requires |t| == 10 && Is(t, 3, List, false, 2, [4], false, false) && Is(t, 4, Item, false, 3, [5], false, false) && Is(t, 5, List, false, 4, [6], false, true)
    ensures !Answer(t, 3) && Asked(t, 3) == Check(Check(t, 3), 4)
  {
    assert !Answer(t, 4);
    var u := Check(t, 3);
    assert Asked(Check(u, 4), 5) == Check(u, 4);
    assert Asked(u, 4) == Check(u, 4);
  }

  /** The outer list is tight, although a blank line stands between two blocks of its item; the list in that item
      is not tight, although its one item holds one block. */
  lemma TightByMemo(end: Line)
    ensures ValidLines(STALE)
    ensures var t := ParsedDocument(STALE, end, false);
            Tree(t) && |t| == 10 && t[1].kind == List && t[3].kind == List && t[1].tight && Loose(t, 1) && !t[3].tight && !Loose(t, 3)
  {
    hide Valid, ProcessLine, FinishFrom, NestText, NestBlank, NestSecond, NestHeading, OuterFound;
    FreshIs();
    var a := ProcessLine(FRESH_STORE, [ROOT], STALE[0], false);
    NestLine();
    var b := ProcessLine(a.0, a.1, STALE[1], false);
    NestBlankLine(a.0, a.1);
    var c := ProcessLine(b.0, b.1, STALE[2], false);
    NestSecondLine(b.0, b.1);
    var d := ProcessLine(c.0, c.1, STALE[3], false);
    NestHeadingLine(c.0, c.1);
    Four(STALE);
    NestEnds(d.0, d.1, end);
    WronglyFound(d.0, d.1, FinishFrom(d.0, d.1, end, false));
  }

  lemma WronglyFound(t: Store, path: seq<nat>, u: Store)
    requires NestHeading(t, path) && u == OuterFound(t) && Tree(u)
    ensures |u| == 10 && u[1].kind == List && u[3].kind == List && u[1].tight && Loose(u, 1) && !u[3].tight && !Loose(u, 3)
  {
    hide Tree;
    assert Ends(u, 6) && Ends(u, 5) && Ends(u, 4);
    assert Items(u, 1, 0)[0] == 3 && Ends(u, 3);
    assert LooseItem(u, 1, 0);
  }
}
