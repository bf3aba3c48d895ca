/** The block parser as a step machine over lines.  The scanners are oracles: a line says which
    prefixes match, which blocks its rest starts, and which paragraphs hold only definitions.
    Blocks live in a store and are addressed by number; a block is made after its parent. */
module BlockParser {
  import opened NodeKinds
  import opened Lists
  import opened Blocks
  import opened ListTight

  const MAX_LIST_DEPTH := 100

  /** What the scanners make of the rest of a line, one block start after another. */
  datatype Start =
    | Opens(kind: Kind, fenced: bool)     // block quote, heading, fence, HTML, break or footnote definition
    | Underline(content: bool)            // setext; `content` is left after resolving definitions
    | Marker(joins: bool)                 // list item; `joins` says it matches the list
    | Indented

  datatype Line = Line(
    prefix: nat -> bool,            // does the block at this depth find its prefix?
    closesFence: nat -> bool,       // is this the closing fence of the code block at this depth?
    starts: seq<Start>,
    blank: bool,                    // is what remains blank?
    definitionsOnly: nat -> bool,   // does this paragraph hold only link definitions?
    htmlEnd: bool)

  predicate ValidStart(s: Start) {
    s.Opens? ==> s.kind in {BlockQuote, Heading, CodeBlock, HtmlBlock, ThematicBreak, FootnoteDefinition}
  }

  ghost predicate ValidLine(line: Line) {
    forall i :: 0 <= i < |line.starts| ==> ValidStart(line.starts[i])
  }

  // ---------------------------------------------------------------- the store

  /** Open blocks were never finalized, the others exactly once. */
  ghost predicate Counted(t: Store) {
    forall b :: 0 <= b < |t| ==> t[b].finals == (if t[b].open then 0 else 1) && (t[b].open ==> !t[b].freed)
  }

  /** `s` runs from the root down by last children. */
  ghost predicate Spine(t: Store, s: seq<nat>) {
    && s != [] && s[0] == ROOT && (forall i :: 0 <= i < |s| ==> s[i] < |t|)
    && forall i :: 0 <= i < |s| - 1 ==> t[s[i]].children != [] && Last(t[s[i]].children) == s[i + 1]
  }

  /** `finalize` on an open block: a list is found tight or loose, and the block is closed for good. */
  function Finalized(t: Store, b: nat, line: Line, preserve: bool): Store
    requires b < |t| && t[b].parent < b
  {
    Shut(if t[b].kind == List then Decided(t, b) else t, b, line, preserve)
  }

  /** A paragraph of definitions only is freed too. */
  predicate Frees(t: Store, b: nat, line: Line, preserve: bool)
    requires b < |t|
  {
    t[b].kind == Paragraph && line.definitionsOnly(b) && !preserve
  }

  function Shut(t: Store, b: nat, line: Line, preserve: bool): Store
    requires b < |t| && t[b].parent < b
  {
    var c := t[b].(open := false, finals := t[b].finals + 1);
    if Frees(t, b, line, preserve) then
      var u := t[b := c.(freed := true, parent := -1)];
      if c.parent < 0 then u else u[c.parent := u[c.parent].(children := Minus(u[c.parent].children, b))]
    else
      t[b := c]
  }

  /** What is decided about a list changes nothing but bits. */
  lemma DecidedBits(t: Store, b: nat)
    requires b < |t|
    ensures var u := if t[b].kind == List then Decided(t, b) else t;
            SameTree(t, u) && SameButBits(t, u) && (Tree(t) ==> Tree(u)) && u[b].kind == t[b].kind && u[b].parent == t[b].parent && u[b].open == t[b].open
  {
    hide Decided, Tree;
    if t[b].kind == List && Tree(t) { SameIsTree(t, Decided(t, b)); }
  }

  // ---------------------------------------------------------------- the state within a line

  /** `spine` is the new path from the root.  The blocks of `left`, under the last matched block `top`,
      were not matched: they are still open and wait to be finalized or to be continued lazily. */
  datatype Mid = Mid(t: Store, spine: seq<nat>, left: seq<nat>, top: nat)

  /** `s` runs down by parents, from below `top`. */
  ghost predicate Hanging(t: Store, s: seq<nat>, top: nat) {
    && (forall i :: 0 <= i < |s| ==> top < s[i] < |t|)
    && (s != [] ==> t[s[0]].parent == top)
    && forall i {:trigger t[s[i]]} :: 1 <= i < |s| ==> t[s[i]].parent == s[i - 1]
  }

  ghost predicate MidOk(m: Mid) {
    && Tree(m.t) && Counted(m.t) && Spine(m.t, m.spine)
    && m.top < |m.t|
    && Hanging(m.t, m.left, m.top)
    && (forall b :: 0 <= b < |m.t| ==> (m.t[b].open <==> b in m.spine || b in m.left))
    && (forall b :: b in m.spine ==> b !in m.left)
  }

  /** Between lines: the open blocks are exactly the last-child path from the root. */
  ghost predicate Valid(t: Store, path: seq<nat>) {
    && Tree(t) && Counted(t) && Spine(t, path)
    && forall b :: 0 <= b < |t| ==> (t[b].open <==> b in path)
  }

  function Current(m: Mid): nat {
    if m.left == [] then m.top else Last(m.left)
  }

  lemma SpineLink(t: Store, s: seq<nat>, i: nat)
    requires Tree(t) && Spine(t, s) && i + 1 < |s|
    ensures t[s[i + 1]].parent == s[i] < s[i + 1] && CanContain(t[s[i]].kind, t[s[i + 1]].kind)
  {
    assert KidsOk(t, s[i]);
    assert Last(t[s[i]].children) == s[i + 1] && s[i + 1] in t[s[i]].children;
  }

  lemma {:induction false} SpineAscends(t: Store, s: seq<nat>, i: nat, j: nat)
    requires Tree(t) && Spine(t, s) && i < j < |s|
    ensures s[i] < s[j]
    decreases j
  {
    SpineLink(t, s, j - 1);
    if i < j - 1 { SpineAscends(t, s, i, j - 1); }
  }

  lemma {:induction false} LeftAscends(m: Mid, i: nat, j: nat)
    requires MidOk(m) && i < j < |m.left|
    ensures m.left[i] < m.left[j]
    decreases j
  {
    assert m.t[m.left[j]].parent == m.left[j - 1];
    if i < j - 1 { LeftAscends(m, i, j - 1); }
  }

  function CloseEnd(m: Mid, line: Line, preserve: bool): Mid
    requires |m.spine| >= 2 && Last(m.spine) < |m.t| && m.t[Last(m.spine)].parent < Last(m.spine)
  {
    m.(t := Finalized(m.t, Last(m.spine), line, preserve), spine := Init(m.spine))
  }

  function CloseLeft(m: Mid, line: Line, preserve: bool): Mid
    requires m.left != [] && Last(m.left) < |m.t| && m.t[Last(m.left)].parent < Last(m.left)
  {
    m.(t := Finalized(m.t, Last(m.left), line, preserve), left := Init(m.left))
  }

  function Push(m: Mid, kind: Kind, fenced: bool): Mid
    requires m.spine != [] && Last(m.spine) < |m.t|
  {
    var p, b := Last(m.spine), |m.t|;
    var t := m.t + [NewBlock(kind, fenced, p)];
    m.(t := t[p := t[p].(children := t[p].children + [b])], spine := m.spine + [b])
  }

  lemma FinalizedTree(t: Store, b: nat, line: Line, preserve: bool)
    requires Tree(t) && b < |t|
    ensures Tree(Finalized(t, b, line, preserve))
  {
    hide Decided, Shut, Tree;
    assert t[b].parent < b by { OlderParent(t, b); }
    DecidedBits(t, b);
    ShutTree(if t[b].kind == List then Decided(t, b) else t, b, line, preserve);
  }

  lemma OlderParent(t: Store, b: nat)
    requires Tree(t) && b < |t|
    ensures t[b].parent < b
  {
  }

  lemma ShutTree(t: Store, b: nat, line: Line, preserve: bool)
    requires Tree(t) && b < |t|
    ensures Tree(Shut(t, b, line, preserve))
  {
    hide CanContain, Minus;
    var u := Shut(t, b, line, preserve);
    forall x | 0 <= x < |u| ensures KidsOk(u, x) {
      assert KidsOk(t, x);
      MinusAscends(t[x].children, b);
    }
  }

  lemma FinalizedCounted(t: Store, b: nat, line: Line, preserve: bool)
    requires Tree(t) && Counted(t) && b < |t| && t[b].open
    ensures Counted(Finalized(t, b, line, preserve))
    ensures var u := Finalized(t, b, line, preserve);
            && |u| == |t| && !u[b].open
            && forall x :: 0 <= x < |t| ==> u[x].kind == t[x].kind && (x != b ==> u[x].open == t[x].open && u[x].parent == t[x].parent)
  {
    hide Decided, KidsOk;
    DecidedBits(t, b);
  }

  lemma FinalizedSpine(t: Store, b: nat, line: Line, preserve: bool, s: seq<nat>)
    requires Tree(t) && b < |t| && Spine(t, s) && b !in s
    ensures Spine(Finalized(t, b, line, preserve), s)
  {
    hide Decided, KidsOk;
    DecidedBits(t, b);
    var u := Finalized(t, b, line, preserve);
    forall i | 0 <= i < |s| - 1 ensures u[s[i]].children != [] && Last(u[s[i]].children) == s[i + 1] {
      assert s[i] in s && s[i + 1] in s;
    }
  }

  lemma InitElements(s: seq<nat>)
    requires s != []
    ensures forall x :: x in s <==> x in Init(s) || x == Last(s)
  {
  }

  /** Both stacks are duplicate-free. */
  lemma LastIsNew(m: Mid)
    requires MidOk(m)
    ensures Last(m.spine) !in Init(m.spine)
    ensures m.left != [] ==> Last(m.left) !in Init(m.left)
  {
    forall i | 0 <= i < |m.spine| - 1 ensures m.spine[i] != Last(m.spine) { SpineAscends(m.t, m.spine, i, |m.spine| - 1); }
    forall i | 0 <= i < |m.left| - 1 ensures m.left[i] != Last(m.left) { LeftAscends(m, i, |m.left| - 1); }
  }

  lemma OpenAfter(m: Mid, b: nat, line: Line, preserve: bool, spine: seq<nat>, left: seq<nat>)
    requires MidOk(m) && b < |m.t| && m.t[b].open
    requires forall x :: (x in m.spine || x in m.left) <==> (x in spine || x in left || x == b)
    requires b !in spine && b !in left
    ensures var u := Finalized(m.t, b, line, preserve);
            forall x :: 0 <= x < |u| ==> (u[x].open <==> x in spine || x in left)
  {
    FinalizedCounted(m.t, b, line, preserve);
  }

  lemma HangingAfter(t: Store, left: seq<nat>, top: nat, b: nat, line: Line, preserve: bool)
    requires Tree(t) && Counted(t) && b < |t| && t[b].open && Hanging(t, left, top) && b !in left
    ensures Hanging(Finalized(t, b, line, preserve), left, top)
  {
    FinalizedCounted(t, b, line, preserve);
    assert forall i :: 0 <= i < |left| ==> left[i] in left;
  }

  /** Closing the end of the path keeps the invariant. */
  lemma CloseEndOk(m: Mid, line: Line, preserve: bool)
    requires MidOk(m) && |m.spine| >= 2
    ensures m.t[Last(m.spine)].parent == Last(Init(m.spine)) < Last(m.spine) < |m.t| && m.t[Last(m.spine)].open
    ensures MidOk(CloseEnd(m, line, preserve))
  {
    hide Tree, Counted, Finalized, Hanging;
    SpineInRange(m);
    var b, s := Last(m.spine), Init(m.spine);
    SpineLink(m.t, m.spine, |m.spine| - 2);
    InitElements(m.spine);
    LastIsNew(m);
    FinalizedTree(m.t, b, line, preserve);
    FinalizedCounted(m.t, b, line, preserve);
    FinalizedSpine(m.t, b, line, preserve, s);
    HangingAfter(m.t, m.left, m.top, b, line, preserve);
    OpenAfter(m, b, line, preserve, s, m.left);
  }

  /** So does closing the deepest block that was not matched. */
  lemma CloseLeftOk(m: Mid, line: Line, preserve: bool)
    requires MidOk(m) && m.left != []
    ensures Last(m.left) < |m.t| && m.t[Last(m.left)].open && m.t[Last(m.left)].parent < Last(m.left)
    ensures m.t[Last(m.left)].parent == Current(m.(left := Init(m.left)))
    ensures MidOk(CloseLeft(m, line, preserve)) && |CloseLeft(m, line, preserve).t| == |m.t|
  {
    var b, s := Last(m.left), Init(m.left);
    InitElements(m.left);
    LastIsNew(m);
    FinalizedTree(m.t, b, line, preserve);
    FinalizedCounted(m.t, b, line, preserve);
    FinalizedSpine(m.t, b, line, preserve, m.spine);
    assert Hanging(m.t, s, m.top);
    HangingAfter(m.t, s, m.top, b, line, preserve);
    OpenAfter(m, b, line, preserve, m.spine, s);
  }

  lemma PushTree(t: Store, p: nat, kind: Kind, fenced: bool)
    requires Tree(t) && Counted(t) && p < |t| && CanContain(t[p].kind, kind)
    ensures var u := t + [NewBlock(kind, fenced, p)];
            var v := u[p := u[p].(children := u[p].children + [|t|])];
            Tree(v) && Counted(v)
  {
    hide CanContain, KidsOk;
    var u := t + [NewBlock(kind, fenced, p)];
    var v := u[p := u[p].(children := u[p].children + [|t|])];
    forall x | 0 <= x < |v| ensures KidsOk(v, x) {
      if x == |t| { NoKids(v, x); } else { PushKids(t, p, kind, fenced, x); }
    }
  }

  lemma NoKids(t: Store, x: nat)
    requires x < |t| && t[x].children == []
    ensures KidsOk(t, x)
  {
  }

  lemma PushKids(t: Store, p: nat, kind: Kind, fenced: bool, x: nat)
    requires p < |t| && x < |t| && KidsOk(t, x) && CanContain(t[p].kind, kind)
    ensures var u := t + [NewBlock(kind, fenced, p)]; KidsOk(u[p := u[p].(children := u[p].children + [|t|])], x)
  {
    hide CanContain;
    assert forall i :: 0 <= i < |t[x].children| ==> t[x].children[i] in t[x].children;
  }

  lemma PushSpine(m: Mid, kind: Kind, fenced: bool)
    requires MidOk(m)
    ensures Spine(Push(m, kind, fenced).t, Push(m, kind, fenced).spine)
  {
    var n := Push(m, kind, fenced);
    forall i | 0 <= i < |n.spine| - 1
      ensures n.t[n.spine[i]].children != [] && Last(n.t[n.spine[i]].children) == n.spine[i + 1]
    {
      if i < |m.spine| - 1 { SpineAscends(m.t, m.spine, i, |m.spine| - 1); }
    }
  }

  /** A new open block under the end of the path keeps the invariant. */
  lemma PushOk(m: Mid, kind: Kind, fenced: bool)
    requires MidOk(m) && CanContain(m.t[Last(m.spine)].kind, kind)
    ensures MidOk(Push(m, kind, fenced))
  {
    hide Tree, Counted, KidsOk;
    var n := Push(m, kind, fenced);
    PushTree(m.t, Last(m.spine), kind, fenced);
    PushSpine(m, kind, fenced);
    assert forall x :: x in n.spine <==> x in m.spine || x == |m.t|;
  }

  // ---------------------------------------------------------------- add_child and open_new_blocks

  ghost predicate MayAdd(m: Mid, kind: Kind)
    requires MidOk(m)
  {
    kind != Document && !IsInline(kind) && (kind == Item ==> m.t[Last(m.spine)].kind == List)
  }

  /** `add_child`: climbs, finalizing, to a block that can contain the child. */
  ghost function AddChild(m: Mid, kind: Kind, fenced: bool, line: Line, preserve: bool): (r: Mid)
    requires MidOk(m) && MayAdd(m, kind)
    ensures MidOk(r) && r.left == m.left && r.top == m.top
    ensures |r.t| == |m.t| + 1 && Last(r.spine) == |m.t| && r.t[Last(r.spine)].kind == kind
    decreases |m.spine|
  {
    hide MidOk, MayAdd, Finalized, CanContain;
    SpineInRange(m);
    if CanContain(m.t[Last(m.spine)].kind, kind) then
      PushOk(m, kind, fenced);
      Push(m, kind, fenced)
    else
      ClimbOk(m, kind, line, preserve);
      AddChild(CloseEnd(m, line, preserve), kind, fenced, line, preserve)
  }

  lemma ParagraphMayGo(m: Mid)
    requires MidOk(m)
    ensures MayAdd(m, Paragraph)
  {
  }

  /** One step of that climb: the child goes here, or the end of the path is closed and the climb goes on. */
  lemma AddChildStep(m: Mid, kind: Kind, fenced: bool, line: Line, preserve: bool)
    requires MidOk(m) && MayAdd(m, kind)
    ensures m.spine != [] && Last(m.spine) < |m.t|
    ensures CanContain(m.t[Last(m.spine)].kind, kind) ==> AddChild(m, kind, fenced, line, preserve) == Push(m, kind, fenced)
    ensures !CanContain(m.t[Last(m.spine)].kind, kind) ==> ClimbsOn(m, kind, fenced, line, preserve)
  {
    hide Tree, Counted, Finalized, IsInline;
    SpineInRange(m);
    if !CanContain(m.t[Last(m.spine)].kind, kind) {
      RootTakesAll(m, kind);
      CloseEndOk(m, line, preserve);
    }
  }

  /** What has no place at the end of the path is no item, and the path goes on above. */
  lemma RootTakesAll(m: Mid, kind: Kind)
    requires MidOk(m) && MayAdd(m, kind) && !CanContain(m.t[Last(m.spine)].kind, kind)
    ensures |m.spine| >= 2 && kind != Item && kind != Document && !IsInline(kind)
  {
    hide Counted, Hanging;
  }

  /** The end of the path may be closed to make room. */
  lemma ClimbOk(m: Mid, kind: Kind, line: Line, preserve: bool)
    requires MidOk(m) && MayAdd(m, kind) && !CanContain(m.t[Last(m.spine)].kind, kind)
    ensures |m.spine| >= 2 && Last(m.spine) < |m.t| && m.t[Last(m.spine)].parent < Last(m.spine)
    ensures var n := CloseEnd(m, line, preserve); MidOk(n) && MayAdd(n, kind) && |n.t| == |m.t|
  {
    hide Tree, Counted, Hanging, Finalized, IsInline;
    RootTakesAll(m, kind);
    CloseEndOk(m, line, preserve);
    FinalizedCounted(m.t, Last(m.spine), line, preserve);
  }

  lemma SpineInRange(m: Mid)
    requires MidOk(m)
    ensures m.spine != [] && Last(m.spine) < |m.t|
  {
  }

  ghost predicate ClimbsOn(m: Mid, kind: Kind, fenced: bool, line: Line, preserve: bool)
    requires MidOk(m) && MayAdd(m, kind)
  {
    var b := Last(m.spine);
    && |m.spine| >= 2 && m.t[b].parent < b && m.t[b].open
    && var n := CloseEnd(m, line, preserve);
    && MidOk(n) && MayAdd(n, kind) && n.spine != [] && Last(n.spine) == m.t[b].parent < |n.t| && |n.spine| < |m.spine|
    && n.t == Finalized(m.t, b, line, preserve)
    && AddChild(m, kind, fenced, line, preserve) == AddChild(n, kind, fenced, line, preserve)
  }

  /** Same blocks, same links, same open flags: at most a kind differs. */
  ghost predicate SameShape(t: Store, u: Store) {
    |t| == |u| && forall b :: 0 <= b < |t| ==> u[b].children == t[b].children && u[b].open == t[b].open
  }

  /** A setext underline turns the paragraph it follows into a heading. */
  ghost function SetHeading(m: Mid): (r: Mid)
    requires MidOk(m) && m.t[Last(m.spine)].kind == Paragraph
    ensures MidOk(r)
  {
    var c := Last(m.spine);
    HeadingTree(m.t, c);
    m.(t := m.t[c := m.t[c].(kind := Heading)])
  }

  lemma HeadingTree(t: Store, c: nat)
    requires Tree(t) && c < |t| && t[c].kind == Paragraph
    ensures Tree(t[c := t[c].(kind := Heading)])
  {
    var u := t[c := t[c].(kind := Heading)];
    forall x | 0 <= x < |u| ensures KidsOk(u, x) { assert KidsOk(t, x); }
  }

  /** A list item, in the list it joins or in a new one. */
  ghost function AddItem(m: Mid, joins: bool, line: Line, preserve: bool): (r: Mid)
    requires MidOk(m)
    ensures MidOk(r) && r.left == m.left && r.top == m.top && |r.t| >= |m.t| && Last(r.spine) >= |m.t|
  {
    var list := if m.t[Last(m.spine)].kind == List && joins then m else AddChild(m, List, false, line, preserve);
    AddChild(list, Item, false, line, preserve)
  }

  /** One turn of `open_new_blocks`; false when no block starts here. */
  ghost function OpenOne(m: Mid, s: Start, depth: nat, allMatched: bool, maybeLazy: bool, line: Line, preserve: bool): (r: (Mid, bool))
    requires MidOk(m) && ValidStart(s)
    ensures MidOk(r.0) && r.0.left == m.left && r.0.top == m.top && |r.0.t| >= |m.t|
    ensures Last(r.0.spine) >= |m.t| || (r.0.spine == m.spine && SameShape(m.t, r.0.t) && (r.1 ==> AcceptsLines(r.0.t[Last(r.0.spine)].kind)))
  {
    hide AddChild, AddItem, Tree, Counted, KidsOk;
    var cont := m.t[Last(m.spine)].kind;
    match s
    case Opens(kind, fenced) =>
      if (kind == ThematicBreak && cont == Paragraph && !allMatched) || (kind == FootnoteDefinition && depth >= MAX_LIST_DEPTH)
      then (m, false)
      else (AddChild(m, kind, fenced, line, preserve), true)
    case Underline(content) =>
      if cont != Paragraph then (m, false) else (if content then SetHeading(m) else m, true)
    case Marker(joins) =>
      if depth >= MAX_LIST_DEPTH then (m, false)
      else (AddItem(m, joins, line, preserve), true)
    case Indented =>
      if maybeLazy then (m, false) else (AddChild(m, CodeBlock, false, line, preserve), true)
  }

  ghost function OpenNew(m: Mid, starts: seq<Start>, depth: nat, allMatched: bool, maybeLazy: bool, line: Line, preserve: bool): (r: Mid)
    requires MidOk(m) && forall i :: 0 <= i < |starts| ==> ValidStart(starts[i])
    ensures MidOk(r) && r.left == m.left && r.top == m.top && |r.t| >= |m.t|
    ensures Last(r.spine) >= |m.t| || (r.spine == m.spine && SameShape(m.t, r.t))
    decreases |starts|
  {
    var cont := m.t[Last(m.spine)].kind;
    if starts == [] || cont == CodeBlock || cont == HtmlBlock then m
    else
      var r := OpenOne(m, starts[0], depth, allMatched, maybeLazy, line, preserve);
      if !r.1 || AcceptsLines(r.0.t[Last(r.0.spine)].kind) then r.0
      else OpenNew(r.0, starts[1..], depth + 1, allMatched, false, line, preserve)
  }

  // ---------------------------------------------------------------- one line

  predicate PrefixMatches(b: Block, depth: nat, line: Line) {
    match b.kind
    case Heading => false                       // never more than one line
    case BlockQuote | Item | HtmlBlock | Paragraph | FootnoteDefinition => line.prefix(depth)
    case CodeBlock => if b.fenced then !line.closesFence(depth) else line.prefix(depth)
    case _ => true
  }

  /** `check_open_blocks`: the depth of the last block on the path that matched. */
  ghost function MatchDepth(t: Store, path: seq<nat>, line: Line, i: nat): (j: nat)
    requires i < |path| && forall k :: 0 <= k < |path| ==> path[k] < |t|
    ensures i <= j < |path|
    ensures j + 1 < |path| ==> !PrefixMatches(t[path[j + 1]], j + 1, line)
    ensures forall k :: i < k <= j ==> PrefixMatches(t[path[k]], k, line)
    decreases |path| - i
  {
    if i + 1 == |path| || !PrefixMatches(t[path[i + 1]], i + 1, line) then i else MatchDepth(t, path, line, i + 1)
  }

  /** The open blocks, cut behind the last one that matched. */
  ghost function Matched(t: Store, path: seq<nat>, j: nat): (m: Mid)
    requires Valid(t, path) && j < |path|
    ensures MidOk(m) && m.t == t && m.spine + m.left == path
  {
    MatchedOk(t, path, j);
    Mid(t, path[..j + 1], path[j + 1..], path[j])
  }

  lemma MatchedOk(t: Store, path: seq<nat>, j: nat)
    requires Valid(t, path) && j < |path|
    ensures MidOk(Mid(t, path[..j + 1], path[j + 1..], path[j]))
  {
    hide Valid, MidOk;
    PathCut(path, j);
    CutOk(t, path, path[..j + 1], path[j + 1..], j);
  }

  /** `s` and `left` are the path up to and after place `j`. */
  ghost predicate Cut(path: seq<nat>, s: seq<nat>, left: seq<nat>, j: nat) {
    && |s| == j + 1 && |path| == |s| + |left|
    && (forall i :: 0 <= i <= j ==> s[i] == path[i]) && (forall i :: 0 <= i < |left| ==> left[i] == path[j + 1 + i])
    && forall x :: x in path <==> x in s || x in left
  }

  lemma PathCut(path: seq<nat>, j: nat)
    requires j < |path|
    ensures Cut(path, path[..j + 1], path[j + 1..], j)
  {
  }

  lemma CutOk(t: Store, path: seq<nat>, s: seq<nat>, left: seq<nat>, j: nat)
    requires Valid(t, path) && Cut(path, s, left, j)
    ensures MidOk(Mid(t, s, left, path[j]))
  {
    hide Tree, Counted;
    forall i, k | 0 <= i < k < |path| ensures path[i] < path[k] { SpineAscends(t, path, i, k); }
    forall i | 0 <= i < |path| - 1 ensures t[path[i + 1]].parent == path[i] { SpineLink(t, path, i); }
  }

  ghost function CloseAllLeft(m: Mid, line: Line, preserve: bool): (r: Mid)
    requires MidOk(m)
    ensures MidOk(r) && r.left == [] && r.spine == m.spine && r.top == m.top && |r.t| == |m.t|
    decreases |m.left|
  {
    hide MidOk, Finalized;
    if m.left == [] then m
    else CloseLeftOk(m, line, preserve); CloseAllLeft(CloseLeft(m, line, preserve), line, preserve)
  }

  /** One step of closing what was not matched. */
  lemma LeftStep(m: Mid, line: Line, preserve: bool)
    requires MidOk(m)
    ensures Current(m) != m.top <==> m.left != []
    ensures m.left == [] ==> CloseAllLeft(m, line, preserve) == m
    ensures m.left != [] ==>
      && Current(m) == Last(m.left) < |m.t| && m.t[Current(m)].parent < Current(m) && m.t[Current(m)].open
      && var n := CloseLeft(m, line, preserve);
         && MidOk(n) && CloseAllLeft(m, line, preserve) == CloseAllLeft(n, line, preserve) && |n.left| < |m.left| && n.top == m.top
         && n.t == Finalized(m.t, Current(m), line, preserve) && m.t[Current(m)].parent == Current(n)
  {
    hide Tree, Counted, Spine, Finalized;
    if m.left != [] { CloseLeftOk(m, line, preserve); }
  }

  function AddLine(t: Store, b: nat): Store
    requires b < |t|
  {
    t[b := t[b].(lines := t[b].lines + 1)]
  }

  /** `add_text_to_container`, for a line that is not a lazy continuation. */
  ghost function AddText(m: Mid, line: Line, preserve: bool): (r: (Store, seq<nat>))
    requires MidOk(m)
    ensures Valid(r.0, r.1)
  {
    hide Tree, Counted, Hanging, Finalized, CloseAllLeft, AddChild;
    var n := CloseAllLeft(m, line, preserve);
    SpineInRange(n);
    var c := Last(n.spine);
    if n.t[c].kind == CodeBlock then
      LineKeeps(n, c); (AddLine(n.t, c), n.spine)
    else if n.t[c].kind == HtmlBlock then
      LineKeeps(n, c);
      var u := n.(t := AddLine(n.t, c));
      if line.htmlEnd then
        HtmlIsNoRoot(n);
        CloseEndOk(u, line, preserve);
        var v := CloseEnd(u, line, preserve);
        (v.t, v.spine)
      else (u.t, u.spine)
    else if line.blank && !preserve then (n.t, n.spine)
    else if AcceptsLines(n.t[c].kind) then
      LineKeeps(n, c); (AddLine(n.t, c), n.spine)
    else
      var p := AddChild(n, Paragraph, false, line, preserve);
      LineKeeps(p, Last(p.spine));
      (AddLine(p.t, Last(p.spine)), p.spine)
  }

  lemma HtmlIsNoRoot(m: Mid)
    requires MidOk(m) && m.left == [] && m.t[Last(m.spine)].kind == HtmlBlock
    ensures |m.spine| >= 2 && MidOk(m.(t := AddLine(m.t, Last(m.spine))))
  {
    LineKeeps(m, Last(m.spine));
  }

  lemma LineKeeps(m: Mid, b: nat)
    requires MidOk(m) && m.left == [] && b < |m.t|
    ensures MidOk(m.(t := AddLine(m.t, b))) && Valid(AddLine(m.t, b), m.spine)
  {
    var u := AddLine(m.t, b);
    forall x | 0 <= x < |u| ensures KidsOk(u, x) { assert KidsOk(m.t, x); }
  }

  // ---------------------------------------------------------------- what is noted of blank lines

  /** Is a blank line held against the block that the line comes to?  `start` is the number of the next block when
      the line began, so blocks from there on were made on this line. */
  predicate HeldAgainst(t: Store, c: nat, line: Line, start: nat)
    requires c < |t|
  {
    && line.blank && t[c].kind != BlockQuote && t[c].kind != Heading && t[c].kind != ThematicBreak
    && !(t[c].kind == CodeBlock && t[c].fenced) && !(t[c].kind == Item && t[c].children == [] && c >= start)
  }

  function Flag(t: Store, b: nat, blank: bool): (u: Store)
    requires b < |t|
    ensures SameButBits(t, u)
  {
    t[b := t[b].(blank := blank)]
  }

  lemma BitsTrans(t: Store, u: Store, v: Store)
    requires SameButBits(t, u) && SameButBits(u, v)
    ensures SameButBits(t, v) && |u| == |t|
  {
  }

  /** No blank line is held against the blocks above `b`. */
  function ClearAbove(t: Store, b: nat): (u: Store)
    requires b < |t|
    ensures SameButBits(t, u)
    decreases b
  {
    hide SameButBits;
    SameBits(t);
    if 0 <= t[b].parent < b then
      var f := Flag(t, t[b].parent, false);
      BitsSize(t, f);
      BitsTrans(t, f, ClearAbove(f, t[b].parent));
      ClearAbove(f, t[b].parent)
    else t
  }

  lemma SameBits(t: Store)
    ensures SameButBits(t, t)
  {
  }

  lemma BitsSize(t: Store, u: Store)
    requires SameButBits(t, u)
    ensures |u| == |t|
  {
  }

  /** A blank line is held against the last child. */
  function FlagLast(t: Store, c: nat, blank: bool): (u: Store)
    requires c < |t|
    ensures SameButBits(t, u)
  {
    if blank && t[c].children != [] && Last(t[c].children) < |t| then Flag(t, Last(t[c].children), true) else t
  }

  /** `add_text_to_container`, before it places the line. */
  function Noted(t: Store, c: nat, line: Line, start: nat): (u: Store)
    requires c < |t|
    ensures SameButBits(t, u)
  {
    hide SameButBits;
    var u := FlagLast(t, c, line.blank);
    BitsSize(t, u);
    var f := Flag(u, c, HeldAgainst(t, c, line, start));
    BitsTrans(t, u, f);
    BitsTrans(t, f, ClearAbove(f, c));
    ClearAbove(f, c)
  }

  lemma BitsKeepMid(m: Mid, u: Store)
    requires MidOk(m) && SameButBits(m.t, u)
    ensures MidOk(m.(t := u))
  {
    hide KidsOk;
    BitsKeepTree(m.t, u);
  }

  predicate ClosesFence(b: Block, depth: nat, line: Line) {
    b.kind == CodeBlock && b.fenced && line.closesFence(depth)
  }

  /** `S_process_line`: the store and the path after a line. */
  ghost function ProcessLine(t: Store, path: seq<nat>, line: Line, preserve: bool): (r: (Store, seq<nat>))
    requires Valid(t, path) && ValidLine(line)
    ensures Valid(r.0, r.1)
  {
    var j := MatchDepth(t, path, line, 0);
    if j + 1 < |path| && ClosesFence(t[path[j + 1]], j + 1, line) then
      CodeIsLast(t, path, j + 1);
      CloseCurrent(t, path, line, preserve)
    else
      RestOfLine(t, path, j, line, preserve)
  }

  /** What follows the prefixes: new blocks, then text. */
  ghost function RestOfLine(t: Store, path: seq<nat>, j: nat, line: Line, preserve: bool): (r: (Store, seq<nat>))
    requires Valid(t, path) && ValidLine(line) && j < |path|
    ensures Valid(r.0, r.1)
  {
    PathInRange(t, path);
    hide OpenNew, Tree, Counted, Spine, Hanging, Noted, AddText, ContinueLazily, CloseAllLeft;
    var m := Matched(t, path, j);
    var r := OpenNew(m, line.starts, 1, j + 1 == |path|, t[Last(path)].kind == Paragraph, line, preserve);
    ShapeTrans(m, r, NotedMid(r, line, |t|));
    TextOf(t, path, m, NotedMid(r, line, |t|), line, preserve)
  }

  lemma PathInRange(t: Store, path: seq<nat>)
    requires Valid(t, path)
    ensures path != [] && path[0] == ROOT && forall k :: 0 <= k < |path| ==> path[k] < |t|
  {
  }

  lemma ShapeTrans(m: Mid, r: Mid, n: Mid)
    requires SameShape(r.t, n.t) && n.spine == r.spine
    ensures SameShape(m.t, r.t) ==> SameShape(m.t, n.t)
  {
  }

  /** The subject once the line is noted. */
  ghost function NotedMid(r: Mid, line: Line, start: nat): (n: Mid)
    requires MidOk(r)
    ensures MidOk(n) && n.left == r.left && n.top == r.top && n.spine == r.spine && |n.t| == |r.t| && SameShape(r.t, n.t)
  {
    BitsKeepMid(r, Noted(r.t, Last(r.spine), line, start));
    r.(t := Noted(r.t, Last(r.spine), line, start))
  }

  ghost function TextOf(t: Store, path: seq<nat>, m: Mid, r: Mid, line: Line, preserve: bool): (s: (Store, seq<nat>))
    requires Valid(t, path) && m.t == t && m.spine + m.left == path
    requires MidOk(r) && r.left == m.left && r.top == m.top && |r.t| >= |m.t| && m.top < |m.t|
    requires Last(r.spine) >= |m.t| || (r.spine == m.spine && SameShape(t, r.t))
    ensures Valid(s.0, s.1)
  {
    if IsLazy(r, line, preserve) then ContinueLazily(t, path, m, r) else AddText(r, line, preserve)
  }

  /** The end of the path is finalized, as by a closing fence. */
  ghost function CloseCurrent(t: Store, path: seq<nat>, line: Line, preserve: bool): (r: (Store, seq<nat>))
    requires Valid(t, path) && |path| >= 2
    ensures Valid(r.0, r.1) && r.1 == Init(path)
  {
    WholeOk(t, path);
    var m := Mid(t, path, [], Last(path));
    CloseEndOk(m, line, preserve);
    (CloseEnd(m, line, preserve).t, Init(path))
  }

  ghost function ContinueLazily(t: Store, path: seq<nat>, m: Mid, r: Mid): (s: (Store, seq<nat>))
    requires Valid(t, path) && m.t == t && m.spine + m.left == path
    requires MidOk(r) && r.left == m.left && r.left != [] && r.spine == m.spine && SameShape(t, r.t)
    ensures Valid(s.0, s.1)
  {
    LazyOk(t, path, m, r);
    (AddLine(r.t, Last(r.left)), path)
  }

  /** A lazy continuation: nothing was opened, and the text goes on an open paragraph further down. */
  predicate IsLazy(r: Mid, line: Line, preserve: bool)
    requires r.spine != [] && (r.left != [] ==> Last(r.left) < |r.t|)
  {
    r.left != [] && Last(r.spine) == r.top && (!line.blank || preserve) && r.t[Last(r.left)].kind == Paragraph
  }

  lemma CodeIsLast(t: Store, path: seq<nat>, i: nat)
    requires Valid(t, path) && 1 <= i < |path| && t[path[i]].kind == CodeBlock
    ensures i + 1 == |path|
  {
    if i + 1 < |path| { SpineLink(t, path, i); }
  }

  lemma WholeOk(t: Store, path: seq<nat>)
    requires Valid(t, path)
    ensures MidOk(Mid(t, path, [], Last(path)))
  {
  }

  lemma LazyOk(t: Store, path: seq<nat>, m: Mid, r: Mid)
    requires Valid(t, path) && m.t == t && m.spine + m.left == path
    requires MidOk(r) && r.left == m.left && r.left != [] && r.spine == m.spine && SameShape(t, r.t)
    ensures Valid(AddLine(r.t, Last(r.left)), path)
  {
    var u := AddLine(r.t, Last(r.left));
    assert forall b :: b in path <==> b in m.spine || b in m.left;
    forall x | 0 <= x < |u| ensures KidsOk(u, x) { assert KidsOk(r.t, x); }
  }

  // ---------------------------------------------------------------- a whole document

  ghost predicate ValidLines(lines: seq<Line>) {
    forall i :: 0 <= i < |lines| ==> ValidLine(lines[i])
  }

  const FRESH_STORE: Store := [NewBlock(Document, false, -1)]

  ghost function ProcessLines(lines: seq<Line>, preserve: bool): (r: (Store, seq<nat>))
    requires ValidLines(lines)
    ensures Valid(r.0, r.1)
  {
    if lines == [] then (FRESH_STORE, [ROOT])
    else
      var r := ProcessLines(lines[..|lines| - 1], preserve);
      ProcessLine(r.0, r.1, lines[|lines| - 1], preserve)
  }

  /** `finalize_document`; `end` tells which paragraphs hold only definitions. */
  ghost function FinishFrom(t: Store, path: seq<nat>, end: Line, preserve: bool): (u: Store)
    requires Valid(t, path)
    ensures Tree(u) && Counted(u) && forall b :: 0 <= b < |u| ==> !u[b].open
    decreases |path|
  {
    if |path| == 1 then
      FinalizedTree(t, ROOT, end, preserve);
      FinalizedCounted(t, ROOT, end, preserve);
      Finalized(t, ROOT, end, preserve)
    else
      var r := CloseCurrent(t, path, end, preserve);
      FinishFrom(r.0, r.1, end, preserve)
  }

  ghost function ParsedDocument(lines: seq<Line>, end: Line, preserve: bool): Store
    requires ValidLines(lines)
  {
    var r := ProcessLines(lines, preserve);
    FinishFrom(r.0, r.1, end, preserve)
  }

  /** Whatever the scanners decide, a parsed document is a well-nested tree with nothing open,
      and every block ever made was finalized exactly once. */
  lemma EveryBlockFinalizedOnce(lines: seq<Line>, end: Line, preserve: bool)
    requires ValidLines(lines)
    ensures var t := ParsedDocument(lines, end, preserve);
            Tree(t) && forall b :: 0 <= b < |t| ==> !t[b].open && t[b].finals == 1
  {
  }

  /** After every line the open blocks are exactly the last-child path from the root to `current`. */
  lemma OpenBlocksArePath(lines: seq<Line>, preserve: bool)
    requires ValidLines(lines)
    ensures var r := ProcessLines(lines, preserve); PathIsOpen(r.0, r.1)
  {
    var r := ProcessLines(lines, preserve);
    PathEnds(r.0, r.1);
  }

  /** The open blocks are those of the path, it runs by last children, and nothing open hangs below it. */
  ghost predicate PathIsOpen(t: Store, path: seq<nat>) {
    && Spine(t, path) && (forall b :: 0 <= b < |t| ==> (t[b].open <==> b in path))
    && forall c :: c in t[Last(path)].children ==> c < |t| && !t[c].open
  }

  lemma PathEnds(t: Store, path: seq<nat>)
    requires Valid(t, path)
    ensures PathIsOpen(t, path)
  {
    var e := Last(path);
    assert KidsOk(t, e);
    forall c | c in t[e].children ensures c < |t| && !t[c].open {
      forall i | 0 <= i < |path| ensures path[i] != c {
        if i < |path| - 1 { SpineAscends(t, path, i, |path| - 1); }
      }
    }
  }

  /** Walking down by last children that are open follows the path, and stops at its end. */
  lemma PathStep(t: Store, path: seq<nat>, d: nat)
    requires Valid(t, path) && d < |path|
    ensures var kids := t[path[d]].children;
            && (kids != [] ==> Last(kids) < |t|)
            && (kids != [] && t[Last(kids)].open <==> d + 1 < |path|)
            && (d + 1 < |path| ==> Last(kids) == path[d + 1])
  {
    var kids := t[path[d]].children;
    if d + 1 < |path| {
      assert path[d + 1] in path;
    } else {
      PathEnds(t, path);
      if kids != [] { assert Last(kids) in kids; }
    }
  }
}
