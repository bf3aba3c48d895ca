/** `cmark_consolidate_text_nodes`: runs of adjacent Text nodes merged under a live iterator. */
module NodeMerge {
  import opened Lists
  import opened NodeKinds
  import opened NodeTree
  import opened NodeStore
  import opened NodeWalk
  import opened NodeFree

  /** What a reader of the iteration sees of one event. */
  datatype Item = Open(node: nat, kind: Kind, literal: string) | Close(node: nat, kind: Kind) | End

  function ItemOf(h: Heap, e: Event): Item {
    if e.Done? || e.node >= |h| then End
    else if e.Enter? then Open(e.node, h[e.node].kind, h[e.node].literal)
    else Close(e.node, h[e.node].kind)
  }

  function View(h: Heap, w: seq<Event>): (v: seq<Item>)
    ensures |v| == |w| && forall i :: 0 <= i < |w| ==> v[i] == ItemOf(h, w[i])
  {
    seq(|w|, i requires 0 <= i < |w| => ItemOf(h, w[i]))
  }

  predicate IsText(it: Item) {
    it.Open? && it.kind == Text
  }

  /** Every run of Text items made one: the first node, with all the literals. */
  function Squash(v: seq<Item>): seq<Item>
    decreases |v|
  {
    if |v| >= 2 && IsText(v[0]) && IsText(v[1]) then
      Squash([Open(v[0].node, Text, v[0].literal + v[1].literal)] + v[2..])
    else if v == [] then []
    else [v[0]] + Squash(v[1..])
  }

  // ---------------------------------------------------------------- what squashing means

  /** The text a reader sees. */
  function AllText(v: seq<Item>): string {
    if v == [] then "" else (if IsText(v[0]) then v[0].literal else "") + AllText(v[1..])
  }

  function NoTexts(v: seq<Item>): seq<Item> {
    if v == [] then [] else (if IsText(v[0]) then [] else [v[0]]) + NoTexts(v[1..])
  }

  /** Squashing leaves no two Texts side by side, keeps the text, and touches nothing but Texts. */
  lemma {:induction false} SquashMeans(v: seq<Item>)
    ensures forall i :: 0 <= i < |Squash(v)| - 1 ==> !(IsText(Squash(v)[i]) && IsText(Squash(v)[i + 1]))
    ensures AllText(Squash(v)) == AllText(v) && NoTexts(Squash(v)) == NoTexts(v)
    ensures Squash(v) != [] <==> v != []
    ensures v != [] ==> (IsText(Squash(v)[0]) <==> IsText(v[0])) && (!IsText(v[0]) ==> Squash(v)[0] == v[0])
    decreases |v|
  {
    if |v| >= 2 && IsText(v[0]) && IsText(v[1]) {
      var m := Open(v[0].node, Text, v[0].literal + v[1].literal);
      var u := [m] + v[2..];
      SquashMeans(u);
      assert u[1..] == v[2..] == v[1..][1..];
      calc {
        AllText(v);
        v[0].literal + (v[1].literal + AllText(v[2..]));
        (v[0].literal + v[1].literal) + AllText(v[2..]);
        AllText(u);
      }
    } else if v != [] {
      SquashMeans(v[1..]);
      assert ([v[0]] + Squash(v[1..]))[1..] == Squash(v[1..]);
    }
  }

  /** What is already squashed stays as it is; in particular squashing twice is squashing once. */
  lemma {:induction false} SquashStays(v: seq<Item>)
    requires forall i :: 0 <= i < |v| - 1 ==> !(IsText(v[i]) && IsText(v[i + 1]))
    ensures Squash(v) == v
    decreases |v|
  {
    if v != [] {
      forall i | 0 <= i < |v[1..]| - 1 ensures !(IsText(v[1..][i]) && IsText(v[1..][i + 1])) {
        assert v[1..][i] == v[i + 1] && v[1..][i + 1] == v[i + 2];
        assert !(IsText(v[i + 1]) && IsText(v[i + 1 + 1]));
      }
      SquashStays(v[1..]);
      if |v| >= 2 { assert !(IsText(v[0]) && IsText(v[0 + 1])); }
    }
  }

  // ---------------------------------------------------------------- taking one leaf out

  ghost predicate LeavesBare(h: Heap, kids: Kids) {
    |h| == |kids| && forall n :: 0 <= n < |h| && IsLeaf(h[n].kind) ==> kids[n] == []
  }

  /** Unlinking a node makes no leaf a parent. */
  lemma UnlinkKeepsBare(h: Heap, kids: Kids, p: Ptr, x: nat, h': Heap)
    requires LeavesBare(h, kids) && SameNodes(h, h')
    ensures LeavesBare(h', Removed(kids, p, x))
  {
    hide Place;
    forall n: nat | n < |h'| && IsLeaf(h'[n].kind) ensures Removed(kids, p, x)[n] == [] {
      assert kids[n] == [];
    }
  }

  /** Nor does any move that `S_can_contain` allows: no leaf kind can contain anything. */
  lemma MovesKeepBare(h: Heap, kids: Kids, safety: bool, p: Ptr, spot: Spot, x: nat, h': Heap, kids': Kids)
    requires LeavesBare(h, kids) && Allowed(h, safety, p, x) && Moved(h, kids, p, spot, x, h', kids')
    ensures LeavesBare(h', kids')
  {
    hide Removed, Under;
    var k := Removed(kids, h[x].parent, x);
    UnlinkKeepsBare(h, kids, h[x].parent, x, h);
    forall n: nat | n < |h'| && IsLeaf(h'[n].kind) ensures kids'[n] == [] {
      assert k[n] == [];
    }
  }

  /** The heap with the childless node `x` freed. */
  ghost predicate Without1(h: Heap, x: nat, g: Heap) {
    x < |h| == |g| && Alone(g[x]) && forall m :: 0 <= m < |h| && m != x ==> g[m] == Bypass(h, x)[m]
  }

  /** Around the freed node the iterator rolls past it; elsewhere it rolls as before. */
  lemma RollsPast(h: Heap, kids: Kids, g: Heap, root: nat, x: nat, e: Event)
    requires Forest(h, kids) && Without1(h, x, g) && IsLeaf(h[x].kind) && x != root
    requires h[x].parent >= 0 && !e.Done? && e.node < |h| && e.node != x
    ensures var r := Roll(h, LeafNodes(h), root, e);
            Roll(g, LeafNodes(g), root, e) == if r == Enter(x) then Roll(h, LeafNodes(h), root, r) else r
  {
    hide Forest, LeafNodes;
    var n, p := e.node, h[x].parent;
    InBounds(h, kids, x);
    InBounds(h, kids, n);
    SiblingFacts(h, kids, x, n);
    BypassKeeps(h, x, n);
    LeavesAre(h);
    LeavesAre(g);
  }

  lemma LeavesAre(h: Heap)
    ensures forall n: nat :: n in LeafNodes(h) <==> n < |h| && IsLeaf(h[n].kind)
  {
  }

  /** How the links of `n` mention `x`. */
  lemma SiblingFacts(h: Heap, kids: Kids, x: nat, n: nat)
    requires Forest(h, kids) && x < |h| && n < |h| && n != x && h[x].parent >= 0
    ensures h[n].next == x <==> h[x].prev == n
    ensures h[n].next == x ==> h[n].parent == h[x].parent
    ensures h[n].first == x <==> n == h[x].parent && h[x].prev == NULL
  {
    hide Rep, Acyclic;
    RepOf(h, kids);
    InBounds(h, kids, x);
    InBounds(h, kids, n);
    CheckedLinks(h, kids, n);
    var p := h[x].parent;
    DownOf(h, kids, x);
    DownOf(h, kids, p);
    var i := Place(kids[p], x);
    ChildLinks(h, kids, p, i);
    if i > 0 { ChildLinks(h, kids, p, i - 1); }
  }

  function Cut<T>(s: seq<T>, i: nat): (r: seq<T>)
    requires i < |s|
    ensures |r| == |s| - 1 && forall k :: 0 <= k < |r| ==> r[k] == s[if k < i then k else k + 1]
  {
    s[..i] + s[i + 1..]
  }

  /** Taking a leaf's event out of the run leaves the run of the smaller forest. */
  lemma RunWithout(h: Heap, kids: Kids, g: Heap, root: nat, w: seq<Event>, i: nat, x: nat)
    requires Forest(h, kids) && Without1(h, x, g) && IsLeaf(h[x].kind) && x != root && h[x].parent >= 0
    requires FullRun(h, LeafNodes(h), root, w) && 0 < i < |w| && w[i] == Enter(x)
    requires forall k :: 0 <= k < |w| ==> !w[k].Done? && w[k].node < |h| && w[k] != Exit(x)
    ensures FullRun(g, LeafNodes(g), root, Cut(w, i))
  {
    hide Roll, Forest, LeafNodes, Without1;
    var u := Cut(w, i);
    forall k: nat | k < |u| ensures Roll(g, LeafNodes(g), root, u[k]) == EventAt(u, k + 1) { StepWithout(h, kids, g, root, w, i, x, k); }
  }

  lemma StepWithout(h: Heap, kids: Kids, g: Heap, root: nat, w: seq<Event>, i: nat, x: nat, k: nat)
    requires Forest(h, kids) && Without1(h, x, g) && IsLeaf(h[x].kind) && x != root && h[x].parent >= 0
    requires FullRun(h, LeafNodes(h), root, w) && 0 < i < |w| && w[i] == Enter(x) && k < |w| - 1
    requires forall k :: 0 <= k < |w| ==> !w[k].Done? && w[k].node < |h| && w[k] != Exit(x)
    ensures Roll(g, LeafNodes(g), root, Cut(w, i)[k]) == EventAt(Cut(w, i), k + 1)
  {
    hide Roll, Forest, LeafNodes, Without1;
    var j := if k < i then k else k + 1;
    RunDistinct(h, LeafNodes(h), root, w, if j < i then j else i, if j < i then i else j);
    assert w[j].node != x;
    RollsPast(h, kids, g, root, x, w[j]);
    if j + 1 < |w| && j + 1 != i {
      RunDistinct(h, LeafNodes(h), root, w, if j + 1 < i then j + 1 else i, if j + 1 < i then i else j + 1);
    }
  }

  // ---------------------------------------------------------------- walk and nodes

  /** What the walk mentions: nodes of the subtree, and exits of containers only. */
  lemma WalkMentions(h: Heap, kids: Kids, t: Tree)
    requires Forest(h, kids) && Shape(kids, t)
    ensures var w := Walk(LeafNodes(h), t);
            forall k :: 0 <= k < |w| ==> !w[k].Done? && w[k].node < |h| && w[k].node in Nodes(t)
                                         && (w[k].Exit? ==> !IsLeaf(h[w[k].node].kind))
  {
    hide Shape, Forest, Walk, Nodes;
    var w := Walk(LeafNodes(h), t);
    forall k: nat | k < |w|
      ensures !w[k].Done? && w[k].node < |h| && w[k].node in Nodes(t) && (w[k].Exit? ==> !IsLeaf(h[w[k].node].kind))
    {
      WalkNodes(LeafNodes(h), t, k);
      RollsAlong(h, kids, LeafNodes(h), t, k);
      if w[k].Exit? { ExitsAreContainers(LeafNodes(h), t, k); }
    }
  }

  /** The subtree without one of its leaves. */
  lemma LeafGone(h: Heap, kids: Kids, t: Tree, i: nat, x: nat, g: Heap, k: Kids) returns (t': Tree)
    requires Forest(h, kids) && Shape(kids, t) && LeavesBare(h, kids) && Forest(g, k) && LeavesBare(g, k)
    requires 0 < i < |Walk(LeafNodes(h), t)| && Walk(LeafNodes(h), t)[i] == Enter(x)
    requires Without1(h, x, g) && IsLeaf(h[x].kind)
    ensures Shape(k, t') && t'.node == t.node && Walk(LeafNodes(g), t') == Cut(Walk(LeafNodes(h), t), i)
    ensures Nodes(t') <= Nodes(t)
  {
    hide Shape, Forest, Walk, Nodes, FullRun, LeafNodes, LeavesBare, Without1;
    var w := Walk(LeafNodes(h), t);
    WalkMentions(h, kids, t);
    WalkIsRun(h, kids, LeafNodes(h), t);
    RunDistinct(h, LeafNodes(h), t.node, w, 0, i);
    OffRoot(h, kids, t, x);
    RunWithout(h, kids, g, t.node, w, i, x);
    OwnSize(h, kids, t, g, x);
    t' := TreeExists(g, k, t.node);
    WalkIsRun(g, k, LeafNodes(g), t');
    RunUnique(g, LeafNodes(g), t.node, Cut(w, i), Walk(LeafNodes(g), t'));
    forall m | m in Nodes(t') ensures m in Nodes(t) {
      BareLeaves(g, k);
      EveryNodeEntered(k, LeafNodes(g), t', m);
      var j: nat :| j < |Cut(w, i)| && Cut(w, i)[j] == Enter(m);
      assert w[if j < i then j else j + 1] == Enter(m);
    }
  }

  lemma BareLeaves(h: Heap, kids: Kids)
    requires LeavesBare(h, kids)
    ensures forall n :: n in LeafNodes(h) && n < |kids| ==> kids[n] == []
  {
  }

  lemma OwnSize(h: Heap, kids: Kids, t: Tree, g: Heap, x: nat)
    requires Forest(h, kids) && Shape(kids, t) && Without1(h, x, g)
    ensures t.node < |g|
  {
  }

  lemma OffRoot(h: Heap, kids: Kids, t: Tree, x: nat)
    requires Forest(h, kids) && Shape(kids, t) && x in Nodes(t) && x != t.node
    ensures x < |h| && h[x].parent >= 0
  {
    hide Shape, Nodes, Rep;
    RepOf(h, kids);
    ParentIn(h, kids, t, x);
  }

  lemma ItemsKept(h: Heap, x: nat, g: Heap, n: nat)
    requires Without1(h, x, g) && n < |h| && n != x
    ensures g[n].kind == h[n].kind && g[n].literal == h[n].literal
  {
    BypassSame(h, x);
  }

  lemma ViewCut(h: Heap, x: nat, g: Heap, w: seq<Event>, i: nat)
    requires Without1(h, x, g) && i < |w|
    requires forall k :: 0 <= k < |w| && k != i ==> !w[k].Done? && w[k].node != x
    ensures View(g, Cut(w, i)) == Cut(View(h, w), i)
  {
    hide Without1;
    forall k: nat | k < |w| - 1 ensures View(g, Cut(w, i))[k] == Cut(View(h, w), i)[k] {
      var e := w[if k < i then k else k + 1];
      if e.node < |h| { ItemsKept(h, x, g, e.node); }
      SameSize(h, x, g);
    }
  }

  lemma SameSize(h: Heap, x: nat, g: Heap)
    requires Without1(h, x, g)
    ensures |h| == |g|
  {
  }

  // ---------------------------------------------------------------- a Text root

  /** The Texts from the `i`-th sibling on. */
  function TextRun(h: Heap, s: seq<nat>, i: nat): seq<Item>
    decreases |s| - i
  {
    if i < |s| && s[i] < |h| && h[s[i]].kind == Text then [Open(s[i], Text, h[s[i]].literal)] + TextRun(h, s, i + 1) else []
  }

  /** A Text root is merged with the Texts that follow it, although they are outside its subtree. */
  ghost function Trailing(h: Heap, kids: Kids, root: nat): seq<Item> {
    if root < |h| && h[root].kind == Text && 0 <= h[root].parent < |kids| then
      TextRun(h, kids[h[root].parent], Place(kids[h[root].parent], root) + 1)
    else []
  }

  /** All the consolidation can get at. */
  ghost function Ahead(h: Heap, kids: Kids, t: Tree): (a: seq<Item>)
    ensures |a| >= |Walk(LeafNodes(h), t)|
  {
    View(h, Walk(LeafNodes(h), t)) + Trailing(h, kids, t.node)
  }

  lemma {:induction false} TextRunTexts(h: Heap, s: seq<nat>, i: nat)
    ensures forall j :: 0 <= j < |TextRun(h, s, i)| ==> IsText(TextRun(h, s, i)[j])
    decreases |s| - i
  {
    if i < |s| && s[i] < |h| && h[s[i]].kind == Text { TextRunTexts(h, s, i + 1); }
  }

  /** The walk from a leaf is its entry alone. */
  lemma LeafWalk(h: Heap, t: Tree)
    requires t.node < |h| && IsLeaf(h[t.node].kind)
    ensures Walk(LeafNodes(h), t) == [Enter(t.node)]
  {
  }

  /** Of a Text that is not the root: the next event tells whether a Text follows. */
  lemma NextTextBelow(h: Heap, kids: Kids, t: Tree, i: nat)
    requires Forest(h, kids) && Shape(kids, t)
    requires i < |Walk(LeafNodes(h), t)| && Walk(LeafNodes(h), t)[i].Enter? && Walk(LeafNodes(h), t)[i].node != t.node
    ensures var w, cur := Walk(LeafNodes(h), t), Walk(LeafNodes(h), t)[i].node;
            && cur < |h| && (h[cur].kind == Text ==> i + 1 < |w|)
            && (h[cur].kind == Text ==> (w[i + 1].Enter? <==> h[cur].next >= 0))
            && (h[cur].kind == Text && h[cur].next >= 0 ==> w[i + 1] == Enter(h[cur].next))
  {
    var w := Walk(LeafNodes(h), t);
    WalkMentions(h, kids, t);
    hide Walk, Shape, Forest;
    RollsAlong(h, kids, LeafNodes(h), t, i);
    if i + 1 < |w| { assert !w[i + 1].Done?; }
  }

  /** Does a Text follow?  The iteration ahead tells, below the root and at a Text root. */
  lemma NextText(h: Heap, kids: Kids, t: Tree, i: nat)
    requires Forest(h, kids) && Shape(kids, t)
    requires i < |Walk(LeafNodes(h), t)| && Walk(LeafNodes(h), t)[i].Enter?
    ensures var a, cur := Ahead(h, kids, t), Walk(LeafNodes(h), t)[i].node;
            && cur < |h| && NULL <= h[cur].next < |h| && a[i] == Open(cur, h[cur].kind, h[cur].literal)
            && (h[cur].kind == Text ==>
                 ((h[cur].next >= 0 && h[h[cur].next].kind == Text) <==> (i + 1 < |a| && IsText(a[i + 1]))))
            && (h[cur].kind == Text && h[cur].next >= 0 && h[h[cur].next].kind == Text ==>
                 a[i + 1] == Open(h[cur].next, Text, h[h[cur].next].literal))
  {
    var w, cur := Walk(LeafNodes(h), t), Walk(LeafNodes(h), t)[i].node;
    WalkMentions(h, kids, t);
    InBounds(h, kids, cur);
    hide Walk, Shape, Forest, LeafNodes, Place;
    if h[cur].kind == Text {
      if cur != t.node {
        NextTextBelow(h, kids, t, i);
        if h[t.node].kind == Text { LeafWalk(h, t); }
      } else {
        LeafWalk(h, t);
        NextSibling(h, kids, cur);
      }
    }
  }

  lemma NextSibling(h: Heap, kids: Kids, n: nat)
    requires Forest(h, kids) && n < |h|
    ensures h[n].parent < |kids| && (h[n].parent < 0 ==> h[n].next == NULL)
    ensures h[n].parent >= 0 ==> var s := kids[h[n].parent]; var i := Place(s, n); i < |s| && s[i] == n && h[n].next == At(s, i + 1)
  {
    RepOf(h, kids);
    InBounds(h, kids, n);
    hide Forest, Rep, Chain;
    DownOf(h, kids, n);
    if h[n].parent >= 0 {
      DownOf(h, kids, h[n].parent);
      ChildLinks(h, kids, h[n].parent, Place(kids[h[n].parent], n));
    }
  }

  // ---------------------------------------------------------------- freeing the Text after another

  /** The Text after `cur` has been freed. */
  ghost predicate NextFreed(h: Heap, kids: Kids, cur: nat, g: Heap, k: Kids) {
    && cur < |h| == |kids| && IsLeaf(h[cur].kind) && 0 <= h[cur].next < |h| && h[h[cur].next].kind == Text
    && Without1(h, h[cur].next, g) && k == Emptied(Removed(kids, h[h[cur].next].parent, h[cur].next), {h[cur].next})
  }

  lemma StillBare(h: Heap, kids: Kids, cur: nat, g: Heap, k: Kids)
    requires LeavesBare(h, kids) && Forest(h, kids) && NextFreed(h, kids, cur, g, k)
    ensures LeavesBare(g, k)
  {
    hide Rep, Acyclic;
    var x := h[cur].next;
    RepOf(h, kids);
    forall n: nat | n < |g| && IsLeaf(g[n].kind) ensures k[n] == [] {
      if n != x {
        ItemsKept(h, x, g, n);
        assert kids[n] == [];
        assert h[x].parent == n ==> x !in kids[n];
      }
    }
  }

  /** What freeing the next sibling does to the links of `cur`. */
  lemma NextFreedLinks(h: Heap, kids: Kids, cur: nat, g: Heap, k: Kids)
    requires Forest(h, kids) && NextFreed(h, kids, cur, g, k)
    ensures var x := h[cur].next;
            && x != cur && h[x].prev == cur && h[x].parent == h[cur].parent && h[cur].parent >= 0
            && g[cur] == h[cur].(next := h[x].next) && |g| == |h|
  {
    hide Forest, Chain, Place, Removed, Emptied;
    var x := h[cur].next;
    RepOf(h, kids);
    CheckedLinks(h, kids, cur);
    NextSibling(h, kids, cur);
    var p := h[cur].parent;
    DownOf(h, kids, p);
    hide Rep;
    ChainDistinct(h, kids[p], Place(kids[p], cur), Place(kids[p], cur) + 1);
    ChildLinks(h, kids, p, Place(kids[p], cur));
    ChildLinks(h, kids, p, Place(kids[p], cur) + 1);
    if Place(kids[p], cur) + 2 < |kids[p]| { ChainDistinct(h, kids[p], Place(kids[p], cur), Place(kids[p], cur) + 2); }
    OutsideRoot(h, kids, cur);
  }

  lemma NextFreedParts(h: Heap, kids: Kids, cur: nat, g: Heap, k: Kids)
    requires NextFreed(h, kids, cur, g, k)
    ensures cur < |h| && 0 <= h[cur].next < |h| && h[h[cur].next].kind == Text && Without1(h, h[cur].next, g)
  {
  }

  /** A leaf is mentioned once in the walk. */
  lemma LeafOnce(h: Heap, kids: Kids, t: Tree, i: nat)
    requires Forest(h, kids) && Shape(kids, t)
    requires i < |Walk(LeafNodes(h), t)| && Walk(LeafNodes(h), t)[i].Enter?
    ensures var w := Walk(LeafNodes(h), t);
            && w[i].node < |h|
            && (IsLeaf(h[w[i].node].kind) ==> forall j :: 0 <= j < |w| && j != i ==> !w[j].Done? && w[j].node != w[i].node)
  {
    hide Shape, Forest, Walk, LeafNodes, FullRun;
    var w := Walk(LeafNodes(h), t);
    WalkMentions(h, kids, t);
    WalkIsRun(h, kids, LeafNodes(h), t);
    if IsLeaf(h[w[i].node].kind) {
      forall j: nat | j < |w| && j != i ensures !w[j].Done? && w[j].node != w[i].node {
        RunDistinct(h, LeafNodes(h), t.node, w, if j < i then j else i, if j < i then i else j);
      }
    }
  }

  lemma FreedBelow(h: Heap, kids: Kids, t: Tree, i: nat, g: Heap, k: Kids) returns (t': Tree)
    requires Forest(h, kids) && Shape(kids, t) && LeavesBare(h, kids) && Forest(g, k)
    requires i < |Walk(LeafNodes(h), t)| && Walk(LeafNodes(h), t)[i].Enter? && Walk(LeafNodes(h), t)[i].node != t.node
    requires NextFreed(h, kids, Walk(LeafNodes(h), t)[i].node, g, k) && h[Walk(LeafNodes(h), t)[i].node].kind == Text
    ensures i + 1 < |Walk(LeafNodes(h), t)|
    ensures Shape(k, t') && t'.node == t.node && Walk(LeafNodes(g), t') == Cut(Walk(LeafNodes(h), t), i + 1)
    ensures Nodes(t') <= Nodes(t) && Ahead(g, k, t') == Cut(Ahead(h, kids, t), i + 1)
  {
    hide Shape, Forest, Walk, Nodes, LeafNodes, LeavesBare, Removed, NextFreed, Without1, View, Cut, Ahead, Trailing;
    var w, cur := Walk(LeafNodes(h), t), Walk(LeafNodes(h), t)[i].node;
    StillBare(h, kids, cur, g, k);
    NextTextBelow(h, kids, t, i);
    NextFreedParts(h, kids, cur, g, k);
    t' := LeafGone(h, kids, t, i + 1, h[cur].next, g, k);
    LeafOnce(h, kids, t, i + 1);
    ViewCut(h, h[cur].next, g, w, i + 1);
    NoTrailing(h, kids, t, i);
    NextFreedLinks(h, kids, cur, g, k);
    LeafOnce(h, kids, t, i);
    assert Cut(w, i + 1)[i] == w[i];
    NoTrailing(g, k, t', i);
    AheadIsView(h, kids, t);
    AheadIsView(g, k, t');
  }

  lemma AheadIsView(h: Heap, kids: Kids, t: Tree)
    requires Trailing(h, kids, t.node) == []
    ensures Ahead(h, kids, t) == View(h, Walk(LeafNodes(h), t))
  {
    hide View, Walk, Trailing, LeafNodes;
  }

  /** Below the root there is a Text, so the root is none. */
  lemma NoTrailing(h: Heap, kids: Kids, t: Tree, i: nat)
    requires Forest(h, kids) && Shape(kids, t)
    requires i < |Walk(LeafNodes(h), t)| && Walk(LeafNodes(h), t)[i].Enter? && Walk(LeafNodes(h), t)[i].node != t.node
    ensures t.node < |h| && h[t.node].kind != Text && Trailing(h, kids, t.node) == []
  {
    OwnRoot(h, kids, t);
    if h[t.node].kind == Text { LeafWalk(h, t); }
  }

  lemma OwnRoot(h: Heap, kids: Kids, t: Tree)
    requires Forest(h, kids) && Shape(kids, t)
    ensures t.node < |h| == |kids|
  {
  }

  lemma {:induction false} TextRunSame(h: Heap, g: Heap, s: seq<nat>, t: seq<nat>, i: nat, d: nat)
    requires |g| == |h| && i + d <= |s| && |t| == |s| - d && forall j :: i <= j < |t| ==> t[j] == s[j + d]
    requires forall c :: c in t[i..] && c < |h| ==> g[c].kind == h[c].kind && g[c].literal == h[c].literal
    ensures TextRun(g, t, i) == TextRun(h, s, i + d)
    decreases |t| - i
  {
    if i < |t| {
      assert t[i..][0] == t[i] && t[i..][1..] == t[i + 1..];
      assert t[i] in t[i..] && forall c :: c in t[i + 1..] ==> c in t[i..];
      TextRunSame(h, g, s, t, i + 1, d);
    }
  }

  lemma {:induction false} PlaceIs(s: seq<nat>, i: nat)
    requires Distinct(s) && i < |s|
    ensures Place(s, s[i]) == i
  {
    if i > 0 {
      assert s[0] != s[i];
      assert forall a, b :: 0 <= a < b < |s[1..]| ==> s[1..][a] == s[a + 1] && s[1..][b] == s[b + 1];
      PlaceIs(s[1..], i - 1);
    }
  }

  /** The siblings of a Text root after the one behind it is gone. */
  lemma SiblingsAfter(h: Heap, kids: Kids, root: nat, g: Heap, k: Kids)
    requires Forest(h, kids) && NextFreed(h, kids, root, g, k)
    ensures h[root].parent >= 0 && h[root].parent < |kids| == |k|
    ensures var p := h[root].parent; var i := Place(kids[p], root);
            && i + 1 < |kids[p]| && kids[p][i + 1] == h[root].next && k[p] == Without(kids[p], i + 1)
            && Place(k[p], root) == i && Distinct(kids[p])
            && kids[p][i + 1] !in Without(kids[p], i + 1)
  {
    hide Rep, Acyclic, Chain, Without1, Distinct;
    var p := h[root].parent;
    RepOf(h, kids);
    NextSibling(h, kids, root);
    NextFreedLinks(h, kids, root, g, k);
    DownOf(h, kids, p);
    var s, i, x := kids[p], Place(kids[p], root), h[root].next;
    ChainIsDistinct(h, s);
    PlaceIs(s, i + 1);
    DownOf(h, kids, x);
    WithoutAt(s, i + 1);
    OutsideRoot(h, kids, x);
    assert k[p] == Without(s, i + 1);
    FirstStays(s, i + 1, root);
  }

  lemma OutsideRoot(h: Heap, kids: Kids, x: nat)
    requires Forest(h, kids) && x < |h| && h[x].parent >= 0
    ensures h[x].parent != x
  {
    var rank :| Ranked(h, rank);
  }

  lemma {:induction false} FirstStays(s: seq<nat>, j: nat, x: nat)
    requires j < |s| && Place(s, x) < j
    ensures Place(Without(s, j), x) == Place(s, x)
  {
    if s[0] != x {
      FirstStays(s[1..], j - 1, x);
      assert Without(s, j)[1..] == Without(s[1..], j - 1);
    }
  }

  /** A bare leaf has the walk and the shape of a leaf. */
  lemma BareRoot(h: Heap, kids: Kids, t: Tree)
    requires Shape(kids, t) && LeavesBare(h, kids) && t.node < |h| && IsLeaf(h[t.node].kind)
    ensures t == Tree(t.node, []) && kids[t.node] == [] && Walk(LeafNodes(h), t) == [Enter(t.node)]
  {
    LeafWalk(h, t);
  }

  lemma FreedRoot(h: Heap, kids: Kids, t: Tree, g: Heap, k: Kids)
    requires Forest(h, kids) && Shape(kids, t) && LeavesBare(h, kids) && Forest(g, k)
    requires NextFreed(h, kids, t.node, g, k) && h[t.node].kind == Text
    ensures Shape(k, t) && Walk(LeafNodes(g), t) == Walk(LeafNodes(h), t) == [Enter(t.node)]
    ensures |Ahead(h, kids, t)| > 1 && Ahead(g, k, t) == Cut(Ahead(h, kids, t), 1)
  {
    hide Forest, Walk, LeafNodes, NextFreed, LeavesBare, Shape, Trailing;
    OwnRoot(h, kids, t);
    StillBare(h, kids, t.node, g, k);
    NextFreedLinks(h, kids, t.node, g, k);
    BareRoot(h, kids, t);
    var s := TreeExists(g, k, t.node);
    BareRoot(g, k, s);
    TrailingCut(h, kids, t.node, g, k);
  }

  lemma TrailingCut(h: Heap, kids: Kids, root: nat, g: Heap, k: Kids)
    requires Forest(h, kids) && NextFreed(h, kids, root, g, k) && h[root].kind == Text && Forest(g, k)
    ensures Trailing(h, kids, root) == [Open(h[root].next, Text, h[h[root].next].literal)] + Trailing(g, k, root)
  {
    hide Forest, Place, Without1, Removed, NextFreed, Distinct;
    NextFreedLinks(h, kids, root, g, k);
    NextFreedParts(h, kids, root, g, k);
    SiblingsAfter(h, kids, root, g, k);
    var p := h[root].parent;
    var s, i, x := kids[p], Place(kids[p], root), h[root].next;
    forall c | c in k[p][i + 1..] && c < |h| ensures g[c].kind == h[c].kind && g[c].literal == h[c].literal {
      assert c in k[p];
      ItemsKept(h, x, g, c);
    }
    TextRunSame(h, g, s, k[p], i + 1, 1);
  }

  /** `cmark_node_free` of the Text after `cur`. */
  lemma FreeGives(h: Heap, kids: Kids, cur: nat, s: Tree, g: Heap, k: Kids, junk: nat -> Node)
    requires Forest(h, kids) && LeavesBare(h, kids) && cur < |h| && IsLeaf(h[cur].kind)
    requires 0 <= h[cur].next < |h| && h[h[cur].next].kind == Text
    requires s.node == h[cur].next && Shape(kids, s) && Freed(Bypass(h, s.node), g, Nodes(s), junk, {})
    requires k == Emptied(Removed(kids, h[s.node].parent, s.node), Nodes(s)) && forall n :: Alone(junk(n))
    ensures NextFreed(h, kids, cur, g, k)
  {
    hide Bypass, Removed, Forest;
    var x := h[cur].next;
    assert kids[x] == [] && s.subs == [];
    assert Nodes(s) == {x};
  }

  /** Outside the subtree nothing has changed. */
  ghost predicate SameOutside(h: Heap, g: Heap, ns: set<nat>) {
    |g| == |h| && forall m :: 0 <= m < |h| && m !in ns ==> g[m] == h[m]
  }

  lemma FreedInside(h: Heap, kids: Kids, t: Tree, x: nat, g: Heap)
    requires Forest(h, kids) && Shape(kids, t) && x in Nodes(t) && x != t.node && Without1(h, x, g)
    ensures SameOutside(h, g, Nodes(t))
  {
    hide Nodes, Shape, Acyclic, Chain;
    RepOf(h, kids);
    ParentIn(h, kids, t, x);
    InBounds(h, kids, x);
    var p := h[x].parent;
    DownOf(h, kids, x);
    DownOf(h, kids, p);
    ChildLinks(h, kids, p, Place(kids[p], x));
    hide Rep, Place;
    if h[x].prev >= 0 { ChildIn(h, kids, t, p, h[x].prev); }
    if h[x].next >= 0 { ChildIn(h, kids, t, p, h[x].next); }
  }

  /** One round of the merging loop: the Text after `cur` is gone, the iterator is past it. */
  lemma FreedText(h: Heap, kids: Kids, t: Tree, i: nat, g: Heap, k: Kids) returns (t': Tree)
    requires Forest(h, kids) && Shape(kids, t) && LeavesBare(h, kids) && Forest(g, k)
    requires i < |Walk(LeafNodes(h), t)| && Walk(LeafNodes(h), t)[i].Enter?
    requires NextFreed(h, kids, Walk(LeafNodes(h), t)[i].node, g, k) && h[Walk(LeafNodes(h), t)[i].node].kind == Text
    ensures Shape(k, t') && t'.node == t.node && LeavesBare(g, k) && Nodes(t') <= Nodes(t)
    ensures var w, w' := Walk(LeafNodes(h), t), Walk(LeafNodes(g), t');
            i < |w'| && w'[i] == w[i] && EventAt(w', i + 1) == EventAt(w, i + 2)
    ensures i + 1 < |Ahead(h, kids, t)| && Ahead(g, k, t') == Cut(Ahead(h, kids, t), i + 1)
    ensures Within(h, kids, g, k, t, t')
  {
    hide Shape, Forest, Walk, Nodes, LeafNodes, LeavesBare, NextFreed, Without1, View, Ahead, Trailing, Took, TrailNodes;
    var w, cur := Walk(LeafNodes(h), t), Walk(LeafNodes(h), t)[i].node;
    StillBare(h, kids, cur, g, k);
    NextFreedLinks(h, kids, cur, g, k);
    OwnRoot(h, kids, t);
    NextFreedParts(h, kids, cur, g, k);
    if cur == t.node {
      LeafWalk(h, t);
      FreedRoot(h, kids, t, g, k);
      FreedTook(h, kids, t.node, g, k);
      t' := t;
    } else {
      t' := FreedBelow(h, kids, t, i, g, k);
      NextTextBelow(h, kids, t, i);
      WalkMentions(h, kids, t);
      NoTrailing(h, kids, t, i);
      LeafOnce(h, kids, t, i + 1);
      WalkFirst(h, t);
      FreedInside(h, kids, t, h[cur].next, g);
      ItemsKept(h, h[cur].next, g, t.node);
    }
  }

  lemma WalkFirst(h: Heap, t: Tree)
    ensures Walk(LeafNodes(h), t)[0] == Enter(t.node)
  {
  }

  // ---------------------------------------------------------------- the merged literal

  function SetLiteral(h: Heap, n: nat, text: string): Heap
    requires n < |h|
  {
    h[n := h[n].(literal := text)]
  }

  lemma LiteralForest(h: Heap, kids: Kids, n: nat, text: string)
    requires Forest(h, kids) && n < |h| && LeavesBare(h, kids)
    ensures Forest(SetLiteral(h, n, text), kids) && LeavesBare(SetLiteral(h, n, text), kids)
    ensures LeafNodes(SetLiteral(h, n, text)) == LeafNodes(h)
  {
    var g := SetLiteral(h, n, text);
    forall m: nat | m < |g| ensures Down(g, kids, m) && Up(g, kids, m) {
      DownOf(h, kids, m);
      ChainSame(h, g, kids[m]);
    }
    var rank :| Ranked(h, rank);
    assert Ranked(g, rank);
  }

  lemma LiteralAhead(h: Heap, kids: Kids, t: Tree, i: nat, text: string)
    requires Forest(h, kids) && Shape(kids, t) && LeavesBare(h, kids)
    requires i < |Walk(LeafNodes(h), t)| && Walk(LeafNodes(h), t)[i].Enter?
    requires Walk(LeafNodes(h), t)[i].node < |h| && h[Walk(LeafNodes(h), t)[i].node].kind == Text
    ensures var cur := Walk(LeafNodes(h), t)[i].node;
            Ahead(SetLiteral(h, cur, text), kids, t) == Ahead(h, kids, t)[i := Open(cur, Text, text)]
  {
    hide Shape, Forest, Walk, LeafNodes, LeavesBare, Place;
    var w, cur := Walk(LeafNodes(h), t), Walk(LeafNodes(h), t)[i].node;
    var g := SetLiteral(h, cur, text);
    LiteralForest(h, kids, cur, text);
    LeafOnce(h, kids, t, i);
    assert View(g, w) == View(h, w)[i := Open(cur, Text, text)];
    if cur == t.node {
      NextSibling(h, kids, cur);
      if h[cur].parent >= 0 { SiblingsSame(h, kids, cur, text); }
    } else {
      NoTrailing(h, kids, t, i);
      assert Trailing(g, kids, t.node) == [];
    }
  }

  lemma SiblingsSame(h: Heap, kids: Kids, cur: nat, text: string)
    requires Forest(h, kids) && cur < |h| && 0 <= h[cur].parent < |kids|
    ensures var s := kids[h[cur].parent]; var i := Place(s, cur);
            TextRun(SetLiteral(h, cur, text), s, i + 1) == TextRun(h, s, i + 1)
  {
    hide Forest, Rep, Place, TextRun, Chain, Distinct, SetLiteral;
    RepOf(h, kids);
    var s: seq<nat>, g := kids[h[cur].parent], SetLiteral(h, cur, text);
    NextSibling(h, kids, cur);
    var i: nat := Place(s, cur);
    DownOf(h, kids, h[cur].parent);
    ChainIsDistinct(h, s);
    RunWithoutFirst(h, s, i, text);
  }

  lemma RunWithoutFirst(h: Heap, s: seq<nat>, i: nat, text: string)
    requires Distinct(s) && i < |s| && s[i] < |h|
    ensures TextRun(SetLiteral(h, s[i], text), s, i + 1) == TextRun(h, s, i + 1)
  {
    SetsOne(h, s[i], text);
    NotLater(s, i);
    hide SetLiteral, Distinct, TextRun;
    TextRunSame(h, SetLiteral(h, s[i], text), s, s, i + 1, 0);
  }

  lemma SetsOne(h: Heap, n: nat, text: string)
    requires n < |h|
    ensures var g := SetLiteral(h, n, text); |g| == |h| && forall c :: 0 <= c < |h| && c != n ==> g[c] == h[c]
  {
  }

  lemma NotLater(s: seq<nat>, i: nat)
    requires Distinct(s) && i < |s|
    ensures s[i] !in s[i + 1..]
  {
  }

  // ---------------------------------------------------------------- the loops

  /** Store and iterator agree. */
  ghost predicate Ready(store: Store, iter: Iter)
    reads iter, store, iter.store
  {
    iter.Valid() && iter.store == store && LeavesBare(store.heap, store.kids)
  }

  ghost function Reachable(store: Store, iter: Iter): seq<Item>
    reads iter, store
  {
    Ahead(store.heap, store.kids, iter.tree)
  }

  lemma SquashHead(a: seq<Item>, i: nat, buf: string)
    requires i < |a| && IsText(a[i])
    ensures i + 1 < |a| && IsText(a[i + 1]) ==>
              Squash([Open(a[i].node, Text, buf)] + a[i + 1..]) == Squash([Open(a[i].node, Text, buf + a[i + 1].literal)] + Cut(a, i + 1)[i + 1..])
    ensures !(i + 1 < |a| && IsText(a[i + 1])) ==>
              Squash([Open(a[i].node, Text, buf)] + a[i + 1..]) == [Open(a[i].node, Text, buf)] + Squash(a[i + 1..])
  {
    var v := [Open(a[i].node, Text, buf)] + a[i + 1..];
    assert v[1..] == a[i + 1..];
    if i + 1 < |a| {
      assert v[1] == a[i + 1] && v[2..] == a[i + 2..];
      assert Cut(a, i + 1)[i + 1..] == a[i + 2..];
    }
  }

  /** The merging loop: `cur` takes up the Texts that follow it. */
  method MergeRun(store: Store, iter: Iter, cur: nat, junk: nat -> Node)
    requires Ready(store, iter) && forall n :: Alone(junk(n))
    requires 1 <= iter.pos <= |iter.Whole()| && iter.Whole()[iter.pos - 1] == Enter(cur)
    requires cur < |store.heap| && store.heap[cur].kind == Text
    modifies iter, store`heap, store`kids
    ensures Ready(store, iter) && iter.tree.node == old(iter.tree.node) && iter.pos == old(iter.pos) <= |iter.Whole()|
    ensures var a, b, i := old(Reachable(store, iter)), Reachable(store, iter), iter.pos - 1;
            && i < |b| && i < |a| && a[..i] == b[..i] && Squash(a[i..]) == [b[i]] + Squash(b[i + 1..])
            && !(i + 1 < |b| && IsText(b[i + 1])) && |b| <= |a|
    ensures Within(old(store.heap), old(store.kids), store.heap, store.kids, old(iter.tree), iter.tree)
  {
    hide Forest, Shape, Walk, View, Ahead, LeafNodes, LeavesBare, NextFreed, Freed, Nodes, Squash, Cut, Within, Removed, Emptied, Preorder;
    ghost var i, a := iter.pos - 1, Reachable(store, iter);
    NextText(store.heap, store.kids, iter.tree, i);
    OwnRoot(store.heap, store.kids, iter.tree);
    WithinSame(store.heap, store.kids, iter.tree);
    var buf := store.heap[cur].literal;
    assert a[i..] == [a[i]] + a[i + 1..];
    var tmp := store.heap[cur].next;
    while tmp != NULL && store.heap[tmp].kind == Text
      invariant Ready(store, iter) && iter.tree.node == old(iter.tree.node)
      invariant iter.pos == i + 1 <= |iter.Whole()| && iter.Whole()[i] == Enter(cur)
      invariant |store.heap| == |old(store.heap)| && store.heap[cur].kind == Text
      invariant tmp == store.heap[cur].next && NULL <= tmp < |store.heap|
      invariant i < |Reachable(store, iter)| <= |a| && a[..i] == Reachable(store, iter)[..i]
      invariant Squash(a[i..]) == Squash([Open(cur, Text, buf)] + Reachable(store, iter)[i + 1..])
      invariant Within(old(store.heap), old(store.kids), store.heap, store.kids, old(iter.tree), iter.tree)
      decreases |Reachable(store, iter)|
    {
      ghost var b, h, k, t := Reachable(store, iter), store.heap, store.kids, iter.tree;
      NextText(store.heap, store.kids, iter.tree, i);
      SquashHead(b, i, buf);
      buf := buf + store.heap[tmp].literal;
      tmp := TakeNext(store, iter, cur, junk);
      assert Cut(b, i + 1)[..i] == b[..i];
      WithinTrans(old(store.heap), old(store.kids), h, k, store.heap, store.kids, old(iter.tree), t, iter.tree);
    }
    NextText(store.heap, store.kids, iter.tree, i);
    SquashHead(Reachable(store, iter), i, buf);
    ghost var b, h := Reachable(store, iter), store.heap;
    LiteralForest(store.heap, store.kids, cur, buf);
    LiteralAhead(store.heap, store.kids, iter.tree, i, buf);
    LiteralWithin(h, store.kids, iter.tree, i, cur, buf);
    store.heap := SetLiteral(store.heap, cur, buf);
    WithinTrans(old(store.heap), old(store.kids), h, store.kids, store.heap, store.kids, old(iter.tree), iter.tree, iter.tree);
    assert b[i := Open(cur, Text, buf)][i + 1..] == b[i + 1..];
    assert b[i := Open(cur, Text, buf)][..i] == b[..i];
  }

  lemma LiteralWithin(h: Heap, kids: Kids, t: Tree, i: nat, cur: nat, text: string)
    requires Forest(h, kids) && Shape(kids, t) && LeavesBare(h, kids) && cur < |h| && h[cur].kind == Text
    requires i < |Walk(LeafNodes(h), t)| && Walk(LeafNodes(h), t)[i] == Enter(cur)
    ensures Within(h, kids, SetLiteral(h, cur, text), kids, t, t)
  {
    OwnRoot(h, kids, t);
    WalkNodes(LeafNodes(h), t, i);
    var g := SetLiteral(h, cur, text);
    if h[t.node].kind == Text {
      LeafWalk(h, t);
      hide Forest, LeafNodes, Strip, Place;
      NextSibling(h, kids, cur);
      if h[cur].parent >= 0 { SiblingsSame(h, kids, cur, text); }
      TookNothing(h, kids, g, cur);
      assert TrailNodes(g, kids, cur) == TrailNodes(h, kids, cur);
      assert TrailNodes(h, kids, cur) - TrailNodes(g, kids, cur) == {};
    }
  }

  /** The iterator steps over the Text after `cur`, which is then freed. */
  method TakeNext(store: Store, iter: Iter, cur: nat, junk: nat -> Node) returns (next: Ptr)
    requires Ready(store, iter) && forall n :: Alone(junk(n))
    requires 1 <= iter.pos <= |iter.Whole()| && iter.Whole()[iter.pos - 1] == Enter(cur)
    requires cur < |store.heap| && store.heap[cur].kind == Text
    requires 0 <= store.heap[cur].next < |store.heap| && store.heap[store.heap[cur].next].kind == Text
    modifies iter, store`heap, store`kids
    ensures Ready(store, iter) && iter.tree.node == old(iter.tree.node)
    ensures iter.pos == old(iter.pos) <= |iter.Whole()| && iter.Whole()[iter.pos - 1] == Enter(cur)
    ensures iter.pos < |old(Reachable(store, iter))| && Reachable(store, iter) == Cut(old(Reachable(store, iter)), iter.pos)
    ensures cur < |store.heap| == |old(store.heap)| && store.heap[cur].kind == Text && next == store.heap[cur].next && NULL <= next < |store.heap|
    ensures Within(old(store.heap), old(store.kids), store.heap, store.kids, old(iter.tree), iter.tree)
  {
    hide Forest, Shape, Walk, View, Ahead, LeafNodes, LeavesBare, NextFreed, Freed, Nodes, Squash, Cut, Removed, Emptied, Preorder, Distinct;
    ghost var h, kids, t, i := store.heap, store.kids, iter.tree, iter.pos - 1;
    var tmp := store.heap[cur].next;
    InBounds(h, kids, tmp);
    var e := iter.Next();
    next := store.heap[tmp].next;
    ghost var s: Tree;
    var freed: seq<nat>;
    freed, s := FreeNode(store, tmp, junk);
    FreeGives(h, kids, cur, s, store.heap, store.kids, junk);
    NextFreedLinks(h, kids, cur, store.heap, store.kids);
    iter.tree := FreedText(h, kids, t, i, store.heap, store.kids);
    iter.pos := i + 1;
    assert Within(h, kids, store.heap, store.kids, t, iter.tree);
  }

  /** The nodes a Text root is to be merged with. */
  ghost function TrailNodes(h: Heap, kids: Kids, root: nat): set<nat> {
    set it | it in Trailing(h, kids, root) && it.Open? :: it.node
  }

  /** The nodes of `gone` are freed and in no list of children; all else is as it was but for the literal of
      `root` and the links past what is gone. */
  ghost predicate Took(h: Heap, kids: Kids, g: Heap, k: Kids, root: nat, gone: set<nat>) {
    && |g| == |h| == |kids| == |k|
    && (forall n :: 0 <= n < |kids| ==> k[n] == if n in gone then [] else Strip(kids[n], gone))
    && forall n :: 0 <= n < |h| ==>
      n !in gone ==> g[n].kind == h[n].kind && (n != root ==> g[n].literal == h[n].literal)
  }

  /** What is gone stands alone. */
  lemma TookAlone(h: Heap, kids: Kids, g: Heap, k: Kids, root: nat, gone: set<nat>, x: nat)
    requires Took(h, kids, g, k, root, gone) && Rep(g, k) && x in gone && x < |g|
    ensures Alone(g[x])
  {
    hide Rep, Strip;
    DownOf(g, k, x);
    if g[x].parent >= 0 { StripMember(kids[g[x].parent], gone); }
  }

  /** The tree has shrunk to a part of itself, with nothing changed outside it; but a Text root takes the
      Texts that follow it. */
  ghost predicate Within(h: Heap, kids: Kids, g: Heap, k: Kids, t: Tree, t': Tree) {
    && t.node == t'.node < |h| == |g| && Nodes(t') <= Nodes(t) && (h[t.node].kind == Text <==> g[t.node].kind == Text)
    && (h[t.node].kind != Text ==> SameOutside(h, g, Nodes(t)))
    && (h[t.node].kind == Text ==>
         TrailNodes(g, k, t.node) <= TrailNodes(h, kids, t.node)
         && Took(h, kids, g, k, t.node, TrailNodes(h, kids, t.node) - TrailNodes(g, k, t.node)))
  }

  lemma TookNothing(h: Heap, kids: Kids, g: Heap, root: nat)
    requires |h| == |kids| == |g| && forall n :: 0 <= n < |h| ==> g[n].kind == h[n].kind && (n != root ==> g[n].literal == h[n].literal)
    ensures Took(h, kids, g, kids, root, {})
  {
    forall n: nat | n < |kids| ensures kids[n] == Strip(kids[n], {}) { StripNone(kids[n], {}); }
  }

  lemma TookTrans(h: Heap, kids: Kids, g: Heap, k: Kids, f: Heap, l: Kids, root: nat, a: set<nat>, b: set<nat>)
    requires Took(h, kids, g, k, root, a) && Took(g, k, f, l, root, b)
    ensures Took(h, kids, f, l, root, a + b)
  {
    hide Strip;
    forall n: nat | n < |kids| ensures l[n] == if n in a + b then [] else Strip(kids[n], a + b) {
      if n in a {
        StripNone([], b);
      } else if n !in b {
        StripTwice(kids[n], a, b);
      }
    }
  }

  lemma WithinTrans(h: Heap, kids: Kids, g: Heap, k: Kids, f: Heap, l: Kids, t: Tree, t': Tree, t'': Tree)
    requires Within(h, kids, g, k, t, t') && Within(g, k, f, l, t', t'')
    ensures Within(h, kids, f, l, t, t'')
  {
    hide Took, TrailNodes;
    if h[t.node].kind == Text {
      var a, b, c := TrailNodes(h, kids, t.node), TrailNodes(g, k, t.node), TrailNodes(f, l, t.node);
      assert (a - b) + (b - c) == a - c;
      TookTrans(h, kids, g, k, f, l, t.node, a - b, b - c);
    }
  }

  /** Freeing the Text behind a Text root takes just that node. */
  lemma FreedTook(h: Heap, kids: Kids, root: nat, g: Heap, k: Kids)
    requires Forest(h, kids) && LeavesBare(h, kids) && NextFreed(h, kids, root, g, k) && h[root].kind == Text && Forest(g, k)
    ensures var x := h[root].next;
            && Took(h, kids, g, k, root, {x})
            && TrailNodes(g, k, root) <= TrailNodes(h, kids, root) && TrailNodes(h, kids, root) - TrailNodes(g, k, root) == {x}
  {
    hide Forest, Took, TrailNodes, LeavesBare;
    FreedStrip(h, kids, root, g, k);
    FreedTrail(h, kids, root, g, k);
  }

  lemma FreedStrip(h: Heap, kids: Kids, root: nat, g: Heap, k: Kids)
    requires Forest(h, kids) && NextFreed(h, kids, root, g, k)
    ensures Took(h, kids, g, k, root, {h[root].next})
  {
    var x := h[root].next;
    NextFreedParts(h, kids, root, g, k);
    SameSize(h, x, g);
    RepOf(h, kids);
    hide Forest, Rep, Without1, Strip, Removed;
    forall n: nat | n < |kids| ensures k[n] == if n in {x} then [] else Strip(kids[n], {x}) {
      RemovedIsStrip(h, kids, x, n);
    }
    forall n: nat | n < |h| && n != x ensures g[n].kind == h[n].kind && g[n].literal == h[n].literal { ItemsKept(h, x, g, n); }
  }

  lemma FreedTrail(h: Heap, kids: Kids, root: nat, g: Heap, k: Kids)
    requires Forest(h, kids) && NextFreed(h, kids, root, g, k) && h[root].kind == Text && Forest(g, k)
    ensures TrailNodes(g, k, root) <= TrailNodes(h, kids, root)
    ensures TrailNodes(h, kids, root) - TrailNodes(g, k, root) == {h[root].next}
  {
    var x := h[root].next;
    hide Forest, Place, NextFreed, Trailing;
    NextFreedParts(h, kids, root, g, k);
    NextFreedLinks(h, kids, root, g, k);
    TrailingCut(h, kids, root, g, k);
    assert x !in TrailNodes(g, k, root) by {
      SiblingsAfter(h, kids, root, g, k);
      TrailInside(g, k, root);
    }
    FirstTrail(Open(x, Text, h[x].literal), Trailing(g, k, root));
  }

  lemma FirstTrail(it: Item, rest: seq<Item>)
    ensures forall x :: x in [it] + rest <==> x == it || x in rest
  {
  }

  /** They are children of the root's parent. */
  lemma TrailInside(h: Heap, kids: Kids, root: nat)
    ensures forall n :: n in TrailNodes(h, kids, root) ==> 0 <= h[root].parent < |kids| && n in kids[h[root].parent]
  {
    if root < |h| && h[root].kind == Text && 0 <= h[root].parent < |kids| {
      RunInside(h, kids[h[root].parent], Place(kids[h[root].parent], root) + 1);
    }
  }

  lemma {:induction false} RunInside(h: Heap, s: seq<nat>, i: nat)
    ensures forall it :: it in TextRun(h, s, i) ==> it.Open? && it.node in s && it.node < |h|
    decreases |s| - i
  {
    if i < |s| && s[i] < |h| && h[s[i]].kind == Text { RunInside(h, s, i + 1); }
  }

  lemma WithinSame(h: Heap, kids: Kids, t: Tree)
    requires t.node < |h| == |kids|
    ensures Within(h, kids, h, kids, t, t)
  {
    TookNothing(h, kids, h, t.node);
    assert TrailNodes(h, kids, t.node) - TrailNodes(h, kids, t.node) == {};
  }

  lemma EventInside(h: Heap, kids: Kids, t: Tree, i: nat)
    requires Forest(h, kids) && Shape(kids, t) && i < |Walk(LeafNodes(h), t)|
    ensures var e := Walk(LeafNodes(h), t)[i];
            !e.Done? && e.node < |h| && NULL <= h[e.node].next < |h| && Ahead(h, kids, t)[i] == ItemOf(h, e)
  {
    WalkMentions(h, kids, t);
    InBounds(h, kids, Walk(LeafNodes(h), t)[i].node);
  }

  lemma SquashFirst(a: seq<Item>, i: nat)
    requires i < |a| && !(IsText(a[i]) && i + 1 < |a| && IsText(a[i + 1]))
    ensures Squash(a[i..]) == [a[i]] + Squash(a[i + 1..])
  {
    assert a[i..][1..] == a[i + 1..];
  }

  /** Once the root's own Texts are merged, nothing outside its subtree is left to merge. */
  lemma TrailingDone(h: Heap, kids: Kids, t: Tree, i: nat)
    requires Forest(h, kids) && Shape(kids, t) && i < |Walk(LeafNodes(h), t)|
    requires var a := Ahead(h, kids, t); !(IsText(a[i]) && i + 1 < |a| && IsText(a[i + 1]))
    ensures Trailing(h, kids, t.node) == []
  {
    OwnRoot(h, kids, t);
    if h[t.node].kind == Text && h[t.node].parent >= 0 {
      LeafWalk(h, t);
      TextRunTexts(h, kids[h[t.node].parent], Place(kids[h[t.node].parent], t.node) + 1);
    }
  }

  lemma SquashStep(s: seq<Item>, a: seq<Item>, b: seq<Item>, i: nat)
    requires i < |a| && i < |b| && a[..i] == b[..i] && Squash(a[i..]) == [b[i]] + Squash(b[i + 1..])
    requires s == a[..i] + Squash(a[i..])
    ensures s == b[..i + 1] + Squash(b[i + 1..])
  {
  }

  lemma SquashDone(h: Heap, kids: Kids, t: Tree)
    requires Trailing(h, kids, t.node) == []
    ensures var a, n := Ahead(h, kids, t), |Walk(LeafNodes(h), t)|; a[..n] + Squash(a[n..]) == View(h, Walk(LeafNodes(h), t))
  {
    AheadIsView(h, kids, t);
  }

  /** The consolidation that started from `h0`, `t0` and had `a` before it is halfway. */
  ghost predicate Midway(store: Store, iter: Iter, h0: Heap, k0: Kids, t0: Tree, a: seq<Item>)
    reads iter, store, iter.store
  {
    && Ready(store, iter) && 1 <= iter.pos <= |iter.Whole()| + 1
    && Squash(a) == Reachable(store, iter)[..iter.pos - 1] + Squash(Reachable(store, iter)[iter.pos - 1..])
    && Within(h0, k0, store.heap, store.kids, t0, iter.tree)
    && (iter.pos >= 2 ==> Trailing(store.heap, store.kids, iter.tree.node) == [])
  }

  /** At an event: merge if a Text follows a Text. */
  method MergeAt(store: Store, iter: Iter, e: Event, junk: nat -> Node)
    requires Ready(store, iter) && (forall n :: Alone(junk(n))) && 1 <= iter.pos <= |iter.Whole()| && e == iter.Whole()[iter.pos - 1]
    modifies iter, store`heap, store`kids
    ensures Ready(store, iter) && iter.tree.node == old(iter.tree.node) && iter.pos == old(iter.pos) <= |iter.Whole()|
    ensures var a, b, i := old(Reachable(store, iter)), Reachable(store, iter), iter.pos - 1;
            && i < |b| <= |a| && a[..i] == b[..i] && Squash(a[i..]) == [b[i]] + Squash(b[i + 1..])
    ensures Trailing(store.heap, store.kids, iter.tree.node) == []
    ensures Within(old(store.heap), old(store.kids), store.heap, store.kids, old(iter.tree), iter.tree)
  {
    hide Forest, Shape, Walk, View, Ahead, LeafNodes, LeavesBare, Nodes, Squash, Within, Trailing;
    ghost var i := iter.pos - 1;
    EventInside(store.heap, store.kids, iter.tree, i);
    OwnRoot(store.heap, store.kids, iter.tree);
    WithinSame(store.heap, store.kids, iter.tree);
    var cur := e.node;
    if e.Enter? { NextText(store.heap, store.kids, iter.tree, i); }
    if e.Enter? && store.heap[cur].kind == Text && store.heap[cur].next != NULL && store.heap[store.heap[cur].next].kind == Text {
      MergeRun(store, iter, cur, junk);
    } else {
      SquashFirst(Reachable(store, iter), i);
    }
    TrailingDone(store.heap, store.kids, iter.tree, i);
  }

  /** The body of the loop: merge if a Text follows a Text; then on to the next event. */
  method VisitEvent(store: Store, iter: Iter, e: Event, ghost h0: Heap, ghost k0: Kids, ghost t0: Tree, ghost a: seq<Item>, junk: nat -> Node)
    returns (e': Event)
    requires Midway(store, iter, h0, k0, t0, a) && (forall n :: Alone(junk(n))) && !e.Done? && e == EventAt(iter.Whole(), iter.pos - 1)
    modifies iter, store`heap, store`kids
    ensures Midway(store, iter, h0, k0, t0, a) && e' == EventAt(iter.Whole(), iter.pos - 1)
    ensures iter.pos == old(iter.pos) + 1 && |Reachable(store, iter)| <= |old(Reachable(store, iter))|
  {
    hide Forest, Shape, Walk, View, Ahead, LeafNodes, LeavesBare, Nodes, Squash, Within, Trailing;
    ghost var b, i, h, k, t := Reachable(store, iter), iter.pos - 1, store.heap, store.kids, iter.tree;
    MergeAt(store, iter, e, junk);
    SquashStep(Squash(a), b, Reachable(store, iter), i);
    WithinTrans(h0, k0, h, k, store.heap, store.kids, t0, t, iter.tree);
    e' := iter.Next();
  }

  lemma MidwayDone(store: Store, iter: Iter, h0: Heap, k0: Kids, t0: Tree, a: seq<Item>)
    requires Midway(store, iter, h0, k0, t0, a) && EventAt(iter.Whole(), iter.pos - 1) == Done
    ensures Squash(a) == View(store.heap, iter.Whole()) && Trailing(store.heap, store.kids, iter.tree.node) == []
  {
    hide Forest, Shape, Walk, View, Ahead, LeafNodes, LeavesBare, Squash, Within, Trailing;
    WalkEvents(LeafNodes(store.heap), iter.tree);
    SquashDone(store.heap, store.kids, iter.tree);
  }

  /** `cmark_consolidate_text_nodes` */
  method ConsolidateTextNodes(store: Store, root: Ptr, junk: nat -> Node) returns (ghost t: Tree, ghost t': Tree)
    requires store.Valid() && NULL <= root < |store.heap| && LeavesBare(store.heap, store.kids) && forall n :: Alone(junk(n))
    modifies store`heap, store`kids
    ensures store.Valid() && LeavesBare(store.heap, store.kids)
    ensures root == NULL ==> store.heap == old(store.heap) && store.kids == old(store.kids)
    ensures root != NULL ==> t.node == t'.node == root && Shape(old(store.kids), t) && Shape(store.kids, t')
    ensures root != NULL ==>
      View(store.heap, Walk(LeafNodes(store.heap), t')) == Squash(Ahead(old(store.heap), old(store.kids), t))
    ensures root != NULL ==> Within(old(store.heap), old(store.kids), store.heap, store.kids, t, t')
    ensures root != NULL && old(store.heap[root].kind) == Text ==>
      Took(old(store.heap), old(store.kids), store.heap, store.kids, root, TrailNodes(old(store.heap), old(store.kids), root))
    ensures root != NULL ==>
      (SameOutside(old(store.heap), store.heap, Nodes(t)) <==> Trailing(old(store.heap), old(store.kids), root) == [])
  {
    hide Forest, Shape, Walk, View, Ahead, LeafNodes, LeavesBare, Nodes, Squash, Within, Trailing, SameOutside, Took, TrailNodes;
    if root == NULL {
      t, t' := Tree(0, []), Tree(0, []);
      return;
    }
    var iter := new Iter(store, root);
    t := iter.tree;
    ghost var a, h0, k0 := Reachable(store, iter), store.heap, store.kids;
    OwnRoot(store.heap, store.kids, t);
    WithinSame(store.heap, store.kids, t);
    var e := iter.Next();
    assert a[..0] == [] && a[0..] == a;
    while !e.Done?
      invariant iter.store == store && fresh(iter) && Midway(store, iter, h0, k0, t, a)
      invariant e == EventAt(iter.Whole(), iter.pos - 1)
      decreases |Reachable(store, iter)| + 1 - iter.pos
    {
      e := VisitEvent(store, iter, e, h0, k0, t, a, junk);
    }
    t' := iter.tree;
    MidwayDone(store, iter, h0, k0, t, a);
    assert iter.Valid() && Within(h0, k0, store.heap, store.kids, t, t');
    WithinEnd(h0, k0, store.heap, store.kids, t, t');
  }

  /** When nothing trails the root any more, all that did has been taken, and only that. */
  lemma WithinEnd(h: Heap, kids: Kids, g: Heap, k: Kids, t: Tree, t': Tree)
    requires Within(h, kids, g, k, t, t') && Trailing(g, k, t'.node) == [] && LeavesBare(h, kids)
    requires Forest(h, kids) && Forest(g, k) && Shape(kids, t)
    ensures t.node == t'.node < |h|
    ensures h[t.node].kind == Text ==> Took(h, kids, g, k, t.node, TrailNodes(h, kids, t.node))
    ensures SameOutside(h, g, Nodes(t)) <==> Trailing(h, kids, t.node) == []
  {
    var root := t.node;
    if h[root].kind == Text {
      var gone := TrailNodes(h, kids, root);
      assert TrailNodes(g, k, root) == {};
      assert gone - {} == gone;
      BareRoot(h, kids, t);
      assert Nodes(t) == {root};
      hide Forest, Took, Trailing;
      TrailInside(h, kids, root);
      if Trailing(h, kids, root) == [] {
        assert gone == {};
        TookNone(h, kids, g, k, root);
      } else {
        TookSome(h, kids, g, k, root, gone);
      }
    }
  }

  lemma TookNone(h: Heap, kids: Kids, g: Heap, k: Kids, root: nat)
    requires Took(h, kids, g, k, root, {}) && Forest(h, kids) && Forest(g, k)
    ensures SameOutside(h, g, {root})
  {
    hide Rep, Acyclic, Strip;
    RepOf(h, kids);
    RepOf(g, k);
    forall n: nat | n < |kids| ensures k[n] == kids[n] { StripNone(kids[n], {}); }
    assert k == kids;
    forall n: nat | n < |h| && n != root ensures g[n] == h[n] { LinksDetermined(h, g, kids, n); }
  }

  lemma TookSome(h: Heap, kids: Kids, g: Heap, k: Kids, root: nat, gone: set<nat>)
    requires Took(h, kids, g, k, root, gone) && Forest(h, kids) && Forest(g, k) && root < |h| && h[root].kind == Text
    requires gone == TrailNodes(h, kids, root) && Trailing(h, kids, root) != []
    ensures !SameOutside(h, g, {root})
  {
    var s := kids[h[root].parent];
    NextSibling(h, kids, root);
    RunInside(h, s, Place(s, root) + 1);
    var it := Trailing(h, kids, root)[0];
    assert it in Trailing(h, kids, root);
    hide Forest, Rep, Took, Strip, Place;
    RepOf(h, kids);
    RepOf(g, k);
    TookAlone(h, kids, g, k, root, gone, it.node);
    DownOf(h, kids, h[root].parent);
    ChainIsDistinct(h, s);
    TrailNext(h, s, Place(s, root));
    TookSizes(h, kids, g, k, root, gone);
  }

  lemma TookSizes(h: Heap, kids: Kids, g: Heap, k: Kids, root: nat, gone: set<nat>)
    requires Took(h, kids, g, k, root, gone)
    ensures |g| == |h| == |kids| == |k|
  {
  }

  lemma TrailNext(h: Heap, s: seq<nat>, i: nat)
    requires TextRun(h, s, i + 1) != [] && Distinct(s)
    ensures i + 1 < |s| && TextRun(h, s, i + 1)[0].node == s[i + 1] != s[i]
  {
  }
}
