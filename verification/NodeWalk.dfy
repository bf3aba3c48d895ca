/** The ENTER/EXIT iterator of iterator.c, against the recursive walk. */
module NodeWalk {
  import opened NodeKinds
  import opened NodeTree
  import opened NodeStore

  /** A node and what hangs below it. */
  datatype Tree = Tree(node: nat, subs: seq<Tree>)

  /** `t` is what `kids` says hangs below its node. */
  ghost predicate Shape(kids: Kids, t: Tree) {
    && t.node < |kids| && |t.subs| == |kids[t.node]|
    && forall i :: 0 <= i < |t.subs| ==> t.subs[i].node == kids[t.node][i] && Shape(kids, t.subs[i])
  }

  /** Every node of a forest has its tree. */
  ghost function TreeOf(h: Heap, kids: Kids, rank: seq<nat>, top: nat, n: nat): (t: Tree)
    requires Rep(h, kids) && Ranked(h, rank) && n < |h| && forall r :: r in rank ==> r < top
    ensures t.node == n && Shape(kids, t)
    decreases top - rank[n]
  {
    DownOf(h, kids, n);
    InRange(h, kids[n]);
    assert rank[n] in rank;
    var subs := seq(|kids[n]|, i requires 0 <= i < |kids[n]| =>
      assert kids[n][i] in kids[n]; assert rank[kids[n][i]] in rank; TreeOf(h, kids, rank, top, kids[n][i]));
    Tree(n, subs)
  }

  lemma {:induction false} Bound(rank: seq<nat>) returns (top: nat)
    ensures forall r :: r in rank ==> r < top
  {
    if rank == [] {
      top := 0;
    } else {
      top := Bound(rank[1..]);
      if top <= rank[0] { top := rank[0] + 1; }
      assert rank == [rank[0]] + rank[1..];
    }
  }

  lemma TreeExists(h: Heap, kids: Kids, n: nat) returns (t: Tree)
    requires Forest(h, kids) && n < |h|
    ensures t.node == n && Shape(kids, t)
  {
    var rank :| Ranked(h, rank);
    var top := Bound(rank);
    t := TreeOf(h, kids, rank, top, n);
  }

  /** There is only one tree below a node. */
  lemma {:induction false} ShapeUnique(kids: Kids, t: Tree, s: Tree)
    requires Shape(kids, t) && Shape(kids, s) && t.node == s.node
    ensures t == s
  {
    forall i: nat | i < |t.subs| ensures t.subs[i] == s.subs[i] {
      ShapeUnique(kids, t.subs[i], s.subs[i]);
    }
    assert t.subs == s.subs;
  }

  // ---------------------------------------------------------------- the recursive walk

  datatype Event = Enter(node: nat) | Exit(node: nat) | Done

  /** The walk of a subtree; nodes in `leaves` are entered only. */
  function Walk(leaves: set<nat>, t: Tree): (w: seq<Event>)
    ensures w != [] && w[0] == Enter(t.node)
    ensures w[|w| - 1] == if t.node in leaves then Enter(t.node) else Exit(t.node)
    decreases t, 1
  {
    if t.node in leaves then [Enter(t.node)] else [Enter(t.node)] + WalkAll(leaves, t.subs) + [Exit(t.node)]
  }

  function WalkAll(leaves: set<nat>, ts: seq<Tree>): (w: seq<Event>)
    ensures ts != [] ==> w != [] && w[0] == Enter(ts[0].node)
    decreases ts, 0
  {
    if ts == [] then [] else Walk(leaves, ts[0]) + WalkAll(leaves, ts[1..])
  }

  function Nodes(t: Tree): set<nat>
    decreases t, 1
  {
    {t.node} + NodesAll(t.subs)
  }

  function NodesAll(ts: seq<Tree>): set<nat>
    decreases ts, 0
  {
    if ts == [] then {} else Nodes(ts[0]) + NodesAll(ts[1..])
  }

  // ---------------------------------------------------------------- one step of the iterator

  /** How `cmark_iter_next` rolls forward from an event, for an iteration from `root`. */
  function Roll(h: Heap, leaves: set<nat>, root: nat, e: Event): Event {
    if e.Done? || e.node >= |h| then Done
    else
      var n := e.node;
      if e.Enter? && n !in leaves then
        if h[n].first == NULL then Exit(n) else if h[n].first >= 0 then Enter(h[n].first) else Done
      else if n == root then Done
      else if h[n].next >= 0 then Enter(h[n].next)
      else if h[n].parent >= 0 then Exit(h[n].parent)
      else Done
  }

  /** Each event rolls to the next one. */
  ghost predicate Rolls(h: Heap, leaves: set<nat>, root: nat, w: seq<Event>) {
    forall i :: 0 <= i < |w| - 1 ==> Roll(h, leaves, root, w[i]) == w[i + 1]
  }

  lemma RollsConcat(h: Heap, leaves: set<nat>, root: nat, a: seq<Event>, b: seq<Event>)
    requires Rolls(h, leaves, root, a) && Rolls(h, leaves, root, b)
    requires a != [] && b != [] ==> Roll(h, leaves, root, a[|a| - 1]) == b[0]
    ensures Rolls(h, leaves, root, a + b)
  {
  }

  /** The walk of a subtree is a run of the iterator, whatever the root above it. */
  lemma {:induction false} WalkRolls(h: Heap, kids: Kids, leaves: set<nat>, root: nat, t: Tree)
    requires Rep(h, kids) && Shape(kids, t) && root !in NodesAll(t.subs)
    ensures Rolls(h, leaves, root, Walk(leaves, t))
    decreases t, 1
  {
    if t.node !in leaves {
      var n := t.node;
      DownOf(h, kids, n);
      SiblingsRoll(h, kids, leaves, root, t, 0);
      assert t.subs[0..] == t.subs;
      if t.subs != [] { assert kids[n][0] == t.subs[0].node; }
      RollsConcat(h, leaves, root, [Enter(n)], WalkAll(leaves, t.subs) + [Exit(n)]);
      assert [Enter(n)] + (WalkAll(leaves, t.subs) + [Exit(n)]) == Walk(leaves, t);
    }
  }

  /** The children from the `i`-th on, and then the exit of their parent. */
  lemma {:induction false} SiblingsRoll(h: Heap, kids: Kids, leaves: set<nat>, root: nat, t: Tree, i: nat)
    requires Rep(h, kids) && Shape(kids, t) && root !in NodesAll(t.subs) && i <= |t.subs|
    ensures Rolls(h, leaves, root, WalkAll(leaves, t.subs[i..]) + [Exit(t.node)])
    ensures i < |t.subs| ==> WalkAll(leaves, t.subs[i..])[0] == Enter(t.subs[i].node)
    decreases t, 0, |t.subs| - i
  {
    if i == |t.subs| {
      assert WalkAll(leaves, t.subs[i..]) + [Exit(t.node)] == [Exit(t.node)];
    } else {
      var s := t.subs[i];
      FirstTree(leaves, t.subs, i);
      SubShape(kids, t, i);
      if i + 1 < |t.subs| { SubShape(kids, t, i + 1); }
      NodesOf(t.subs, i);
      WalkRolls(h, kids, leaves, root, s);
      SiblingsRoll(h, kids, leaves, root, t, i + 1);
      LastRolls(h, kids, leaves, root, t, i);
      hide Shape, Rep, Walk, WalkAll, Rolls, Nodes, NodesAll, Roll;
      var rest := WalkAll(leaves, t.subs[i + 1..]) + [Exit(t.node)];
      RollsConcat(h, leaves, root, Walk(leaves, s), rest);
      assert WalkAll(leaves, t.subs[i..]) + [Exit(t.node)] == Walk(leaves, s) + rest;
    }
  }

  lemma FirstTree(leaves: set<nat>, ts: seq<Tree>, i: nat)
    requires i < |ts|
    ensures WalkAll(leaves, ts[i..]) == Walk(leaves, ts[i]) + WalkAll(leaves, ts[i + 1..])
  {
    assert ts[i..][0] == ts[i] && ts[i..][1..] == ts[i + 1..];
  }

  lemma SubShape(kids: Kids, t: Tree, i: nat)
    requires Shape(kids, t) && i < |t.subs|
    ensures t.node < |kids| && |kids[t.node]| == |t.subs| && Shape(kids, t.subs[i]) && t.subs[i].node == kids[t.node][i]
  {
  }

  /** The last event of a child's walk rolls to the next sibling, or to the parent's exit. */
  lemma LastRolls(h: Heap, kids: Kids, leaves: set<nat>, root: nat, t: Tree, i: nat)
    requires Rep(h, kids) && Shape(kids, t) && i < |t.subs| && root !in Nodes(t.subs[i])
    ensures var w := Walk(leaves, t.subs[i]);
            Roll(h, leaves, root, w[|w| - 1]) == if i + 1 < |t.subs| then Enter(t.subs[i + 1].node) else Exit(t.node)
    ensures t.subs[i].node < |h|
  {
    var s := t.subs[i];
    SubShape(kids, t, i);
    if i + 1 < |t.subs| { SubShape(kids, t, i + 1); }
    DownOf(h, kids, t.node);
    ChildLinks(h, kids, t.node, i);
    DownOf(h, kids, s.node);
    LeafLast(leaves, s);
    assert s.node != root;
  }

  lemma LeafLast(leaves: set<nat>, t: Tree)
    ensures var w := Walk(leaves, t); w[|w| - 1] == (if t.node in leaves then Enter(t.node) else Exit(t.node)) && t.node in Nodes(t)
  {
  }

  lemma {:induction false} NodesOf(ts: seq<Tree>, i: nat)
    requires i < |ts|
    ensures Nodes(ts[i]) <= NodesAll(ts)
  {
    if i > 0 { NodesOf(ts[1..], i - 1); }
  }

  lemma InForest(ts: seq<Tree>, m: nat) returns (i: nat)
    requires m in NodesAll(ts)
    ensures i < |ts| && m in Nodes(ts[i])
  {
    if m in Nodes(ts[0]) {
      i := 0;
    } else {
      i := InForest(ts[1..], m);
      i := i + 1;
    }
  }

  // ---------------------------------------------------------------- no node is met twice

  /** Ranks grow downwards, so the root of a subtree is not below itself. */
  lemma {:induction false} RankIn(h: Heap, kids: Kids, rank: seq<nat>, t: Tree, m: nat)
    requires Rep(h, kids) && Ranked(h, rank) && Shape(kids, t) && m in Nodes(t)
    ensures m < |h| && rank[t.node] <= rank[m] && (m in NodesAll(t.subs) ==> rank[t.node] < rank[m])
    decreases t
  {
    if m in NodesAll(t.subs) {
      var i := InForest(t.subs, m);
      DownOf(h, kids, t.node);
      assert kids[t.node][i] in kids[t.node];
      RankIn(h, kids, rank, t.subs[i], m);
    }
  }

  lemma RootOnce(h: Heap, kids: Kids, t: Tree)
    requires Forest(h, kids) && Shape(kids, t)
    ensures t.node !in NodesAll(t.subs)
  {
    var rank :| Ranked(h, rank);
    if t.node in NodesAll(t.subs) { RankIn(h, kids, rank, t, t.node); }
  }

  /** All nodes of a subtree but its root have their parent in it. */
  lemma {:induction false} ParentIn(h: Heap, kids: Kids, t: Tree, m: nat)
    requires Rep(h, kids) && Shape(kids, t) && m in Nodes(t) && m != t.node
    ensures m < |h| && h[m].parent >= 0 && h[m].parent in Nodes(t)
    decreases t
  {
    var i := InForest(t.subs, m);
    DownOf(h, kids, t.node);
    if m == t.subs[i].node {
      assert kids[t.node][i] in kids[t.node];
    } else {
      ParentIn(h, kids, t.subs[i], m);
      NodesOf(t.subs, i);
    }
  }

  /** Two siblings' subtrees share no node. */
  lemma {:induction false} Apart(h: Heap, kids: Kids, rank: seq<nat>, t: Tree, i: nat, j: nat, m: nat)
    requires Rep(h, kids) && Ranked(h, rank) && Shape(kids, t) && i < j < |t.subs|
    ensures m in Nodes(t.subs[i]) ==> m !in Nodes(t.subs[j])
    decreases if m < |rank| then rank[m] else 0
  {
    var a, b := t.subs[i], t.subs[j];
    if m in Nodes(a) && m in Nodes(b) {
      DownOf(h, kids, t.node);
      ChildLinks(h, kids, t.node, i);
      ChildLinks(h, kids, t.node, j);
      ChainIsDistinct(h, kids[t.node]);
      RankIn(h, kids, rank, a, m);
      if m == a.node {
        ParentIn(h, kids, b, m);
        RankIn(h, kids, rank, b, t.node);
      } else if m == b.node {
        ParentIn(h, kids, a, m);
        RankIn(h, kids, rank, a, t.node);
      } else {
        ParentIn(h, kids, a, m);
        ParentIn(h, kids, b, m);
        Apart(h, kids, rank, t, i, j, h[m].parent);
      }
    }
  }

  lemma {:induction false} ApartFromRest(h: Heap, kids: Kids, t: Tree, i: nat)
    requires Forest(h, kids) && Shape(kids, t) && i < |t.subs|
    ensures Nodes(t.subs[i]) !! NodesAll(t.subs[i + 1..])
  {
    var rank :| Ranked(h, rank);
    forall m | m in NodesAll(t.subs[i + 1..]) ensures m !in Nodes(t.subs[i]) {
      var j := InForest(t.subs[i + 1..], m);
      Apart(h, kids, rank, t, i, i + 1 + j, m);
    }
  }

  /** The walk takes one step for each leaf and two for each container. */
  function Steps(leaves: set<nat>, ns: set<nat>): nat {
    |ns * leaves| + 2 * |ns - leaves|
  }

  lemma StepsUnion(leaves: set<nat>, a: set<nat>, b: set<nat>)
    requires a !! b
    ensures Steps(leaves, a + b) == Steps(leaves, a) + Steps(leaves, b)
  {
    assert (a + b) * leaves == a * leaves + b * leaves;
    assert (a + b) - leaves == (a - leaves) + (b - leaves);
  }

  lemma StepsOne(leaves: set<nat>, n: nat)
    ensures Steps(leaves, {n}) == if n in leaves then 1 else 2
  {
    if n in leaves {
      assert {n} * leaves == {n} && {n} - leaves == {};
    } else {
      assert {n} * leaves == {} && {n} - leaves == {n};
    }
  }

  /** When nodes of leaf kinds have no children, every node is met: leaves once, containers twice. */
  lemma {:induction false} WalkLength(h: Heap, kids: Kids, leaves: set<nat>, t: Tree)
    requires Forest(h, kids) && Shape(kids, t) && forall n :: n in leaves && n < |kids| ==> kids[n] == []
    ensures |Walk(leaves, t)| == Steps(leaves, Nodes(t))
    decreases t, 1
  {
    hide Steps, Forest;
    RootOnce(h, kids, t);
    StepsOne(leaves, t.node);
    StepsUnion(leaves, {t.node}, NodesAll(t.subs));
    SiblingsLength(h, kids, leaves, t, 0);
    assert t.subs[0..] == t.subs;
    NoSteps(leaves);
  }

  lemma NoSteps(leaves: set<nat>)
    ensures Steps(leaves, {}) == 0
  {
    assert {} * leaves == {} && {} - leaves == {};
  }

  lemma {:induction false} SiblingsLength(h: Heap, kids: Kids, leaves: set<nat>, t: Tree, i: nat)
    requires Forest(h, kids) && Shape(kids, t) && i <= |t.subs| && forall n :: n in leaves && n < |kids| ==> kids[n] == []
    ensures |WalkAll(leaves, t.subs[i..])| == Steps(leaves, NodesAll(t.subs[i..]))
    decreases t, 0, |t.subs| - i
  {
    hide Steps, Forest;
    NoSteps(leaves);
    if i < |t.subs| {
      assert t.subs[i..][0] == t.subs[i] && t.subs[i..][1..] == t.subs[i + 1..];
      WalkLength(h, kids, leaves, t.subs[i]);
      SiblingsLength(h, kids, leaves, t, i + 1);
      ApartFromRest(h, kids, t, i);
      StepsUnion(leaves, Nodes(t.subs[i]), NodesAll(t.subs[i + 1..]));
    }
  }

  // ---------------------------------------------------------------- subtrees in the walk

  /** `part` stands in `whole` at place `i`. */
  ghost predicate Stands(whole: seq<Event>, i: nat, part: seq<Event>) {
    i + |part| <= |whole| && whole[i..i + |part|] == part
  }

  lemma StandsIn(a: seq<Event>, whole: seq<Event>, c: seq<Event>, i: nat, part: seq<Event>)
    requires Stands(whole, i, part)
    ensures Stands(a + whole + c, |a| + i, part)
  {
    var k := |a| + i;
    assert (a + whole + c)[k..k + |part|] == whole[i..i + |part|];
  }

  lemma HeadTree(leaves: set<nat>, ts: seq<Tree>, i: nat)
    requires i < |WalkAll(leaves, ts)|
    ensures ts != [] && WalkAll(leaves, ts) == [] + Walk(leaves, ts[0]) + WalkAll(leaves, ts[1..])
    ensures WalkAll(leaves, ts) == Walk(leaves, ts[0]) + WalkAll(leaves, ts[1..]) + []
    ensures var n := |Walk(leaves, ts[0])|;
            WalkAll(leaves, ts)[i] == if i < n then Walk(leaves, ts[0])[i] else WalkAll(leaves, ts[1..])[i - n]
  {
  }

  /** Where a node is entered, the walk of its whole subtree begins. */
  lemma {:induction false} SubWalk(kids: Kids, leaves: set<nat>, t: Tree, i: nat) returns (s: Tree)
    requires Shape(kids, t) && i < |Walk(leaves, t)| && Walk(leaves, t)[i].Enter?
    ensures Shape(kids, s) && Walk(leaves, t)[i] == Enter(s.node) && Stands(Walk(leaves, t), i, Walk(leaves, s))
    decreases t, 1
  {
    if i == 0 {
      s := t;
    } else {
      s := SubWalkAll(kids, leaves, t.subs, i - 1);
      StandsIn([Enter(t.node)], WalkAll(leaves, t.subs), [Exit(t.node)], i - 1, Walk(leaves, s));
    }
  }

  lemma {:induction false} SubWalkAll(kids: Kids, leaves: set<nat>, ts: seq<Tree>, i: nat) returns (s: Tree)
    requires (forall k :: 0 <= k < |ts| ==> Shape(kids, ts[k])) && i < |WalkAll(leaves, ts)| && WalkAll(leaves, ts)[i].Enter?
    ensures Shape(kids, s) && WalkAll(leaves, ts)[i] == Enter(s.node) && Stands(WalkAll(leaves, ts), i, Walk(leaves, s))
    decreases ts, 0
  {
    hide Walk, WalkAll, Shape, Stands;
    HeadTree(leaves, ts, i);
    var n := |Walk(leaves, ts[0])|;
    if i < n {
      s := SubWalk(kids, leaves, ts[0], i);
      StandsIn([], Walk(leaves, ts[0]), WalkAll(leaves, ts[1..]), i, Walk(leaves, s));
    } else {
      s := SubWalkAll(kids, leaves, ts[1..], i - n);
      StandsIn(Walk(leaves, ts[0]), WalkAll(leaves, ts[1..]), [], i - n, Walk(leaves, s));
    }
  }

  // ---------------------------------------------------------------- the iterator

  /** `S_is_leaf` */
  predicate IsLeaf(k: Kind) {
    k in {HtmlBlock, ThematicBreak, CodeBlock, Text, SoftBreak, LineBreak, Code, HtmlInline}
  }

  /** Leaves are the kinds that take no child, but footnote references, which are entered and left. */
  lemma LeafMeans(k: Kind)
    ensures IsLeaf(k) <==> k != FootnoteReference && forall c :: !CanContain(k, c)
  {
    assert CanContain(k, Item) || CanContain(k, Text) || CanContain(k, Paragraph) || k == FootnoteReference || IsLeaf(k);
  }

  ghost function LeafNodes(h: Heap): set<nat> {
    set n | 0 <= n < |h| && IsLeaf(h[n].kind)
  }

  /** The event at a place of the walk, and `Done` from its end on. */
  function EventAt(w: seq<Event>, i: nat): Event {
    if i < |w| then w[i] else Done
  }

  /** From each place of the walk the iterator rolls to the next, and from `Done` nowhere. */
  lemma RollsAlong(h: Heap, kids: Kids, leaves: set<nat>, t: Tree, i: nat)
    requires Forest(h, kids) && Shape(kids, t)
    ensures Roll(h, leaves, t.node, EventAt(Walk(leaves, t), i)) == EventAt(Walk(leaves, t), i + 1)
    ensures var e := EventAt(Walk(leaves, t), i);
            (i < |Walk(leaves, t)| ==> !e.Done? && e.node < |h|) && (i + 1 == |Walk(leaves, t)| ==> e.node == t.node)
  {
    RootOnce(h, kids, t);
    WalkRolls(h, kids, leaves, t.node, t);
    if i < |Walk(leaves, t)| {
      WalkNodes(leaves, t, i);
      NodesInStore(kids, t, Walk(leaves, t)[i].node);
    }
    hide Walk;
    DownOf(h, kids, t.node);
  }

  lemma {:induction false} WalkNodes(leaves: set<nat>, t: Tree, i: nat)
    requires i < |Walk(leaves, t)|
    ensures !Walk(leaves, t)[i].Done? && Walk(leaves, t)[i].node in Nodes(t)
    decreases t, 1
  {
    if 0 < i < |Walk(leaves, t)| - 1 { WalkAllNodes(leaves, t.subs, i - 1); }
  }

  lemma {:induction false} WalkAllNodes(leaves: set<nat>, ts: seq<Tree>, i: nat)
    requires i < |WalkAll(leaves, ts)|
    ensures !WalkAll(leaves, ts)[i].Done? && WalkAll(leaves, ts)[i].node in NodesAll(ts)
    decreases ts, 0
  {
    if i < |Walk(leaves, ts[0])| { WalkNodes(leaves, ts[0], i); } else { WalkAllNodes(leaves, ts[1..], i - |Walk(leaves, ts[0])|); }
  }

  lemma {:induction false} NodesInStore(kids: Kids, t: Tree, m: nat)
    requires Shape(kids, t) && m in Nodes(t)
    ensures m < |kids|
    decreases t
  {
    if m != t.node {
      var i := InForest(t.subs, m);
      NodesInStore(kids, t.subs[i], m);
    }
  }

  class Iter {
    const store: Store
    const root: nat
    var cur: Event
    var next: Event
    ghost var tree: Tree
    ghost var pos: nat

    /** What is left of the walk of the root's subtree. */
    ghost function Whole(): seq<Event>
      reads this, store
    {
      Walk(LeafNodes(store.heap), tree)
    }

    ghost predicate Valid()
      reads this, store
    {
      && store.Valid() && tree.node == root && Shape(store.kids, tree)
      && next == EventAt(Whole(), pos)
    }

    /** `cmark_iter_new` */
    constructor (store: Store, root: nat)
      requires store.Valid() && root < |store.heap|
      ensures Valid() && this.store == store && this.root == root && pos == 0 && cur == Done
    {
      var t := TreeExists(store.heap, store.kids, root);
      this.store, this.root := store, root;
      cur, next := Done, Enter(root);
      tree, pos := t, 0;
    }

    /** `cmark_iter_next` */
    method Next() returns (e: Event)
      requires Valid()
      modifies this
      ensures Valid() && tree == old(tree) && pos == old(pos) + 1
      ensures e == cur == EventAt(Whole(), old(pos))
    {
      RollsAlong(store.heap, store.kids, LeafNodes(store.heap), tree, pos);
      e := next;
      Advance(next);
      pos := pos + 1;
    }

    /** Hand out the event and roll forward. */
    method Advance(e: Event)
      requires store.Valid() && (e.Done? || e.node < |store.heap|)
      modifies this`cur, this`next
      ensures cur == e && next == Roll(store.heap, LeafNodes(store.heap), root, e)
    {
      cur, next := e, e;
      if e.Done? {
        return;
      }
      var n := e.node;
      InBounds(store.heap, store.kids, n);
      if e.Enter? && !IsLeaf(store.heap[n].kind) {
        if store.heap[n].first == NULL {
          next := Exit(n);
        } else {
          next := Enter(store.heap[n].first);
        }
      } else if n == root {
        next := Done;
      } else if store.heap[n].next != NULL {
        next := Enter(store.heap[n].next);
      } else if store.heap[n].parent != NULL {
        next := Exit(store.heap[n].parent);
      } else {
        next := Done;
      }
    }

    /** `cmark_iter_reset` with the exit of a node the iterator has just entered, or will enter:
        it goes on right after that node's subtree. */
    method Skip(ghost i: nat, n: nat) returns (ghost sub: Tree)
      requires Valid() && i < |Whole()| && Whole()[i] == Enter(n)
      modifies this
      ensures Valid() && tree == old(tree) && cur == Exit(n)
      ensures sub.node == n && Shape(store.kids, sub) && pos == i + |Walk(LeafNodes(store.heap), sub)| <= |Whole()|
      ensures Whole()[i..pos] == Walk(LeafNodes(store.heap), sub)
    {
      ghost var leaves := LeafNodes(store.heap);
      sub := SubWalk(store.kids, leaves, tree, i);
      pos := i + |Walk(leaves, sub)|;
      RollsAlong(store.heap, store.kids, leaves, tree, pos - 1);
      assert Whole()[i..pos][pos - i - 1] == Whole()[pos - 1];
      Advance(Exit(n));
    }
  }

  /** The loop every renderer runs: all events up to `Done`. */
  method AllEvents(store: Store, root: nat) returns (events: seq<Event>)
    requires store.Valid() && root < |store.heap|
    ensures exists t: Tree :: t.node == root && Shape(store.kids, t)
    ensures forall t: Tree :: t.node == root && Shape(store.kids, t) ==> events == Walk(LeafNodes(store.heap), t)
  {
    var iter := new Iter(store, root);
    ghost var t := iter.tree;
    events := [];
    var e := iter.Next();
    while !e.Done?
      invariant iter.Valid() && iter.store == store && iter.tree == t && iter.pos >= 1 && fresh(iter)
      invariant e == EventAt(iter.Whole(), iter.pos - 1)
      invariant iter.pos - 1 <= |iter.Whole()| && events == iter.Whole()[..iter.pos - 1]
      decreases |iter.Whole()| + 1 - iter.pos
    {
      events := events + [e];
      e := iter.Next();
    }
    WalkEvents(LeafNodes(store.heap), t);
    forall s: Tree | s.node == root && Shape(store.kids, s) ensures s == t { ShapeUnique(store.kids, s, t); }
  }

  lemma WalkEvents(leaves: set<nat>, t: Tree)
    ensures forall i :: 0 <= i < |Walk(leaves, t)| ==> !Walk(leaves, t)[i].Done?
  {
    forall i | 0 <= i < |Walk(leaves, t)| ensures !Walk(leaves, t)[i].Done? { WalkNodes(leaves, t, i); }
  }

  /** Every test of `cmark_node_check` holds in a forest. */
  lemma CheckedLinks(h: Heap, kids: Kids, n: nat)
    requires Forest(h, kids) && n < |h|
    ensures var c := h[n].first; c != NULL ==> 0 <= c < |h| && h[c].prev == NULL && h[c].parent == n
    ensures var c := h[n].next; c != NULL ==> 0 <= c < |h| && h[c].prev == n && h[c].parent == h[n].parent
    ensures var p := h[n].parent; p != NULL && h[n].next == NULL ==> 0 <= p < |h| && h[p].last == n
  {
    DownOf(h, kids, n);
    if kids[n] != [] { ChildLinks(h, kids, n, 0); }
    if h[n].parent != NULL {
      var p := h[n].parent;
      DownOf(h, kids, p);
      var i := Place(kids[p], n);
      ChildLinks(h, kids, p, i);
      if i + 1 < |kids[p]| { ChildLinks(h, kids, p, i + 1); }
    }
  }

  // ---------------------------------------------------------------- the run of the iterator is the walk

  /** `w` starts at the root's entry and rolls to `Done`. */
  ghost predicate FullRun(h: Heap, leaves: set<nat>, root: nat, w: seq<Event>) {
    && w != [] && w[0] == Enter(root) && (forall i :: 0 <= i < |w| ==> !w[i].Done?)
    && forall i :: 0 <= i < |w| ==> Roll(h, leaves, root, w[i]) == EventAt(w, i + 1)
  }

  lemma WalkIsRun(h: Heap, kids: Kids, leaves: set<nat>, t: Tree)
    requires Forest(h, kids) && Shape(kids, t)
    ensures FullRun(h, leaves, t.node, Walk(leaves, t))
  {
    var w := Walk(leaves, t);
    hide Walk, Shape, Forest, Roll;
    WalkEvents(leaves, t);
    forall i: nat | i < |w| ensures Roll(h, leaves, t.node, w[i]) == EventAt(w, i + 1) {
      RollsAlong(h, kids, leaves, t, i);
    }
  }

  lemma {:induction false} RunsAgree(h: Heap, leaves: set<nat>, root: nat, a: seq<Event>, b: seq<Event>, i: nat)
    requires FullRun(h, leaves, root, a) && FullRun(h, leaves, root, b)
    ensures EventAt(a, i) == EventAt(b, i)
  {
    hide Roll;
    if i > 0 {
      RunsAgree(h, leaves, root, a, b, i - 1);
      if i - 1 < |a| { assert EventAt(a, i - 1) == a[i - 1]; }
      if i - 1 < |b| { assert EventAt(b, i - 1) == b[i - 1]; }
    }
  }

  lemma RunUnique(h: Heap, leaves: set<nat>, root: nat, a: seq<Event>, b: seq<Event>)
    requires FullRun(h, leaves, root, a) && FullRun(h, leaves, root, b)
    ensures a == b
  {
    hide Roll;
    RunsAgree(h, leaves, root, a, b, |a|);
    RunsAgree(h, leaves, root, a, b, |b|);
    forall i: nat | i < |a| ensures i < |b| && a[i] == b[i] {
      RunsAgree(h, leaves, root, a, b, i);
    }
  }

  /** No event happens twice. */
  lemma {:induction false} RunDistinct(h: Heap, leaves: set<nat>, root: nat, w: seq<Event>, i: nat, j: nat)
    requires FullRun(h, leaves, root, w) && i < j < |w|
    ensures w[i] != w[j]
    decreases |w| - j
  {
    hide Roll;
    if w[i] == w[j] && j + 1 < |w| { RunDistinct(h, leaves, root, w, i + 1, j + 1); }
    assert EventAt(w, i + 1) == w[i + 1];
  }

  lemma {:induction false} ExitsAreContainers(leaves: set<nat>, t: Tree, i: nat)
    requires i < |Walk(leaves, t)| && Walk(leaves, t)[i].Exit?
    ensures Walk(leaves, t)[i].node !in leaves
    decreases t, 1
  {
    if 0 < i < |Walk(leaves, t)| - 1 { ExitsAll(leaves, t.subs, i - 1); }
  }

  lemma {:induction false} ExitsAll(leaves: set<nat>, ts: seq<Tree>, i: nat)
    requires i < |WalkAll(leaves, ts)| && WalkAll(leaves, ts)[i].Exit?
    ensures WalkAll(leaves, ts)[i].node !in leaves
    decreases ts, 0
  {
    var n := |Walk(leaves, ts[0])|;
    if i < n { ExitsAreContainers(leaves, ts[0], i); } else { ExitsAll(leaves, ts[1..], i - n); }
  }

  /** When leaves are bare the walk enters every node. */
  lemma {:induction false} EveryNodeEntered(kids: Kids, leaves: set<nat>, t: Tree, m: nat)
    requires Shape(kids, t) && m in Nodes(t) && forall n :: n in leaves && n < |kids| ==> kids[n] == []
    ensures Enter(m) in Walk(leaves, t)
    decreases t, 1
  {
    if m != t.node {
      assert m in NodesAll(t.subs);
      EveryNodeEnteredAll(kids, leaves, t.subs, m);
      var w :| w == WalkAll(leaves, t.subs);
      assert Enter(m) in [Enter(t.node)] + w + [Exit(t.node)];
    } else {
      assert Walk(leaves, t)[0] == Enter(m);
    }
  }

  lemma {:induction false} EveryNodeEnteredAll(kids: Kids, leaves: set<nat>, ts: seq<Tree>, m: nat)
    requires (forall i :: 0 <= i < |ts| ==> Shape(kids, ts[i])) && m in NodesAll(ts)
    requires forall n :: n in leaves && n < |kids| ==> kids[n] == []
    ensures Enter(m) in WalkAll(leaves, ts)
    decreases ts, 0
  {
    hide Shape, Walk;
    if m in Nodes(ts[0]) { EveryNodeEntered(kids, leaves, ts[0], m); } else { EveryNodeEnteredAll(kids, leaves, ts[1..], m); }
  }
}
