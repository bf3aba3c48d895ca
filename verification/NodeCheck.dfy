/** `cmark_node_check`: it follows `first_child` and `next`, counts every other link that is wrong, and
    mends it. */
module NodeCheck {
  import opened NodeTree
  import opened NodeStore
  import opened NodeWalk
  import opened NodeFree

  // ---------------------------------------------------------------- every node is left after it is entered

  lemma {:induction false} ExitAfterEnter(leaves: set<nat>, t: Tree, i: nat)
    requires i < |Walk(leaves, t)| && Walk(leaves, t)[i].Exit?
    ensures Enter(Walk(leaves, t)[i].node) in Walk(leaves, t)[..i]
    decreases t, 1
  {
    var w := WalkAll(leaves, t.subs);
    if i == |w| + 1 {
      assert Walk(leaves, t)[..i][0] == Enter(t.node);
    } else {
      ExitAfterEnterAll(leaves, t.subs, i - 1);
      assert Walk(leaves, t)[..i] == [Enter(t.node)] + w[..i - 1];
    }
  }

  lemma {:induction false} ExitAfterEnterAll(leaves: set<nat>, ts: seq<Tree>, i: nat)
    requires i < |WalkAll(leaves, ts)| && WalkAll(leaves, ts)[i].Exit?
    ensures Enter(WalkAll(leaves, ts)[i].node) in WalkAll(leaves, ts)[..i]
    decreases ts, 0
  {
    hide Walk;
    var a, b := Walk(leaves, ts[0]), WalkAll(leaves, ts[1..]);
    if i < |a| {
      ExitAfterEnter(leaves, ts[0], i);
      assert (a + b)[..i] == a[..i];
    } else {
      ExitAfterEnterAll(leaves, ts[1..], i - |a|);
      assert (a + b)[..i] == a + b[..i - |a|];
    }
  }

  lemma {:induction false} EveryNodeExited(t: Tree, m: nat)
    requires m in Nodes(t)
    ensures Exit(m) in Walk({}, t)
    decreases t, 1
  {
    if m != t.node {
      EveryNodeExitedAll(t.subs, m);
      var w :| w == WalkAll({}, t.subs);
      assert Exit(m) in [Enter(t.node)] + w + [Exit(t.node)];
    } else {
      assert Walk({}, t)[|Walk({}, t)| - 1] == Exit(m);
    }
  }

  lemma {:induction false} EveryNodeExitedAll(ts: seq<Tree>, m: nat)
    requires m in NodesAll(ts)
    ensures Exit(m) in WalkAll({}, ts)
    decreases ts, 0
  {
    hide Walk;
    if m in Nodes(ts[0]) { EveryNodeExited(ts[0], m); } else { EveryNodeExitedAll(ts[1..], m); }
  }

  // ---------------------------------------------------------------- what is checked, and what is wrong

  /** `h` has the `first_child` and `next` links of the forest `h0` in the subtree; the others may be anything. */
  ghost predicate Skeleton(h: Heap, h0: Heap, t: Tree) {
    && |h| == |h0|
    && forall m :: m in Nodes(t) && m < |h| ==> h[m].first == h0[m].first && (m != t.node ==> h[m].next == h0[m].next)
  }

  /** The nodes of `seen` have their right links to sibling and parent, those of `closed` to the last child. */
  ghost predicate Mended(g: Heap, h: Heap, h0: Heap, seen: set<nat>, closed: set<nat>) {
    && |h| == |g| == |h0|
    && forall m :: 0 <= m < |h| ==>
      h[m] == g[m].(prev := if m in seen then h0[m].prev else g[m].prev,
                    parent := if m in seen then h0[m].parent else g[m].parent,
                    last := if m in closed then h0[m].last else g[m].last)
  }

  function WrongPrev(g: Heap, h0: Heap, s: set<nat>): set<nat> {
    set m | m in s && m < |g| && m < |h0| && g[m].prev != h0[m].prev
  }

  function WrongParent(g: Heap, h0: Heap, s: set<nat>): set<nat> {
    set m | m in s && m < |g| && m < |h0| && g[m].parent != h0[m].parent
  }

  function WrongLast(g: Heap, h0: Heap, s: set<nat>): set<nat> {
    set m | m in s && m < |g| && m < |h0| && g[m].last != h0[m].last
  }

  /** How many of these links are wrong. */
  function Faults(g: Heap, h0: Heap, seen: set<nat>, closed: set<nat>): nat {
    |WrongPrev(g, h0, seen)| + |WrongParent(g, h0, seen)| + |WrongLast(g, h0, closed)|
  }

  lemma SeenMore(g: Heap, h0: Heap, seen: set<nat>, closed: set<nat>, m: nat)
    requires m !in seen && m < |g| == |h0|
    ensures Faults(g, h0, seen + {m}, closed)
         == Faults(g, h0, seen, closed) + (if g[m].prev != h0[m].prev then 1 else 0) + (if g[m].parent != h0[m].parent then 1 else 0)
  {
    var a, b := WrongPrev(g, h0, seen), WrongParent(g, h0, seen);
    assert WrongPrev(g, h0, seen + {m}) == if g[m].prev != h0[m].prev then a + {m} else a;
    assert WrongParent(g, h0, seen + {m}) == if g[m].parent != h0[m].parent then b + {m} else b;
  }

  lemma ClosedMore(g: Heap, h0: Heap, seen: set<nat>, closed: set<nat>, p: nat)
    requires p !in closed && p < |g| == |h0|
    ensures Faults(g, h0, seen, closed + {p}) == Faults(g, h0, seen, closed) + if g[p].last != h0[p].last then 1 else 0
  {
    var a := WrongLast(g, h0, closed);
    assert WrongLast(g, h0, closed + {p}) == if g[p].last != h0[p].last then a + {p} else a;
  }

  /** The links the check looks at: of every node but the root to its neighbour and parent, and of every
      parent to its last child. */
  ghost function Checked(kids: Kids, t: Tree): (r: (set<nat>, set<nat>)) {
    (Nodes(t) - {t.node}, set p | p in Nodes(t) && p < |kids| && kids[p] != [])
  }

  // ---------------------------------------------------------------- where the loop stands

  /** Entered so far, and closed so far. */
  ghost predicate Along(h0: Heap, root: nat, w: seq<Event>, pos: nat, seen: set<nat>, closed: set<nat>) {
    && pos < |w| && (forall j :: 0 <= j < |w| ==> !w[j].Done? && w[j].node < |h0|)
    && (forall m: nat :: m in seen <==> m != root && Enter(m) in w[..pos + 1])
    && forall p: nat :: p in closed <==> exists j :: 0 <= j < pos && Closes(h0, root, w[j], p)
  }

  /** The exit of a last child closes its parent. */
  ghost predicate Closes(h0: Heap, root: nat, e: Event, p: nat) {
    e.Exit? && e.node < |h0| && e.node != root && h0[e.node].next == NULL && h0[e.node].parent == p
  }

  lemma AlongStart(h0: Heap, kids: Kids, t: Tree)
    requires Forest(h0, kids) && Shape(kids, t)
    ensures Along(h0, t.node, Walk({}, t), 0, {}, {})
  {
    hide Forest, Shape;
    var w := Walk({}, t);
    forall j: nat | j < |w| ensures !w[j].Done? && w[j].node < |h0| { RollsAlong(h0, kids, {}, t, j); WalkNodes({}, t, j); }
    assert w[..1] == [Enter(t.node)];
  }

  /** One event further. */
  lemma AlongNext(h0: Heap, kids: Kids, t: Tree, pos: nat, seen: set<nat>, closed: set<nat>)
    requires Forest(h0, kids) && Shape(kids, t)
    requires Along(h0, t.node, Walk({}, t), pos, seen, closed) && pos + 1 < |Walk({}, t)|
    ensures var w := Walk({}, t);
            && w[pos].node < |h0|
            && (w[pos + 1].Enter? ==> w[pos + 1].node !in seen && w[pos + 1].node != t.node)
            && (w[pos].Exit? && h0[w[pos].node].next == NULL ==> h0[w[pos].node].parent >= 0 && h0[w[pos].node].parent !in closed)
            && Along(h0, t.node, w, pos + 1,
                     if w[pos + 1].Enter? then seen + {w[pos + 1].node} else seen,
                     if w[pos].Exit? && h0[w[pos].node].next == NULL then closed + {h0[w[pos].node].parent} else closed)
  {
    hide Forest, Shape, Walk, FullRun, Closes;
    var w, root := Walk({}, t), t.node;
    WalkIsRun(h0, kids, {}, t);
    assert w[..pos + 2] == w[..pos + 1] + [w[pos + 1]];
    if w[pos + 1].Enter? {
      if w[pos + 1] in w[..pos + 1] {
        var j: nat :| j < pos + 1 && w[j] == w[pos + 1];
        RunDistinct(h0, {}, root, w, j, pos + 1);
      }
      WalkStart(t);
      assert w[0] in w[..pos + 1];
    }
    LeavesOnce(h0, kids, t, pos, closed, seen);
  }

  lemma WalkStart(t: Tree)
    ensures Walk({}, t)[0] == Enter(t.node)
  {
  }

  /** A parent is closed once, by its last child. */
  lemma LeavesOnce(h0: Heap, kids: Kids, t: Tree, pos: nat, closed: set<nat>, seen: set<nat>)
    requires Forest(h0, kids) && Shape(kids, t)
    requires Along(h0, t.node, Walk({}, t), pos, seen, closed) && pos + 1 < |Walk({}, t)|
    ensures var w := Walk({}, t); var e := w[pos];
            && e.node < |h0|
            && (e.Exit? && h0[e.node].next == NULL ==> h0[e.node].parent >= 0 && h0[e.node].parent !in closed)
            && forall p: nat :: (exists j :: 0 <= j < pos + 1 && Closes(h0, t.node, w[j], p)) <==>
                 p in closed || (e.Exit? && h0[e.node].next == NULL && h0[e.node].parent == p)
  {
    hide Forest, Shape, Walk, FullRun;
    var w, root := Walk({}, t), t.node;
    var e := w[pos];
    WalkIsRun(h0, kids, {}, t);
    RollsAlong(h0, kids, {}, t, pos);
    RollsAlong(h0, kids, {}, t, pos + 1);
    CheckedLinks(h0, kids, e.node);
    InBounds(h0, kids, e.node);
    if e.Exit? && h0[e.node].next == NULL {
      var p := h0[e.node].parent;
      assert e.node != root && p >= 0;
      if p in closed {
        var j: nat :| j < pos && Closes(h0, root, w[j], p);
        CheckedLinks(h0, kids, w[j].node);
        RunDistinct(h0, {}, root, w, j, pos);
      }
      assert Closes(h0, root, e, p);
    }
  }

  /** At the root's exit all of the subtree has been entered and closed. */
  lemma AlongEnd(h0: Heap, kids: Kids, t: Tree, pos: nat, seen: set<nat>, closed: set<nat>)
    requires Forest(h0, kids) && Shape(kids, t)
    requires Along(h0, t.node, Walk({}, t), pos, seen, closed) && Walk({}, t)[pos] == Exit(t.node)
    ensures seen == Checked(kids, t).0 && closed == Checked(kids, t).1
  {
    hide Forest, Shape, Walk, FullRun, Nodes, Closes;
    var w := Walk({}, t);
    WalkIsRun(h0, kids, {}, t);
    RollsAlong(h0, kids, {}, t, pos);
    RollsAlong(h0, kids, {}, t, pos + 1);
    assert pos + 1 == |w| && w[..pos + 1] == w;
    RepOf(h0, kids);
    forall m: nat ensures m in seen <==> m in Nodes(t) && m != t.node {
      if m in Nodes(t) { EveryNodeEntered(kids, {}, t, m); }
      if m in seen {
        var j: nat :| j < |w| && w[j] == Enter(m);
        WalkNodes({}, t, j);
      }
    }
    forall p: nat ensures p in closed <==> p in Checked(kids, t).1 {
      if p in closed {
        var j: nat :| j < pos && Closes(h0, t.node, w[j], p);
        WalkNodes({}, t, j);
        ParentChecked(h0, kids, t, w[j], p);
      }
      if p in Checked(kids, t).1 {
        var c := LastChild(h0, kids, t, p);
        EveryNodeExited(t, c);
        var j: nat :| j < |w| && w[j] == Exit(c);
        assert Closes(h0, t.node, w[j], p);
      }
    }
  }

  lemma ParentChecked(h0: Heap, kids: Kids, t: Tree, e: Event, p: nat)
    requires Forest(h0, kids) && Shape(kids, t) && Closes(h0, t.node, e, p) && e.node in Nodes(t)
    ensures p in Checked(kids, t).1
  {
    hide Nodes, Shape, Rep;
    RepOf(h0, kids);
    ParentIn(h0, kids, t, e.node);
    DownOf(h0, kids, e.node);
  }

  lemma LastChild(h0: Heap, kids: Kids, t: Tree, p: nat) returns (c: nat)
    requires Forest(h0, kids) && Shape(kids, t) && p in Checked(kids, t).1
    ensures c in Nodes(t) && c != t.node && Closes(h0, t.node, Exit(c), p)
  {
    hide Nodes, Shape, Rep;
    RepOf(h0, kids);
    NodesInStore(kids, t, p);
    SameSizes(h0, kids);
    DownOf(h0, kids, p);
    var i := |kids[p]| - 1;
    c := kids[p][i];
    ChildLinks(h0, kids, p, i);
    ChildIn(h0, kids, t, p, c);
    if c == t.node { ParentOutside(h0, kids, t); }
  }

  lemma SameSizes(h: Heap, kids: Kids)
    requires Rep(h, kids)
    ensures |h| == |kids|
  {
  }

  // ---------------------------------------------------------------- the check

  method MendPrev(store: Store, n: nat, want: Ptr) returns (errors: nat)
    requires n < |store.heap|
    modifies store`heap
    ensures errors == if old(store.heap[n].prev) == want then 0 else 1
    ensures store.heap == old(store.heap)[n := old(store.heap[n]).(prev := want)]
  {
    errors := 0;
    if store.heap[n].prev != want {
      store.heap := SetPrev(store.heap, n, want);
      errors := 1;
    }
  }

  method MendParent(store: Store, n: nat, want: Ptr) returns (errors: nat)
    requires n < |store.heap|
    modifies store`heap
    ensures errors == if old(store.heap[n].parent) == want then 0 else 1
    ensures store.heap == old(store.heap)[n := old(store.heap[n]).(parent := want)]
  {
    errors := 0;
    if store.heap[n].parent != want {
      store.heap := store.heap[n := store.heap[n].(parent := want)];
      errors := 1;
    }
  }

  method MendLast(store: Store, n: nat, want: Ptr) returns (errors: nat)
    requires n < |store.heap|
    modifies store`heap
    ensures errors == if old(store.heap[n].last) == want then 0 else 1
    ensures store.heap == old(store.heap)[n := old(store.heap[n]).(last := want)]
  {
    errors := 0;
    if store.heap[n].last != want {
      store.heap := SetLast(store.heap, n, want);
      errors := 1;
    }
  }

  /** A node and its links to sibling and parent, counted and mended. */
  method MendUp(store: Store, n: nat, prev: Ptr, parent: Ptr) returns (errors: nat)
    requires n < |store.heap|
    modifies store`heap
    ensures errors == (if old(store.heap[n].prev) == prev then 0 else 1) + (if old(store.heap[n].parent) == parent then 0 else 1)
    ensures store.heap == old(store.heap)[n := old(store.heap[n]).(prev := prev, parent := parent)]
  {
    var prevErrors := MendPrev(store, n, prev);
    var parentErrors := MendParent(store, n, parent);
    errors := prevErrors + parentErrors;
  }

  /** The state of the check before an event. */
  ghost predicate Checking(g: Heap, h: Heap, h0: Heap, kids: Kids, t: Tree, pos: nat, seen: set<nat>, closed: set<nat>, errors: nat) {
    && Forest(h0, kids) && Shape(kids, t) && Skeleton(g, h0, t)
    && Along(h0, t.node, Walk({}, t), pos, seen, closed)
    && Mended(g, h, h0, seen, closed) && errors == Faults(g, h0, seen, closed)
  }

  /** The links of the node the check stands at. */
  lemma Standing(g: Heap, h: Heap, h0: Heap, kids: Kids, t: Tree, pos: nat, seen: set<nat>, closed: set<nat>, errors: nat)
    requires Checking(g, h, h0, kids, t, pos, seen, closed, errors)
    ensures pos < |Walk({}, t)|
    ensures var e := Walk({}, t)[pos];
            && !e.Done? && e.node < |h| == |h0| == |g| && h[e.node].first == h0[e.node].first
            && (e.node != t.node ==> h[e.node].next == h0[e.node].next && e.node in seen && h[e.node].parent == h0[e.node].parent)
            && Roll(h0, {}, t.node, e) == EventAt(Walk({}, t), pos + 1)
            && NULL <= h0[e.node].first < |h| && NULL <= h0[e.node].next < |h| && NULL <= h0[e.node].parent < |h|
    ensures pos + 1 < |Walk({}, t)| <==> Walk({}, t)[pos] != Exit(t.node)
    ensures pos + 1 < |Walk({}, t)| ==> !Walk({}, t)[pos + 1].Done?
  {
    hide Forest, Shape, Walk, Nodes, FullRun, Faults, Roll;
    var w := Walk({}, t);
    var e := w[pos];
    WalkNodes({}, t, pos);
    InBounds(h0, kids, e.node);
    RollsAlong(h0, kids, {}, t, pos);
    RollsAlong(h0, kids, {}, t, pos + 1);
    WalkEnds(h0, kids, t, pos);
    assert w[pos] in w[..pos + 1];
    if e.Exit? {
      ExitAfterEnter({}, t, pos);
      assert forall x :: x in w[..pos] ==> x in w[..pos + 1];
    }
  }

  /** The walk ends with the exit of its root, and nowhere else. */
  lemma WalkEnds(h0: Heap, kids: Kids, t: Tree, pos: nat)
    requires Forest(h0, kids) && Shape(kids, t) && pos < |Walk({}, t)|
    ensures pos + 1 < |Walk({}, t)| <==> Walk({}, t)[pos] != Exit(t.node)
  {
    WalkLast(t);
    hide Forest, Shape, Walk, Roll;
    WalkIsRun(h0, kids, {}, t);
    RunDistinctLast(h0, t.node, Walk({}, t), pos);
  }

  lemma RunDistinctLast(h0: Heap, root: nat, w: seq<Event>, pos: nat)
    requires FullRun(h0, {}, root, w) && pos < |w|
    ensures pos + 1 < |w| ==> w[pos] != w[|w| - 1]
  {
    hide Roll;
    if pos + 1 < |w| { RunDistinct(h0, {}, root, w, pos, |w| - 1); }
  }

  lemma WalkLast(t: Tree)
    ensures Walk({}, t)[|Walk({}, t)| - 1] == Exit(t.node)
  {
  }

  /** Counting and mending the links of a node that is entered. */
  lemma EnterNext(g: Heap, h: Heap, h0: Heap, kids: Kids, t: Tree, pos: nat, seen: set<nat>, closed: set<nat>, errors: nat, c: nat)
    requires Checking(g, h, h0, kids, t, pos, seen, closed, errors) && pos + 1 < |Walk({}, t)| && Walk({}, t)[pos + 1] == Enter(c)
    requires !(Walk({}, t)[pos].Exit? && Walk({}, t)[pos].node < |h0| && h0[Walk({}, t)[pos].node].next == NULL)
    ensures c < |h| == |h0| && c !in seen
    ensures var n := errors + (if h[c].prev == h0[c].prev then 0 else 1) + (if h[c].parent == h0[c].parent then 0 else 1);
            Checking(g, h[c := h[c].(prev := h0[c].prev, parent := h0[c].parent)], h0, kids, t, pos + 1, seen + {c}, closed, n)
  {
    hide Forest, Shape, Walk, Nodes, Faults, Skeleton;
    AlongNext(h0, kids, t, pos, seen, closed);
    SeenMore(g, h0, seen, closed, c);
  }

  lemma StayNext(g: Heap, h: Heap, h0: Heap, kids: Kids, t: Tree, pos: nat, seen: set<nat>, closed: set<nat>, errors: nat)
    requires Checking(g, h, h0, kids, t, pos, seen, closed, errors) && pos + 1 < |Walk({}, t)|
    requires Walk({}, t)[pos].Enter? && Walk({}, t)[pos + 1].Exit?
    ensures Checking(g, h, h0, kids, t, pos + 1, seen, closed, errors)
  {
    hide Forest, Shape, Walk, Nodes, Faults, Skeleton, Mended;
    AlongNext(h0, kids, t, pos, seen, closed);
  }

  /** Counting and mending the link of a parent that is closed. */
  lemma CloseNext(g: Heap, h: Heap, h0: Heap, kids: Kids, t: Tree, pos: nat, seen: set<nat>, closed: set<nat>, errors: nat, c: nat, p: nat)
    requires Checking(g, h, h0, kids, t, pos, seen, closed, errors) && pos + 1 < |Walk({}, t)|
    requires Walk({}, t)[pos] == Exit(c) && Walk({}, t)[pos + 1] == Exit(p) && c < |h0| && h0[c].next == NULL && h0[c].parent == p
    ensures p < |h| == |h0| && h0[p].last == c
    ensures var n := errors + if h[p].last == h0[p].last then 0 else 1;
            Checking(g, h[p := h[p].(last := h0[p].last)], h0, kids, t, pos + 1, seen, closed + {p}, n)
  {
    hide Forest, Shape, Walk, Nodes, Faults, Skeleton;
    AlongNext(h0, kids, t, pos, seen, closed);
    CheckedLinks(h0, kids, c);
    ClosedMore(g, h0, seen, closed, p);
  }

  /** `cmark_node_check`.  Whatever the links to previous siblings, parents and last children are, the
      check counts exactly the wrong ones of the subtree, and makes them right. */
  method Check(store: Store, node: nat, ghost h0: Heap, ghost kids: Kids, ghost t: Tree) returns (errors: nat)
    requires Forest(h0, kids) && Shape(kids, t) && t.node == node && Skeleton(store.heap, h0, t)
    modifies store`heap
    ensures var c := Checked(kids, t);
            errors == Faults(old(store.heap), h0, c.0, c.1) && Mended(old(store.heap), store.heap, h0, c.0, c.1)
  {
    hide Forest, Shape, Walk, Nodes, Faults, Skeleton, Mended, Along, Checked;
    ghost var g, w, pos := store.heap, Walk({}, t), 0;
    ghost var seen: set<nat>, closed: set<nat> := {}, {};
    var cur: nat, climbing := node, false;
    errors := 0;
    CheckStart(g, h0, kids, t);
    while true
      invariant Checking(g, store.heap, h0, kids, t, pos, seen, closed, errors)
      invariant pos < |w| && w[pos] == if climbing then Exit(cur) else Enter(cur)
      decreases |w| - pos
    {
      ghost var h := store.heap;
      Standing(g, h, h0, kids, t, pos, seen, closed, errors);
      CheckedLinks(h0, kids, cur);
      if !climbing && store.heap[cur].first != NULL {
        var child: nat := store.heap[cur].first;
        EnterNext(g, h, h0, kids, t, pos, seen, closed, errors, child);
        var mended := MendUp(store, child, NULL, cur);
        errors := errors + mended;
        seen := seen + {child};
        cur := child;
      } else if !climbing {
        StayNext(g, h, h0, kids, t, pos, seen, closed, errors);
        climbing := true;
      } else if cur == node {
        AlongEnd(h0, kids, t, pos, seen, closed);
        break;
      } else if store.heap[cur].next != NULL {
        var sibling: nat := store.heap[cur].next;
        EnterNext(g, h, h0, kids, t, pos, seen, closed, errors, sibling);
        var mended := MendUp(store, sibling, cur, store.heap[cur].parent);
        errors := errors + mended;
        seen := seen + {sibling};
        cur, climbing := sibling, false;
      } else {
        assert store.heap[cur].parent != NULL;
        var parent: nat := store.heap[cur].parent;
        CloseNext(g, h, h0, kids, t, pos, seen, closed, errors, cur, parent);
        var mended := MendLast(store, parent, cur);
        errors := errors + mended;
        closed := closed + {parent};
        cur := parent;
      }
      pos := pos + 1;
    }
  }

  lemma CheckStart(g: Heap, h0: Heap, kids: Kids, t: Tree)
    requires Forest(h0, kids) && Shape(kids, t) && Skeleton(g, h0, t)
    ensures Checking(g, g, h0, kids, t, 0, {}, {}, 0) && Walk({}, t)[0] == Enter(t.node)
  {
    AlongStart(h0, kids, t);
    assert WrongPrev(g, h0, {}) == {} && WrongParent(g, h0, {}) == {} && WrongLast(g, h0, {}) == {};
  }

  /** No error means that every link of the subtree agrees with the forest, and then nothing was changed. */
  lemma NoErrors(g: Heap, h: Heap, h0: Heap, kids: Kids, t: Tree)
    requires Mended(g, h, h0, Checked(kids, t).0, Checked(kids, t).1)
    ensures Faults(g, h0, Checked(kids, t).0, Checked(kids, t).1) == 0 <==> h == g
  {
    hide Nodes;
    var c := Checked(kids, t);
    var a, b, d := WrongPrev(g, h0, c.0), WrongParent(g, h0, c.0), WrongLast(g, h0, c.1);
    if a + b + d != {} {
      var m :| m in a + b + d;
      assert h[m] != g[m];
      assert |a| > 0 || |b| > 0 || |d| > 0;
    } else {
      assert a == {} && b == {} && d == {};
      forall m: nat | m < |g| ensures h[m] == g[m] {
        assert m !in a && m !in b && m !in d;
      }
    }
  }

  lemma NothingMissing(h: Heap, seen: set<nat>, closed: set<nat>, t: Tree)
    ensures Faults(h, h, seen, closed) == 0 && Skeleton(h, h, t)
    ensures forall g :: Mended(h, g, h, seen, closed) ==> g == h
  {
    assert WrongPrev(h, h, seen) == {} && WrongParent(h, h, seen) == {} && WrongLast(h, h, closed) == {};
    forall g | Mended(h, g, h, seen, closed) ensures g == h {
      forall m: nat | m < |g| ensures g[m] == h[m] { }
    }
  }

  /** Of a well-formed store, such as every operation of the tree leaves, the check finds nothing wrong. */
  method CheckForest(store: Store, node: nat) returns (errors: nat)
    requires store.Valid() && node < |store.heap|
    modifies store`heap
    ensures errors == 0 && store.heap == old(store.heap) && store.Valid()
  {
    hide Forest, Shape, Faults, Skeleton, Mended, Checked;
    ghost var h := store.heap;
    ghost var t := TreeExists(h, store.kids, node);
    ghost var c := Checked(store.kids, t);
    NothingMissing(h, c.0, c.1, t);
    errors := Check(store, node, h, store.kids, t);
  }
}
