/** `S_free_nodes`: freeing a subtree by splicing each node's children into the list being walked. */
module NodeFree {
  import opened Lists
  import opened NodeTree
  import opened NodeStore
  import opened NodeWalk

  /** A node, then its children's subtrees in order. */
  function Preorder(t: Tree): (s: seq<nat>)
    decreases t, 1
  {
    [t.node] + PreorderAll(t.subs)
  }

  function PreorderAll(ts: seq<Tree>): (s: seq<nat>)
    decreases ts, 0
  {
    if ts == [] then [] else Preorder(ts[0]) + PreorderAll(ts[1..])
  }

  lemma {:induction false} PreorderConcat(a: seq<Tree>, b: seq<Tree>)
    ensures PreorderAll(a + b) == PreorderAll(a) + PreorderAll(b)
    ensures NodesAll(a + b) == NodesAll(a) + NodesAll(b)
  {
    if a == [] {
      assert a + b == b;
    } else {
      assert (a + b)[1..] == a[1..] + b && (a + b)[0] == a[0];
      PreorderConcat(a[1..], b);
    }
  }

  /** Preorder lists the nodes of the subtree. */
  lemma {:induction false} PreorderNodes(t: Tree, m: nat)
    ensures m in Preorder(t) <==> m in Nodes(t)
    decreases t, 1
  {
    PreorderAllNodes(t.subs, m);
  }

  lemma {:induction false} PreorderAllNodes(ts: seq<Tree>, m: nat)
    ensures m in PreorderAll(ts) <==> m in NodesAll(ts)
    decreases ts, 0
  {
    if ts != [] {
      PreorderNodes(ts[0], m);
      PreorderAllNodes(ts[1..], m);
    }
  }

  lemma DistinctConcat(a: seq<nat>, b: seq<nat>)
    requires Distinct(a) && Distinct(b) && forall m :: m in a ==> m !in b
    ensures Distinct(a + b)
  {
    forall i, j | 0 <= i < j < |a + b| ensures (a + b)[i] != (a + b)[j] {
      if i < |a| <= j { assert a[i] in a && b[j - |a|] in b; }
    }
  }

  /** It lists each of them once. */
  lemma {:induction false} PreorderDistinct(h: Heap, kids: Kids, t: Tree)
    requires Forest(h, kids) && Shape(kids, t)
    ensures Distinct(Preorder(t))
    decreases t, 1
  {
    hide Distinct, Forest;
    SiblingsDistinct(h, kids, t, 0);
    assert t.subs[0..] == t.subs;
    RootOnce(h, kids, t);
    PreorderAllNodes(t.subs, t.node);
    OneDistinct(t.node);
    DistinctConcat([t.node], PreorderAll(t.subs));
  }

  lemma OneDistinct(n: nat)
    ensures Distinct([n]) && Distinct<nat>([])
  {
  }

  lemma {:induction false} SiblingsDistinct(h: Heap, kids: Kids, t: Tree, i: nat)
    requires Forest(h, kids) && Shape(kids, t) && i <= |t.subs|
    ensures Distinct(PreorderAll(t.subs[i..]))
    decreases t, 0, |t.subs| - i
  {
    hide Distinct, Forest;
    OneDistinct(0);
    if i < |t.subs| {
      assert t.subs[i..][0] == t.subs[i] && t.subs[i..][1..] == t.subs[i + 1..];
      PreorderDistinct(h, kids, t.subs[i]);
      SiblingsDistinct(h, kids, t, i + 1);
      ApartFromRest(h, kids, t, i);
      forall m | m in Preorder(t.subs[i]) ensures m !in PreorderAll(t.subs[i + 1..]) {
        PreorderNodes(t.subs[i], m);
        PreorderAllNodes(t.subs[i + 1..], m);
      }
      DistinctConcat(Preorder(t.subs[i]), PreorderAll(t.subs[i + 1..]));
    }
  }

  // ---------------------------------------------------------------- the work list

  function NodeAt(ts: seq<Tree>, i: nat): Ptr { if i < |ts| then ts[i].node else NULL }

  /** The list runs through the roots of `ts` by `next`. */
  ghost predicate Linked(h: Heap, ts: seq<Tree>) {
    forall i :: 0 <= i < |ts| ==> ts[i].node < |h| && h[ts[i].node].next == NodeAt(ts, i + 1)
  }

  ghost predicate Separate(ts: seq<Tree>) {
    forall i, j :: 0 <= i < j < |ts| ==> Nodes(ts[i]) !! Nodes(ts[j])
  }

  /** Below its root a pending tree is as it was. */
  ghost predicate Untouched(h: Heap, h0: Heap, t: Tree) {
    && |h| == |h0|
    && (forall m :: m in Nodes(t) && m < |h| ==> h[m].first == h0[m].first && h[m].last == h0[m].last)
    && forall m :: m in NodesAll(t.subs) && m < |h| ==> h[m].next == h0[m].next
  }

  ghost predicate Pending(h: Heap, h0: Heap, kids: Kids, ts: seq<Tree>) {
    && |h| == |h0| && Linked(h, ts) && Separate(ts)
    && forall i :: 0 <= i < |ts| ==> Shape(kids, ts[i]) && Untouched(h, h0, ts[i])
  }

  /** The heap after one round: children spliced in, the node gone. */
  function Spliced(h: Heap, n: nat, junk: nat -> Node): (g: Heap)
    requires n < |h|
    ensures |g| == |h| && g[n] == junk(n)
    ensures forall m :: 0 <= m < |h| && m != n ==> g[m] == h[m].(next := if m == h[n].last then h[n].next else h[m].next)
  {
    var last := h[n].last;
    (if 0 <= last < |h| then h[last := h[last].(next := h[n].next)] else h)[n := junk(n)]
  }

  lemma SubNodes(t: Tree, i: nat)
    requires i < |t.subs|
    ensures t.subs[i].node in Nodes(t.subs[i]) && Nodes(t.subs[i]) <= NodesAll(t.subs) <= Nodes(t)
  {
    NodesOf(t.subs, i);
  }

  /** A tree apart from the node being freed stays as it was. */
  lemma OthersUntouched(h: Heap, h0: Heap, kids: Kids, t: Tree, s: Tree, junk: nat -> Node)
    requires Rep(h0, kids) && Shape(kids, t) && Untouched(h, h0, t) && Nodes(t) !! Nodes(s) && Untouched(h, h0, s)
    ensures t.node < |h| && Untouched(Spliced(h, t.node, junk), h0, s)
  {
    hide Rep, Shape, Nodes, NodesAll, Chain, Spliced;
    SubSubs(t);
    SubSubs(s);
    OwnShape(h0, kids, t);
    DownOf(h0, kids, t.node);
    if t.subs != [] {
      SubShape(kids, t, |t.subs| - 1);
      SubNodes(t, |t.subs| - 1);
    }
  }

  lemma OwnShape(h: Heap, kids: Kids, t: Tree)
    requires Rep(h, kids) && Shape(kids, t)
    ensures t.node < |kids| == |h| && |t.subs| == |kids[t.node]|
  {
  }

  /** So do the children's trees below their roots. */
  lemma SubUntouched(h: Heap, h0: Heap, kids: Kids, t: Tree, i: nat, junk: nat -> Node)
    requires Forest(h0, kids) && Shape(kids, t) && Untouched(h, h0, t) && i < |t.subs|
    ensures t.node < |h| && Untouched(Spliced(h, t.node, junk), h0, t.subs[i])
  {
    hide Forest, Rep, Shape, Nodes, NodesAll, Chain, Spliced;
    RepOf(h0, kids);
    var s, last := t.subs[i], |t.subs| - 1;
    SubShape(kids, t, i);
    SubShape(kids, t, last);
    DownOf(h0, kids, t.node);
    SubNodes(t, i);
    RootOnce(h0, kids, t);
    RootOnce(h0, kids, s);
    SubNodes(t, last);
    SubSubs(s);
    SubSubs(t);
    if i < last {
      SubsSeparate(h0, kids, t, i, last);
    }
    assert h0[t.node].last == t.subs[last].node && t.subs[last].node !in NodesAll(s.subs);
  }

  lemma SubSubs(t: Tree)
    ensures NodesAll(t.subs) <= Nodes(t) && t.node in Nodes(t)
  {
  }

  lemma SubsSeparate(h0: Heap, kids: Kids, t: Tree, i: nat, j: nat)
    requires Forest(h0, kids) && Shape(kids, t) && i < j < |t.subs|
    ensures Nodes(t.subs[i]) !! Nodes(t.subs[j])
  {
    var rank :| Ranked(h0, rank);
    forall m | m in Nodes(t.subs[i]) ensures m !in Nodes(t.subs[j]) { Apart(h0, kids, rank, t, i, j, m); }
  }

  lemma SplicedSeparate(h0: Heap, kids: Kids, t: Tree, rest: seq<Tree>)
    requires Forest(h0, kids) && Shape(kids, t) && Separate([t] + rest)
    ensures Separate(t.subs + rest) && Separate(rest) && forall i :: 0 <= i < |rest| ==> Nodes(t) !! Nodes(rest[i])
  {
    hide Forest, Shape, Nodes, NodesAll;
    var ts, us := [t] + rest, t.subs + rest;
    assert ts[0] == t;
    assert forall i :: 0 <= i < |rest| ==> rest[i] == ts[i + 1];
    forall i: nat, j: nat | i < j < |us| ensures Nodes(us[i]) !! Nodes(us[j]) {
      if j < |t.subs| {
        SubsSeparate(h0, kids, t, i, j);
      } else {
        assert us[j] == rest[j - |t.subs|] == ts[j - |t.subs| + 1];
        if i < |t.subs| {
          SubNodes(t, i);
          assert ts[0] == t;
        } else {
          assert us[i] == rest[i - |t.subs|] == ts[i - |t.subs| + 1];
        }
      }
    }
  }

  /** The head of the work list and what follows it. */
  lemma PendingParts(h: Heap, h0: Heap, kids: Kids, t: Tree, rest: seq<Tree>)
    requires Forest(h0, kids) && Pending(h, h0, kids, [t] + rest)
    ensures t.node < |h| == |h0| == |kids| && h[t.node].next == NodeAt(rest, 0) && Linked(h, rest)
    ensures Shape(kids, t) && Untouched(h, h0, t) && Separate([t] + rest)
    ensures forall i :: 0 <= i < |rest| ==> Shape(kids, rest[i]) && Untouched(h, h0, rest[i])
  {
    var ts := [t] + rest;
    RepOf(h0, kids);
    hide Untouched, Separate, Forest;
    assert ts[0] == t && Shape(kids, ts[0]);
    OwnShape(h0, kids, t);
    hide Rep, Shape;
    forall i: nat | i < |rest|
      ensures rest[i].node < |h| && h[rest[i].node].next == NodeAt(rest, i + 1) && Shape(kids, rest[i]) && Untouched(h, h0, rest[i])
    {
      assert rest[i] == ts[i + 1];
    }
  }

  /** After the splice the list runs through the children and then through the rest. */
  lemma SplicedLinked(h: Heap, h0: Heap, kids: Kids, t: Tree, rest: seq<Tree>, junk: nat -> Node)
    requires Forest(h0, kids) && Pending(h, h0, kids, [t] + rest)
    ensures t.node < |h| && Linked(Spliced(h, t.node, junk), t.subs + rest)
  {
    PendingParts(h, h0, kids, t, rest);
    hide Forest, Rep, Shape, Spliced, Untouched, Separate, Nodes, NodesAll, Pending;
    var us, g := t.subs + rest, Spliced(h, t.node, junk);
    forall i: nat | i < |us| ensures us[i].node < |g| && g[us[i].node].next == NodeAt(us, i + 1) {
      if i < |t.subs| {
        SplicedChild(h, h0, kids, t, i, junk);
        assert us[i] == t.subs[i];
        assert NodeAt(us, i + 1) == if i + 1 < |t.subs| then t.subs[i + 1].node else NodeAt(rest, 0);
      } else {
        var j := i - |t.subs|;
        SplicedOther(h, h0, kids, t, rest, j, junk);
        assert us[i] == rest[j] && NodeAt(us, i + 1) == NodeAt(rest, j + 1);
      }
    }
  }

  lemma SplicedOther(h: Heap, h0: Heap, kids: Kids, t: Tree, rest: seq<Tree>, j: nat, junk: nat -> Node)
    requires Forest(h0, kids) && Pending(h, h0, kids, [t] + rest) && j < |rest|
    ensures t.node < |h| && rest[j].node < |h| && Spliced(h, t.node, junk)[rest[j].node].next == h[rest[j].node].next
  {
    PendingParts(h, h0, kids, t, rest);
    SplicedSeparate(h0, kids, t, rest);
    SplicedNext(h, h0, kids, t, rest);
    SubSubs(t);
    SubSubs(rest[j]);
    hide Forest, Rep, Shape, Spliced, Untouched, Separate, Nodes, NodesAll, Pending;
    assert Nodes(t) !! Nodes(rest[j]);
  }

  lemma SplicedChild(h: Heap, h0: Heap, kids: Kids, t: Tree, i: nat, junk: nat -> Node)
    requires Forest(h0, kids) && Shape(kids, t) && Untouched(h, h0, t) && i < |t.subs|
    ensures t.node < |h| && t.subs[i].node < |h|
    ensures Spliced(h, t.node, junk)[t.subs[i].node].next == if i + 1 < |t.subs| then t.subs[i + 1].node else h[t.node].next
  {
    hide Forest;
    RepOf(h0, kids);
    DownOf(h0, kids, t.node);
    RootOnce(h0, kids, t);
    SubNodes(t, i);
    SubNodes(t, |t.subs| - 1);
    ChildLinks(h0, kids, t.node, i);
    ChainIsDistinct(h0, kids[t.node]);
  }

  lemma PendingFrom(h: Heap, h0: Heap, kids: Kids, ts: seq<Tree>)
    requires |h| == |h0| && Linked(h, ts) && Separate(ts)
    requires forall i: nat :: i < |ts| ==> Shape(kids, ts[i]) && Untouched(h, h0, ts[i])
    ensures Pending(h, h0, kids, ts)
  {
    hide Linked, Separate, Shape, Untouched;
  }

  lemma SplicedPending(h: Heap, h0: Heap, kids: Kids, t: Tree, rest: seq<Tree>, junk: nat -> Node)
    requires Forest(h0, kids) && Pending(h, h0, kids, [t] + rest)
    ensures t.node < |h| && Pending(Spliced(h, t.node, junk), h0, kids, t.subs + rest)
  {
    hide Forest, Rep, Untouched, Linked, Separate, Spliced, Shape, Nodes, NodesAll, Pending;
    RepOf(h0, kids);
    PendingParts(h, h0, kids, t, rest);
    SplicedLinked(h, h0, kids, t, rest, junk);
    SplicedSeparate(h0, kids, t, rest);
    var us, g := t.subs + rest, Spliced(h, t.node, junk);
    forall i: nat | i < |us| ensures Shape(kids, us[i]) && Untouched(g, h0, us[i]) {
      if i < |t.subs| {
        SubUntouched(h, h0, kids, t, i, junk);
        SubShape(kids, t, i);
        assert us[i] == t.subs[i];
      } else {
        assert us[i] == rest[i - |t.subs|];
        OthersUntouched(h, h0, kids, t, rest[i - |t.subs|], junk);
      }
    }
    PendingFrom(g, h0, kids, us);
  }

  /** The next pointer after one round. */
  lemma SplicedNext(h: Heap, h0: Heap, kids: Kids, t: Tree, rest: seq<Tree>)
    requires Forest(h0, kids) && Pending(h, h0, kids, [t] + rest)
    ensures t.node < |h0| == |h| && (h[t.node].last == NULL <==> t.subs == []) && (t.subs != [] ==> h[t.node].first == t.subs[0].node)
    ensures t.subs != [] ==> 0 <= h[t.node].last < |h| && h[t.node].last != t.node && h[t.node].last in Nodes(t)
    ensures h[t.node].next == NodeAt(rest, 0)
  {
    PendingParts(h, h0, kids, t, rest);
    RepOf(h0, kids);
    OwnShape(h0, kids, t);
    RootOnce(h0, kids, t);
    SubSubs(t);
    DownOf(h0, kids, t.node);
    if t.subs != [] {
      SubShape(kids, t, 0);
      SubShape(kids, t, |t.subs| - 1);
      SubNodes(t, |t.subs| - 1);
    }
    hide Pending, Shape, Forest, Rep, Nodes, NodesAll;
  }

  /** One round of `S_free_nodes`: splice in the children, step on, let the node go. */
  method FreeOne(store: Store, e: nat, junk: nat -> Node) returns (next: Ptr)
    requires e < |store.heap| && NULL <= store.heap[e].last < |store.heap| && store.heap[e].last != e
    modifies store`heap
    ensures store.heap == Spliced(old(store.heap), e, junk)
    ensures next == if old(store.heap[e].last) != NULL then old(store.heap[e].first) else old(store.heap[e].next)
  {
    if store.heap[e].last != NULL {
      store.heap := SetNext(store.heap, store.heap[e].last, store.heap[e].next);
      store.heap := SetNext(store.heap, e, store.heap[e].first);
    }
    next := store.heap[e].next;
    store.heap := store.heap[e := junk(e)];
  }

  /** Exactly the nodes of `gone` hold junk. */
  ghost predicate Freed(h: Heap, g: Heap, gone: set<nat>, junk: nat -> Node, todo: set<nat>) {
    |g| == |h| && forall m :: 0 <= m < |h| && m !in todo ==> g[m] == if m in gone then junk(m) else h[m]
  }

  lemma FreedStep(h: Heap, g: Heap, gone: set<nat>, junk: nat -> Node, n: nat, before: set<nat>, after: set<nat>)
    requires Freed(h, g, gone, junk, before) && n < |g| && before == {n} + after && before <= gone
    requires g[n].last == NULL || g[n].last in before
    requires g[n].last != n
    ensures Freed(h, Spliced(g, n, junk), gone, junk, after)
  {
  }

  /** `S_free_nodes`.  What the memory of a freed node holds is up to `junk`. */
  method FreeNodes(store: Store, first: Ptr, junk: nat -> Node, ghost h0: Heap, ghost kids: Kids, ghost ts: seq<Tree>) returns (freed: seq<nat>)
    requires Forest(h0, kids) && Pending(store.heap, h0, kids, ts) && first == NodeAt(ts, 0)
    modifies store`heap
    ensures freed == PreorderAll(ts) && Freed(old(store.heap), store.heap, NodesAll(ts), junk, {})
  {
    hide Pending, Nodes, NodesAll, PreorderAll, Preorder, Forest, Freed, Spliced;
    var e := first;
    freed := [];
    ghost var todo := ts;
    StartFreed(store.heap, ts, junk);
    while e != NULL
      invariant Pending(store.heap, h0, kids, todo) && e == NodeAt(todo, 0)
      invariant freed + PreorderAll(todo) == PreorderAll(ts) && NodesAll(todo) <= NodesAll(ts)
      invariant Freed(old(store.heap), store.heap, NodesAll(ts), junk, NodesAll(todo))
      decreases |PreorderAll(todo)|
    {
      ghost var t, rest := todo[0], todo[1..];
      assert todo == [t] + rest;
      FreeStep(freed, t, rest);
      SplicedNext(store.heap, h0, kids, t, rest);
      SplicedPending(store.heap, h0, kids, t, rest, junk);
      FreedStep(old(store.heap), store.heap, NodesAll(ts), junk, e, NodesAll(todo), NodesAll(t.subs + rest));
      freed := freed + [e];
      e := FreeOne(store, e, junk);
      todo := t.subs + rest;
    }
    AllFreed(todo);
  }

  lemma StartFreed(h: Heap, ts: seq<Tree>, junk: nat -> Node)
    ensures Freed(h, h, NodesAll(ts), junk, NodesAll(ts))
  {
  }

  lemma AllFreed(todo: seq<Tree>)
    requires NodeAt(todo, 0) == NULL
    ensures todo == [] && PreorderAll(todo) == [] && NodesAll(todo) == {}
  {
  }

  lemma Regroup(a: seq<nat>, n: nat, b: seq<nat>)
    ensures a + [n] + b == a + ([n] + b)
  {
  }

  lemma FreeStep(freed: seq<nat>, t: Tree, rest: seq<Tree>)
    ensures freed + [t.node] + PreorderAll(t.subs + rest) == freed + PreorderAll([t] + rest)
    ensures |PreorderAll(t.subs + rest)| < |PreorderAll([t] + rest)|
    ensures NodesAll([t] + rest) == {t.node} + NodesAll(t.subs + rest) && Nodes(t) <= NodesAll([t] + rest)
    ensures forall m :: m in Nodes(t) && m != t.node ==> m in NodesAll(t.subs + rest)
  {
    PreorderConcat(t.subs, rest);
    assert ([t] + rest)[1..] == rest && ([t] + rest)[0] == t;
    Regroup(freed, t.node, PreorderAll(t.subs + rest));
  }

  // ---------------------------------------------------------------- cmark_node_free

  predicate Alone(n: Node) {
    n.next == n.prev == n.parent == n.first == n.last == NULL
  }

  /** The abstract forest when nothing hangs below the nodes of `gone` any more. */
  ghost function Emptied(kids: Kids, gone: set<nat>): (k: Kids)
    ensures |k| == |kids| && forall n :: 0 <= n < |kids| ==> k[n] == if n in gone then [] else kids[n]
  {
    seq(|kids|, n requires 0 <= n < |kids| => if n in gone then [] else kids[n])
  }

  lemma {:induction false} ShapeSame(kids: Kids, k: Kids, t: Tree)
    requires Shape(kids, t) && |k| == |kids| && forall n :: n in Nodes(t) && n < |kids| ==> k[n] == kids[n]
    ensures Shape(k, t)
    decreases t
  {
    forall i | 0 <= i < |t.subs| ensures Shape(k, t.subs[i]) {
      SubNodes(t, i);
      ShapeSame(kids, k, t.subs[i]);
    }
  }

  /** The parent a subtree is taken from lies outside it. */
  lemma ParentOutside(h: Heap, kids: Kids, t: Tree)
    requires Forest(h, kids) && Shape(kids, t) && t.node < |h| && h[t.node].parent >= 0
    ensures h[t.node].parent !in Nodes(t)
  {
    var rank :| Ranked(h, rank);
    if h[t.node].parent in Nodes(t) { RankIn(h, kids, rank, t, h[t.node].parent); }
  }

  lemma {:induction false} ChildIn(h: Heap, kids: Kids, t: Tree, p: nat, c: nat)
    requires Shape(kids, t) && p in Nodes(t) && p < |kids| && c in kids[p]
    ensures c in Nodes(t)
    decreases t
  {
    if p == t.node {
      var i :| 0 <= i < |kids[p]| && kids[p][i] == c;
      SubNodes(t, i);
    } else {
      var i := InForest(t.subs, p);
      ChildIn(h, kids, t.subs[i], p, c);
      SubNodes(t, i);
    }
  }

  /** The nodes left of a forest when a whole tree of it is gone are a forest. */
  lemma BuriedForest(h0: Heap, kids: Kids, t: Tree, g: Heap)
    requires Forest(h0, kids) && Shape(kids, t) && h0[t.node].parent == NULL && |g| == |h0|
    requires forall m :: 0 <= m < |g| ==> if m in Nodes(t) then Alone(g[m]) else g[m] == h0[m]
    ensures Forest(g, Emptied(kids, Nodes(t)))
  {
    hide Nodes, NodesAll, Chain, Shape;
    var k := Emptied(kids, Nodes(t));
    forall n: nat | n < |g| ensures Down(g, k, n) && Up(g, k, n) {
      DownOf(h0, kids, n);
      if n in Nodes(t) {
        NoChain(g);
      } else {
        Unburied(h0, kids, t, n);
        ChainSame(h0, g, kids[n]);
      }
    }
    var rank :| Ranked(h0, rank);
    assert Ranked(g, rank);
  }

  lemma NoChain(g: Heap)
    ensures Chain(g, [])
  {
  }

  lemma Unburied(h0: Heap, kids: Kids, t: Tree, n: nat)
    requires Forest(h0, kids) && Shape(kids, t) && h0[t.node].parent == NULL && n < |h0| && n !in Nodes(t)
    ensures forall c :: c in kids[n] ==> c < |h0| && c !in Nodes(t)
    ensures h0[n].parent >= 0 ==> h0[n].parent !in Nodes(t)
  {
    hide Nodes, NodesAll, Shape;
    DownOf(h0, kids, n);
    InRange(h0, kids[n]);
    forall c | c in kids[n] ensures c !in Nodes(t) {
      if c in Nodes(t) { ParentIn(h0, kids, t, c); }
    }
    if h0[n].parent >= 0 && h0[n].parent in Nodes(t) { ChildIn(h0, kids, t, h0[n].parent, n); }
  }

  /** `cmark_node_free`: the subtree goes, each node once and in preorder; the rest is as after an unlink. */
  method FreeNode(store: Store, x: nat, junk: nat -> Node) returns (freed: seq<nat>, ghost t: Tree)
    requires store.Valid() && x < |store.heap|
    modifies store`heap, store`kids
    ensures t.node == x && Shape(old(store.kids), t) && freed == Preorder(t) && Distinct(freed)
    ensures Freed(Bypass(old(store.heap), x), store.heap, Nodes(t), junk, {})
    ensures store.kids == Emptied(Removed(old(store.kids), old(store.heap[x].parent), x), Nodes(t))
    ensures (forall n :: Alone(junk(n))) ==> store.Valid()
  {
    t := TreeExists(store.heap, store.kids, x);
    UnlinkForest(store.heap, store.kids, x);
    PreorderDistinct(store.heap, store.kids, t);
    StillShaped(store.heap, store.kids, t);
    hide Forest, Removed, Bypass, Loose, Nodes, NodesAll, PreorderAll, Preorder, Pending, Freed, Shape, Distinct;
    store.DetachLinks(x);
    ghost var h1, k1 := store.heap, store.kids;
    ghost var h0 := h1[x := h1[x].(next := NULL, prev := NULL, parent := NULL)];
    store.heap := SetNext(store.heap, x, NULL);
    StartPending(h1, h0, k1, t);
    freed := FreeNodes(store, x, junk, h0, k1, [t]);
    OnlyTree(t);
    FreedBypass(h1, store.heap, t, junk);
    store.kids := Emptied(k1, Nodes(t));
    if forall n :: Alone(junk(n)) {
      FreedForest(h1, h0, k1, t, store.heap, junk);
    }
  }

  lemma StillShaped(h: Heap, kids: Kids, t: Tree)
    requires Forest(h, kids) && Shape(kids, t)
    ensures t.node < |h| && Shape(Removed(kids, h[t.node].parent, t.node), t)
  {
    RepOf(h, kids);
    hide Rep, Forest;
    DownOf(h, kids, t.node);
    if h[t.node].parent >= 0 { ParentOutside(h, kids, t); }
    ShapeSame(kids, Removed(kids, h[t.node].parent, t.node), t);
  }

  lemma StartPending(h1: Heap, h0: Heap, kids: Kids, t: Tree)
    requires Shape(kids, t) && t.node < |h1| && h0 == h1[t.node := h1[t.node].(next := NULL, prev := NULL, parent := NULL)]
    ensures Pending(SetNext(h1, t.node, NULL), h0, kids, [t]) && NodeAt([t], 0) == t.node
  {
  }

  lemma OnlyTree(t: Tree)
    ensures NodesAll([t]) == Nodes(t) && PreorderAll([t]) == Preorder(t)
  {
    assert [t][1..] == [];
  }

  lemma FreedBypass(h1: Heap, g: Heap, t: Tree, junk: nat -> Node)
    requires t.node < |h1| && Freed(SetNext(h1, t.node, NULL), g, Nodes(t), junk, {})
    ensures Freed(h1, g, Nodes(t), junk, {})
  {
  }

  lemma FreedForest(h1: Heap, h0: Heap, kids: Kids, t: Tree, g: Heap, junk: nat -> Node)
    requires t.node < |h1| && Freed(h1, g, Nodes(t), junk, {}) && (forall n :: Alone(junk(n))) && Shape(kids, t)
    requires h0 == h1[t.node := h1[t.node].(next := NULL, prev := NULL, parent := NULL)] && Forest(h0, kids)
    ensures Forest(g, Emptied(kids, Nodes(t)))
  {
    SubSubs(t);
    BuriedForest(h0, kids, t, g);
  }
}
