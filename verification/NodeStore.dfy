/** The public operations of node.c, link by link, against the abstract forest. */
module NodeStore {
  import opened NodeKinds
  import opened NodeTree

  class Store {
    var heap: Heap
    const safety: bool        // cmark_enable_safety_checks
    ghost var kids: Kids

    ghost predicate Valid()
      reads this
    {
      Forest(heap, kids)
    }

    constructor (safety: bool)
      ensures Valid() && heap == [] && this.safety == safety
    {
      heap, kids := [], [];
      this.safety := safety;
      new;
      var rank: seq<nat> := [];
      assert Ranked(heap, rank);
    }

    /** `cmark_node_new`: a node that stands alone. */
    method NewNode(kind: Kind, literal: string) returns (n: nat)
      requires Valid()
      modifies this
      ensures Valid() && n == |old(heap)| && kids == old(kids) + [[]]
      ensures heap == old(heap) + [Node(kind, literal, NULL, NULL, NULL, NULL, NULL)]
    {
      n := |heap|;
      NewNodeForest(heap, kids, kind, literal);
      heap := heap + [Node(kind, literal, NULL, NULL, NULL, NULL, NULL)];
      kids := kids + [[]];
    }

    /** `S_node_unlink`. */
    method DetachLinks(x: nat)
      requires x < |heap| && NULL <= heap[x].parent < |heap|
      modifies this`heap, this`kids
      ensures heap == Bypass(old(heap), x) && kids == Removed(old(kids), old(heap[x].parent), x)
      ensures old(Valid()) ==> Loose(heap, kids, x)
    {
      if Valid() { RemovedLoose(heap, kids, x); }
      hide Rep, Loose, Removed, Acyclic;
      kids := Removed(kids, heap[x].parent, x);
      var node := heap[x];
      if node.prev != NULL {
        heap := SetNext(heap, node.prev, node.next);
      }
      if node.next != NULL {
        heap := SetPrev(heap, node.next, node.prev);
      }
      var parent := node.parent;
      if parent != NULL {
        if heap[parent].first == x {
          heap := SetFirst(heap, parent, node.next);
        }
        if heap[parent].last == x {
          heap := SetLast(heap, parent, node.prev);
        }
      }
    }

    /** `cmark_node_unlink`. */
    method Unlink(x: nat)
      requires x < |heap| && NULL <= heap[x].parent < |heap|
      modifies this`heap, this`kids
      ensures heap == Unlinked(old(heap), x) && kids == Removed(old(kids), old(heap[x].parent), x)
      ensures old(Valid()) ==> Valid()
      ensures heap[x].parent == heap[x].prev == heap[x].next == NULL
      ensures SameNodes(old(heap), heap)
    {
      if Valid() { UnlinkForest(heap, kids, x); }
      BypassSame(heap, x);
      hide Forest, Removed, Bypass, Loose;
      DetachLinks(x);
      ghost var g := heap;
      heap := SetNext(heap, x, NULL);
      heap := SetPrev(heap, x, NULL);
      heap := heap[x := heap[x].(parent := NULL)];
      assert heap == g[x := g[x].(next := NULL, prev := NULL, parent := NULL)];
    }

    /** The ancestor walk of `S_can_contain`. */
    method IsBelow(m: nat, x: nat) returns (below: bool)
      requires Valid() && m < |heap| && x < |heap|
      ensures below == Under(heap, m, x)
    {
      ghost var rank :| Ranked(heap, rank);
      var cur: Ptr := m;
      below := false;
      while cur != NULL
        invariant cur == NULL || 0 <= cur < |heap|
        invariant Under(heap, m, x) <==> cur != NULL && Under(heap, cur, x)
        decreases if cur == NULL then 0 else rank[cur] + 1
      {
        UnderStep(heap, cur, x);
        if cur == x {
          return true;
        }
        cur := heap[cur].parent;
      }
    }

    /** `S_can_contain`. */
    method MayContain(node: Ptr, child: Ptr) returns (ok: bool)
      requires Valid() && NULL <= node < |heap| && NULL <= child < |heap|
      ensures ok == Allowed(heap, safety, node, child)
    {
      if node == NULL || child == NULL {
        return false;
      }
      if safety {
        var below := IsBelow(node, child);
        if below {
          return false;
        }
      }
      ok := CanContain(heap[node].kind, heap[child].kind);
    }

    /** `cmark_node_insert_before`. */
    method InsertBefore(node: Ptr, sibling: Ptr) returns (ok: bool)
      requires Valid() && NULL <= node < |heap| && NULL <= sibling < |heap|
      modifies this`heap, this`kids
      ensures ok == (node != NULL && Allowed(old(heap), safety, old(heap[node].parent), sibling))
      ensures !ok ==> heap == old(heap) && kids == old(kids)
      ensures ok ==> heap == LinkedBefore(Bypass(old(heap), sibling), node, sibling)
      ensures ok && Fits(old(heap), node, sibling) ==> Valid() && Moved(old(heap), old(kids), old(heap[node].parent), Before(node), sibling, heap, kids)
      ensures ok && !Fits(old(heap), node, sibling) ==> !WellFormed(heap)
    {
      hide Forest, Removed, Bypass, Loose, Put, LinkedBefore, SameNodes, Under, Place, Moved, WellFormed;
      ok := false;
      if node == NULL || sibling == NULL {
        return;
      }
      InBounds(heap, kids, node);
      if heap[node].parent == NULL {
        return;
      }
      ok := MayContain(heap[node].parent, sibling);
      if ok {
        InBounds(heap, kids, sibling);
        InsertBeforeEffect(heap, kids, node, sibling);
        ghost var h, k, p := heap, kids, heap[node].parent;
        DetachLinks(sibling);
        LinkBefore(node, sibling);
        if Fits(h, node, sibling) {
          kids := Put(kids, p, Place(kids[p], node), sibling);
        }
      }
    }

    method LinkBefore(node: nat, sibling: nat)
      requires node < |heap| && sibling < |heap| && NULL <= heap[node].prev < |heap|
      modifies this`heap
      ensures heap == LinkedBefore(old(heap), node, sibling)
    {
      var oldPrev := heap[node].prev;
      if oldPrev != NULL {
        heap := SetNext(heap, oldPrev, sibling);
      }
      heap := SetPrev(heap, sibling, oldPrev);
      heap := SetNext(heap, sibling, node);
      heap := SetPrev(heap, node, sibling);
      var parent := heap[node].parent;
      heap := heap[sibling := heap[sibling].(parent := parent)];
      if oldPrev == NULL {
        heap := SetFirst(heap, parent, sibling);
      }
    }

    /** `cmark_node_insert_after`. */
    method InsertAfter(node: Ptr, sibling: Ptr) returns (ok: bool)
      requires Valid() && NULL <= node < |heap| && NULL <= sibling < |heap|
      modifies this`heap, this`kids
      ensures ok == (node != NULL && Allowed(old(heap), safety, old(heap[node].parent), sibling))
      ensures !ok ==> heap == old(heap) && kids == old(kids)
      ensures ok ==> heap == LinkedAfter(Bypass(old(heap), sibling), node, sibling)
      ensures ok && Fits(old(heap), node, sibling) ==> Valid() && Moved(old(heap), old(kids), old(heap[node].parent), After(node), sibling, heap, kids)
      ensures ok && !Fits(old(heap), node, sibling) ==> !WellFormed(heap)
    {
      hide Forest, Removed, Bypass, Loose, Put, LinkedAfter, SameNodes, Under, Place, Moved, WellFormed;
      ok := false;
      if node == NULL || sibling == NULL {
        return;
      }
      InBounds(heap, kids, node);
      if heap[node].parent == NULL {
        return;
      }
      ok := MayContain(heap[node].parent, sibling);
      if ok {
        InBounds(heap, kids, sibling);
        InsertAfterEffect(heap, kids, node, sibling);
        ghost var h, k, p := heap, kids, heap[node].parent;
        DetachLinks(sibling);
        LinkAfter(node, sibling);
        if Fits(h, node, sibling) {
          kids := Put(kids, p, Place(kids[p], node) + 1, sibling);
        }
      }
    }

    method LinkAfter(node: nat, sibling: nat)
      requires node < |heap| && sibling < |heap| && NULL <= heap[node].next < |heap|
      modifies this`heap
      ensures heap == LinkedAfter(old(heap), node, sibling)
    {
      var oldNext := heap[node].next;
      if oldNext != NULL {
        heap := SetPrev(heap, oldNext, sibling);
      }
      heap := SetNext(heap, sibling, oldNext);
      heap := SetPrev(heap, sibling, node);
      heap := SetNext(heap, node, sibling);
      var parent := heap[node].parent;
      heap := heap[sibling := heap[sibling].(parent := parent)];
      if oldNext == NULL {
        heap := SetLast(heap, parent, sibling);
      }
    }

    /** `cmark_node_replace`. */
    method Replace(oldNode: Ptr, newNode: Ptr) returns (ok: bool)
      requires Valid() && NULL <= oldNode < |heap| && NULL <= newNode < |heap|
      modifies this`heap, this`kids
      ensures ok == (oldNode != NULL && Allowed(old(heap), safety, old(heap[oldNode].parent), newNode))
      ensures !ok ==> heap == old(heap) && kids == old(kids)
      ensures ok ==> heap == Unlinked(LinkedBefore(Bypass(old(heap), newNode), oldNode, newNode), oldNode)
      ensures ok && Fits(old(heap), oldNode, newNode) ==> Valid() && Replaced(old(heap), old(kids), oldNode, newNode, heap, kids)
      ensures ok && !Fits(old(heap), oldNode, newNode) ==> !WellFormed(heap)
    {
      hide Forest, Removed, Under, WellFormed, LinkedBefore, Bypass, Unlinked, Fits;
      ok := InsertBefore(oldNode, newNode);
      if ok {
        ghost var h, k := heap, kids;
        if Fits(old(heap), oldNode, newNode) {
          StillChild(old(heap), old(kids), old(heap[oldNode].parent), oldNode, newNode, heap, kids);
        } else {
          ReplaceBreaks(old(heap), old(kids), oldNode, newNode);
        }
        ParentStays(old(heap), old(kids), oldNode, newNode);
        Unlink(oldNode);
        if Fits(old(heap), oldNode, newNode) { SameTrans(old(heap), h, heap); }
      }
    }

    /** `cmark_node_prepend_child`. */
    method PrependChild(node: Ptr, child: Ptr) returns (ok: bool)
      requires Valid() && NULL <= node < |heap| && NULL <= child < |heap|
      modifies this`heap, this`kids
      ensures ok == Allowed(old(heap), safety, node, child)
      ensures !ok ==> heap == old(heap) && kids == old(kids)
      ensures ok ==> heap == LinkedFront(Bypass(old(heap), child), node, child)
      ensures ok && !Under(old(heap), node, child) ==> Valid() && Moved(old(heap), old(kids), node, Front, child, heap, kids)
      ensures ok && Under(old(heap), node, child) ==> !WellFormed(heap)
    {
      hide Forest, Removed, Bypass, Loose, Put, LinkedFront, SameNodes, Under, Moved, WellFormed;
      ok := MayContain(node, child);
      if ok {
        InBounds(heap, kids, child);
        FrontEffect(heap, kids, node, child);
        ghost var h := heap;
        DetachLinks(child);
        LinkFront(node, child);
        if !Under(h, node, child) {
          kids := Put(kids, node, 0, child);
        }
      }
    }

    method LinkFront(node: nat, child: nat)
      requires node < |heap| && child < |heap|
      modifies this`heap
      ensures heap == LinkedFront(old(heap), node, child)
    {
      var oldFirst := heap[node].first;
      heap := SetNext(heap, child, oldFirst);
      heap := SetPrev(heap, child, NULL);
      heap := heap[child := heap[child].(parent := node)];
      heap := SetFirst(heap, node, child);
      if oldFirst != NULL {
        heap := SetPrev(heap, oldFirst, child);
      } else {
        heap := SetLast(heap, node, child);
      }
    }

    /** `cmark_node_append_child`. */
    method AppendChild(node: Ptr, child: Ptr) returns (ok: bool)
      requires Valid() && NULL <= node < |heap| && NULL <= child < |heap|
      modifies this`heap, this`kids
      ensures ok == Allowed(old(heap), safety, node, child)
      ensures !ok ==> heap == old(heap) && kids == old(kids)
      ensures ok ==> heap == LinkedBack(Bypass(old(heap), child), node, child)
      ensures ok && !Under(old(heap), node, child) ==> Valid() && Moved(old(heap), old(kids), node, Back, child, heap, kids)
      ensures ok && Under(old(heap), node, child) ==> !WellFormed(heap)
    {
      hide Forest, Removed, Bypass, Loose, Put, LinkedBack, SameNodes, Under, Moved, WellFormed;
      ok := MayContain(node, child);
      if ok {
        InBounds(heap, kids, child);
        BackEffect(heap, kids, node, child);
        ghost var h := heap;
        DetachLinks(child);
        LinkBack(node, child);
        if !Under(h, node, child) {
          kids := Put(kids, node, |kids[node]|, child);
        }
      }
    }

    method LinkBack(node: nat, child: nat)
      requires node < |heap| && child < |heap|
      modifies this`heap
      ensures heap == LinkedBack(old(heap), node, child)
    {
      var oldLast := heap[node].last;
      heap := SetNext(heap, child, NULL);
      heap := SetPrev(heap, child, oldLast);
      heap := heap[child := heap[child].(parent := node)];
      heap := SetLast(heap, node, child);
      if oldLast != NULL {
        heap := SetNext(heap, oldLast, child);
      } else {
        heap := SetFirst(heap, node, child);
      }
    }
  }

  /** Kinds and literals are as they were: only links changed. */
  ghost predicate SameNodes(h: Heap, g: Heap) {
    |h| == |g| && forall n :: 0 <= n < |h| ==> g[n].kind == h[n].kind && g[n].literal == h[n].literal
  }

  lemma NewNodeForest(h: Heap, kids: Kids, kind: Kind, literal: string)
    requires Forest(h, kids)
    ensures Forest(h + [Node(kind, literal, NULL, NULL, NULL, NULL, NULL)], kids + [[]])
  {
    var g, k := h + [Node(kind, literal, NULL, NULL, NULL, NULL, NULL)], kids + [[]];
    forall n | 0 <= n < |g| ensures Down(g, k, n) && Up(g, k, n) {
      if n < |h| {
        DownOf(h, kids, n);
        InRange(h, kids[n]);
        assert forall i :: 0 <= i < |kids[n]| ==> kids[n][i] in kids[n];
      }
    }
    var rank :| Ranked(h, rank);
    assert Ranked(g, rank + [0]);
  }

  /** The link writes of `cmark_node_unlink`. */
  function Unlinked(h: Heap, x: nat): Heap
    requires x < |h|
  {
    var g := Bypass(h, x);
    g[x := g[x].(next := NULL, prev := NULL, parent := NULL)]
  }

  lemma UnlinkForest(h: Heap, kids: Kids, x: nat)
    requires Forest(h, kids) && x < |h|
    ensures Forest(Unlinked(h, x), Removed(kids, h[x].parent, x))
  {
    hide Rep, Loose, Removed, Acyclic;
    RemovedLoose(h, kids, x);
    var g, k := Bypass(h, x), Removed(kids, h[x].parent, x);
    ClearRep(g, k, x);
    ClearAcyclic(h, Unlinked(h, x), x);
  }

  /** Where a moved node goes among the children of its new parent. */
  datatype Spot = Before(node: nat) | After(node: nat) | Front | Back

  function SpotIndex(s: seq<nat>, spot: Spot): (i: nat)
    ensures i <= |s|
  {
    match spot
    case Before(n) => Place(s, n)
    case After(n) => if n in s then Place(s, n) + 1 else |s|
    case Front => 0
    case Back => |s|
  }

  /** The effect of a move: `x`, with all below it, leaves its place and stands at `spot` under `p`. */
  ghost predicate Moved(h: Heap, kids: Kids, p: Ptr, spot: Spot, x: nat, h': Heap, kids': Kids)
    requires x < |h|
  {
    var k := Removed(kids, h[x].parent, x);
    && 0 <= p < |k| && (spot.Before? || spot.After? ==> spot.node in k[p])
    && kids' == Put(k, p, SpotIndex(k[p], spot), x) && SameNodes(h, h')
  }

  /** The link writes of `cmark_node_insert_before` after the unlink. */
  function LinkedBefore(h: Heap, node: nat, x: nat): Heap
    requires node < |h| && x < |h|
  {
    var oldPrev := h[node].prev;
    var h1 := if oldPrev != NULL then SetNext(h, oldPrev, x) else h;
    var h2 := SetPrev(SetNext(SetPrev(h1, x, oldPrev), x, node), node, x);
    var parent := h2[node].parent;
    var h3 := h2[x := h2[x].(parent := parent)];
    if oldPrev == NULL then SetFirst(h3, parent, x) else h3
  }

  lemma LinkedBeforeIsAttach(h: Heap, p: nat, node: nat, x: nat)
    requires node < |h| && x < |h| && p < |h| && node != x && p != x
    requires h[node].parent == p && h[node].prev != x && NULL <= h[node].prev < |h|
    ensures LinkedBefore(h, node, x) == Attach(h, p, h[node].prev, node, x)
  {
  }

  lemma BypassSame(h: Heap, x: nat)
    requires x < |h|
    ensures SameNodes(h, Bypass(h, x))
  {
    hide Bypass;
  }

  lemma AttachSame(h: Heap, p: nat, a: Ptr, b: Ptr, x: nat)
    requires p < |h| && x < |h| && a != x && b != x && p != x
    ensures SameNodes(h, Attach(h, p, a, b, x))
  {
    hide Attach;
  }

  lemma SameTrans(h: Heap, g: Heap, f: Heap)
    requires SameNodes(h, g) && SameNodes(g, f)
    ensures SameNodes(h, f)
  {
  }

  /** All five moves: unlink `x`, then put it between the neighbours of its new place. */
  lemma MoveWhole(h: Heap, kids: Kids, p: nat, spot: Spot, x: nat)
    requires Forest(h, kids) && Movable(h, p, x)
    requires |h| == |kids| && (spot.Before? || spot.After? ==> spot.node in Removed(kids, h[x].parent, x)[p])
    ensures var k := Removed(kids, h[x].parent, x); var g := Bypass(h, x);
            var i := SpotIndex(k[p], spot); var a, b := At(k[p], i - 1), At(k[p], i);
            && p != x && a != x && b != x && Loose(g, k, x) && Down(g, k, p)
            && NULL <= a < |h| && NULL <= b < |h|
            && Forest(Attach(g, p, a, b, x), Put(k, p, i, x))
            && Moved(h, kids, p, spot, x, Attach(g, p, a, b, x), Put(k, p, i, x))
  {
    hide Forest, Removed, Bypass, Loose, Put, Rep, Acyclic, SameNodes, Attach, Under;
    RepOf(h, kids);
    var k, g := Removed(kids, h[x].parent, x), Bypass(h, x);
    var i: int := SpotIndex(k[p], spot);
    MoveForest(h, kids, p, i, x);
    RemovedLoose(h, kids, x);
    LooseAt(g, k, x, p);
    NeighboursOf(g, k, p, i);
    BypassSame(h, x);
    AttachSame(g, p, At(k[p], i - 1), At(k[p], i), x);
    SameTrans(h, g, Attach(g, p, At(k[p], i - 1), At(k[p], i), x));
  }

  lemma MoveBefore(h: Heap, kids: Kids, node: nat, x: nat)
    requires Forest(h, kids) && node < |h| && x < |h| && node != x && h[node].parent != NULL && Movable(h, h[node].parent, x)
    ensures var p := h[node].parent; var k := Removed(kids, h[x].parent, x); var g := LinkedBefore(Bypass(h, x), node, x);
            && 0 <= p < |k| && node in k[p] && NULL <= Bypass(h, x)[node].prev < |h|
            && Forest(g, Put(k, p, Place(k[p], node), x)) && Moved(h, kids, p, Before(node), x, g, Put(k, p, Place(k[p], node), x))
  {
    hide Forest, Removed, Bypass, Loose, Put, LinkedBefore, Rep, Acyclic, Attach, SameNodes, Under;
    RepOf(h, kids);
    StaysPut(h, kids, node, x);
    var p, k, g := h[node].parent, Removed(kids, h[x].parent, x), Bypass(h, x);
    MoveWhole(h, kids, p, Before(node), x);
    ChildLinks(g, k, p, Place(k[p], node));
    LinkedBeforeIsAttach(g, p, node, x);
  }

  /** `cmark_node_insert_after`. */
  function LinkedAfter(h: Heap, node: nat, x: nat): Heap
    requires node < |h| && x < |h|
  {
    var oldNext := h[node].next;
    var h1 := if oldNext != NULL then SetPrev(h, oldNext, x) else h;
    var h2 := SetNext(SetPrev(SetNext(h1, x, oldNext), x, node), node, x);
    var parent := h2[node].parent;
    var h3 := h2[x := h2[x].(parent := parent)];
    if oldNext == NULL then SetLast(h3, parent, x) else h3
  }

  lemma LinkedAfterIsAttach(h: Heap, p: nat, node: nat, x: nat)
    requires node < |h| && x < |h| && p < |h| && node != x && p != x
    requires h[node].parent == p && h[node].next != x && NULL <= h[node].next < |h|
    ensures LinkedAfter(h, node, x) == Attach(h, p, node, h[node].next, x)
  {
  }

  lemma MoveAfter(h: Heap, kids: Kids, node: nat, x: nat)
    requires Forest(h, kids) && node < |h| && x < |h| && node != x && h[node].parent != NULL && Movable(h, h[node].parent, x)
    ensures var p := h[node].parent; var k := Removed(kids, h[x].parent, x); var g := LinkedAfter(Bypass(h, x), node, x);
            && 0 <= p < |k| && node in k[p] && NULL <= Bypass(h, x)[node].next < |h|
            && Forest(g, Put(k, p, Place(k[p], node) + 1, x)) && Moved(h, kids, p, After(node), x, g, Put(k, p, Place(k[p], node) + 1, x))
  {
    hide Forest, Removed, Bypass, Loose, Put, LinkedAfter, Rep, Acyclic, Attach, SameNodes, Under;
    RepOf(h, kids);
    StaysPut(h, kids, node, x);
    var p, k, g := h[node].parent, Removed(kids, h[x].parent, x), Bypass(h, x);
    MoveWhole(h, kids, p, After(node), x);
    ChildLinks(g, k, p, Place(k[p], node));
    LinkedAfterIsAttach(g, p, node, x);
  }

  /** `cmark_node_prepend_child`. */
  function LinkedFront(h: Heap, p: nat, x: nat): Heap
    requires p < |h| && x < |h|
  {
    var oldFirst := h[p].first;
    var h1 := SetPrev(SetNext(h, x, oldFirst), x, NULL);
    var h2 := h1[x := h1[x].(parent := p)];
    var h3 := SetFirst(h2, p, x);
    if oldFirst != NULL then SetPrev(h3, oldFirst, x) else SetLast(h3, p, x)
  }

  lemma LinkedFrontIsAttach(h: Heap, p: nat, x: nat)
    requires x < |h| && p < |h| && p != x && h[p].first != x && NULL <= h[p].first < |h|
    ensures LinkedFront(h, p, x) == Attach(h, p, NULL, h[p].first, x)
  {
  }

  lemma MoveFront(h: Heap, kids: Kids, p: nat, x: nat)
    requires Forest(h, kids) && Movable(h, p, x)
    ensures var k := Removed(kids, h[x].parent, x); var g := LinkedFront(Bypass(h, x), p, x);
            p < |k| && Forest(g, Put(k, p, 0, x)) && Moved(h, kids, p, Front, x, g, Put(k, p, 0, x))
  {
    hide Forest, Removed, Bypass, Loose, Put, LinkedFront, Rep, Acyclic, Attach, SameNodes, Under, Chain;
    RepOf(h, kids);
    DownOf(h, kids, p);
    MoveWhole(h, kids, p, Front, x);
    LinkedFrontIsAttach(Bypass(h, x), p, x);
  }

  /** `cmark_node_append_child`. */
  function LinkedBack(h: Heap, p: nat, x: nat): Heap
    requires p < |h| && x < |h|
  {
    var oldLast := h[p].last;
    var h1 := SetPrev(SetNext(h, x, NULL), x, oldLast);
    var h2 := h1[x := h1[x].(parent := p)];
    var h3 := SetLast(h2, p, x);
    if oldLast != NULL then SetNext(h3, oldLast, x) else SetFirst(h3, p, x)
  }

  lemma LinkedBackIsAttach(h: Heap, p: nat, x: nat)
    requires x < |h| && p < |h| && p != x && h[p].last != x && NULL <= h[p].last < |h|
    ensures LinkedBack(h, p, x) == Attach(h, p, h[p].last, NULL, x)
  {
  }

  lemma MoveBack(h: Heap, kids: Kids, p: nat, x: nat)
    requires Forest(h, kids) && Movable(h, p, x)
    ensures var k := Removed(kids, h[x].parent, x); var g := LinkedBack(Bypass(h, x), p, x);
            p < |k| && Forest(g, Put(k, p, |k[p]|, x)) && Moved(h, kids, p, Back, x, g, Put(k, p, |k[p]|, x))
  {
    hide Forest, Removed, Bypass, Loose, Put, LinkedBack, Rep, Acyclic, Attach, SameNodes, Under, Chain;
    RepOf(h, kids);
    DownOf(h, kids, p);
    MoveWhole(h, kids, p, Back, x);
    LinkedBackIsAttach(Bypass(h, x), p, x);
  }

  lemma StillChild(h: Heap, kids: Kids, p: Ptr, node: nat, x: nat, h': Heap, kids': Kids)
    requires x < |h| && Moved(h, kids, p, Before(node), x, h', kids') && Forest(h', kids')
    ensures node < |h'| && h'[node].parent == p
  {
    var k := Removed(kids, h[x].parent, x);
    InsertedElements(k[p], Place(k[p], node), x);
    DownOf(h', kids', p);
    InRange(h', kids'[p]);
    assert node in kids'[p];
  }

  /** The effect of `cmark_node_replace`: the new node stands where the old one stood. */
  ghost predicate Replaced(h: Heap, kids: Kids, x: nat, y: nat, h': Heap, kids': Kids)
    requires x < |h| && y < |h|
  {
    var k, p := Removed(kids, h[y].parent, y), h[x].parent;
    && 0 <= p < |k| && x in k[p] && SameNodes(h, h')
    && kids' == Removed(Put(k, p, Place(k[p], x), y), p, x)
    && h'[x].parent == h'[x].prev == h'[x].next == NULL
  }

  lemma RepOf(h: Heap, kids: Kids)
    requires Forest(h, kids)
    ensures Rep(h, kids) && Acyclic(h)
  {
  }

  /** Does `S_can_contain` allow the move? */
  ghost predicate Allowed(h: Heap, safety: bool, p: Ptr, x: Ptr) {
    0 <= p < |h| && 0 <= x < |h| && CanContain(h[p].kind, h[x].kind) && (safety ==> !Under(h, p, x))
  }

  // ---------------------------------------------------------------- moves that leave no tree

  /** The links are those of some forest. */
  ghost predicate WellFormed(h: Heap) {
    exists kids :: Forest(h, kids)
  }

  /** `x` may stand beside `node`: it is another node, and not above it. */
  ghost predicate Fits(h: Heap, node: nat, x: nat) {
    node < |h| && node != x && h[node].parent >= 0 && !Under(h, h[node].parent, x)
  }

  /** A node linked to itself belongs to no forest. */
  lemma OwnNeighbour(g: Heap, x: nat)
    requires x < |g| && g[x].prev == x
    ensures !WellFormed(g)
  {
    if kids :| Forest(g, kids) {
      DownOf(g, kids, x);
      var p := g[x].parent;
      DownOf(g, kids, p);
      ChildLinks(g, kids, p, Place(kids[p], x));
      ChainIsDistinct(g, kids[p]);
    }
  }

  /** Parents still rank below what they are above, as long as the climb does not pass `y`. */
  lemma {:induction false} ClimbLowers(h: Heap, below: seq<nat>, g: Heap, rank: seq<nat>, m: nat, x: nat, y: nat)
    requires Ranked(h, below) && Ranked(g, rank) && |g| == |h| && m < |h| && Under(h, m, x) && !Under(h, m, y)
    requires forall n :: 0 <= n < |h| && n != x && n != y ==> g[n].parent == h[n].parent
    ensures x < |h| && rank[x] <= rank[m]
    decreases below[m]
  {
    hide Under;
    UnderStep(h, m, x);
    UnderStep(h, m, y);
    if m != x { ClimbLowers(h, below, g, rank, h[m].parent, x, y); }
  }

  /** A node moved under itself, or under one below it, is its own ancestor. */
  lemma ParentLoop(h: Heap, g: Heap, p: nat, x: nat, y: nat)
    requires Acyclic(h) && |g| == |h| && p < |h| && x < |h| && Under(h, p, x) && !Under(h, p, y) && g[x].parent == p
    requires forall n :: 0 <= n < |h| && n != x && n != y ==> g[n].parent == h[n].parent
    ensures !WellFormed(g)
  {
    hide Rep, Under;
    if kids :| Forest(g, kids) {
      var below :| Ranked(h, below);
      var rank :| Ranked(g, rank);
      ClimbLowers(h, below, g, rank, p, x, y);
    }
  }

  lemma NotUnderOutside(h: Heap, m: nat, y: nat)
    requires |h| <= y
    ensures !Under(h, m, y)
  {
  }

  /** No parent is below its child. */
  lemma ParentNotUnder(h: Heap, n: nat)
    requires Acyclic(h) && n < |h| && 0 <= h[n].parent < |h|
    ensures !Under(h, h[n].parent, n)
  {
    hide Under;
    if Under(h, h[n].parent, n) {
      var rank :| Ranked(h, rank);
      NotUnderOutside(h, h[n].parent, |h|);
      ClimbLowers(h, rank, h, rank, h[n].parent, n, |h|);
    }
  }

  /** The parents after a move of `x` under `p`. */
  ghost predicate Reparented(h: Heap, g: Heap, x: nat, p: Ptr) {
    |g| == |h| && x < |h| && g[x].parent == p && forall n :: 0 <= n < |h| && n != x ==> g[n].parent == h[n].parent
  }

  ghost predicate SameParents(h: Heap, g: Heap) {
    |g| == |h| && forall n :: 0 <= n < |h| ==> g[n].parent == h[n].parent
  }

  lemma SetsKeepParents(h: Heap, n: Ptr, v: Ptr)
    ensures SameParents(h, SetNext(h, n, v)) && SameParents(h, SetPrev(h, n, v))
    ensures SameParents(h, SetFirst(h, n, v)) && SameParents(h, SetLast(h, n, v))
  {
  }

  lemma BeforeParents(h: Heap, node: nat, x: nat)
    requires node < |h| && x < |h|
    ensures Reparented(h, LinkedBefore(Bypass(h, x), node, x), x, h[node].parent)
    ensures node == x ==> LinkedBefore(Bypass(h, x), node, x)[x].prev == x
  {
    hide Bypass, SetNext, SetPrev, SetFirst;
    var g := Bypass(h, x);
    var a, p := g[node].prev, g[node].parent;
    var h1 := if a != NULL then SetNext(g, a, x) else g;
    SetsKeepParents(g, a, x);
    SetsKeepParents(h1, x, a);
    SetsKeepParents(SetPrev(h1, x, a), x, node);
    SetsKeepParents(SetNext(SetPrev(h1, x, a), x, node), node, x);
    var h2 := SetPrev(SetNext(SetPrev(h1, x, a), x, node), node, x);
    SetsKeepParents(h2[x := h2[x].(parent := p)], p, x);
    LastWrite(SetNext(SetPrev(h1, x, a), x, node), node, x, p);
  }

  /** What the last writes of the insertions leave in `node`. */
  lemma LastWrite(h: Heap, node: nat, x: nat, p: Ptr)
    requires node < |h| && x < |h|
    ensures var g := SetPrev(h, node, x); var f := g[x := g[x].(parent := p)];
            f[node].prev == x && SetFirst(f, p, x)[node].prev == x
  {
  }

  lemma AfterParents(h: Heap, node: nat, x: nat)
    requires node < |h| && x < |h|
    ensures Reparented(h, LinkedAfter(Bypass(h, x), node, x), x, h[node].parent)
    ensures node == x ==> LinkedAfter(Bypass(h, x), node, x)[x].prev == x
  {
    hide Bypass, SetNext, SetPrev, SetLast;
    var g := Bypass(h, x);
    var b, p := g[node].next, g[node].parent;
    var h1 := if b != NULL then SetPrev(g, b, x) else g;
    SetsKeepParents(g, b, x);
    SetsKeepParents(h1, x, b);
    SetsKeepParents(SetNext(h1, x, b), x, node);
    SetsKeepParents(SetPrev(SetNext(h1, x, b), x, node), node, x);
    var h2 := SetNext(SetPrev(SetNext(h1, x, b), x, node), node, x);
    SetsKeepParents(h2[x := h2[x].(parent := p)], p, x);
    LastWriteNext(SetNext(h1, x, b), node, x, p);
  }

  lemma LastWriteNext(h: Heap, node: nat, x: nat, p: Ptr)
    requires node < |h| && x < |h|
    ensures var g := SetNext(SetPrev(h, x, node), node, x); var f := g[x := g[x].(parent := p)];
            f[x].prev == node && SetLast(f, p, x)[x].prev == node
  {
  }

  lemma FrontParents(h: Heap, p: nat, x: nat)
    requires p < |h| && x < |h|
    ensures Reparented(h, LinkedFront(Bypass(h, x), p, x), x, p)
  {
    hide Bypass;
  }

  lemma BackParents(h: Heap, p: nat, x: nat)
    requires p < |h| && x < |h|
    ensures Reparented(h, LinkedBack(Bypass(h, x), p, x), x, p)
  {
    hide Bypass;
  }

  /** Inserted before or after itself, a node becomes its own neighbour on both sides, and the tree is lost. */
  lemma BesideItself(h: Heap, kids: Kids, x: nat)
    requires Forest(h, kids) && x < |h| && h[x].parent != NULL
    ensures var g := LinkedBefore(Bypass(h, x), x, x); |g| == |h| && g[x].prev == g[x].next == x && !WellFormed(g)
    ensures var g := LinkedAfter(Bypass(h, x), x, x); |g| == |h| && g[x].prev == g[x].next == x && !WellFormed(g)
  {
    hide Forest, LinkedBefore, LinkedAfter, Bypass, WellFormed;
    SelfFacts(h, kids, x);
    SelfLinked(h, x);
    SelfLinkedAfter(h, x);
    OwnNeighbour(LinkedBefore(Bypass(h, x), x, x), x);
    OwnNeighbour(LinkedAfter(Bypass(h, x), x, x), x);
  }

  lemma SelfLinkedAfter(h: Heap, x: nat)
    requires x < |h|
    ensures var g := LinkedAfter(Bypass(h, x), x, x); |g| == |h| && g[x].prev == g[x].next == x
  {
    hide Bypass;
  }

  lemma InsertBeforeEffect(h: Heap, kids: Kids, node: nat, x: nat)
    requires Forest(h, kids) && node < |h| && x < |h| && h[node].parent != NULL
    ensures var p := h[node].parent; var k := Removed(kids, h[x].parent, x); var g := LinkedBefore(Bypass(h, x), node, x);
            && 0 <= p < |k| && NULL <= Bypass(h, x)[node].prev < |h|
            && (Fits(h, node, x) ==> Forest(g, Put(k, p, Place(k[p], node), x)) && Moved(h, kids, p, Before(node), x, g, Put(k, p, Place(k[p], node), x)))
            && (!Fits(h, node, x) ==> !WellFormed(g))
  {
    hide Forest, Removed, Put, LinkedBefore, LinkedAfter, LinkedFront, LinkedBack, Moved, WellFormed, Under;
    RepOf(h, kids);
    InBounds(h, kids, node);
    InBounds(h, kids, x);
    var p := h[node].parent;
    BeforeParents(h, node, x);
    if Fits(h, node, x) {
      MoveBefore(h, kids, node, x);
    } else if node == x {
      OwnNeighbour(LinkedBefore(Bypass(h, x), node, x), x);
    } else {
      NotUnderOutside(h, p, |h|);
      ParentLoop(h, LinkedBefore(Bypass(h, x), node, x), p, x, |h|);
    }
  }

  lemma InsertAfterEffect(h: Heap, kids: Kids, node: nat, x: nat)
    requires Forest(h, kids) && node < |h| && x < |h| && h[node].parent != NULL
    ensures var p := h[node].parent; var k := Removed(kids, h[x].parent, x); var g := LinkedAfter(Bypass(h, x), node, x);
            && 0 <= p < |k| && NULL <= Bypass(h, x)[node].next < |h|
            && (Fits(h, node, x) ==> node in k[p] && Forest(g, Put(k, p, Place(k[p], node) + 1, x)) && Moved(h, kids, p, After(node), x, g, Put(k, p, Place(k[p], node) + 1, x)))
            && (!Fits(h, node, x) ==> !WellFormed(g))
  {
    hide Forest, Removed, Put, LinkedBefore, LinkedAfter, LinkedFront, LinkedBack, Moved, WellFormed, Under;
    RepOf(h, kids);
    InBounds(h, kids, node);
    InBounds(h, kids, x);
    var p := h[node].parent;
    AfterParents(h, node, x);
    if Fits(h, node, x) {
      MoveAfter(h, kids, node, x);
    } else if node == x {
      OwnNeighbour(LinkedAfter(Bypass(h, x), node, x), x);
    } else {
      NotUnderOutside(h, p, |h|);
      ParentLoop(h, LinkedAfter(Bypass(h, x), node, x), p, x, |h|);
    }
  }

  lemma FrontEffect(h: Heap, kids: Kids, p: nat, x: nat)
    requires Forest(h, kids) && p < |h| && x < |h|
    ensures var k := Removed(kids, h[x].parent, x); var g := LinkedFront(Bypass(h, x), p, x);
            && p < |k|
            && (!Under(h, p, x) ==> Forest(g, Put(k, p, 0, x)) && Moved(h, kids, p, Front, x, g, Put(k, p, 0, x)))
            && (Under(h, p, x) ==> !WellFormed(g))
  {
    hide Rep, Removed, Put, Bypass, LinkedBefore, LinkedAfter, LinkedFront, LinkedBack, Moved, WellFormed, Under, Acyclic;
    RepOf(h, kids);
    RepSizes(h, kids);
    if Under(h, p, x) {
      FrontParents(h, p, x);
      NotUnderOutside(h, p, |h|);
      ParentLoop(h, LinkedFront(Bypass(h, x), p, x), p, x, |h|);
    } else {
      MoveFront(h, kids, p, x);
    }
  }

  lemma BackEffect(h: Heap, kids: Kids, p: nat, x: nat)
    requires Forest(h, kids) && p < |h| && x < |h|
    ensures var k := Removed(kids, h[x].parent, x); var g := LinkedBack(Bypass(h, x), p, x);
            && p < |k|
            && (!Under(h, p, x) ==> Forest(g, Put(k, p, |k[p]|, x)) && Moved(h, kids, p, Back, x, g, Put(k, p, |k[p]|, x)))
            && (Under(h, p, x) ==> !WellFormed(g))
  {
    hide Rep, Removed, Put, Bypass, LinkedBefore, LinkedAfter, LinkedFront, LinkedBack, Moved, WellFormed, Under, Acyclic;
    RepOf(h, kids);
    RepSizes(h, kids);
    if Under(h, p, x) {
      BackParents(h, p, x);
      NotUnderOutside(h, p, |h|);
      ParentLoop(h, LinkedBack(Bypass(h, x), p, x), p, x, |h|);
    } else {
      MoveBack(h, kids, p, x);
    }
  }

  lemma RepSizes(h: Heap, kids: Kids)
    requires Rep(h, kids)
    ensures |h| == |kids|
  {
  }

  /** Where the old node's parent link stands when it is unlinked. */
  lemma ParentStays(h: Heap, kids: Kids, node: nat, x: nat)
    requires Forest(h, kids) && node < |h| && x < |h|
    ensures var g := LinkedBefore(Bypass(h, x), node, x); |g| == |h| && NULL <= g[node].parent == h[node].parent < |h|
  {
    hide Forest;
    InBounds(h, kids, node);
    BeforeParents(h, node, x);
  }

  /** Replacing a node by itself, or by one above it. */
  lemma ReplaceBreaks(h: Heap, kids: Kids, node: nat, x: nat)
    requires Forest(h, kids) && node < |h| && x < |h| && h[node].parent >= 0 && !Fits(h, node, x)
    ensures var g := LinkedBefore(Bypass(h, x), node, x); |g| == |h| && !WellFormed(Unlinked(g, node))
  {
    hide Rep, LinkedBefore, LinkedAfter, LinkedFront, LinkedBack, Bypass, WellFormed, Under, Acyclic;
    InBounds(h, kids, node);
    var p := h[node].parent;
    BeforeParents(h, node, x);
    if node == x {
      ReplacedByItself(h, kids, x);
    } else {
      ParentNotUnder(h, node);
      UnlinkedParents(LinkedBefore(Bypass(h, x), node, x), node);
      ParentLoop(h, Unlinked(LinkedBefore(Bypass(h, x), node, x), node), p, x, node);
    }
  }

  lemma UnlinkedParents(h: Heap, x: nat)
    requires x < |h|
    ensures |Unlinked(h, x)| == |h| && forall n :: 0 <= n < |h| && n != x ==> Unlinked(h, x)[n].parent == h[n].parent
  {
  }

  /** Then the parent, or the sibling before, still points at it. */
  lemma ReplacedByItself(h: Heap, kids: Kids, x: nat)
    requires Forest(h, kids) && x < |h| && h[x].parent >= 0
    ensures var g := LinkedBefore(Bypass(h, x), x, x); |g| == |h| && !WellFormed(Unlinked(g, x))
  {
    hide Forest, WellFormed, Rep, Acyclic;
    SelfLinks(h, kids, x);
    StillPointedAt(Unlinked(LinkedBefore(Bypass(h, x), x, x), x), h[x].parent, h[x].prev, x);
  }

  lemma SelfLinks(h: Heap, kids: Kids, x: nat)
    requires Forest(h, kids) && x < |h| && h[x].parent >= 0
    ensures var g := LinkedBefore(Bypass(h, x), x, x); |g| == |h|
    ensures var f, p, a := Unlinked(LinkedBefore(Bypass(h, x), x, x), x), h[x].parent, h[x].prev;
            && |f| == |h| && p < |f| && NULL <= a < |f| && f[x].parent == NULL
            && if a == NULL then f[p].first == x else f[a].next == x && f[a].parent == p
  {
    SelfFacts(h, kids, x);
    SelfLinked(h, x);
    SelfUnlinked(LinkedBefore(Bypass(h, x), x, x), h[x].parent, h[x].prev, x);
    hide Forest, LinkedBefore, Bypass, Unlinked;
  }

  lemma SelfFacts(h: Heap, kids: Kids, x: nat)
    requires Forest(h, kids) && x < |h| && h[x].parent != NULL
    ensures var p, a := h[x].parent, h[x].prev;
            && 0 <= p < |h| && p != x && NULL <= a < |h| && a != x && (a != NULL ==> h[a].parent == p)
  {
    InBounds(h, kids, x);
    var p := h[x].parent;
    DownOf(h, kids, x);
    DownOf(h, kids, p);
    ChildLinks(h, kids, p, Place(kids[p], x));
    ChainIsDistinct(h, kids[p]);
    ParentNotUnder(h, x);
    UnderSelf(h, x);
    hide Rep, Forest, Acyclic, Under, Chain;
    if h[x].prev >= 0 {
      ChildLinks(h, kids, p, Place(kids[p], x) - 1);
    }
  }

  /** Of the links written when a node is put before itself. */
  lemma SelfLinked(h: Heap, x: nat)
    requires x < |h| && 0 <= h[x].parent < |h| && h[x].parent != x && NULL <= h[x].prev < |h| && h[x].prev != x
    ensures var g, p, a := LinkedBefore(Bypass(h, x), x, x), h[x].parent, h[x].prev;
            && |g| == |h| && g[x].prev == g[x].next == x && g[x].parent == p
            && if a == NULL then g[p].first == x else g[a].next == x && g[a].parent == h[a].parent
  {
    hide Bypass;
  }

  lemma SelfUnlinked(g: Heap, p: nat, a: Ptr, x: nat)
    requires x < |g| && p < |g| && NULL <= a < |g| && p != x && a != x && g[x].prev == g[x].next == x && g[x].parent == p
    requires if a == NULL then g[p].first == x else g[a].next == x
    ensures var f := Unlinked(g, x);
            && |f| == |g| && f[x].parent == NULL
            && if a == NULL then f[p].first == x else f[a].next == x && f[a].parent == g[a].parent
  {
    hide Bypass;
  }

  lemma StillPointedAt(f: Heap, p: nat, a: Ptr, x: nat)
    requires p < |f| && NULL <= a < |f| && x < |f| && f[x].parent == NULL
    requires if a == NULL then f[p].first == x else f[a].next == x && f[a].parent == p
    ensures !WellFormed(f)
  {
    if kids :| Forest(f, kids) {
      DownOf(f, kids, p);
      if a >= 0 {
        DownOf(f, kids, a);
        ChildLinks(f, kids, p, Place(kids[p], a));
      }
    }
  }

  /** Unlinking one node leaves another among its parent's children. */
  lemma StaysPut(h: Heap, kids: Kids, node: nat, x: nat)
    requires Rep(h, kids) && node < |h| && x < |h| && node != x && h[node].parent != NULL
    ensures 0 <= h[node].parent < |h| == |kids| && node in Removed(kids, h[x].parent, x)[h[node].parent]
  {
    DownOf(h, kids, node);
    DownOf(h, kids, x);
    var p := h[x].parent;
    if 0 <= p < |kids| && x in kids[p] {
      DownOf(h, kids, p);
      ChainIsDistinct(h, kids[p]);
      WithoutAt(kids[p], Place(kids[p], x));
    }
  }

  lemma BypassKeeps(h: Heap, x: nat, n: nat)
    requires x < |h| && n < |h|
    ensures Bypass(h, x)[n].parent == h[n].parent && Bypass(h, x)[n].kind == h[n].kind
  {
  }

  /** Links hold places in the store, or `NULL`. */
  lemma InBounds(h: Heap, kids: Kids, x: nat)
    requires Forest(h, kids) && x < |h|
    ensures NULL <= h[x].next < |h| && NULL <= h[x].prev < |h| && NULL <= h[x].parent < |h|
    ensures NULL <= h[x].first < |h| && NULL <= h[x].last < |h|
  {
    DownOf(h, kids, x);
    if kids[x] != [] { assert kids[x][0] < |h| && kids[x][|kids[x]| - 1] < |h|; }
    if h[x].parent != NULL {
      var p := h[x].parent;
      DownOf(h, kids, p);
      ChildLinks(h, kids, p, Place(kids[p], x));
    }
  }
}
