/** The pointer tree of node.c.  Nodes are records in a store, a pointer is a place in the store or
    `NULL`, and every assignment to a link is a store update.  `Kids` is the abstract forest. */
module NodeTree {
  import opened Lists
  import opened NodeKinds

  type Ptr = int

  const NULL: Ptr := -1

  datatype Node = Node(kind: Kind, literal: string, next: Ptr, prev: Ptr, parent: Ptr, first: Ptr, last: Ptr)

  type Heap = seq<Node>

  /** The children of every node, in order. */
  type Kids = seq<seq<nat>>

  function FirstOf(s: seq<nat>): Ptr { if s == [] then NULL else s[0] }

  function LastOf(s: seq<nat>): Ptr { if s == [] then NULL else s[|s| - 1] }

  /** The element before or after place `i`, or `NULL`. */
  function At(s: seq<nat>, i: int): Ptr { if 0 <= i < |s| then s[i] else NULL }

  // ---------------------------------------------------------------- links that agree

  /** The sibling links spell out `s`. */
  ghost predicate Chain(h: Heap, s: seq<nat>) {
    && (forall i :: 0 <= i < |s| ==> s[i] < |h|)
    && (s != [] ==> h[s[0]].prev == NULL && h[s[|s| - 1]].next == NULL)
    && (forall i {:trigger h[s[i]].prev} :: 1 <= i < |s| ==> h[s[i]].prev == s[i - 1])
    && (forall i {:trigger h[s[i]].next} :: 0 <= i < |s| - 1 ==> h[s[i]].next == s[i + 1])
  }

  /** `n`'s links to its children, and theirs to it, are right. */
  ghost predicate Down(h: Heap, kids: Kids, n: nat)
    requires n < |h| == |kids|
  {
    && Chain(h, kids[n]) && (forall c :: c in kids[n] ==> h[c].parent == n)
    && h[n].first == FirstOf(kids[n]) && h[n].last == LastOf(kids[n])
  }

  /** `n` is among its parent's children, or stands alone. */
  ghost predicate Up(h: Heap, kids: Kids, n: nat)
    requires n < |h| == |kids|
  {
    if h[n].parent == NULL then h[n].prev == NULL && h[n].next == NULL
    else 0 <= h[n].parent < |h| && n in kids[h[n].parent]
  }

  /** All links agree with the forest `kids`. */
  ghost predicate Rep(h: Heap, kids: Kids) {
    |h| == |kids| && forall n :: 0 <= n < |h| ==> Down(h, kids, n) && Up(h, kids, n)
  }

  /** They do but for `x`, which is no child of any node and whose own upward links are stale. */
  ghost predicate Loose(h: Heap, kids: Kids, x: nat) {
    && x < |h| == |kids|
    && (forall n :: 0 <= n < |h| ==> Down(h, kids, n) && x !in kids[n])
    && forall n :: 0 <= n < |h| && n != x ==> Up(h, kids, n)
  }

  lemma {:induction false} ChainDistinct(h: Heap, s: seq<nat>, i: nat, j: nat)
    requires Chain(h, s) && i < j < |s|
    ensures s[i] != s[j]
  {
    if i > 0 {
      ChainDistinct(h, s, i - 1, j - 1);
      assert h[s[i]].prev == s[i - 1] && h[s[j]].prev == s[j - 1];
    } else {
      assert h[s[j]].prev == s[j - 1];
    }
  }

  lemma ChainIsDistinct(h: Heap, s: seq<nat>)
    requires Chain(h, s)
    ensures Distinct(s)
  {
    forall i, j | 0 <= i < j < |s| ensures s[i] != s[j] { ChainDistinct(h, s, i, j); }
  }

  /** The links of the `i`-th child of `p`. */
  lemma ChildLinks(h: Heap, kids: Kids, p: nat, i: nat)
    requires |h| == |kids| && p < |h| && Down(h, kids, p) && i < |kids[p]|
    ensures var x := kids[p][i];
            && x < |h| && h[x].parent == p
            && h[x].prev == At(kids[p], i - 1) && h[x].next == At(kids[p], i + 1)
            && (h[p].first == x <==> i == 0) && (h[p].last == x <==> i + 1 == |kids[p]|)
  {
    ChainIsDistinct(h, kids[p]);
    assert kids[p][i] in kids[p];
  }

  // ---------------------------------------------------------------- unlink

  function SetNext(h: Heap, n: Ptr, v: Ptr): Heap { if 0 <= n < |h| then h[n := h[n].(next := v)] else h }

  function SetPrev(h: Heap, n: Ptr, v: Ptr): Heap { if 0 <= n < |h| then h[n := h[n].(prev := v)] else h }

  function SetFirst(h: Heap, n: Ptr, v: Ptr): Heap { if 0 <= n < |h| then h[n := h[n].(first := v)] else h }

  function SetLast(h: Heap, n: Ptr, v: Ptr): Heap { if 0 <= n < |h| then h[n := h[n].(last := v)] else h }

  /** `S_node_unlink`: the links past `x`; its own stay. */
  function Bypass(h: Heap, x: nat): (r: Heap)
    requires x < |h|
    ensures |r| == |h|
    ensures var p, a, b := h[x].parent, h[x].prev, h[x].next;
            forall n :: 0 <= n < |h| ==> r[n] == h[n].(
              next := if n == a then b else h[n].next,
              prev := if n == b then a else h[n].prev,
              first := if n == p && h[n].first == x then b else h[n].first,
              last := if n == p && h[n].last == x then a else h[n].last)
  {
    var p, a, b := h[x].parent, h[x].prev, h[x].next;
    var h1 := SetNext(h, a, b);
    var h2 := SetPrev(h1, b, a);
    var h3 := if 0 <= p < |h| && h2[p].first == x then SetFirst(h2, p, b) else h2;
    if 0 <= p < |h| && h3[p].last == x then SetLast(h3, p, a) else h3
  }

  function Without(s: seq<nat>, i: nat): seq<nat>
    requires i < |s|
  {
    s[..i] + s[i + 1..]
  }

  lemma WithoutAt(s: seq<nat>, i: nat)
    requires i < |s| && Distinct(s)
    ensures var t := Without(s, i);
            && |t| == |s| - 1 && s[i] !in t && (forall c :: c in t ==> c in s) && (forall c :: c in s && c != s[i] ==> c in t)
            && forall k :: 0 <= k < |t| ==> t[k] == s[if k < i then k else k + 1]
  {
    var t := Without(s, i);
    forall c | c in s && c != s[i] ensures c in t {
      var k :| 0 <= k < |s| && s[k] == c;
      assert t[if k < i then k else k - 1] == c;
    }
  }

  /** A chain whose links are not written stays one. */
  lemma ChainSame(h: Heap, g: Heap, s: seq<nat>)
    requires Chain(h, s) && |g| == |h|
    requires forall c :: c in s ==> c < |h| && g[c].next == h[c].next && g[c].prev == h[c].prev
    ensures Chain(g, s)
  {
    assert forall i :: 0 <= i < |s| ==> s[i] in s;
  }

  lemma InRange(h: Heap, s: seq<nat>)
    requires Chain(h, s)
    ensures forall c :: c in s ==> c < |h|
  {
  }

  lemma BypassOther(h: Heap, kids: Kids, p: nat, i: nat, n: nat)
    requires Rep(h, kids) && p < |h| && n < |h| && n != p && i < |kids[p]|
    ensures var x := kids[p][i]; x < |h| && Down(Bypass(h, x), kids, n) && x !in kids[n]
  {
    hide Rep, Bypass, Chain;
    DownOf(h, kids, p);
    DownOf(h, kids, n);
    ChildLinks(h, kids, p, i);
    var x := kids[p][i];
    assert h[x].prev != NULL ==> h[x].prev in kids[p];
    assert h[x].next != NULL ==> h[x].next in kids[p];
    InRange(h, kids[n]);
    ChainSame(h, Bypass(h, x), kids[n]);
  }

  lemma ApartFrom(s: seq<nat>, i: nat)
    requires Distinct(s) && i < |s|
    ensures forall j :: 0 <= j < |s| && j != i ==> s[j] != s[i]
  {
  }

  /** The links of one child after a sibling is bypassed. */
  lemma BypassChild(h: Heap, kids: Kids, p: nat, i: nat, k: nat)
    requires Rep(h, kids) && p < |h| && i < |kids[p]| && k < |kids[p]| && k != i
    ensures var s := kids[p]; var x, c := s[i], s[k];
            && x < |h| && c < |h| && c != x
            && Bypass(h, x)[c].prev == (if k == i + 1 then At(s, i - 1) else At(s, k - 1))
            && Bypass(h, x)[c].next == (if k + 1 == i then At(s, i + 1) else At(s, k + 1))
            && Bypass(h, x)[c].parent == p
  {
    var s := kids[p];
    assert Down(h, kids, p);
    ChildLinks(h, kids, p, i);
    ChildLinks(h, kids, p, k);
    ChainIsDistinct(h, s);
    ApartFrom(s, k);
  }

  lemma WithoutNeighbours(s: seq<nat>, i: nat, k: nat)
    requires i < |s| && k + 1 < |s|
    ensures var t := Without(s, i); var m := if k < i then k else k + 1;
            && |t| == |s| - 1 && t[k] == s[m] && m != i && m < |s|
            && At(t, k - 1) == (if m == i + 1 then At(s, i - 1) else At(s, m - 1))
            && At(t, k + 1) == (if m + 1 == i then At(s, i + 1) else At(s, m + 1))
  {
  }

  lemma BypassChain(h: Heap, kids: Kids, p: nat, i: nat)
    requires Rep(h, kids) && p < |h| && i < |kids[p]|
    ensures kids[p][i] < |h| && Chain(Bypass(h, kids[p][i]), Without(kids[p], i))
  {
    var s, x, t := kids[p], kids[p][i], Without(kids[p], i);
    ChildLinks(h, kids, p, i);
    hide Bypass, Chain;
    forall k | 0 <= k < |s| - 1
      ensures t[k] < |h| && Bypass(h, x)[t[k]].prev == At(t, k - 1) && Bypass(h, x)[t[k]].next == At(t, k + 1)
    {
      WithoutNeighbours(s, i, k);
      BypassChild(h, kids, p, i, if k < i then k else k + 1);
    }
    ChainBy(Bypass(h, x), t);
  }

  lemma EndsWithout(s: seq<nat>, i: nat)
    requires i < |s|
    ensures FirstOf(Without(s, i)) == (if i == 0 then At(s, 1) else FirstOf(s))
    ensures LastOf(Without(s, i)) == (if i + 1 == |s| then At(s, i - 1) else LastOf(s))
  {
  }

  lemma BypassParent(h: Heap, kids: Kids, p: nat, i: nat)
    requires Rep(h, kids) && p < |h| && i < |kids[p]|
    ensures var x, t := kids[p][i], Without(kids[p], i);
            && x < |h| && x !in t && (forall c :: c in t ==> c < |h| && Bypass(h, x)[c].parent == p)
            && Bypass(h, x)[p].first == FirstOf(t) && Bypass(h, x)[p].last == LastOf(t)
  {
    hide Without, Distinct, Chain, Rep, FirstOf, LastOf, At;
    DownOf(h, kids, p);
    var s := kids[p];
    ChildLinks(h, kids, p, i);
    EndsWithout(s, i);
    ChainIsDistinct(h, s);
    WithoutAt(s, i);
    InRange(h, s);
  }

  lemma DownOf(h: Heap, kids: Kids, n: nat)
    requires Rep(h, kids) && n < |h|
    ensures |h| == |kids| && Down(h, kids, n) && Up(h, kids, n)
  {
  }

  /** A chain, link by link. */
  lemma ChainBy(h: Heap, t: seq<nat>)
    requires forall k :: 0 <= k < |t| ==> t[k] < |h| && h[t[k]].prev == At(t, k - 1) && h[t[k]].next == At(t, k + 1)
    ensures Chain(h, t)
  {
  }

  /** The abstract forest with the `i`-th child of `p` taken out. */
  function Drop(kids: Kids, p: nat, i: nat): Kids
    requires p < |kids| && i < |kids[p]|
  {
    kids[p := Without(kids[p], i)]
  }

  lemma BypassUp(h: Heap, kids: Kids, p: nat, i: nat, n: nat)
    requires Rep(h, kids) && p < |h| && i < |kids[p]| && n < |h| && n != kids[p][i]
    ensures kids[p][i] < |h| && Up(Bypass(h, kids[p][i]), Drop(kids, p, i), n)
  {
    var x := kids[p][i];
    ChildLinks(h, kids, p, i);
    ChainIsDistinct(h, kids[p]);
    WithoutAt(kids[p], i);
    assert Down(h, kids, p) && Up(h, kids, n);
    if h[n].parent == NULL {
      assert h[x].prev != NULL ==> h[x].prev in kids[p];
      assert h[x].next != NULL ==> h[x].next in kids[p];
    }
  }

  /** `S_node_unlink` leaves a forest without the node. */
  lemma BypassLoose(h: Heap, kids: Kids, p: nat, i: nat)
    requires Rep(h, kids) && p < |h| && i < |kids[p]|
    ensures kids[p][i] < |h| && Loose(Bypass(h, kids[p][i]), Drop(kids, p, i), kids[p][i])
  {
    var x := kids[p][i];
    ChildLinks(h, kids, p, i);
    BypassParent(h, kids, p, i);
    BypassChain(h, kids, p, i);
    hide Bypass, Without, Chain, Up;
    var h', k' := Bypass(h, x), Drop(kids, p, i);
    forall n | 0 <= n < |h| ensures Down(h', k', n) && x !in k'[n] {
      if n != p { BypassOther(h, kids, p, i, n); }
    }
    forall n | 0 <= n < |h| && n != x ensures Up(h', k', n) {
      BypassUp(h, kids, p, i, n);
    }
  }

  /** On a node that stands alone `S_node_unlink` does nothing. */
  lemma BypassAlone(h: Heap, kids: Kids, x: nat)
    requires Rep(h, kids) && x < |h| && h[x].parent == NULL
    ensures Bypass(h, x) == h && Loose(h, kids, x)
  {
    assert Up(h, kids, x);
    forall n | 0 <= n < |h| ensures Down(h, kids, n) && x !in kids[n] { assert Down(h, kids, n); }
  }

  // ---------------------------------------------------------------- link

  /** `x` put between `a` and `b`, which are neighbours under `p` or `NULL`. */
  function Attach(h: Heap, p: nat, a: Ptr, b: Ptr, x: nat): (r: Heap)
    requires p < |h| && x < |h| && a != x && b != x && p != x
    ensures |r| == |h|
    ensures forall n :: 0 <= n < |h| ==> r[n] == h[n].(
              next := if n == x then b else if n == a then x else h[n].next,
              prev := if n == x then a else if n == b then x else h[n].prev,
              parent := if n == x then p else h[n].parent,
              first := if n == p && a == NULL then x else h[n].first,
              last := if n == p && b == NULL then x else h[n].last)
  {
    var h1 := SetPrev(SetNext(h, a, x), b, x);
    var h2 := h1[x := h1[x].(prev := a, next := b, parent := p)];
    var h3 := if a == NULL then SetFirst(h2, p, x) else h2;
    if b == NULL then SetLast(h3, p, x) else h3
  }

  function Inserted(s: seq<nat>, i: nat, x: nat): seq<nat>
    requires i <= |s|
  {
    s[..i] + [x] + s[i..]
  }

  /** The abstract forest with `x` as the `i`-th child of `p`. */
  function Put(kids: Kids, p: nat, i: nat, x: nat): Kids
    requires p < |kids| && i <= |kids[p]|
  {
    kids[p := Inserted(kids[p], i, x)]
  }

  lemma InsertedNeighbours(s: seq<nat>, i: nat, x: nat, k: nat)
    requires i <= |s| && k <= |s|
    ensures var t := Inserted(s, i, x); var m := if k < i then k else k - 1;
            && |t| == |s| + 1 && (k == i ==> t[k] == x && At(t, k - 1) == At(s, i - 1) && At(t, k + 1) == At(s, i))
            && (k != i ==> 0 <= m < |s| && t[k] == s[m])
            && (k != i ==> At(t, k - 1) == if m == i then x else At(s, m - 1))
            && (k != i ==> At(t, k + 1) == if m + 1 == i then x else At(s, m + 1))
  {
  }

  lemma InsertedElements(s: seq<nat>, i: nat, x: nat)
    requires i <= |s|
    ensures forall c :: c in Inserted(s, i, x) <==> c in s || c == x
    ensures FirstOf(Inserted(s, i, x)) == (if i == 0 then x else FirstOf(s))
    ensures LastOf(Inserted(s, i, x)) == (if i == |s| then x else LastOf(s))
  {
  }

  lemma AttachChild(h: Heap, kids: Kids, p: nat, i: nat, x: nat, m: nat)
    requires Loose(h, kids, x) && p < |h| && p != x && i <= |kids[p]| && m < |kids[p]|
    ensures var s := kids[p]; var a, b := At(s, i - 1), At(s, i);
            && a != x && b != x && s[m] < |h| && s[m] != x
            && Attach(h, p, a, b, x)[s[m]].prev == (if m == i then x else At(s, m - 1))
            && Attach(h, p, a, b, x)[s[m]].next == (if m + 1 == i then x else At(s, m + 1))
            && Attach(h, p, a, b, x)[s[m]].parent == p
  {
    var s := kids[p];
    assert Down(h, kids, p);
    ChildLinks(h, kids, p, m);
    ChainIsDistinct(h, s);
    ApartFrom(s, m);
    assert s[m] in s;
    assert At(s, i - 1) != NULL ==> At(s, i - 1) in s;
    assert At(s, i) != NULL ==> At(s, i) in s;
  }

  lemma LooseAt(h: Heap, kids: Kids, x: nat, n: nat)
    requires Loose(h, kids, x) && n < |h|
    ensures |h| == |kids| && x < |h| && Down(h, kids, n) && x !in kids[n] && (n != x ==> Up(h, kids, n))
  {
  }

  lemma NeighboursIn(s: seq<nat>, i: nat)
    requires i <= |s|
    ensures At(s, i - 1) != NULL ==> At(s, i - 1) in s
    ensures At(s, i) != NULL ==> At(s, i) in s
  {
  }

  lemma AttachChain(h: Heap, kids: Kids, p: nat, i: nat, x: nat)
    requires Loose(h, kids, x) && p < |h| && p != x && i <= |kids[p]|
    ensures var s := kids[p]; var a, b := At(s, i - 1), At(s, i);
            a != x && b != x && Chain(Attach(h, p, a, b, x), Inserted(s, i, x))
  {
    hide Loose, Chain, Down, Attach, Inserted;
    LooseAt(h, kids, x, p);
    var s, t := kids[p], Inserted(kids[p], i, x);
    NeighboursIn(s, i);
    var h' := Attach(h, p, At(s, i - 1), At(s, i), x);
    InsertedNeighbours(s, i, x, 0);
    forall k | 0 <= k < |t|
      ensures t[k] < |h'| && h'[t[k]].prev == At(t, k - 1) && h'[t[k]].next == At(t, k + 1)
    {
      InsertedNeighbours(s, i, x, k);
      if k != i { AttachChild(h, kids, p, i, x, if k < i then k else k - 1); }
    }
    ChainBy(h', t);
  }

  lemma AttachParent(h: Heap, kids: Kids, p: nat, i: nat, x: nat)
    requires Loose(h, kids, x) && p < |h| && p != x && i <= |kids[p]|
    ensures var s := kids[p]; var a, b := At(s, i - 1), At(s, i);
            a != x && b != x && Down(Attach(h, p, a, b, x), Put(kids, p, i, x), p)
  {
    AttachChain(h, kids, p, i, x);
    LooseAt(h, kids, x, p);
    var s := kids[p];
    NeighboursIn(s, i);
    InsertedElements(s, i, x);
    InRange(h, s);
    AtEnds(s, i);
    hide Loose, Inserted, Chain, At, FirstOf, LastOf, Attach, Up;
    var g, t := Attach(h, p, At(s, i - 1), At(s, i), x), Inserted(s, i, x);
    assert Put(kids, p, i, x)[p] == t;
    forall c | c in t ensures g[c].parent == p { }
  }

  lemma AtEnds(s: seq<nat>, i: nat)
    requires i <= |s|
    ensures i == 0 <==> At(s, i - 1) == NULL
    ensures i == |s| <==> At(s, i) == NULL
  {
  }

  /** The two neighbours are children of `p`. */
  lemma NeighboursOf(h: Heap, kids: Kids, p: nat, i: nat)
    requires |h| == |kids| && p < |h| && Down(h, kids, p) && i <= |kids[p]|
    ensures forall a :: a == At(kids[p], i - 1) || a == At(kids[p], i) ==> a == NULL || (0 <= a < |h| && h[a].parent == p && a in kids[p])
  {
    NeighboursIn(kids[p], i);
    InRange(h, kids[p]);
  }

  lemma AttachOther(h: Heap, kids: Kids, p: nat, i: nat, x: nat, n: nat)
    requires Loose(h, kids, x) && p < |h| && p != x && i <= |kids[p]| && n < |h| && n != p
    ensures var s := kids[p]; var a, b := At(s, i - 1), At(s, i);
            a != x && b != x && Down(Attach(h, p, a, b, x), kids, n)
  {
    hide Loose, At, Chain, Attach;
    LooseAt(h, kids, x, p);
    LooseAt(h, kids, x, n);
    NeighboursOf(h, kids, p, i);
    InRange(h, kids[n]);
    ChainSame(h, Attach(h, p, At(kids[p], i - 1), At(kids[p], i), x), kids[n]);
  }

  lemma AttachUp(h: Heap, kids: Kids, p: nat, i: nat, x: nat, n: nat)
    requires Loose(h, kids, x) && p < |h| && p != x && i <= |kids[p]| && n < |h|
    ensures var s := kids[p]; var a, b := At(s, i - 1), At(s, i);
            a != x && b != x && Up(Attach(h, p, a, b, x), Put(kids, p, i, x), n)
  {
    hide Loose, Inserted, Chain, At;
    LooseAt(h, kids, x, p);
    LooseAt(h, kids, x, n);
    NeighboursOf(h, kids, p, i);
    InsertedElements(kids[p], i, x);
  }

  /** Linking the loose node gives the forest with it in place. */
  lemma AttachRep(h: Heap, kids: Kids, p: nat, i: nat, x: nat)
    requires Loose(h, kids, x) && p < |h| && p != x && i <= |kids[p]|
    ensures var s := kids[p]; var a, b := At(s, i - 1), At(s, i);
            a != x && b != x && Rep(Attach(h, p, a, b, x), Put(kids, p, i, x))
  {
    LooseAt(h, kids, x, p);
    AttachParent(h, kids, p, i, x);
    hide Loose, Inserted, Chain, Up, Attach;
    var h', k' := Attach(h, p, At(kids[p], i - 1), At(kids[p], i), x), Put(kids, p, i, x);
    forall n | 0 <= n < |h| ensures Down(h', k', n) && Up(h', k', n) {
      if n != p { AttachOther(h, kids, p, i, x, n); }
      AttachUp(h, kids, p, i, x, n);
    }
  }

  /** Clearing its stale links makes the loose node stand alone. */
  lemma ClearRep(h: Heap, kids: Kids, x: nat)
    requires Loose(h, kids, x)
    ensures Rep(h[x := h[x].(next := NULL, prev := NULL, parent := NULL)], kids)
  {
    var h' := h[x := h[x].(next := NULL, prev := NULL, parent := NULL)];
    forall n | 0 <= n < |h| ensures Down(h', kids, n) && Up(h', kids, n) {
      LooseAt(h, kids, x, n);
      assert forall k :: 0 <= k < |kids[n]| ==> kids[n][k] in kids[n];
    }
  }

  // ---------------------------------------------------------------- no node is its own ancestor

  /** Parents rank below their children. */
  ghost predicate Ranked(h: Heap, rank: seq<nat>) {
    |rank| == |h| && forall n :: 0 <= n < |h| && h[n].parent != NULL ==> 0 <= h[n].parent < |h| && rank[h[n].parent] < rank[n]
  }

  ghost predicate Acyclic(h: Heap) {
    exists rank :: Ranked(h, rank)
  }

  /** `path` climbs by parents. */
  ghost predicate Climbs(h: Heap, path: seq<nat>) {
    && path != [] && (forall i :: 0 <= i < |path| ==> path[i] < |h|)
    && forall i {:trigger h[path[i]].parent} :: 0 <= i < |path| - 1 ==> h[path[i]].parent == path[i + 1]
  }

  /** `m` is `x` or one of its descendants. */
  ghost predicate Under(h: Heap, m: nat, x: nat) {
    exists path :: Climbs(h, path) && path[0] == m && path[|path| - 1] == x
  }

  lemma ClimbOn(h: Heap, path: seq<nat>)
    requires Climbs(h, path) && |path| > 1
    ensures Climbs(h, path[1..]) && h[path[0]].parent == path[1]
  {
    var up := path[1..];
    forall i | 0 <= i < |up| - 1 ensures h[up[i]].parent == up[i + 1] { assert h[path[i + 1]].parent == path[i + 2]; }
  }

  lemma ClimbFrom(h: Heap, m: nat, up: seq<nat>)
    requires Climbs(h, up) && m < |h| && h[m].parent == up[0]
    ensures Climbs(h, [m] + up)
  {
    var path := [m] + up;
    forall i | 0 <= i < |path| - 1 ensures h[path[i]].parent == path[i + 1] {
      if i > 0 { assert h[up[i - 1]].parent == up[i]; }
    }
  }

  lemma UnderStep(h: Heap, m: nat, x: nat)
    requires m < |h| && h[m].parent != NULL ==> 0 <= h[m].parent < |h|
    ensures Under(h, m, x) <==> m < |h| && (m == x || (h[m].parent != NULL && Under(h, h[m].parent, x)))
  {
    if Under(h, m, x) && m != x {
      var path :| Climbs(h, path) && path[0] == m && path[|path| - 1] == x;
      ClimbOn(h, path);
      var up := path[1..];
      assert up[0] == path[1] && up[|up| - 1] == x;
    }
    if m < |h| && m == x {
      var here: seq<nat> := [m];
      assert Climbs(h, here);
    }
    if m < |h| && h[m].parent != NULL && Under(h, h[m].parent, x) {
      var up :| Climbs(h, up) && up[0] == h[m].parent && up[|up| - 1] == x;
      ClimbFrom(h, m, up);
      var path := [m] + up;
      assert path[0] == m && path[|path| - 1] == x;
    }
  }

  /** Moving a node under one that is not below it keeps the forest acyclic: its subtree is lifted. */
  lemma MoveAcyclic(h: Heap, g: Heap, p: nat, x: nat)
    requires Acyclic(h) && |g| == |h| && p < |h| && x < |h| && !Under(h, p, x)
    requires g[x].parent == p && forall n :: 0 <= n < |h| && n != x ==> g[n].parent == h[n].parent
    ensures Acyclic(g)
  {
    var rank :| Ranked(h, rank);
    var lifted := seq(|h|, n requires 0 <= n < |h| => if Under(h, n, x) then rank[n] + rank[p] + 1 else rank[n]);
    forall n | 0 <= n < |g| && g[n].parent != NULL
      ensures 0 <= g[n].parent < |g| && lifted[g[n].parent] < lifted[n]
    {
      UnderStep(h, n, x);
    }
    assert Ranked(g, lifted);
  }

  lemma ClearAcyclic(h: Heap, g: Heap, x: nat)
    requires Acyclic(h) && |g| == |h| && x < |h|
    requires g[x].parent == NULL && forall n :: 0 <= n < |h| && n != x ==> g[n].parent == h[n].parent
    ensures Acyclic(g)
  {
    var rank :| Ranked(h, rank);
    assert Ranked(g, rank);
  }

  // ---------------------------------------------------------------- whole moves

  ghost predicate Forest(h: Heap, kids: Kids) {
    Rep(h, kids) && Acyclic(h)
  }

  function Place(s: seq<nat>, x: nat): (i: nat)
    ensures i <= |s| && (i < |s| ==> s[i] == x) && (x in s ==> i < |s|)
  {
    if s == [] || s[0] == x then 0 else 1 + Place(s[1..], x)
  }

  /** The forest with `x`, and what hangs below it, taken from under `p`. */
  function Removed(kids: Kids, p: Ptr, x: nat): (r: Kids)
    ensures |r| == |kids|
  {
    if 0 <= p < |kids| && x in kids[p] then Drop(kids, p, Place(kids[p], x)) else kids
  }

  /** Unlinking half-way: `x` is no child any more. */
  lemma RemovedLoose(h: Heap, kids: Kids, x: nat)
    requires Rep(h, kids) && x < |h|
    ensures Loose(Bypass(h, x), Removed(kids, h[x].parent, x), x)
  {
    DownOf(h, kids, x);
    hide Loose, Bypass, Rep, Drop, Place;
    if h[x].parent == NULL {
      BypassAlone(h, kids, x);
    } else {
      BypassLoose(h, kids, h[x].parent, Place(kids[h[x].parent], x));
    }
  }

  /** Where `x` may go: not under itself, not below itself. */
  ghost predicate Movable(h: Heap, p: nat, x: nat) {
    p < |h| && x < |h| && !Under(h, p, x)
  }

  /** Any of the five moves: take `x` from where it is and make it the `i`-th child of `p`. */
  lemma MoveForest(h: Heap, kids: Kids, p: nat, i: nat, x: nat)
    requires Forest(h, kids) && Movable(h, p, x)
    requires i <= |Removed(kids, h[x].parent, x)[p]|
    ensures p != x
    ensures var k := Removed(kids, h[x].parent, x); var a, b := At(k[p], i - 1), At(k[p], i);
            a != x && b != x && Forest(Attach(Bypass(h, x), p, a, b, x), Put(k, p, i, x))
  {
    hide Rep, Loose, Under, Removed, Acyclic;
    DownOf(h, kids, x);
    UnderSelf(h, x);
    RemovedLoose(h, kids, x);
    var k := Removed(kids, h[x].parent, x);
    AttachRep(Bypass(h, x), k, p, i, x);
    MoveAcyclic(h, Attach(Bypass(h, x), p, At(k[p], i - 1), At(k[p], i), x), p, x);
  }

  lemma UnderSelf(h: Heap, x: nat)
    requires x < |h|
    ensures Under(h, x, x)
  {
    var here: seq<nat> := [x];
    assert Climbs(h, here);
  }

  // ---------------------------------------------------------------- lists of children without some nodes

  /** A list without the nodes of `gone`. */
  function Strip(s: seq<nat>, gone: set<nat>): seq<nat> {
    if s == [] then [] else if s[0] in gone then Strip(s[1..], gone) else [s[0]] + Strip(s[1..], gone)
  }

  lemma {:induction false} StripMember(s: seq<nat>, gone: set<nat>)
    ensures forall c :: c in Strip(s, gone) <==> c in s && c !in gone
  {
    if s != [] { StripMember(s[1..], gone); }
  }

  lemma {:induction false} StripConcat(s: seq<nat>, t: seq<nat>, gone: set<nat>)
    ensures Strip(s + t, gone) == Strip(s, gone) + Strip(t, gone)
  {
    if s == [] {
      assert s + t == t;
    } else {
      assert (s + t)[1..] == s[1..] + t && (s + t)[0] == s[0];
      StripConcat(s[1..], t, gone);
    }
  }

  lemma {:induction false} StripTwice(s: seq<nat>, a: set<nat>, b: set<nat>)
    ensures Strip(Strip(s, a), b) == Strip(s, a + b)
  {
    if s != [] {
      StripTwice(s[1..], a, b);
    }
  }

  lemma {:induction false} StripNone(s: seq<nat>, gone: set<nat>)
    requires forall c :: c in s ==> c !in gone
    ensures Strip(s, gone) == s
  {
    if s != [] { StripNone(s[1..], gone); }
  }

  lemma StripOne(s: seq<nat>, i: nat)
    requires Distinct(s) && i < |s|
    ensures Without(s, i) == Strip(s, {s[i]})
  {
    StripNone(s[..i], {s[i]});
    StripNone(s[i + 1..], {s[i]});
    var t := s[i..];
    assert t[0] == s[i] && t[1..] == s[i + 1..] && s == s[..i] + t;
    StripConcat(s[..i], t, {s[i]});
  }

  /** Taking a node from its parent takes it from every list of children. */
  lemma RemovedIsStrip(h: Heap, kids: Kids, x: nat, n: nat)
    requires Rep(h, kids) && x < |h| && n < |kids|
    ensures Removed(kids, h[x].parent, x)[n] == Strip(kids[n], {x})
  {
    hide Strip, Rep, Chain, Place;
    DownOf(h, kids, x);
    DownOf(h, kids, n);
    var p := h[x].parent;
    if p == n {
      ChainIsDistinct(h, kids[n]);
      StripOne(kids[n], Place(kids[n], x));
    } else {
      StripNone(kids[n], {x});
    }
  }

  /** The abstract forest determines every link. */
  lemma LinksDetermined(h: Heap, g: Heap, kids: Kids, n: nat)
    requires Rep(h, kids) && Rep(g, kids) && n < |h|
    ensures |g| == |h| && g[n].next == h[n].next && g[n].prev == h[n].prev && g[n].parent == h[n].parent
    ensures g[n].first == h[n].first && g[n].last == h[n].last
  {
    hide Rep, Place;
    RepSize(h, kids);
    RepSize(g, kids);
    DownOf(h, kids, n);
    DownOf(g, kids, n);
    ParentOf(h, g, kids, n);
    if h[n].parent >= 0 {
      var p := h[n].parent;
      DownOf(h, kids, p);
      DownOf(g, kids, p);
      var i := Place(kids[p], n);
      ChildLinks(h, kids, p, i);
      ChildLinks(g, kids, p, i);
    }
  }

  lemma RepSize(h: Heap, kids: Kids)
    requires Rep(h, kids)
    ensures |h| == |kids|
  {
  }

  lemma ParentOf(h: Heap, g: Heap, kids: Kids, n: nat)
    requires Rep(h, kids) && Rep(g, kids) && n < |h|
    ensures |h| == |g| == |kids| && g[n].parent == h[n].parent
  {
    hide Rep;
    RepSize(h, kids);
    RepSize(g, kids);
    DownOf(h, kids, n);
    DownOf(g, kids, n);
    if h[n].parent >= 0 { DownOf(g, kids, h[n].parent); }
    if g[n].parent >= 0 { DownOf(h, kids, g[n].parent); }
  }
}
