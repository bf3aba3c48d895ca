/** Tight and loose lists over whole runs: finalized lists stay right unless a paragraph of definitions is freed
    below a list that was finalized before it. */
module BlockTight {
  import opened NodeKinds
  import opened Lists
  import opened Blocks
  import opened ListTight
  import opened BlockParser

  // ---------------------------------------------------------------- the invariant

  /** Finalized lists are right, and no open block was asked about when one of them was finalized. */
  ghost predicate Right(m: Mid) {
    && MidOk(m) && Settled(m.t)
    && (forall b :: b in m.spine ==> !Warm(m.t, b))
    && (forall b :: b in m.left ==> !Remembered(m.t, b))
    && (m.left != [] ==> !Warm(m.t, m.top) && Lagging(m))
  }

  /** The blocks that were not matched are still last children, below a list also when it is finalized first. */
  ghost predicate Lagging(m: Mid)
    requires MidOk(m) && m.left != []
  {
    && m.left[0] in m.t[m.top].children
    && (forall k :: 0 <= k < |m.left| - 1 ==> EndsWith(m.t, m.left[k], m.left[k + 1]))
    && (m.t[m.top].kind == List && (!m.t[m.top].open || Last(m.spine) == m.top) ==> EndsWith(m.t, m.top, m.left[0]))
  }

  predicate EndsWith(t: Store, b: nat, c: nat)
    requires b < |t|
  {
    t[b].children != [] && Last(t[b].children) == c
  }

  lemma RightParts(m: Mid)
    requires Right(m)
    ensures MidOk(m) && Settled(m.t) && Tree(m.t) && m.spine != [] && Last(m.spine) < |m.t| && !Warm(m.t, Last(m.spine))
    ensures m.left != [] ==> !Warm(m.t, m.top) && Lagging(m)
    ensures m.top < |m.t| && (m.left != [] ==> Last(m.left) < |m.t|)
  {
    hide Warm, Lagging;
  }

  lemma WarmBefore(t: Store, u: Store, b: nat)
    requires Tree(t) && Moves(t, u) && Warm(u, b)
    ensures b < |t| && Warm(t, b)
  {
    hide Tree, Remembered, Emptied;
    if Remembered(u, b) {
      RememberedBefore(t, u, b);
    } else {
      var l: nat := u[b].parent;
      assert SameLink(t, u, l);
      KidsParent(t, l, b);
    }
  }

  /** What keeps finalized lists right keeps the invariant. */
  lemma MovesRight(m: Mid, n: Mid)
    requires Right(m) && MidOk(n) && Moves(m.t, n.t) && n.top == m.top
    requires forall b :: b in n.spine ==> b in m.spine || b >= |m.t|
    requires forall b :: b in n.left ==> b in m.left
    requires n.left != [] ==> m.left != [] && Lagging(n)
    ensures Right(n)
  {
    hide MidOk, Settled, Warm, Remembered, Lagging, Moves;
    RightParts(m);
    MovesKeep(m.t, n.t);
    forall b | b in n.spine ensures !Warm(n.t, b) { if Warm(n.t, b) { WarmBefore(m.t, n.t, b); } }
    forall b | b in n.left ensures !Remembered(n.t, b) { if Remembered(n.t, b) { RememberedBefore(m.t, n.t, b); } }
    if n.left != [] && Warm(n.t, n.top) { WarmBefore(m.t, n.t, n.top); }
  }

  // ---------------------------------------------------------------- closing a block that is not a list

  /** Freeing the block takes nothing from a finalized list but the only block of its last item. */
  ghost predicate FreeOk(t: Store, b: nat)
    requires b < |t| && t[b].parent < b
  {
    && !Remembered(t, b)
    && (0 <= t[b].parent ==> var p: nat := t[b].parent;
          !Remembered(t, p)
          && (ItemOfClosed(t, p) ==> t[p].children == [b] && EndsWith(t, t[p].parent, p)))
  }

  lemma ShutMoves(t: Store, b: nat, line: Line, preserve: bool)
    requires Tree(t) && b < |t| && t[b].parent < b && t[b].kind != List
    requires Frees(t, b, line, preserve) ==> FreeOk(t, b) && (t[b].parent >= 0 ==> b in t[t[b].parent].children)
    ensures Moves(t, Finalized(t, b, line, preserve))
  {
    hide Tree, Remembered, Minus;
    var u := Finalized(t, b, line, preserve);
    FinalizedTree(t, b, line, preserve);
    if Frees(t, b, line, preserve) && t[b].parent >= 0 {
      FreedApart(t, b);
      assert t[t[b].parent].children == [b] ==> Minus(t[t[b].parent].children, b) == [] by { MinusOne(b); }
    }
  }

  lemma MinusOne(b: nat)
    ensures Minus([b], b) == []
  {
    assert Minus([b], b) == Minus(Init([b]), b);
  }

  lemma FreedApart(t: Store, b: nat)
    requires Tree(t) && b < |t| && 0 <= t[b].parent < b && t[b].kind == Paragraph && b in t[t[b].parent].children
    ensures !ItemOfClosed(t, b) && !Closed(t, b) && !Closed(t, t[b].parent)
  {
    assert KidsOk(t, t[b].parent);
  }

  lemma NonListRight(m: Mid, n: Mid, b: nat, line: Line, preserve: bool)
    requires Right(m) && MidOk(n) && b < |m.t| && m.t[b].parent < b && m.t[b].kind != List && n.top == m.top
    requires n.t == Finalized(m.t, b, line, preserve)
    requires Frees(m.t, b, line, preserve) ==> FreeOk(m.t, b) && (m.t[b].parent >= 0 ==> b in m.t[m.t[b].parent].children)
    requires forall x :: x in n.spine ==> x in m.spine
    requires forall x :: x in n.left ==> x in m.left
    requires n.left != [] ==> m.left != [] && Lagging(n)
    ensures Right(n)
  {
    hide MidOk, Settled, Warm, Remembered, Lagging, Moves, Finalized, FreeOk;
    RightParts(m);
    ShutMoves(m.t, b, line, preserve);
    MovesRight(m, n);
  }

  /** The links a block had before another was closed. */
  lemma ShutKeeps(t: Store, b: nat, line: Line, preserve: bool, x: nat)
    requires b < |t| && t[b].parent < b && x < |t|
    ensures var u := Finalized(t, b, line, preserve);
            && |u| == |t| && u[x].kind == t[x].kind && (x != b ==> u[x].open == t[x].open)
            && (t[b].parent != x ==> u[x].children == t[x].children)
            && (u[x].children == t[x].children || u[x].children == Minus(t[x].children, b))
  {
    hide Decided;
    DecidedBits(t, b);
  }

  /** The blocks not matched lag as before where their children are the same. */
  lemma SameLags(m: Mid, n: Mid)
    requires MidOk(m) && MidOk(n) && |n.t| >= |m.t| && n.top == m.top && n.left != [] && |n.left| <= |m.left| && Lagging(m)
    requires forall k :: 0 <= k < |n.left| ==> n.left[k] == m.left[k]
    requires n.t[m.top].children == m.t[m.top].children
    requires forall k :: 0 <= k < |n.left| - 1 ==> n.t[n.left[k]].children == m.t[n.left[k]].children
    requires n.t[m.top].kind == List && (!n.t[m.top].open || Last(n.spine) == m.top)
             ==> m.t[m.top].kind == List && (!m.t[m.top].open || Last(m.spine) == m.top)
    ensures Lagging(n)
  {
    hide Tree, Counted, Spine;
  }

  /** Closing a block that is no list and no item at the end of the path. */
  lemma EndRight(m: Mid, line: Line, preserve: bool)
    requires Right(m) && |m.spine| >= 2 && Last(m.spine) < |m.t| && m.t[Last(m.spine)].parent < Last(m.spine)
    requires m.left != [] ==> m.t[Last(m.spine)].kind != Item
    requires m.t[Last(m.spine)].kind != List
    ensures Right(CloseEnd(m, line, preserve))
  {
    hide Settled, Remembered, Moves, Finalized, Counted;
    var b, n := Last(m.spine), CloseEnd(m, line, preserve);
    RightParts(m);
    CloseEndOk(m, line, preserve);
    InitElements(m.spine);
    SpineLink(m.t, m.spine, |m.spine| - 2);
    var p := Last(Init(m.spine));
    assert p in m.spine && b in m.spine;
    if m.left != [] { EndLags(m, line, preserve); }
    NonListRight(m, n, b, line, preserve);
  }

  lemma EndLags(m: Mid, line: Line, preserve: bool)
    requires Right(m) && |m.spine| >= 2 && Last(m.spine) < |m.t| && m.left != []
    requires m.t[Last(m.spine)].kind != Item && m.t[Last(m.spine)].kind != List
    requires m.t[Last(m.spine)].parent == Last(Init(m.spine)) < Last(m.spine) && m.t[Last(Init(m.spine))].kind != List
    requires MidOk(CloseEnd(m, line, preserve))
    ensures Lagging(CloseEnd(m, line, preserve))
  {
    hide Settled, Remembered, Warm, Finalized, Counted, Tree, Minus;
    var b, n := Last(m.spine), CloseEnd(m, line, preserve);
    InitElements(m.spine);
    ShutKeeps(m.t, b, line, preserve, m.top);
    forall k | 0 <= k < |m.left| ensures n.t[m.left[k]].children == m.t[m.left[k]].children {
      assert m.left[k] in m.left;
      ShutKeeps(m.t, b, line, preserve, m.left[k]);
    }
  }

  // ---------------------------------------------------------------- closing a list

  lemma ListCloses(t: Store, l: nat, line: Line, preserve: bool)
    requires l < |t| && t[l].kind == List && t[l].open && t[l].parent < l && Tree(t)
    ensures ClosedAs(t, l, Finalized(t, l, line, preserve)) && SameLinks(t, Finalized(t, l, line, preserve))
    ensures var v := Finalized(t, l, line, preserve);
            Closed(v, l) && forall b: nat :: b < |t| && b != l ==> v[b].open == t[b].open
  {
    hide Decided, Tree;
    DecidedBits(t, l);
  }

  /** What is newly remembered was come to from a block in the list. */
  lemma NewlyAsked(t: Store, l: nat, v: Store, c: nat) returns (a: nat)
    requires Tree(t) && l < |t| && SameLinks(t, v) && Closed(v, l) && (forall b: nat :: b < |t| && b != l ==> v[b].open == t[b].open)
    requires Remembered(v, c) && !Remembered(t, c)
    ensures a < |t| && Followed(t, a) && ListOf(t, a) == l && OnChain(t, a, c) && l < t[a].parent < a <= c < |t|
  {
    hide Ends, Tree;
    a :| Spent(v, a) && OnChain(v, a, c);
    LinksEnds(t, v, a);
    assert Followed(t, a);
    if ListOf(t, a) != l { assert false; }
    KidsParent(t, l, t[a].parent);
    KidsParent(t, t[a].parent, a);
    ChainUp(t, a, c);
  }

  lemma WarmAfter(t: Store, l: nat, v: Store, b: nat)
    requires Tree(t) && l < |t| && SameLinks(t, v) && Closed(v, l) && (forall x: nat :: x < |t| && x != l ==> v[x].open == t[x].open)
    requires Warm(v, b) && !Warm(t, b)
    ensures b < |t| && (t[b].parent == l || (Remembered(v, b) && !Remembered(t, b)))
  {
    hide Remembered, Tree;
  }

  /** A chain that comes to a block of the path began on it. */
  lemma {:induction false} SpineChain(m: Mid, a: nat, i: nat)
    requires MidOk(m) && i < |m.spine| && a < |m.t| && 0 <= m.t[a].parent && OnChain(m.t, a, m.spine[i])
    ensures exists k :: 0 < k <= i && m.spine[k] == a
    decreases i
  {
    hide Counted, Hanging, Ends;
    if a != m.spine[i] {
      ChainBack(m.t, a, m.spine[i]);
      SpineLink(m.t, m.spine, i - 1);
      SpineChain(m, a, i - 1);
    }
  }

  /** A chain that comes to a block that was not matched began there, or above. */
  lemma {:induction false} LeftChain(m: Mid, a: nat, i: nat)
    requires MidOk(m) && i < |m.left| && a < |m.t| && a > m.top && OnChain(m.t, a, m.left[i])
    ensures exists k :: 0 <= k <= i && m.left[k] == a
    decreases i
  {
    hide Counted, Spine, Ends;
    if a != m.left[i] {
      ChainBack(m.t, a, m.left[i]);
      if i == 0 { ChainUp(m.t, a, m.top); } else { LeftChain(m, a, i - 1); }
    }
  }

  /** List `l` of `m` was closed in `n`. */
  ghost predicate ListClosed(m: Mid, n: Mid, l: nat) {
    && Right(m) && MidOk(n) && l < |m.t| && SameLinks(m.t, n.t) && Closed(n.t, l) && m.t[l].kind == List && n.top == m.top
    && forall x: nat :: x < |m.t| && x != l ==> n.t[x].open == m.t[x].open
  }

  /** Blocks older than the list stay cool. */
  lemma OlderCool(m: Mid, n: Mid, l: nat, b: nat)
    requires ListClosed(m, n, l) && b <= l && !Warm(m.t, b)
    ensures !Warm(n.t, b)
  {
    hide Remembered, Followed, MidOk, Settled, Lagging, Tree;
    RightParts(m);
    OlderParent(m.t, b);
    if Warm(n.t, b) {
      WarmAfter(m.t, l, n.t, b);
      if Remembered(n.t, b) && !Remembered(m.t, b) {
        var a := NewlyAsked(m.t, l, n.t, b);
        assert false;
      }
    }
  }

  lemma EndLeftCool(m: Mid, n: Mid, i: nat)
    requires ListClosed(m, n, m.top) && i < |m.left| && Last(m.spine) == m.top
    ensures !Remembered(n.t, m.left[i])
  {
    hide Remembered, Settled, Tree, Ends, Counted, Spine;
    RightParts(m);
    var b := m.left[i];
    assert b in m.left;
    if Remembered(n.t, b) {
      var a := NewlyAsked(m.t, m.top, n.t, b);
      LeftChain(m, a, i);
      NotBehind(m, a);
    }
  }

  lemma NotBehind(m: Mid, a: nat)
    requires MidOk(m) && m.left != [] && Lagging(m) && m.t[m.top].kind == List && Last(m.spine) == m.top
    requires a in m.left && m.top < m.t[a].parent && ListOf(m.t, a) == m.top
    ensures !Followed(m.t, a)
  {
    hide Tree, Counted, Spine;
    var k: nat :| k < |m.left| && m.left[k] == a;
  }

  lemma LeftSpineCool(m: Mid, n: Mid, l: nat, i: nat)
    requires ListClosed(m, n, l) && l in m.left && i < |m.spine|
    ensures !Warm(n.t, m.spine[i])
  {
    hide Remembered, Settled, Tree, Ends, Counted, Hanging, Followed, Lagging;
    var b := m.spine[i];
    assert b in m.spine;
    RightParts(m);
    if i > 0 { SpineLink(m.t, m.spine, i - 1); assert m.spine[i - 1] in m.spine; } else { RootParent(m.t); }
    if Warm(n.t, b) {
      WarmAfter(m.t, l, n.t, b);
      var a := NewlyAsked(m.t, l, n.t, b);
      SpineChain(m, a, i);
      OnSpine(m, a, l);
    }
  }

  lemma RootParent(t: Store)
    requires Tree(t)
    ensures t != [] && t[ROOT].parent < 0
  {
  }

  /** The list around a block of the path is on the path. */
  lemma OnSpine(m: Mid, a: nat, l: nat)
    requires MidOk(m) && a in m.spine && a < |m.t| && 0 <= m.t[a].parent < |m.t| && ListOf(m.t, a) == l
    ensures l in m.spine
  {
    hide Counted, Hanging;
    var k: nat :| k < |m.spine| && m.spine[k] == a;
    SpineLink(m.t, m.spine, k - 1);
    SpineLink(m.t, m.spine, k - 2);
  }

  lemma LinksKids(m: Mid, n: Mid)
    requires MidOk(m) && SameLinks(m.t, n.t)
    ensures m.top < |n.t| && n.t[m.top].kind == m.t[m.top].kind && n.t[m.top].children == m.t[m.top].children
    ensures forall k :: 0 <= k < |m.left| ==> m.left[k] < |n.t| && n.t[m.left[k]].children == m.t[m.left[k]].children
  {
    hide Tree, Counted, Spine;
  }

  /** A list that ends the path is finalized: if something below was not matched, that is the last block of its
      last item, about which it does not ask. */
  lemma EndListRight(m: Mid, line: Line, preserve: bool)
    requires Right(m) && |m.spine| >= 2 && Last(m.spine) < |m.t| && m.t[Last(m.spine)].parent < Last(m.spine)
    requires m.t[Last(m.spine)].kind == List && (m.left != [] ==> Last(m.spine) == m.top)
    ensures Right(CloseEnd(m, line, preserve))
  {
    hide Settled, Warm, Remembered, Finalized, Counted, Lagging, Tree, Hanging, SameLinks;
    var l, n := Last(m.spine), CloseEnd(m, line, preserve);
    RightParts(m);
    CloseEndOk(m, line, preserve);
    InitElements(m.spine);
    ListCloses(m.t, l, line, preserve);
    DecidedSettled(m.t, l, n.t);
    forall i: nat | i < |n.spine| ensures !Warm(n.t, n.spine[i]) {
      assert n.spine[i] in m.spine;
      SpineAscends(m.t, m.spine, i, |m.spine| - 1);
      OlderCool(m, n, l, n.spine[i]);
    }
    if n.left != [] {
      forall i: nat | i < |n.left| ensures !Remembered(n.t, n.left[i]) { EndLeftCool(m, n, i); }
      OlderCool(m, n, l, m.top);
      SameLags(m, n) by { LinksKids(m, n); }
    }
  }

  /** So is one that was not matched. */
  lemma LeftListRight(m: Mid, line: Line, preserve: bool)
    requires Right(m) && m.left != [] && Last(m.left) < |m.t| && m.t[Last(m.left)].parent < Last(m.left) && m.t[Last(m.left)].kind == List
    ensures Right(CloseLeft(m, line, preserve))
  {
    hide Settled, Warm, Remembered, Finalized, Counted, Lagging, Tree, SameLinks, Spine, ClosedAs;
    var l, n := Last(m.left), CloseLeft(m, line, preserve);
    RightParts(m);
    CloseLeftOk(m, line, preserve);
    ListCloses(m.t, l, line, preserve);
    DecidedSettled(m.t, l, n.t);
    forall i: nat | i < |n.spine| ensures !Warm(n.t, n.spine[i]) { LeftSpineCool(m, n, l, i); }
    forall i: nat | i < |n.left| ensures !Remembered(n.t, n.left[i]) {
      LeftAscends(m, i, |m.left| - 1);
      LeftOlderCool(m, n, l, m.left[i]);
    }
    if n.left != [] {
      OlderCool(m, n, l, m.top);
      SameLags(m, n) by { LinksKids(m, n); }
    }
  }

  lemma LeftOlderCool(m: Mid, n: Mid, l: nat, b: nat)
    requires ListClosed(m, n, l) && b <= l && b in m.left
    ensures !Remembered(n.t, b)
  {
    hide Remembered, Followed, MidOk, Settled, Lagging, Tree;
    RightParts(m);
    if Remembered(n.t, b) {
      var a := NewlyAsked(m.t, l, n.t, b);
      assert false;
    }
  }

  // ---------------------------------------------------------------- closing what was not matched

  /** The failing case: a paragraph of definitions behind another block, the last of a list finalized before it. */
  ghost predicate Undercuts(m: Mid, line: Line, preserve: bool)
    requires MidOk(m)
  {
    && |m.left| >= 2 && m.t[m.top].kind == List && !m.t[m.top].open && |m.t[m.left[0]].children| >= 2
    && Frees(m.t, m.left[1], line, preserve)
  }

  lemma LeftFreeOk(m: Mid, line: Line, preserve: bool)
    requires Right(m) && m.left != [] && !Undercuts(m, line, preserve)
    requires Last(m.left) < |m.t| && m.t[Last(m.left)].parent == Current(m.(left := Init(m.left))) < Last(m.left)
    requires Frees(m.t, Last(m.left), line, preserve)
    ensures FreeOk(m.t, Last(m.left)) && Last(m.left) in m.t[m.t[Last(m.left)].parent].children
  {
    hide Settled, Remembered, Spine, Counted, Tree;
    var b := Last(m.left);
    var p: nat := m.t[b].parent;
    assert b in m.left;
    if |m.left| >= 2 {
      assert p == m.left[|m.left| - 2] && p in m.left && EndsWith(m.t, p, b);
      if ItemOfClosed(m.t, p) { LeftItem(m, |m.left| - 2); }
    }
  }

  /** An item that was not matched, of a list that is closed, is the first of these blocks. */
  lemma LeftItem(m: Mid, i: nat)
    requires MidOk(m) && i < |m.left| && ItemOfClosed(m.t, m.left[i])
    ensures i == 0 && m.t[m.left[0]].parent == m.top && m.t[m.top].kind == List && !m.t[m.top].open
  {
    hide Tree, Spine;
    assert forall k :: 0 <= k < |m.left| ==> m.left[k] in m.left;
  }

  /** Closing the deepest block that was not matched keeps the invariant but in that case. */
  lemma LeftRight(m: Mid, line: Line, preserve: bool)
    requires Right(m) && m.left != [] && !Undercuts(m, line, preserve)
    requires Last(m.left) < |m.t| && m.t[Last(m.left)].parent < Last(m.left)
    ensures Right(CloseLeft(m, line, preserve))
  {
    hide Settled, Remembered, Moves, Finalized, Counted, Right, FreeOk, Frees;
    var b, n := Last(m.left), CloseLeft(m, line, preserve);
    RightParts(m);
    CloseLeftOk(m, line, preserve);
    if m.t[b].kind == List {
      LeftListRight(m, line, preserve);
    } else {
      if Frees(m.t, b, line, preserve) { LeftFreeOk(m, line, preserve); }
      if n.left != [] { LeftLags(m, line, preserve); }
      NonListRight(m, n, b, line, preserve);
    }
  }

  lemma LeftLags(m: Mid, line: Line, preserve: bool)
    requires Right(m) && |m.left| >= 2 && Last(m.left) < |m.t| && m.t[Last(m.left)].kind != List
    requires m.t[Last(m.left)].parent == Current(m.(left := Init(m.left))) < Last(m.left)
    requires MidOk(CloseLeft(m, line, preserve))
    ensures Lagging(CloseLeft(m, line, preserve))
  {
    hide Settled, Remembered, Warm, Finalized, Counted, Tree, Minus, Spine, Lagging, Frees;
    var b, n := Last(m.left), CloseLeft(m, line, preserve);
    LeftAscends(m, |m.left| - 2, |m.left| - 1);
    ShutKeeps(m.t, b, line, preserve, m.top);
    forall k | 0 <= k < |n.left| - 1 ensures n.t[n.left[k]].children == m.t[n.left[k]].children {
      LeftAscends(m, k, |m.left| - 2);
      ShutKeeps(m.t, b, line, preserve, m.left[k]);
    }
    SameLags(m, n);
  }

  /** Whether that case is there does not depend on what is closed below. */
  lemma UndercutsBefore(m: Mid, line: Line, preserve: bool)
    requires MidOk(m) && m.left != [] && Last(m.left) < |m.t|
    requires m.t[Last(m.left)].parent == Current(m.(left := Init(m.left))) < Last(m.left)
    requires MidOk(CloseLeft(m, line, preserve)) && Undercuts(CloseLeft(m, line, preserve), line, preserve)
    ensures Undercuts(m, line, preserve)
  {
    hide Counted, Spine, Finalized, Tree;
    var b := Last(m.left);
    LeftAscends(m, 0, |m.left| - 1);
    LeftAscends(m, 1, |m.left| - 1);
    LeftAscends(m, 0, |m.left| - 2);
    ShutKeeps(m.t, b, line, preserve, m.top);
    ShutKeeps(m.t, b, line, preserve, m.left[0]);
    ShutKeeps(m.t, b, line, preserve, m.left[1]);
  }

  lemma FewerLeft(m: Mid, line: Line, preserve: bool)
    requires m.left != [] && Last(m.left) < |m.t| && m.t[Last(m.left)].parent < Last(m.left)
    ensures |CloseLeft(m, line, preserve).left| < |m.left|
  {
  }

  lemma {:induction false} AllLeftRight(m: Mid, line: Line, preserve: bool)
    requires Right(m) && !Undercuts(m, line, preserve)
    ensures Right(CloseAllLeft(m, line, preserve))
    decreases |m.left|
  {
    hide Right, MidOk, Undercuts, CloseLeft;
    RightParts(m);
    if m.left != [] {
      CloseLeftOk(m, line, preserve);
      LeftRight(m, line, preserve);
      var n := CloseLeft(m, line, preserve);
      if Undercuts(n, line, preserve) { UndercutsBefore(m, line, preserve); }
      FewerLeft(m, line, preserve);
      AllLeftRight(n, line, preserve);
    }
  }

  // ---------------------------------------------------------------- the other steps

  lemma Remembers(t: Store, a: nat, c: nat)
    requires Spent(t, a) && OnChain(t, a, c)
    ensures Remembered(t, c)
  {
  }

  /** A block under one that is open and cool is cool. */
  lemma KidCool(t: Store, c: nat, b: nat)
    requires Tree(t) && c < |t| && !Warm(t, c) && !Closed(t, c) && b in t[c].children
    ensures b < |t| && !Warm(t, b)
  {
    hide Ends, Tree;
    KidsParent(t, c, b);
    if Remembered(t, b) {
      var a: nat :| Spent(t, a) && OnChain(t, a, b);
      if a != b {
        ChainBack(t, a, b);
        Remembers(t, a, c);
      }
    }
  }

  lemma PushRight(m: Mid, kind: Kind, fenced: bool)
    requires Right(m) && Last(m.spine) < |m.t| && CanContain(m.t[Last(m.spine)].kind, kind)
    ensures Right(Push(m, kind, fenced))
  {
    hide Settled, Remembered, Moves, Counted, Lagging, Warm, CanContain;
    RightParts(m);
    PushOk(m, kind, fenced);
    PushMoves(m, kind, fenced);
    if m.left != [] { PushLags(m, kind, fenced); }
    MovesRight(m, Push(m, kind, fenced));
  }

  lemma PushMoves(m: Mid, kind: Kind, fenced: bool)
    requires Right(m) && Last(m.spine) < |m.t| && MidOk(Push(m, kind, fenced))
    ensures Moves(m.t, Push(m, kind, fenced).t)
  {
    hide Settled, Counted, Lagging, KidsOk, Remembered, Hanging;
    RightParts(m);
    assert Last(m.spine) in m.spine;
  }

  lemma PushLags(m: Mid, kind: Kind, fenced: bool)
    requires Right(m) && Last(m.spine) < |m.t| && MidOk(Push(m, kind, fenced)) && m.left != []
    ensures Lagging(Push(m, kind, fenced))
  {
    hide Settled, Counted, Tree, Remembered, Warm, Lagging;
    var c, n := Last(m.spine), Push(m, kind, fenced);
    assert c in m.spine && |m.t| in n.spine;
    forall k | 0 <= k < |m.left| ensures n.t[m.left[k]].children == m.t[m.left[k]].children { assert m.left[k] in m.left; }
    if c != m.top { SameLags(m, n); } else { PushOnTop(m, n); }
  }

  /** Once the last matched block has a newer child it stays open. */
  lemma PushOnTop(m: Mid, n: Mid)
    requires MidOk(m) && MidOk(n) && m.left != [] && Lagging(m) && n.left == m.left && n.top == m.top && |n.t| >= |m.t|
    requires n.t[m.top].open && Last(n.spine) != m.top && forall x :: x in m.t[m.top].children ==> x in n.t[m.top].children
    requires forall k :: 0 <= k < |m.left| ==> n.t[m.left[k]].children == m.t[m.left[k]].children
    ensures Lagging(n)
  {
    hide Tree, Counted, Spine;
  }

  lemma HeadingRight(m: Mid)
    requires Right(m) && Last(m.spine) < |m.t| && m.t[Last(m.spine)].kind == Paragraph
    ensures Right(SetHeading(m))
  {
    hide Settled, Counted, Warm, Moves, Spine, Tree;
    RightParts(m);
    HeadingMoves(m);
    assert m.left != [] ==> Lagging(SetHeading(m));
    MovesRight(m, SetHeading(m));
  }

  lemma HeadingMoves(m: Mid)
    requires Right(m) && Last(m.spine) < |m.t| && m.t[Last(m.spine)].kind == Paragraph
    ensures Moves(m.t, SetHeading(m).t)
  {
    hide Settled, Counted, Lagging, KidsOk, Remembered, Hanging;
    RightParts(m);
  }

  lemma LineRight(m: Mid, b: nat)
    requires Right(m) && b < |m.t| && MidOk(m.(t := AddLine(m.t, b)))
    ensures Right(m.(t := AddLine(m.t, b)))
  {
    hide Settled, Counted, Warm, Moves, Spine, Tree, Lagging;
    RightParts(m);
    LineMoves(m.t, b);
    if m.left != [] { SameLags(m, m.(t := AddLine(m.t, b))); }
    MovesRight(m, m.(t := AddLine(m.t, b)));
  }

  lemma LineMoves(t: Store, b: nat)
    requires Tree(t) && b < |t| && Tree(AddLine(t, b))
    ensures Moves(t, AddLine(t, b))
  {
    hide Tree, Remembered;
  }

  /** The flag of a block that no finalized list asks about may change. */
  lemma FlagRight(m: Mid, b: nat, blank: bool)
    requires Right(m) && b < |m.t| && !Warm(m.t, b)
    ensures Right(m.(t := Flag(m.t, b, blank)))
  {
    hide Settled, Counted, Warm, Moves, Spine, Tree, Lagging;
    RightParts(m);
    BitsKeepMid(m, Flag(m.t, b, blank));
    FlagMoves(m.t, b, blank);
    if m.left != [] { SameLags(m, m.(t := Flag(m.t, b, blank))); }
    MovesRight(m, m.(t := Flag(m.t, b, blank)));
  }

  lemma FlagMoves(t: Store, b: nat, blank: bool)
    requires Tree(t) && b < |t| && !Warm(t, b) && Tree(Flag(t, b, blank))
    ensures Moves(t, Flag(t, b, blank))
  {
    hide Tree, Remembered;
  }

  lemma {:induction false} ClearRight(m: Mid, i: nat)
    requires Right(m) && i < |m.spine| && m.spine[i] < |m.t|
    ensures Right(m.(t := ClearAbove(m.t, m.spine[i])))
    decreases i
  {
    hide Settled, Counted, Warm, Hanging, Lagging;
    if i > 0 {
      SpineLink(m.t, m.spine, i - 1);
      assert m.spine[i - 1] in m.spine;
      FlagRight(m, m.spine[i - 1], false);
      ClearRight(m.(t := Flag(m.t, m.spine[i - 1], false)), i - 1);
    } else {
      RootParent(m.t);
    }
  }

  lemma NotedRight(m: Mid, line: Line, start: nat)
    requires Right(m)
    ensures Right(NotedMid(m, line, start))
  {
    hide Settled, Counted, Warm, Hanging, Lagging, ClearAbove, Spine, Tree, HeldAgainst;
    RightParts(m);
    var c := Last(m.spine);
    var n := m.(t := FlagLast(m.t, c, line.blank));
    LastRight(m, line.blank);
    RightParts(n);
    var o := n.(t := Flag(n.t, c, HeldAgainst(m.t, c, line, start)));
    FlagRight(n, c, HeldAgainst(m.t, c, line, start));
    RightParts(o);
    ClearRight(o, |o.spine| - 1);
  }

  lemma LastRight(m: Mid, blank: bool)
    requires Right(m) && Last(m.spine) < |m.t|
    ensures Right(m.(t := FlagLast(m.t, Last(m.spine), blank)))
  {
    hide Settled, Counted, Warm, Hanging, Lagging, Spine, Tree;
    RightParts(m);
    var c := Last(m.spine);
    assert c in m.spine && m.t[c].open;
    if blank && m.t[c].children != [] && Last(m.t[c].children) < |m.t| {
      KidCool(m.t, c, Last(m.t[c].children));
      FlagRight(m, Last(m.t[c].children), true);
    }
  }

  // ---------------------------------------------------------------- a line

  /** While something was not matched, a list that ends the path is the last block that matched. */
  ghost predicate ListOnTop(m: Mid)
    requires MidOk(m)
  {
    m.left != [] && m.t[Last(m.spine)].kind == List ==> Last(m.spine) == m.top
  }

  lemma ClimbedOut(m: Mid, kind: Kind)
    requires MidOk(m) && MayAdd(m, kind) && !CanContain(m.t[Last(m.spine)].kind, kind)
    ensures |m.spine| >= 2 && m.t[Last(m.spine)].kind != Item && m.t[Last(Init(m.spine))].kind != List
  {
    hide Counted, Hanging;
    RootTakesAll(m, kind);
    SpineLink(m.t, m.spine, |m.spine| - 2);
  }

  /** The climb of `add_child` finalizes a list only above what was not matched. */
  lemma {:induction false} AddChildRight(m: Mid, kind: Kind, fenced: bool, line: Line, preserve: bool)
    requires Right(m) && MayAdd(m, kind) && ListOnTop(m)
    ensures Right(AddChild(m, kind, fenced, line, preserve))
    decreases |m.spine|
  {
    hide Right, MidOk, MayAdd, CanContain, Finalized, Push, AddChild, CloseEnd;
    RightParts(m);
    AddChildStep(m, kind, fenced, line, preserve);
    if CanContain(m.t[Last(m.spine)].kind, kind) {
      PushRight(m, kind, fenced);
    } else {
      ClimbedOut(m, kind);
      var n := CloseEnd(m, line, preserve);
      if m.t[Last(m.spine)].kind == List { EndListRight(m, line, preserve); } else { EndRight(m, line, preserve); }
      EndOnTop(m, line, preserve);
      AddChildRight(n, kind, fenced, line, preserve);
    }
  }

  lemma EndOnTop(m: Mid, line: Line, preserve: bool)
    requires MidOk(m) && |m.spine| >= 2 && Last(m.spine) < |m.t| && m.t[Last(m.spine)].parent < Last(m.spine)
    requires m.t[Last(Init(m.spine))].kind != List && MidOk(CloseEnd(m, line, preserve))
    ensures ListOnTop(CloseEnd(m, line, preserve))
  {
    hide Tree, Counted, Hanging, Finalized;
    assert Last(Init(m.spine)) in m.spine;
    ShutKeeps(m.t, Last(m.spine), line, preserve, Last(Init(m.spine)));
  }

  lemma AddItemRight(m: Mid, joins: bool, line: Line, preserve: bool)
    requires Right(m) && ListOnTop(m)
    ensures var r := AddItem(m, joins, line, preserve); Right(r) && ListOnTop(r)
  {
    hide Right, MidOk, AddChild, Push;
    RightParts(m);
    var list := if m.t[Last(m.spine)].kind == List && joins then m else AddChild(m, List, false, line, preserve);
    if list != m { AddChildRight(m, List, false, line, preserve); }
    RightParts(list);
    AddChildStep(list, Item, false, line, preserve);
    PushRight(list, Item, false);
  }

  lemma OpenOneRight(m: Mid, s: Start, depth: nat, allMatched: bool, maybeLazy: bool, line: Line, preserve: bool)
    requires Right(m) && ValidStart(s) && ListOnTop(m)
    ensures var r := OpenOne(m, s, depth, allMatched, maybeLazy, line, preserve).0; Right(r) && ListOnTop(r)
  {
    hide Right, MidOk, AddChild, AddItem;
    RightParts(m);
    match s
    case Opens(kind, fenced) => AddChildRight(m, kind, fenced, line, preserve);
    case Underline(content) => if m.t[Last(m.spine)].kind == Paragraph { HeadingRight(m); HeadingOnTop(m); }
    case Marker(joins) => AddItemRight(m, joins, line, preserve);
    case Indented => AddChildRight(m, CodeBlock, false, line, preserve);
  }

  lemma HeadingOnTop(m: Mid)
    requires MidOk(m) && m.t[Last(m.spine)].kind == Paragraph
    ensures ListOnTop(SetHeading(m))
  {
  }

  lemma {:induction false} OpenNewRight(m: Mid, starts: seq<Start>, depth: nat, allMatched: bool, maybeLazy: bool, line: Line, preserve: bool)
    requires Right(m) && ListOnTop(m) && forall i :: 0 <= i < |starts| ==> ValidStart(starts[i])
    ensures Right(OpenNew(m, starts, depth, allMatched, maybeLazy, line, preserve))
    decreases |starts|
  {
    hide Right, MidOk, OpenOne, ListOnTop;
    RightParts(m);
    if starts != [] {
      var r := OpenOne(m, starts[0], depth, allMatched, maybeLazy, line, preserve).0;
      OpenOneRight(m, starts[0], depth, allMatched, maybeLazy, line, preserve);
      OpenNewRight(r, starts[1..], depth + 1, allMatched, false, line, preserve);
    }
  }

  lemma AddTextRight(m: Mid, line: Line, preserve: bool)
    requires Right(m) && !Undercuts(m, line, preserve)
    ensures var r := AddText(m, line, preserve); Right(Mid(r.0, r.1, [], m.top))
  {
    hide Right, MidOk, AddChild, Undercuts, CloseAllLeft, CloseEnd, AddLine;
    RightParts(m);
    AllLeftRight(m, line, preserve);
    var n := CloseAllLeft(m, line, preserve);
    RightParts(n);
    var c := Last(n.spine);
    LineKeeps(n, c);
    LineRight(n, c);
    if n.t[c].kind == HtmlBlock {
      if line.htmlEnd { HtmlEndRight(n, line, preserve); }
    } else if n.t[c].kind != CodeBlock && !AcceptsLines(n.t[c].kind) && (!line.blank || preserve) {
      ParagraphRight(n, line, preserve);
    }
  }

  lemma HtmlEndRight(n: Mid, line: Line, preserve: bool)
    requires Right(n) && Last(n.spine) < |n.t| && n.left == [] && n.t[Last(n.spine)].kind == HtmlBlock
    requires var u := n.(t := AddLine(n.t, Last(n.spine))); MidOk(u) && Right(u)
    ensures var u := n.(t := AddLine(n.t, Last(n.spine)));
            |u.spine| >= 2 && Last(u.spine) < |u.t| && u.t[Last(u.spine)].parent < Last(u.spine)
            && var v := CloseEnd(u, line, preserve); Right(v) && v == Mid(v.t, v.spine, [], n.top)
  {
    hide Right, MidOk;
    RightParts(n);
    HtmlIsNoRoot(n);
    var u := n.(t := AddLine(n.t, Last(n.spine)));
    CloseEndOk(u, line, preserve);
    EndRight(u, line, preserve);
  }

  lemma ParagraphRight(n: Mid, line: Line, preserve: bool)
    requires Right(n) && n.left == [] && MayAdd(n, Paragraph)
    ensures var p := AddChild(n, Paragraph, false, line, preserve);
            MidOk(p) && p.left == [] && Last(p.spine) < |p.t| && Right(p.(t := AddLine(p.t, Last(p.spine))))
  {
    hide Right, MidOk, AddChild;
    RightParts(n);
    AddChildRight(n, Paragraph, false, line, preserve);
    var p := AddChild(n, Paragraph, false, line, preserve);
    RightParts(p);
    LineKeeps(p, Last(p.spine));
    LineRight(p, Last(p.spine));
  }

  /** Finalized lists are right between lines. */
  ghost predicate Tidy(t: Store, path: seq<nat>) {
    Valid(t, path) && Right(Mid(t, path, [], ROOT))
  }

  lemma AnyTop(t: Store, path: seq<nat>, top: nat, other: nat)
    requires Right(Mid(t, path, [], top)) && other < |t|
    ensures Right(Mid(t, path, [], other))
  {
    hide Settled, Warm, Remembered, Tree, Counted, Spine;
  }

  /** Where a line leaves the path, what is below is still last in everything above. */
  lemma MatchedRight(t: Store, path: seq<nat>, j: nat)
    requires Tidy(t, path) && j < |path|
    ensures Right(Matched(t, path, j)) && ListOnTop(Matched(t, path, j))
  {
    hide Settled, Warm, MidOk, Valid, Lagging, Remembered;
    var m := Matched(t, path, j);
    MatchedEnd(t, path, j);
    forall b | b in path ensures b < |t| && !Warm(t, b) && !Remembered(t, b) { PathInRange(t, path); NotWarm(t, b); }
    if m.left != [] { MatchedLags(t, path, j); }
  }

  lemma MatchedEnd(t: Store, path: seq<nat>, j: nat)
    requires Valid(t, path) && j < |path|
    ensures var m := Matched(t, path, j);
            m.spine != [] && m.top in path && Last(m.spine) == m.top && (forall b :: b in m.spine || b in m.left ==> b in path)
  {
    hide Tree, Counted, Spine;
    assert path[j] in path;
    var m := Matched(t, path, j);
    assert forall b :: b in m.spine || b in m.left ==> b in m.spine + m.left;
  }

  lemma NotWarm(t: Store, b: nat)
    requires b < |t| && !Warm(t, b)
    ensures !Remembered(t, b)
  {
    hide Remembered;
  }

  lemma MatchedLags(t: Store, path: seq<nat>, j: nat)
    requires Valid(t, path) && j + 1 < |path|
    ensures Lagging(Matched(t, path, j))
  {
    hide MidOk, Valid;
    PathInRange(t, path);
    PathDown(t, path);
    assert path[j + 1] in t[path[j]].children;
  }

  lemma PathDown(t: Store, path: seq<nat>)
    requires Valid(t, path)
    ensures forall i :: 0 <= i < |path| - 1 ==> path[i] < |t| && EndsWith(t, path[i], path[i + 1])
  {
    hide Tree, Counted;
  }

  /** The line frees a paragraph of definitions below a list that the line itself has finalized: it opened a block
      under the list's parent, and did not match the list's last item. */
  ghost predicate LineUndercuts(t: Store, path: seq<nat>, line: Line, preserve: bool)
    requires Valid(t, path) && ValidLine(line)
  {
    var j := MatchDepth(t, path, line, 0);
    && !(j + 1 < |path| && ClosesFence(t[path[j + 1]], j + 1, line))
    && var r := OpenNew(Matched(t, path, j), line.starts, 1, j + 1 == |path|, t[Last(path)].kind == Paragraph, line, preserve);
       Undercuts(r, line, preserve)
  }

  lemma NotedUndercuts(m: Mid, line: Line, start: nat, preserve: bool)
    requires MidOk(m) && Undercuts(NotedMid(m, line, start), line, preserve)
    ensures Undercuts(m, line, preserve)
  {
    hide Tree, Counted, Spine, Noted;
  }

  lemma RestRight(t: Store, path: seq<nat>, j: nat, line: Line, preserve: bool)
    requires Tidy(t, path) && ValidLine(line) && j < |path|
    requires !Undercuts(OpenNew(Matched(t, path, j), line.starts, 1, j + 1 == |path|, t[Last(path)].kind == Paragraph, line, preserve), line, preserve)
    ensures var r := RestOfLine(t, path, j, line, preserve); Tidy(r.0, r.1)
  {
    hide Right, MidOk, Valid, OpenNew, AddText, Undercuts, Matched, NotedMid, ListOnTop, AddLine, SameShape;
    var m := Matched(t, path, j);
    PathInRange(t, path);
    var lazy := t[Last(path)].kind == Paragraph;
    MatchedRight(t, path, j);
    RightParts(m);
    var r := OpenNew(m, line.starts, 1, j + 1 == |path|, lazy, line, preserve);
    OpenNewRight(m, line.starts, 1, j + 1 == |path|, lazy, line, preserve);
    var n := NotedMid(r, line, |t|);
    NotedRight(r, line, |t|);
    if Undercuts(n, line, preserve) { NotedUndercuts(r, line, |t|, preserve); }
    ShapeTrans(m, r, n);
    TextRight(t, path, m, n, line, preserve);
  }

  lemma TextRight(t: Store, path: seq<nat>, m: Mid, r: Mid, line: Line, preserve: bool)
    requires Tidy(t, path) && m.t == t && m.spine + m.left == path
    requires Right(r) && r.left == m.left && r.top == m.top && |r.t| >= |m.t| && m.top < |m.t| && !Undercuts(r, line, preserve)
    requires Last(r.spine) >= |m.t| || (r.spine == m.spine && SameShape(t, r.t))
    ensures var s := TextOf(t, path, m, r, line, preserve); Tidy(s.0, s.1)
  {
    hide Right, MidOk, Valid, AddText, Undercuts, AddLine, SameShape;
    RightParts(r);
    if IsLazy(r, line, preserve) {
      LazyRight(t, path, m, r);
    } else {
      AddTextRight(r, line, preserve);
      var s := AddText(r, line, preserve);
      PathInRange(s.0, s.1);
      AnyTop(s.0, s.1, r.top, ROOT);
    }
  }

  /** The path is as before: nothing was closed. */
  lemma LazyRight(t: Store, path: seq<nat>, m: Mid, r: Mid)
    requires Tidy(t, path) && m.t == t && m.spine + m.left == path
    requires Right(r) && r.left == m.left && r.left != [] && r.spine == m.spine && SameShape(t, r.t)
    ensures var s := ContinueLazily(t, path, m, r); Tidy(s.0, s.1)
  {
    hide Valid, AddLine, Settled, Remembered, Tree, Spine, Counted, Lagging;
    RightParts(r);
    LazyOk(t, path, m, r);
    var b := Last(r.left);
    LineWhole(r, b);
    LineRight(r, b);
    var n := r.(t := AddLine(r.t, b));
    Rejoined(n, path);
  }

  lemma LineWhole(m: Mid, b: nat)
    requires MidOk(m) && b < |m.t|
    ensures MidOk(m.(t := AddLine(m.t, b)))
  {
    hide CanContain;
    forall x | 0 <= x < |m.t| ensures KidsOk(AddLine(m.t, b), x) { assert KidsOk(m.t, x); }
  }

  lemma Rejoined(n: Mid, path: seq<nat>)
    requires Right(n) && n.left != [] && path == n.spine + n.left && Valid(n.t, path)
    ensures Tidy(n.t, path)
  {
    hide Tree, Settled, Remembered, Counted, Spine;
    PathInRange(n.t, path);
    WholeMid(n.t, path);
    forall b | b in path ensures !Warm(n.t, b) {
      OpenPath(n.t, path, b);
    }
  }

  /** No block of the path is an item of a finalized list: the block above it is open. */
  lemma OpenPath(t: Store, path: seq<nat>, b: nat)
    requires Valid(t, path) && b in path
    ensures !ItemOfClosed(t, b)
  {
    hide KidsOk, Counted;
    var i: nat :| i < |path| && path[i] == b;
    if i > 0 {
      SpineLink(t, path, i - 1);
      assert path[i - 1] in path;
    }
  }

  lemma WholeMid(t: Store, path: seq<nat>)
    requires Valid(t, path)
    ensures MidOk(Mid(t, path, [], ROOT))
  {
  }

  lemma LineTidy(t: Store, path: seq<nat>, line: Line, preserve: bool)
    requires Tidy(t, path) && ValidLine(line) && !LineUndercuts(t, path, line, preserve)
    ensures var r := ProcessLine(t, path, line, preserve); Tidy(r.0, r.1)
  {
    hide Right, MidOk, Valid, OpenNew, Undercuts, Matched, RestOfLine, CloseCurrent;
    PathInRange(t, path);
    var j := MatchDepth(t, path, line, 0);
    if j + 1 < |path| && ClosesFence(t[path[j + 1]], j + 1, line) {
      CodeIsLast(t, path, j + 1);
      CurrentRight(t, path, line, preserve);
    } else {
      RestRight(t, path, j, line, preserve);
    }
  }

  /** Closing the end of the path, with nothing else open below it. */
  lemma CurrentRight(t: Store, path: seq<nat>, line: Line, preserve: bool)
    requires Tidy(t, path) && |path| >= 2
    ensures var r := CloseCurrent(t, path, line, preserve); Tidy(r.0, r.1)
  {
    hide Right, MidOk, Valid, Finalized;
    var m := Mid(t, path, [], Last(path));
    PathInRange(t, path);
    WholeOk(t, path);
    AnyTop(t, path, ROOT, Last(path));
    CloseEndOk(m, line, preserve);
    if t[Last(path)].kind == List { EndListRight(m, line, preserve); } else { EndRight(m, line, preserve); }
    var r := CloseCurrent(t, path, line, preserve);
    PathInRange(r.0, r.1);
    AnyTop(r.0, r.1, Last(path), ROOT);
  }

  // ---------------------------------------------------------------- whole runs

  /** No line frees a paragraph of definitions below a list finalized before it. */
  ghost predicate NoneUndercuts(lines: seq<Line>, preserve: bool)
    requires ValidLines(lines)
  {
    lines == [] || (NoneUndercuts(Init(lines), preserve)
                    && var r := ProcessLines(Init(lines), preserve); !LineUndercuts(r.0, r.1, Last(lines), preserve))
  }

  /** Then every list finalized so far is tight exactly when no blank line separates its items or blocks in them. */
  lemma {:induction false} LinesTidy(lines: seq<Line>, preserve: bool)
    requires ValidLines(lines) && NoneUndercuts(lines, preserve)
    ensures var r := ProcessLines(lines, preserve); Tidy(r.0, r.1)
  {
    hide Tidy, Valid, ProcessLine, LineUndercuts;
    if lines == [] {
      FreshTidy();
    } else {
      LinesTidy(Init(lines), preserve);
      var r := ProcessLines(Init(lines), preserve);
      LineTidy(r.0, r.1, Last(lines), preserve);
    }
  }

  lemma FreshTidy()
    ensures Tidy(FRESH_STORE, [ROOT])
  {
  }

  lemma {:induction false} FinishTidy(t: Store, path: seq<nat>, end: Line, preserve: bool)
    requires Tidy(t, path)
    ensures Settled(FinishFrom(t, path, end, preserve))
    decreases |path|
  {
    hide Valid, Right, CloseCurrent, Finalized, Settled;
    PathInRange(t, path);
    if |path| == 1 {
      TidySettled(t, path);
      RootIsDocument(t);
      ShutMoves(t, ROOT, end, preserve);
      MovesKeep(t, Finalized(t, ROOT, end, preserve));
    } else {
      CurrentRight(t, path, end, preserve);
      var r := CloseCurrent(t, path, end, preserve);
      FinishTidy(r.0, r.1, end, preserve);
    }
  }

  lemma TidySettled(t: Store, path: seq<nat>)
    requires Tidy(t, path)
    ensures Settled(t) && Tree(t)
  {
  }

  lemma RootIsDocument(t: Store)
    requires Tree(t)
    ensures t != [] && t[ROOT].kind == Document && t[ROOT].parent < 0
  {
  }

  /** In a parsed document a list is tight exactly when no blank line separates two of its items or two blocks in
      one, if no line freed a paragraph of definitions below a list that it had finalized. */
  lemma ParsedTight(lines: seq<Line>, end: Line, preserve: bool)
    requires ValidLines(lines) && NoneUndercuts(lines, preserve)
    ensures var t := ParsedDocument(lines, end, preserve);
            Tree(t) && forall l: nat :: l < |t| && t[l].kind == List ==> (t[l].tight <==> !Loose(t, l))
  {
    hide Tidy, Valid, Loose;
    LinesTidy(lines, preserve);
    var r := ProcessLines(lines, preserve);
    FinishTidy(r.0, r.1, end, preserve);
  }

  // ---------------------------------------------------------------- the failing case exactly

  /** A blank line separates the `i`-th item of the list from the next, or two blocks in it, also without the last
      block of the last item. */
  ghost predicate PartedItem(t: Store, l: nat, i: nat)
    requires Tree(t) && l < |t| && i < |t[l].children|
  {
    InStore(t, l, i);
    (t[t[l].children[i]].blank && i + 1 < |t[l].children|)
    || exists j :: 0 <= j < |Items(t, l, i)| && (i + 1 < |t[l].children| || j + 2 < |Items(t, l, i)|) && Ends(t, Items(t, l, i)[j])
  }

  ghost predicate Parted(t: Store, l: nat)
    requires Tree(t) && l < |t|
  {
    exists i :: 0 <= i < |t[l].children| && PartedItem(t, l, i)
  }

  ghost predicate AllRight(t: Store)
    requires Tree(t)
  {
    forall l: nat :: Closed(t, l) ==> (t[l].tight <==> !Loose(t, l))
  }

  /** The links of `u` are those of `t`, but that block `p` has lost its last child `b`, which is freed. */
  ghost predicate LostLast(t: Store, u: Store, p: nat, b: nat)
    requires p < |t| && b < |t|
  {
    && |u| == |t| && EndsWith(t, p, b) && u[p].children == Init(t[p].children)
    && forall x: nat :: x < |t| ==>
         (&& u[x].kind == t[x].kind && u[x].blank == t[x].blank && u[x].tight == t[x].tight
          && (Closed(u, x) <==> Closed(t, x)) && (x != p ==> u[x].children == t[x].children))
  }

  lemma {:induction false} LostEnds(t: Store, u: Store, p: nat, b: nat, a: nat)
    requires p < |t| && b < |t| && a < |t| && LostLast(t, u, p, b) && !OnChain(t, a, p)
    ensures Ends(t, a) == Ends(u, a)
    decreases |t| - a
  {
    assert a != p && u[a].children == t[a].children;
    if GoesOn(t, a) { LostEnds(t, u, p, b, Last(t[a].children)); }
  }

  /** A chain that was asked about does not come to the item. */
  lemma LostAsked(t: Store, u: Store, p: nat, b: nat, a: nat)
    requires p < |t| && b < |t| && LostLast(t, u, p, b) && Spent(t, a) && !Remembered(t, p)
    ensures a < |t| && Ends(t, a) == Ends(u, a)
  {
    hide Ends, LostLast, Followed;
    SpentRange(t, a);
    if OnChain(t, a, p) { Remembers(t, a, p); }
    LostEnds(t, u, p, b, a);
  }

  lemma LostItem(t: Store, u: Store, p: nat, b: nat, l: nat, i: nat)
    requires Tree(t) && Tree(u) && p < |t| && b < |t| && LostLast(t, u, p, b) && !Remembered(t, p)
    requires Closed(t, l) && l != p && i < |t[l].children| && (t[l].children[i] == p ==> i + 1 == |t[l].children|)
    ensures i < |u[l].children| && (LooseItem(u, l, i) <==> if t[l].children[i] == p then PartedItem(t, l, i) else LooseItem(t, l, i))
  {
    hide Ends, Remembered, Tree, Followed;
    InStore(t, l, i);
    InStore(u, l, i);
    var item := t[l].children[i];
    var kids, less := Items(t, l, i), Items(u, l, i);
    assert less == if item == p then Init(kids) else kids;
    forall j: nat | j < |kids| && HasNext(t, l, i, j) ensures Ends(t, kids[j]) == Ends(u, kids[j]) {
      KidFollowed(t, l, i, j);
      LostAsked(t, u, p, b, kids[j]);
    }
    assert forall j: nat :: j < |less| ==> (HasNext(u, l, i, j) <==> i + 1 < |t[l].children| || j + 1 < |less|) && less[j] == kids[j];
  }

  /** Then list `l`, whose last item that is, is loose exactly if a blank line stands elsewhere in it; the other
      finalized lists are loose as before. */
  lemma LostLoose(t: Store, u: Store, p: nat, b: nat, l: nat, x: nat)
    requires Tree(t) && Tree(u) && p < |t| && b < |t| && LostLast(t, u, p, b) && !Remembered(t, p) && t[p].kind == Item
    requires l < |t| && t[p].parent == l && EndsWith(t, l, p) && Closed(t, x)
    ensures Loose(u, x) <==> if x == l then Parted(t, l) else Loose(t, x)
  {
    hide Ends, Remembered, Followed, LooseItem, PartedItem, KidsOk;
    Kids(t, x);
    assert u[x].children == t[x].children;
    forall i: nat | i < |t[x].children|
      ensures LooseItem(u, x, i) <==> if x == l then PartedItem(t, l, i) else LooseItem(t, x, i)
    {
      LostItem(t, u, p, b, x, i);
      if t[x].children[i] != p && x == l { NotTheLast(t, l, i); }
    }
  }

  lemma NotTheLast(t: Store, l: nat, i: nat)
    requires Tree(t) && l < |t| && i + 1 < |t[l].children|
    ensures LooseItem(t, l, i) <==> PartedItem(t, l, i)
  {
    hide Ends, Tree;
  }

  /** The block before the last in the last item of a list. */
  ghost function Penultimate(t: Store, l: nat): (q: nat)
    requires Tree(t) && l < |t| && t[l].children != [] && |Items(t, l, |t[l].children| - 1)| >= 2
    ensures q < |t|
  {
    InStore(t, l, |t[l].children| - 1);
    var kids := Items(t, l, |t[l].children| - 1);
    kids[|kids| - 2]
  }

  lemma PartedWith(t: Store, l: nat)
    requires Tree(t) && l < |t| && t[l].children != [] && |Items(t, l, |t[l].children| - 1)| >= 2
    ensures Loose(t, l) <==> Parted(t, l) || Ends(t, Penultimate(t, l))
  {
    hide Ends, Tree;
    var n := |t[l].children| - 1;
    forall i: nat | i < n ensures LooseItem(t, l, i) <==> PartedItem(t, l, i) { NotTheLast(t, l, i); }
    InStore(t, l, n);
    LastLoose(t, l, n);
  }

  lemma LastLoose(t: Store, l: nat, n: nat)
    requires Tree(t) && l < |t| && n + 1 == |t[l].children| && |Items(t, l, n)| >= 2
    ensures LooseItem(t, l, n) <==> PartedItem(t, l, n) || Ends(t, Penultimate(t, l))
  {
    hide Ends, Tree;
    var kids := Items(t, l, n);
    InStore(t, l, n);
    assert HasNext(t, l, n, |kids| - 2);
    if LooseItem(t, l, n) && !Ends(t, Penultimate(t, l)) {
      var j: nat :| j < |kids| && HasNext(t, l, n, j) && Ends(t, kids[j]);
      assert j != |kids| - 2;
    }
  }

  lemma FreeingLoses(m: Mid, line: Line, preserve: bool)
    requires Right(m) && |m.left| == 2 && Undercuts(m, line, preserve) && m.left[1] < |m.t| && m.t[m.left[1]].parent < m.left[1]
    ensures m.left[0] < |m.t| && m.t[m.left[0]].kind == Item && m.t[m.left[0]].parent == m.top && EndsWith(m.t, m.top, m.left[0])
    ensures LostLast(m.t, CloseLeft(m, line, preserve).t, m.left[0], m.left[1])
  {
    hide Settled, Tree, Counted, Spine, Remembered;
    RightParts(m);
    KidsParent(m.t, m.top, m.left[0]);
    KidsOf(m.t, m.top);
    Kids(m.t, m.left[0]);
    MinusLast(m.t[m.left[0]].children);
  }

  lemma KidsOf(t: Store, b: nat)
    requires Tree(t) && b < |t|
    ensures forall c :: c in t[b].children ==> c < |t| && CanContain(t[b].kind, t[c].kind)
  {
    assert KidsOk(t, b);
  }

  lemma {:induction false} MinusNone(s: seq<nat>, b: nat)
    requires b !in s
    ensures Minus(s, b) == s
  {
    if s != [] { MinusNone(Init(s), b); }
  }

  lemma MinusLast(s: seq<nat>)
    requires s != [] && Distinct(s)
    ensures Minus(s, Last(s)) == Init(s)
  {
    MinusNone(Init(s), Last(s));
  }

  /** In that case finalized lists stay right exactly if no blank line ends the block before the paragraph, or some
      other blank line makes the list loose anyway. */
  lemma UndercutExact(m: Mid, line: Line, preserve: bool)
    requires Right(m) && |m.left| == 2 && Undercuts(m, line, preserve)
    ensures Last(m.left) < |m.t| && m.t[Last(m.left)].parent < Last(m.left)
    ensures m.t[m.top].children != [] && |Items(m.t, m.top, |m.t[m.top].children| - 1)| >= 2
    ensures var u := CloseLeft(m, line, preserve).t;
            Tree(u) && (AllRight(u) <==> (Ends(m.t, Penultimate(m.t, m.top)) ==> Parted(m.t, m.top)))
  {
    hide Settled, Ends, Loose, Parted, Counted, Spine, Remembered, CloseLeft, KidsOk;
    RightParts(m);
    CloseLeftOk(m, line, preserve);
    FreeingLoses(m, line, preserve);
    var t, u, l, p, b := m.t, CloseLeft(m, line, preserve).t, m.top, m.left[0], m.left[1];
    assert p in m.left;
    PartedWith(t, l);
    forall x: nat | Closed(u, x) ensures Closed(t, x) && u[x].tight == t[x].tight && (t[x].tight <==> !Loose(t, x))
      && (Loose(u, x) <==> if x == l then Parted(t, l) else Loose(t, x))
    {
      SettledList(t, x);
      LostLoose(t, u, p, b, l, x);
    }
    assert Closed(u, l);
  }
}
