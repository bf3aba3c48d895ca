/** Tight and loose lists: `S_ends_with_blank_line` with its memo bit, and the LIST case of `finalize`. */
module ListTight {
  import opened NodeKinds
  import opened Lists
  import opened Blocks

  // ---------------------------------------------------------------- what is meant

  /** Whether a block ends with a blank line is for its last child to say. */
  predicate GoesOn(t: Store, b: nat)
    requires b < |t|
  {
    (t[b].kind == List || t[b].kind == Item) && t[b].children != [] && b < Last(t[b].children) < |t|
  }

  predicate Ends(t: Store, b: nat)
    requires b < |t|
    decreases |t| - b
  {
    if GoesOn(t, b) then Ends(t, Last(t[b].children)) else t[b].blank
  }

  /** The `j`-th block of the `i`-th item of a list. */
  ghost function Within(t: Store, l: nat, i: nat, j: nat): nat
    requires Tree(t) && l < |t| && i < |t[l].children| && j < |Items(t, l, i)|
  {
    Items(t, l, i)[j]
  }

  ghost function Items(t: Store, l: nat, i: nat): seq<nat>
    requires Tree(t) && l < |t| && i < |t[l].children|
  {
    Kids(t, l);
    t[t[l].children[i]].children
  }

  lemma InStore(t: Store, l: nat, i: nat)
    requires Tree(t) && l < |t| && i < |t[l].children|
    ensures t[l].children[i] < |t| && forall j :: 0 <= j < |Items(t, l, i)| ==> Items(t, l, i)[j] < |t|
  {
    Kids(t, l);
    Kids(t, t[l].children[i]);
  }

  /** Something follows the block in its list. */
  ghost predicate HasNext(t: Store, l: nat, i: nat, j: nat)
    requires Tree(t) && l < |t| && i < |t[l].children|
  {
    i + 1 < |t[l].children| || j + 1 < |Items(t, l, i)|
  }

  /** A blank line separates the item from the next, or two blocks in it. */
  ghost predicate LooseItem(t: Store, l: nat, i: nat)
    requires Tree(t) && l < |t| && i < |t[l].children|
  {
    InStore(t, l, i);
    (t[t[l].children[i]].blank && i + 1 < |t[l].children|)
    || exists j :: 0 <= j < |Items(t, l, i)| && HasNext(t, l, i, j) && Ends(t, Items(t, l, i)[j])
  }

  ghost predicate Loose(t: Store, l: nat)
    requires Tree(t) && l < |t|
  {
    exists i :: 0 <= i < |t[l].children| && LooseItem(t, l, i)
  }

  // ---------------------------------------------------------------- the code: asking

  /** What the code answers. */
  predicate Answer(t: Store, b: nat)
    requires b < |t|
    decreases |t| - b
  {
    if t[b].checked || !GoesOn(t, b) then t[b].blank else Answer(t, Last(t[b].children))
  }

  function Check(t: Store, b: nat): Store
    requires b < |t|
  {
    t[b := t[b].(checked := true)]
  }

  /** The bits it leaves. */
  function Asked(t: Store, b: nat): (u: Store)
    requires b < |t|
    ensures SameTree(t, u)
    decreases |t| - b
  {
    if t[b].checked then t
    else if GoesOn(t, b) then Asked(Check(t, b), Last(t[b].children))
    else Check(t, b)
  }

  /** The same but for memo bits and tightness. */
  ghost predicate SameTree(t: Store, u: Store) {
    |t| == |u| && forall b :: 0 <= b < |t| ==> u[b] == t[b].(checked := u[b].checked, tight := u[b].tight)
  }

  /** The inner loop, from the `j`-th block of an item on. */
  function AskKids(t: Store, kids: seq<nat>, last: bool, j: nat): (r: (bool, Store))
    requires j <= |kids|
    ensures SameTree(t, r.1)
    decreases |kids| - j
  {
    if j == |kids| then (false, t)
    else if (last && j + 1 == |kids|) || kids[j] >= |t| then AskKids(t, kids, last, j + 1)
    else if Answer(t, kids[j]) then (true, Asked(t, kids[j]))
    else AskKids(Asked(t, kids[j]), kids, last, j + 1)
  }

  /** The outer loop, from the `i`-th item on. */
  function AskItems(t: Store, items: seq<nat>, i: nat): (r: (bool, Store))
    requires i <= |items|
    ensures SameTree(t, r.1)
    decreases |items| - i
  {
    if i == |items| then (false, t)
    else if items[i] >= |t| then AskItems(t, items, i + 1)
    else if t[items[i]].blank && i + 1 < |items| then (true, t)
    else
      var r := AskKids(t, t[items[i]].children, i + 1 == |items|, 0);
      if r.0 then r else AskItems(r.1, items, i + 1)
  }

  /** The LIST case of `finalize`. */
  function Decided(t: Store, l: nat): (u: Store)
    requires l < |t|
    ensures SameTree(t, u)
  {
    var r := AskItems(t, t[l].children, 0);
    r.1[l := r.1[l].(tight := !r.0)]
  }

  lemma SameIsTree(t: Store, u: Store)
    requires Tree(t) && SameTree(t, u)
    ensures Tree(u) && SameButBits(t, u)
  {
    BitsKeepTree(t, u);
  }

  // ---------------------------------------------------------------- the chains that are walked

  /** Asking about `a` may come to `c`. */
  ghost predicate OnChain(t: Store, a: nat, c: nat)
    requires a < |t|
    decreases |t| - a
  {
    a == c || (GoesOn(t, a) && OnChain(t, Last(t[a].children), c))
  }

  /** A block in an item, with something behind it in the list. */
  ghost predicate Followed(t: Store, a: nat) {
    && a < |t| && 0 <= t[a].parent < |t|
    && var item := t[a].parent;
    && t[item].kind == Item && 0 <= t[item].parent < |t|
    && var l := t[item].parent;
    && t[l].kind == List && t[item].children != [] && t[l].children != []
    && a in t[item].children && item in t[l].children
    && (Last(t[item].children) != a || Last(t[l].children) != item)
  }

  ghost function ListOf(t: Store, a: nat): int {
    if a < |t| && 0 <= t[a].parent < |t| then t[t[a].parent].parent else -1
  }

  lemma {:induction false} ChainBack(t: Store, a: nat, c: nat)
    requires Tree(t) && a < |t| && OnChain(t, a, c) && c != a
    ensures a < c < |t| && 0 <= t[c].parent < |t| && OnChain(t, a, t[c].parent)
    ensures GoesOn(t, t[c].parent) && c == Last(t[t[c].parent].children)
    decreases |t| - a
  {
    Kids(t, a);
    var n := Last(t[a].children);
    if c != n { ChainBack(t, n, c); }
  }

  /** Chains that meet run into one another. */
  lemma {:induction false} ChainsMeet(t: Store, a: nat, b: nat, c: nat)
    requires Tree(t) && a < |t| && b < |t| && OnChain(t, a, c) && OnChain(t, b, c)
    ensures OnChain(t, a, b) || OnChain(t, b, a)
    decreases |t| - a + |t| - b
  {
    if c != a && c != b {
      Kids(t, a);
      Kids(t, b);
      var n, m := Last(t[a].children), Last(t[b].children);
      ChainsMeet(t, n, m, c);
      if n != m && OnChain(t, n, m) { ChainBack(t, n, m); }
      if n != m && OnChain(t, m, n) { ChainBack(t, m, n); }
    }
  }

  lemma NotThroughFollowed(t: Store, a: nat, b: nat)
    requires Tree(t) && Followed(t, a) && Followed(t, b) && a != b
    ensures !OnChain(t, a, b)
  {
    if OnChain(t, a, b) {
      ChainBack(t, a, b);
      assert KidsOk(t, t[a].parent);
      if a != t[b].parent { ChainBack(t, a, t[b].parent); }
    }
  }

  /** So no block is come to from two blocks that are asked about. */
  lemma AskedOnce(t: Store, a: nat, b: nat, c: nat)
    requires Tree(t) && Followed(t, a) && Followed(t, b) && a != b
    ensures !(OnChain(t, a, c) && OnChain(t, b, c))
  {
    if OnChain(t, a, c) && OnChain(t, b, c) {
      ChainsMeet(t, a, b, c);
      NotThroughFollowed(t, a, b);
      NotThroughFollowed(t, b, a);
    }
  }

  lemma {:induction false} SameChain(t: Store, u: Store, a: nat)
    requires SameTree(t, u) && a < |t|
    ensures Ends(t, a) == Ends(u, a) && forall c: nat :: OnChain(t, a, c) <==> OnChain(u, a, c)
    decreases |t| - a
  {
    assert u[a].children == t[a].children && u[a].kind == t[a].kind;
    if GoesOn(t, a) { SameChain(t, u, Last(t[a].children)); }
  }

  /** Only bits on the chain are set, and the answer depends on these alone. */
  lemma {:induction false} AskedOnChain(t: Store, b: nat)
    requires b < |t|
    ensures var u := Asked(t, b); forall c: nat :: c < |t| ==> u[c].tight == t[c].tight && (u[c].checked ==> t[c].checked || OnChain(t, b, c))
    ensures forall c: nat :: c < |t| && t[c].checked ==> Asked(t, b)[c].checked
    decreases |t| - b
  {
    if !t[b].checked && GoesOn(t, b) {
      var u, n := Check(t, b), Last(t[b].children);
      AskedOnChain(u, n);
      SameChain(t, u, n);
    }
  }

  lemma {:induction false} SameAnswer(t: Store, u: Store, b: nat)
    requires SameTree(t, u) && b < |t| && forall c: nat :: c < |t| && OnChain(t, b, c) ==> (u[c].checked <==> t[c].checked)
    ensures Answer(t, b) == Answer(u, b)
    decreases |t| - b
  {
    assert OnChain(t, b, b) && u[b].children == t[b].children && u[b].kind == t[b].kind;
    if GoesOn(t, b) { SameAnswer(t, u, Last(t[b].children)); }
  }

  /** Where no bit is set on the way, the answer is the right one. */
  lemma {:induction false} FreshAnswer(t: Store, b: nat)
    requires b < |t| && forall c: nat :: c < |t| && OnChain(t, b, c) ==> !t[c].checked
    ensures Answer(t, b) == Ends(t, b)
    decreases |t| - b
  {
    assert OnChain(t, b, b);
    if GoesOn(t, b) { FreshAnswer(t, Last(t[b].children)); }
  }

  /** In general it is the flag of the first block on the way whose bit is set, and right if and only if that
      flag says how that block ends. */
  lemma {:induction false} AnswerExact(t: Store, b: nat) returns (c: nat)
    requires b < |t|
    ensures c < |t| && OnChain(t, b, c) && (t[c].checked || !GoesOn(t, c)) && Answer(t, b) == t[c].blank
    ensures Ends(t, b) == Ends(t, c)
    ensures Answer(t, b) == Ends(t, b) <==> t[c].blank == Ends(t, c)
    decreases |t| - b
  {
    if t[b].checked || !GoesOn(t, b) { c := b; } else { c := AnswerExact(t, Last(t[b].children)); }
  }

  lemma {:induction false} ChainUp(t: Store, a: nat, c: nat)
    requires a < |t| && OnChain(t, a, c)
    ensures a <= c < |t|
    decreases |t| - a
  {
    if a != c { ChainUp(t, Last(t[a].children), c); }
  }

  /** Setting the bit of a block does not change what its last child answers. */
  lemma CheckedAnswer(t: Store, b: nat)
    requires b < |t| && GoesOn(t, b)
    ensures Answer(Check(t, b), Last(t[b].children)) == Answer(t, Last(t[b].children))
  {
    var n := Last(t[b].children);
    forall c: nat | c < |t| && OnChain(t, n, c) ensures Check(t, b)[c].checked <==> t[c].checked { ChainUp(t, n, c); }
    SameAnswer(t, Check(t, b), n);
  }

  /** Asked twice, a list or item answers its own flag, whatever its last child says. */
  lemma SecondAnswer(t: Store, b: nat)
    requires b < |t|
    ensures Answer(Asked(t, b), b) == t[b].blank
  {
    CheckedSelf(t, b);
  }

  lemma {:induction false} CheckedSelf(t: Store, b: nat)
    requires b < |t|
    ensures Asked(t, b)[b].checked
  {
    if !t[b].checked && GoesOn(t, b) { AskedOnChain(Check(t, b), Last(t[b].children)); }
  }

  // ---------------------------------------------------------------- what a list is found to be

  /** `a` is among the blocks of the items before the `i`-th, or of the first `j` of the `i`-th. */
  ghost predicate Before(t: Store, l: nat, a: nat, i: nat, j: nat)
    requires Tree(t) && l < |t|
  {
    exists m, n :: 0 <= m <= i && m < |t[l].children| && 0 <= n < |Items(t, l, m)| && Items(t, l, m)[n] == a && (m == i ==> n < j)
  }

  lemma OnePlace(t: Store, l: nat, i: nat, j: nat, m: nat, n: nat)
    requires Tree(t) && l < |t| && i < |t[l].children| && j < |Items(t, l, i)| && m < |t[l].children| && n < |Items(t, l, m)|
    requires Items(t, l, m)[n] == Items(t, l, i)[j]
    ensures m == i && n == j
  {
    Kids(t, l);
    Kids(t, t[l].children[i]);
    Kids(t, t[l].children[m]);
  }

  /** The bits of `u` are those of `t` and some on the chains from the blocks asked about. */
  ghost predicate Spread(t: Store, u: Store, asked: set<nat>) {
    && SameTree(t, u) && (forall b: nat :: b < |t| ==> u[b].tight == t[b].tight)
    && (forall a :: a in asked ==> Followed(t, a))
    && (forall c: nat :: c < |t| && t[c].checked ==> u[c].checked)
    && forall c: nat :: c < |t| && u[c].checked ==> t[c].checked || exists a :: a in asked && OnChain(t, a, c)
  }

  /** A block with something behind it in a list may be asked about. */
  lemma KidFollowed(t: Store, l: nat, i: nat, j: nat)
    requires Tree(t) && l < |t| && t[l].kind == List && i < |t[l].children| && j < |Items(t, l, i)| && HasNext(t, l, i, j)
    ensures var s := Items(t, l, i)[j]; s < |t| && Followed(t, s) && ListOf(t, s) == l && !Before(t, l, s, i, j)
  {
    Kids(t, l);
    Kid(t, l, i);
    var item := t[l].children[i];
    Kids(t, item);
    var s := Items(t, l, i)[j];
    forall m: nat, n: nat | m < |t[l].children| && n < |Items(t, l, m)| && Items(t, l, m)[n] == s ensures m == i && n == j {
      OnePlace(t, l, i, j, m, n);
    }
  }

  /** What was asked before does not change an answer. */
  lemma SpreadAnswer(t: Store, u: Store, asked: set<nat>, s: nat)
    requires Tree(t) && Spread(t, u, asked) && Followed(t, s) && s !in asked
    ensures Answer(u, s) == Answer(t, s) && Spread(t, Asked(u, s), asked + {s})
  {
    forall c: nat | c < |t| && OnChain(t, s, c) ensures u[c].checked <==> t[c].checked {
      if u[c].checked && !t[c].checked {
        var a :| a in asked && OnChain(t, a, c);
        AskedOnce(t, a, s, c);
      }
    }
    SameAnswer(t, u, s);
    AskedOnChain(u, s);
    SameChain(t, u, s);
  }

  /** Two blocks in the item, or its last and the next item, are separated as far as the answers tell. */
  ghost predicate AnsweredFrom(t: Store, l: nat, i: nat, j: nat)
    requires Tree(t) && l < |t| && i < |t[l].children|
  {
    InStore(t, l, i);
    exists m :: j <= m < |Items(t, l, i)| && HasNext(t, l, i, m) && Answer(t, Items(t, l, i)[m])
  }

  ghost predicate AnsweredItem(t: Store, l: nat, i: nat)
    requires Tree(t) && l < |t| && i < |t[l].children|
  {
    InStore(t, l, i);
    (t[t[l].children[i]].blank && i + 1 < |t[l].children|) || AnsweredFrom(t, l, i, 0)
  }

  ghost predicate AnsweredLoose(t: Store, l: nat, i: nat)
    requires Tree(t) && l < |t|
  {
    exists k :: i <= k < |t[l].children| && AnsweredItem(t, l, k)
  }

  ghost predicate AskedBefore(t: Store, l: nat, asked: set<nat>, i: nat, j: nat)
    requires Tree(t) && l < |t|
  {
    forall a :: a in asked ==> Before(t, l, a, i, j) && ListOf(t, a) == l
  }

  lemma BehindOne(t: Store, l: nat, asked: set<nat>, i: nat, j: nat, more: set<nat>)
    requires Tree(t) && l < |t| && i < |t[l].children| && j < |Items(t, l, i)| && AskedBefore(t, l, asked, i, j)
    requires forall a :: a in more ==> a in asked || (a == Items(t, l, i)[j] && ListOf(t, a) == l)
    ensures AskedBefore(t, l, more, i, j + 1)
  {
    forall a | a in more ensures Before(t, l, a, i, j + 1) {
      if a in asked {
        var m, n :| 0 <= m <= i && m < |t[l].children| && 0 <= n < |Items(t, l, m)| && Items(t, l, m)[n] == a && (m == i ==> n < j);
      } else {
        assert Items(t, l, i)[j] == a;
      }
    }
  }

  lemma BehindItem(t: Store, l: nat, asked: set<nat>, i: nat, j: nat)
    requires Tree(t) && l < |t| && AskedBefore(t, l, asked, i, j)
    ensures AskedBefore(t, l, asked, i + 1, 0)
  {
    forall a | a in asked ensures Before(t, l, a, i + 1, 0) {
      var m, n :| 0 <= m <= i && m < |t[l].children| && 0 <= n < |Items(t, l, m)| && Items(t, l, m)[n] == a && (m == i ==> n < j);
      assert Items(t, l, m)[n] == a;
    }
  }

  lemma {:induction false} KidsAnswered(t: Store, u: Store, l: nat, i: nat, j: nat, asked: set<nat>) returns (more: set<nat>)
    requires Tree(t) && l < |t| && t[l].kind == List && i < |t[l].children| && j <= |Items(t, l, i)|
    requires Spread(t, u, asked) && AskedBefore(t, l, asked, i, j)
    ensures var r := AskKids(u, Items(t, l, i), i + 1 == |t[l].children|, j);
            (r.0 <==> AnsweredFrom(t, l, i, j)) && Spread(t, r.1, more)
    ensures AskedBefore(t, l, more, i + 1, 0)
    decreases |Items(t, l, i)| - j
  {
    hide Tree, Spread, AskedBefore, Followed, Answer, Asked;
    var kids := Items(t, l, i);
    InStore(t, l, i);
    SpreadSize(t, u, asked);
    if j == |kids| {
      more := asked;
      BehindItem(t, l, asked, i, j);
    } else if !HasNext(t, l, i, j) {
      BehindOne(t, l, asked, i, j, asked);
      more := KidsAnswered(t, u, l, i, j + 1, asked);
    } else {
      var s := kids[j];
      KidFollowed(t, l, i, j);
      NotAskedYet(t, l, asked, i, j, s);
      SpreadAnswer(t, u, asked, s);
      BehindOne(t, l, asked, i, j, asked + {s});
      if Answer(t, s) {
        more := asked + {s};
        BehindItem(t, l, more, i, j + 1);
      } else {
        more := KidsAnswered(t, Asked(u, s), l, i, j + 1, asked + {s});
      }
    }
  }

  lemma NotAskedYet(t: Store, l: nat, asked: set<nat>, i: nat, j: nat, s: nat)
    requires Tree(t) && l < |t| && AskedBefore(t, l, asked, i, j) && !Before(t, l, s, i, j)
    ensures s !in asked
  {
  }

  lemma SpreadSize(t: Store, u: Store, asked: set<nat>)
    requires Spread(t, u, asked)
    ensures |u| == |t| && SameTree(t, u)
  {
  }

  lemma {:induction false} ItemsAnswered(t: Store, u: Store, l: nat, i: nat, asked: set<nat>) returns (more: set<nat>, k: nat)
    requires Tree(t) && l < |t| && t[l].kind == List && i <= |t[l].children|
    requires Spread(t, u, asked) && AskedBefore(t, l, asked, i, 0)
    ensures var r := AskItems(u, t[l].children, i); (r.0 <==> AnsweredLoose(t, l, i)) && Spread(t, r.1, more)
    ensures AskedBefore(t, l, more, k, 0)
    decreases |t[l].children| - i
  {
    hide Tree, Spread, AskedBefore, AnsweredFrom, AskKids;
    SpreadSize(t, u, asked);
    if i == |t[l].children| {
      more, k := asked, i;
    } else {
      InStore(t, l, i);
      var item := t[l].children[i];
      assert u[item].children == Items(t, l, i);
      if t[item].blank && i + 1 < |t[l].children| {
        more, k := asked, i;
        assert AnsweredItem(t, l, i);
      } else {
        more := KidsAnswered(t, u, l, i, 0, asked);
        if AnsweredFrom(t, l, i, 0) {
          k := i + 1;
          assert AnsweredItem(t, l, i);
        } else {
          more, k := ItemsAnswered(t, AskKids(u, Items(t, l, i), i + 1 == |t[l].children|, 0).1, l, i + 1, more);
        }
      }
    }
  }

  /** A list is found tight exactly when no answer tells of a separating blank line. */
  lemma DecidedExact(t: Store, l: nat) returns (asked: set<nat>)
    requires Tree(t) && l < |t| && t[l].kind == List
    ensures var u := Decided(t, l);
            && (u[l].tight <==> !AnsweredLoose(t, l, 0)) && (forall b: nat :: b < |t| && b != l ==> u[b].tight == t[b].tight)
            && Spread(t, u[l := u[l].(tight := t[l].tight)], asked)
    ensures forall a :: a in asked ==> ListOf(t, a) == l
  {
    hide Tree, AskItems, AnsweredLoose, Spread;
    var k;
    NothingSpread(t);
    asked, k := ItemsAnswered(t, t, l, 0, {});
    var r := AskItems(t, t[l].children, 0);
    TightSet(t, l, r.1, !r.0, asked);
    AllOfList(t, l, asked, k);
  }

  /** Deciding writes one field. */
  lemma TightSet(t: Store, l: nat, w: Store, tight: bool, asked: set<nat>)
    requires l < |t| && Spread(t, w, asked)
    ensures |w| == |t|
    ensures var u := w[l := w[l].(tight := tight)];
            u[l].tight == tight && (forall b: nat :: b < |t| && b != l ==> u[b].tight == t[b].tight) && u[l := u[l].(tight := t[l].tight)] == w
  {
  }

  lemma AllOfList(t: Store, l: nat, asked: set<nat>, k: nat)
    requires Tree(t) && l < |t| && AskedBefore(t, l, asked, k, 0)
    ensures forall a :: a in asked ==> ListOf(t, a) == l
  {
  }

  lemma NothingSpread(t: Store)
    ensures Spread(t, t, {})
  {
  }

  // ---------------------------------------------------------------- lists that have been finalized

  ghost predicate Closed(t: Store, l: int) {
    0 <= l < |t| && t[l].kind == List && !t[l].open
  }

  /** A block that was asked about when its list was finalized. */
  ghost predicate Spent(t: Store, a: nat) {
    Followed(t, a) && Closed(t, ListOf(t, a))
  }

  ghost predicate Remembered(t: Store, c: nat) {
    exists a: nat :: Spent(t, a) && OnChain(t, a, c)
  }

  /** Finalized lists are rightly tight or loose, and bits are set only where they were asked about. */
  ghost predicate Settled(t: Store) {
    && Tree(t)
    && (forall l: nat :: Closed(t, l) ==> (t[l].tight <==> !Loose(t, l)))
    && forall c: nat :: c < |t| && t[c].checked ==> Remembered(t, c)
  }

  /** In a settled store no bit lies on the way from a block that was not asked about. */
  lemma Unmarked(t: Store, s: nat)
    requires Settled(t) && Followed(t, s) && !Closed(t, ListOf(t, s))
    ensures Answer(t, s) == Ends(t, s)
  {
    forall c: nat | c < |t| && OnChain(t, s, c) ensures !t[c].checked {
      if t[c].checked {
        var a: nat :| Spent(t, a) && OnChain(t, a, c);
        AskedOnce(t, a, s, c);
      }
    }
    FreshAnswer(t, s);
  }

  lemma AnswersRight(t: Store, l: nat)
    requires Settled(t) && l < |t| && t[l].kind == List && t[l].open
    ensures AnsweredLoose(t, l, 0) <==> Loose(t, l)
  {
    hide Settled, Tree, Followed, Answer, Ends;
    SettledTree(t);
    forall i: nat | i < |t[l].children| ensures AnsweredItem(t, l, i) <==> LooseItem(t, l, i) {
      InStore(t, l, i);
      forall j: nat | j < |Items(t, l, i)| && HasNext(t, l, i, j) ensures Answer(t, Items(t, l, i)[j]) == Ends(t, Items(t, l, i)[j]) {
        KidFollowed(t, l, i, j);
        Unmarked(t, Items(t, l, i)[j]);
      }
    }
  }

  lemma SettledTree(t: Store)
    requires Settled(t)
    ensures Tree(t)
  {
  }

  /** What decides the answers and what is meant by them is the same. */
  ghost predicate SameLinks(t: Store, u: Store) {
    |t| == |u| && forall b :: 0 <= b < |t| ==>
      u[b].kind == t[b].kind && u[b].children == t[b].children && u[b].parent == t[b].parent && u[b].blank == t[b].blank
  }

  lemma LinksTree(t: Store, u: Store)
    requires Tree(t) && SameLinks(t, u)
    ensures Tree(u)
  {
    hide CanContain;
    forall b | 0 <= b < |u| ensures KidsOk(u, b) { assert KidsOk(t, b); }
  }

  lemma {:induction false} LinksEnds(t: Store, u: Store, a: nat)
    requires SameLinks(t, u) && a < |t|
    ensures Ends(t, a) == Ends(u, a) && forall c: nat :: OnChain(t, a, c) <==> OnChain(u, a, c)
    decreases |t| - a
  {
    if GoesOn(t, a) { LinksEnds(t, u, Last(t[a].children)); }
  }

  lemma LinksItem(t: Store, u: Store, l: nat, i: nat)
    requires Tree(t) && Tree(u) && SameLinks(t, u) && l < |t| && i < |t[l].children|
    ensures LooseItem(t, l, i) == LooseItem(u, l, i)
  {
    hide Ends, KidsOk;
    InStore(t, l, i);
    InStore(u, l, i);
    assert Items(u, l, i) == Items(t, l, i);
    forall j: nat | j < |Items(t, l, i)| ensures Ends(t, Items(t, l, i)[j]) == Ends(u, Items(t, l, i)[j]) && HasNext(t, l, i, j) == HasNext(u, l, i, j) {
      LinksEnds(t, u, Items(t, l, i)[j]);
    }
  }

  lemma LinksLoose(t: Store, u: Store, l: nat)
    requires Tree(t) && Tree(u) && SameLinks(t, u) && l < |t|
    ensures Loose(t, l) == Loose(u, l)
  {
    hide Ends, KidsOk;
    forall i: nat | i < |t[l].children| ensures LooseItem(t, l, i) == LooseItem(u, l, i) { LinksItem(t, u, l, i); }
  }

  /** `v` is `t` with list `l` decided and closed. */
  ghost predicate ClosedAs(t: Store, l: nat, v: Store) {
    l < |t| && l < |v| && var u := Decided(t, l); v == u[l := u[l].(open := false, finals := v[l].finals)]
  }

  /** What that comes to. */
  ghost predicate NewlyClosed(t: Store, l: nat, v: Store, asked: set<nat>)
    requires Tree(t) && l < |t|
  {
    && SameLinks(t, v) && Closed(v, l) && (forall b: nat :: b != l ==> (Closed(v, b) <==> Closed(t, b)))
    && (v[l].tight <==> !AnsweredLoose(t, l, 0)) && (forall b: nat :: b < |t| && b != l ==> v[b].tight == t[b].tight)
    && (forall a :: a in asked ==> Followed(t, a) && ListOf(t, a) == l)
    && forall c: nat :: c < |t| && v[c].checked ==> t[c].checked || exists a :: a in asked && a < |t| && OnChain(t, a, c)
  }

  lemma DecidedCloses(t: Store, l: nat, v: Store) returns (asked: set<nat>)
    requires Tree(t) && l < |t| && t[l].kind == List && t[l].open && ClosedAs(t, l, v)
    ensures NewlyClosed(t, l, v, asked)
  {
    hide Tree, Decided, AnsweredLoose, Followed, OnChain;
    asked := DecidedExact(t, l);
    SpreadRange(t, Decided(t, l)[l := Decided(t, l)[l].(tight := t[l].tight)], asked);
  }

  lemma SpreadRange(t: Store, u: Store, asked: set<nat>)
    requires Spread(t, u, asked)
    ensures forall a :: a in asked ==> a < |t|
  {
  }

  /** The list case of `finalize` settles the list. */
  lemma DecidedSettled(t: Store, l: nat, v: Store)
    requires Settled(t) && l < |t| && t[l].kind == List && t[l].open && ClosedAs(t, l, v)
    ensures (v[l].tight <==> !Loose(t, l)) && Settled(v)
  {
    hide Settled, Tree, ClosedAs, NewlyClosed, AnsweredLoose, Loose;
    SettledTree(t);
    AnswersRight(t, l);
    var asked := DecidedCloses(t, l, v);
    NewlyRight(t, l, v, asked);
    NewlyRemembered(t, l, v, asked);
    NowSettled(v);
  }

  lemma NewlyRight(t: Store, l: nat, v: Store, asked: set<nat>)
    requires Settled(t) && l < |t| && NewlyClosed(t, l, v, asked) && (AnsweredLoose(t, l, 0) <==> Loose(t, l))
    ensures Tree(v) && (v[l].tight <==> !Loose(t, l)) && forall m: nat :: Closed(v, m) ==> (v[m].tight <==> !Loose(v, m))
  {
    hide Settled, Tree, AnsweredLoose, Loose, Followed, OnChain;
    SettledTree(t);
    LinksTree(t, v);
    forall m: nat | Closed(v, m) ensures v[m].tight <==> !Loose(v, m) {
      LinksLoose(t, v, m);
      if m != l { SettledList(t, m); }
    }
  }

  lemma NewlyRemembered(t: Store, l: nat, v: Store, asked: set<nat>)
    requires Settled(t) && l < |t| && NewlyClosed(t, l, v, asked)
    ensures forall c: nat :: c < |v| && v[c].checked ==> Remembered(v, c)
  {
    hide Settled, Tree, AnsweredLoose, Followed, OnChain, Remembered;
    forall c: nat | c < |v| && v[c].checked ensures Remembered(v, c) {
      if t[c].checked { SettledBit(t, c); StillRemembered(t, v, c); } else { NowRemembered(t, v, l, asked, c); }
    }
  }

  lemma NowSettled(v: Store)
    requires Tree(v) && (forall m: nat :: Closed(v, m) ==> (v[m].tight <==> !Loose(v, m)))
    requires forall c: nat :: c < |v| && v[c].checked ==> Remembered(v, c)
    ensures Settled(v)
  {
  }

  lemma SettledList(t: Store, l: nat)
    requires Settled(t) && Closed(t, l)
    ensures Tree(t) && (t[l].tight <==> !Loose(t, l))
  {
  }

  lemma SettledBit(t: Store, c: nat)
    requires Settled(t) && c < |t| && t[c].checked
    ensures Remembered(t, c)
  {
  }

  lemma StillRemembered(t: Store, v: Store, c: nat)
    requires SameLinks(t, v) && Remembered(t, c) && forall b: nat :: Closed(t, b) ==> Closed(v, b)
    ensures Remembered(v, c)
  {
    hide OnChain, Ends;
    var a: nat :| Spent(t, a) && OnChain(t, a, c);
    LinksEnds(t, v, a);
    assert Spent(v, a);
  }

  lemma NowRemembered(t: Store, v: Store, l: nat, asked: set<nat>, c: nat)
    requires SameLinks(t, v) && Closed(v, l) && (forall a :: a in asked ==> Followed(t, a) && ListOf(t, a) == l)
    requires exists a :: a in asked && a < |t| && OnChain(t, a, c)
    ensures Remembered(v, c)
  {
    hide OnChain, Ends;
    var a :| a in asked && a < |t| && OnChain(t, a, c);
    LinksEnds(t, v, a);
    assert Spent(v, a);
  }

  // ---------------------------------------------------------------- what may change besides

  /** An item of a finalized list. */
  ghost predicate ItemOfClosed(t: Store, b: nat) {
    b < |t| && Closed(t, t[b].parent) && b in t[t[b].parent].children
  }

  /** Such an item, or a block whose bit may have been set. */
  ghost predicate Warm(t: Store, b: nat) {
    b < |t| && (ItemOfClosed(t, b) || Remembered(t, b))
  }

  ghost predicate SameLink(t: Store, u: Store, b: nat) {
    b < |t| && b < |u| && u[b].kind == t[b].kind && u[b].parent == t[b].parent && u[b].children == t[b].children
  }

  /** The last item of a list loses its only block. */
  ghost predicate Emptied(t: Store, u: Store, b: nat)
    requires b < |t| && b < |u| && 0 <= t[b].parent < |t|
  {
    && u[b] == t[b].(children := []) && |t[b].children| == 1
    && t[t[b].parent].children != [] && b == Last(t[t[b].parent].children)
  }

  /** Blocks come and go, and flags change, but finalized lists and what was asked about them stay as they are,
      unless the only block of the last item goes. */
  ghost predicate Moves(t: Store, u: Store) {
    && Tree(u) && |t| <= |u|
    && (forall b: nat :: b < |t| ==> u[b].checked == t[b].checked && u[b].tight == t[b].tight && (Closed(u, b) <==> Closed(t, b)))
    && (forall b: nat :: |t| <= b < |u| ==> !u[b].checked && !Closed(u, b))
    && (forall b: nat :: b < |t| && (Closed(t, b) || Remembered(t, b)) ==> SameLink(t, u, b))
    && (forall b: nat :: ItemOfClosed(t, b) ==> SameLink(t, u, b) || Emptied(t, u, b))
    && forall b: nat :: Warm(t, b) ==> u[b].blank == t[b].blank
  }

  lemma {:induction false} ChainStays(t: Store, u: Store, s: nat, a: nat)
    requires Tree(t) && Moves(t, u) && Spent(t, s) && a < |t| && OnChain(t, s, a)
    ensures Ends(t, a) == Ends(u, a) && forall c: nat :: OnChain(t, a, c) <==> OnChain(u, a, c)
    decreases |t| - a
  {
    hide Followed, Tree, Emptied;
    assert Remembered(t, a);
    assert SameLink(t, u, a);
    assert Warm(t, a);
    if GoesOn(t, a) {
      ChainOn(t, s, a);
      ChainStays(t, u, s, Last(t[a].children));
    } else {
      Kids(t, a);
    }
  }

  lemma {:induction false} ChainOn(t: Store, s: nat, a: nat)
    requires s < |t| && a < |t| && OnChain(t, s, a) && GoesOn(t, a)
    ensures OnChain(t, s, Last(t[a].children))
    decreases |t| - s
  {
    if s != a { ChainOn(t, Last(t[s].children), a); } else { assert OnChain(t, Last(t[a].children), Last(t[a].children)); }
  }

  lemma SpentStays(t: Store, u: Store, a: nat)
    requires Tree(t) && Moves(t, u) && Spent(t, a)
    ensures Spent(u, a) && ListOf(u, a) == ListOf(t, a)
  {
    hide Ends, Tree;
    assert OnChain(t, a, a);
    assert Remembered(t, a);
    assert SameLink(t, u, a);
    assert ItemOfClosed(t, t[a].parent);
    assert SameLink(t, u, t[a].parent) by { assert !Emptied(t, u, t[a].parent); }
    assert SameLink(t, u, t[t[a].parent].parent);
  }

  /** Nothing new counts as asked about. */
  lemma SpentBefore(t: Store, u: Store, a: nat)
    requires Tree(t) && Moves(t, u) && Spent(u, a)
    ensures Spent(t, a)
  {
    hide Ends, Tree, Remembered;
    var item: nat := u[a].parent;
    var l: nat := u[item].parent;
    assert SameLink(t, u, l);
    KidsParent(t, l, item);
    assert ItemOfClosed(t, item);
    if Emptied(t, u, item) { assert false; }
    KidsParent(t, item, a);
  }

  lemma KidsParent(t: Store, b: nat, c: nat)
    requires Tree(t) && b < |t| && c in t[b].children
    ensures b < c < |t| && t[c].parent == b
  {
    assert KidsOk(t, b);
  }

  lemma RememberedBefore(t: Store, u: Store, c: nat)
    requires Tree(t) && Moves(t, u) && Remembered(u, c)
    ensures c < |t| && Remembered(t, c)
  {
    hide Ends, Tree, Followed;
    var a: nat :| Spent(u, a) && OnChain(u, a, c);
    SpentBefore(t, u, a);
    assert OnChain(t, a, a);
    SpentRange(t, a);
    ChainStays(t, u, a, a);
    ChainUp(t, a, c);
  }

  lemma SpentRange(t: Store, a: nat)
    requires Spent(t, a)
    ensures a < |t|
  {
  }

  lemma LooseStays(t: Store, u: Store, l: nat)
    requires Tree(t) && Moves(t, u) && Closed(t, l)
    ensures Loose(t, l) == Loose(u, l)
  {
    hide Ends, Answer, Remembered, LooseItem;
    assert SameLink(t, u, l);
    forall i: nat | i < |t[l].children| ensures LooseItem(t, l, i) == LooseItem(u, l, i) { LooseItemStays(t, u, l, i); }
  }

  lemma LooseItemStays(t: Store, u: Store, l: nat, i: nat)
    requires Tree(t) && Moves(t, u) && Closed(t, l) && i < |t[l].children| && SameLink(t, u, l)
    ensures LooseItem(t, l, i) == LooseItem(u, l, i)
  {
    hide Ends, Answer, Remembered, Tree;
    InStore(t, l, i);
    InStore(u, l, i);
    Kids(t, l);
    var item := t[l].children[i];
    assert Warm(t, item) by { assert ItemOfClosed(t, item); }
    if SameLink(t, u, item) {
      assert Items(u, l, i) == Items(t, l, i);
      forall j: nat | j < |Items(t, l, i)| && HasNext(t, l, i, j) ensures Ends(t, Items(t, l, i)[j]) == Ends(u, Items(t, l, i)[j]) {
        KidFollowed(t, l, i, j);
        ChainStays(t, u, Items(t, l, i)[j], Items(t, l, i)[j]);
      }
    } else {
      assert Emptied(t, u, item);
      assert Items(u, l, i) == [];
    }
  }

  /** Then finalized lists stay right. */
  lemma MovesKeep(t: Store, u: Store)
    requires Settled(t) && Moves(t, u)
    ensures Settled(u)
  {
    hide Settled, Loose, Tree, Followed;
    SettledTree(t);
    assert Tree(u);
    forall m: nat | Closed(u, m) ensures u[m].tight <==> !Loose(u, m) {
      SettledList(t, m);
      LooseStays(t, u, m);
    }
    forall c: nat | c < |u| && u[c].checked ensures Remembered(u, c) {
      SettledBit(t, c);
      var a: nat :| Spent(t, a) && OnChain(t, a, c);
      SpentRange(t, a);
      SpentStays(t, u, a);
      ChainStays(t, u, a, a);
    }
    NowSettled(u);
  }
}
