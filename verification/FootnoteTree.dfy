/** `process_footnotes` on the tree: two walks, the second of which replaces nodes under a live iterator. */
module FootnoteTree {
  import opened Lists
  import opened RefMap
  import opened NodeKinds
  import opened NodeTree
  import opened NodeStore
  import opened NodeWalk
  import opened NodeFree
  import opened Footnotes

  // ---------------------------------------------------------------- what a reader sees

  datatype Mark = Opened(kind: Kind, literal: string) | Closed(kind: Kind)

  function MarkOf(h: Heap, e: Event): Mark {
    if e.Done? || e.node >= |h| then Closed(Document)
    else if e.Enter? then Opened(h[e.node].kind, h[e.node].literal)
    else Closed(h[e.node].kind)
  }

  function Marks(h: Heap, w: seq<Event>): (ms: seq<Mark>)
    ensures |ms| == |w| && forall i :: 0 <= i < |w| ==> ms[i] == MarkOf(h, w[i])
  {
    seq(|w|, i requires 0 <= i < |w| => MarkOf(h, w[i]))
  }

  predicate IsRef(m: Mark) {
    m.Opened? && m.kind == FootnoteReference
  }

  /** The labels of the references, in order. */
  function RefLabels(ms: seq<Mark>): seq<string> {
    if ms == [] then [] else (if IsRef(ms[0]) then [ms[0].literal] else []) + RefLabels(ms[1..])
  }

  function Decimal(n: nat): string {
    if n < 10 then [('0' as int + n) as char] else Decimal(n / 10) + [('0' as int + n % 10) as char]
  }

  function ReadDecimal(s: string): nat {
    if s == "" then 0 else ReadDecimal(s[..|s| - 1]) * 10 + if '0' <= s[|s| - 1] <= '9' then (s[|s| - 1] - '0') as int else 0
  }

  /** The decimal of a number reads back, is digits only and begins with no zero. */
  lemma {:induction false} DecimalReads(n: nat)
    ensures ReadDecimal(Decimal(n)) == n && Decimal(n) != "" && (n > 0 ==> Decimal(n)[0] != '0') && forall i :: 0 <= i < |Decimal(n)| ==> '0' <= Decimal(n)[i] <= '9'
  {
    var s := Decimal(n);
    if n >= 10 {
      DecimalReads(n / 10);
      assert s[..|s| - 1] == Decimal(n / 10);
    } else {
      assert s[..0] == "";
    }
  }

  /** A reference with its number, or text in its place. */
  function NoteMarks(note: Note): seq<Mark> {
    match note
    case Numbered(_, ix, _) => [Opened(FootnoteReference, Decimal(ix)), Closed(FootnoteReference)]
    case Plain(text) => [Opened(Text, text)]
  }

  /** The walk with each reference, which is a pair of events, turned into its note. */
  function Rewritten(ms: seq<Mark>, notes: seq<Note>): seq<Mark>
    decreases |ms|
  {
    if ms == [] then []
    else if IsRef(ms[0]) && |ms| >= 2 && notes != [] then NoteMarks(notes[0]) + Rewritten(ms[2..], notes[1..])
    else [ms[0]] + Rewritten(ms[1..], notes)
  }

  /** The walk is rewritten up to place `q`, with `m` references behind it. */
  ghost predicate Progress(target: seq<Mark>, notes: seq<Note>, labels: seq<string>, ms: seq<Mark>, q: nat, m: nat) {
    && |notes| == |labels| && q <= |ms| && m <= |labels|
    && target == ms[..q] + Rewritten(ms[q..], notes[m..]) && RefLabels(ms[q..]) == labels[m..]
  }

  lemma StartProgress(ms: seq<Mark>, notes: seq<Note>)
    requires |notes| == |RefLabels(ms)|
    ensures Progress(Rewritten(ms, notes), notes, RefLabels(ms), ms, 0, 0)
  {
    assert ms[0..] == ms && notes[0..] == notes && RefLabels(ms)[0..] == RefLabels(ms);
  }

  lemma PassOver(target: seq<Mark>, notes: seq<Note>, labels: seq<string>, ms: seq<Mark>, q: nat, m: nat)
    requires Progress(target, notes, labels, ms, q, m) && q < |ms| && !IsRef(ms[q])
    ensures Progress(target, notes, labels, ms, q + 1, m)
  {
    assert ms[q..][0] == ms[q] && ms[q..][1..] == ms[q + 1..] && ms[..q + 1] == ms[..q] + [ms[q]];
  }

  lemma AtRef(target: seq<Mark>, notes: seq<Note>, labels: seq<string>, ms: seq<Mark>, q: nat, m: nat)
    requires Progress(target, notes, labels, ms, q, m) && q < |ms| && IsRef(ms[q])
    ensures m < |labels| && labels[m] == ms[q].literal
  {
    assert ms[q..][0] == ms[q];
    assert labels[m..] != [] && labels[m..][0] == labels[m];
  }

  lemma Rewrite(target: seq<Mark>, notes: seq<Note>, labels: seq<string>, ms: seq<Mark>, q: nat, m: nat, ms': seq<Mark>)
    requires Progress(target, notes, labels, ms, q, m) && q + 1 < |ms| && IsRef(ms[q]) && !IsRef(ms[q + 1]) && m < |labels|
    requires ms' == ms[..q] + NoteMarks(notes[m]) + ms[q + 2..]
    ensures Progress(target, notes, labels, ms', q + |NoteMarks(notes[m])|, m + 1)
  {
    hide NoteMarks;
    var r := ms[q..];
    assert r[0] == ms[q] && r[1..] == ms[q + 1..] && r[1..][0] == ms[q + 1] && r[2..] == ms[q + 2..] && r[1..][1..] == r[2..];
    var ns := notes[m..];
    assert ns[0] == notes[m] && ns[1..] == notes[m + 1..];
    var n := NoteMarks(notes[m]);
    assert ms'[..q + |n|] == ms[..q] + n && ms'[q + |n|..] == ms[q + 2..];
    assert Rewritten(r, ns) == n + Rewritten(r[2..], ns[1..]);
    assert labels[m..][1..] == labels[m + 1..];
    assert RefLabels(r) == [r[0].literal] + RefLabels(r[1..]) && RefLabels(r[1..]) == [] + RefLabels(r[2..]);
  }

  lemma EndProgress(target: seq<Mark>, notes: seq<Note>, labels: seq<string>, ms: seq<Mark>, m: nat)
    requires Progress(target, notes, labels, ms, |ms|, m)
    ensures ms == target && m == |labels|
  {
    assert ms[..|ms|] == ms && ms[|ms|..] == [] && |labels[m..]| == |labels| - m;
  }

  // ---------------------------------------------------------------- a node in the place of another

  function Swap(t: Tree, c: nat, x: nat): Tree
    decreases t, 1
  {
    if t.node == c then Tree(x, []) else Tree(t.node, SwapAll(t.subs, c, x))
  }

  function SwapAll(ts: seq<Tree>, c: nat, x: nat): (r: seq<Tree>)
    ensures |r| == |ts| && forall i :: 0 <= i < |ts| ==> r[i] == Swap(ts[i], c, x)
    decreases ts, 0
  {
    if ts == [] then [] else [Swap(ts[0], c, x)] + SwapAll(ts[1..], c, x)
  }

  function Renamed(s: seq<nat>, c: nat, x: nat): (r: seq<nat>)
    ensures |r| == |s| && forall i :: 0 <= i < |s| ==> r[i] == if s[i] == c then x else s[i]
  {
    seq(|s|, i requires 0 <= i < |s| => if s[i] == c then x else s[i])
  }

  /** The children when `x`, which is new, stands where the childless `c` stood. */
  ghost predicate KidsSwapped(kids: Kids, k: Kids, c: nat, x: nat) {
    && c < |kids| == x && |k| == |kids| + 1 && kids[c] == [] && k[c] == [] && k[x] == []
    && forall n :: 0 <= n < |kids| && n != c ==> k[n] == Renamed(kids[n], c, x)
  }

  lemma {:induction false} SwapShape(kids: Kids, k: Kids, t: Tree, c: nat, x: nat)
    requires Shape(kids, t) && KidsSwapped(kids, k, c, x)
    ensures Shape(k, Swap(t, c, x))
    decreases t
  {
    if t.node != c {
      forall i: nat | i < |t.subs| ensures Shape(k, Swap(t.subs[i], c, x)) { SwapShape(kids, k, t.subs[i], c, x); }
    }
  }

  /** The walk with `c` entered and left turned into `x` entered. */
  function Sub(w: seq<Event>, c: nat, x: nat): seq<Event> {
    if w == [] then []
    else (if w[0] == Enter(c) then [Enter(x)] else if w[0] == Exit(c) then [] else [w[0]]) + Sub(w[1..], c, x)
  }

  lemma {:induction false} SubConcat(a: seq<Event>, b: seq<Event>, c: nat, x: nat)
    ensures Sub(a + b, c, x) == Sub(a, c, x) + Sub(b, c, x)
  {
    if a == [] {
      assert a + b == b;
    } else {
      assert (a + b)[0] == a[0] && (a + b)[1..] == a[1..] + b;
      SubConcat(a[1..], b, c, x);
    }
  }

  lemma SubOne(e: Event, c: nat, x: nat)
    ensures Sub([e], c, x) == if e == Enter(c) then [Enter(x)] else if e == Exit(c) then [] else [e]
  {
    assert [e][1..] == [];
  }

  lemma {:induction false} SwapWalk(kids: Kids, a: set<nat>, b: set<nat>, t: Tree, c: nat, x: nat)
    requires Shape(kids, t) && c < |kids| && kids[c] == [] && c !in a && x in b
    requires forall n :: n < |kids| && n != c ==> (n in a <==> n in b)
    ensures Walk(b, Swap(t, c, x)) == Sub(Walk(a, t), c, x)
    decreases t, 1
  {
    var n := t.node;
    SubOne(Enter(n), c, x);
    SubOne(Exit(n), c, x);
    if n == c {
      assert Walk(a, t) == [Enter(c)] + [Exit(c)];
      SubConcat([Enter(c)], [Exit(c)], c, x);
    } else if n !in a {
      SwapWalkAll(kids, a, b, t.subs, c, x);
      SubConcat([Enter(n)] + WalkAll(a, t.subs), [Exit(n)], c, x);
      SubConcat([Enter(n)], WalkAll(a, t.subs), c, x);
    }
  }

  lemma {:induction false} SwapWalkAll(kids: Kids, a: set<nat>, b: set<nat>, ts: seq<Tree>, c: nat, x: nat)
    requires (forall i :: 0 <= i < |ts| ==> Shape(kids, ts[i])) && c < |kids| && kids[c] == [] && c !in a && x in b
    requires forall n :: n < |kids| && n != c ==> (n in a <==> n in b)
    ensures WalkAll(b, SwapAll(ts, c, x)) == Sub(WalkAll(a, ts), c, x)
    decreases ts, 0
  {
    hide Shape;
    if ts != [] {
      SwapWalk(kids, a, b, ts[0], c, x);
      SwapWalkAll(kids, a, b, ts[1..], c, x);
      SubConcat(Walk(a, ts[0]), WalkAll(a, ts[1..]), c, x);
      assert SwapAll(ts, c, x)[1..] == SwapAll(ts[1..], c, x);
    }
  }

  lemma {:induction false} SubNone(w: seq<Event>, c: nat, x: nat)
    requires forall e :: e in w ==> e != Enter(c) && e != Exit(c)
    ensures Sub(w, c, x) == w
  {
    if w != [] {
      assert w[0] in w && forall e :: e in w[1..] ==> e in w;
      SubNone(w[1..], c, x);
    }
  }

  /** Both events of a childless container, together. */
  ghost predicate PairOnly(w: seq<Event>, q: nat, c: nat) {
    && q + 1 < |w| && w[q] == Enter(c) && w[q + 1] == Exit(c)
    && forall i :: 0 <= i < |w| && i != q && i != q + 1 ==> w[i] != Enter(c) && w[i] != Exit(c)
  }

  lemma CutPair(w: seq<Event>, q: nat)
    requires q + 1 < |w|
    ensures w == w[..q] + ([w[q]] + ([w[q + 1]] + w[q + 2..]))
  {
  }

  lemma SubPair(w: seq<Event>, q: nat, c: nat, x: nat)
    requires PairOnly(w, q, c)
    ensures Sub(w, c, x) == w[..q] + [Enter(x)] + w[q + 2..]
  {
    hide Sub;
    var a, b := w[..q], w[q + 2..];
    assert w == a + ([Enter(c)] + ([Exit(c)] + b)) by { CutPair(w, q); }
    SubConcat(a, [Enter(c)] + ([Exit(c)] + b), c, x);
    SubConcat([Enter(c)], [Exit(c)] + b, c, x);
    SubConcat([Exit(c)], b, c, x);
    SubOne(Enter(c), c, x);
    SubOne(Exit(c), c, x);
    SubNone(a, c, x);
    SubNone(b, c, x);
  }

  // ---------------------------------------------------------------- references in a legal tree

  /** Every node may be where it is. */
  ghost predicate Legal(h: Heap, kids: Kids) {
    |h| == |kids| && forall n :: 0 <= n < |h| ==> LegalAt(h, kids, n)
  }

  ghost predicate LegalAt(h: Heap, kids: Kids, n: nat)
    requires n < |h| == |kids|
  {
    forall c :: c in kids[n] ==> c < |h| && CanContain(h[n].kind, h[c].kind)
  }

  lemma RefIsBare(h: Heap, kids: Kids, c: nat)
    requires Legal(h, kids) && c < |h| && h[c].kind == FootnoteReference
    ensures kids[c] == [] && c !in LeafNodes(h)
  {
    assert !IsLeaf(h[c].kind) && LegalAt(h, kids, c);
    FirstIn(kids[c]);
  }

  lemma FirstIn(s: seq<nat>)
    ensures s == [] || s[0] in s
  {
  }

  lemma ExitFollows(h: Heap, kids: Kids, t: Tree, q: nat, c: nat)
    requires Forest(h, kids) && Shape(kids, t) && c < |h| && kids[c] == [] && c !in LeafNodes(h)
    requires q < |Walk(LeafNodes(h), t)| && Walk(LeafNodes(h), t)[q] == Enter(c)
    ensures q + 1 < |Walk(LeafNodes(h), t)| && PairOnly(Walk(LeafNodes(h), t), q, c)
  {
    var w := Walk(LeafNodes(h), t);
    hide Walk, LeafNodes;
    RollsAlong(h, kids, LeafNodes(h), t, q);
    DownOf(h, kids, c);
    assert w[q + 1] == Exit(c);
    WalkIsRun(h, kids, LeafNodes(h), t);
    forall i | 0 <= i < |w| && i != q && i != q + 1 ensures w[i] != Enter(c) && w[i] != Exit(c) {
      RunDistinct(h, LeafNodes(h), t.node, w, if i < q then i else q, if i < q then q else i);
      RunDistinct(h, LeafNodes(h), t.node, w, if i < q + 1 then i else q + 1, if i < q + 1 then q + 1 else i);
    }
  }

  /** A childless node is left right after it is entered. */
  lemma {:induction false} EnterPrecedes(kids: Kids, leaves: set<nat>, t: Tree, i: nat, c: nat)
    requires Shape(kids, t) && c < |kids| && kids[c] == [] && i < |Walk(leaves, t)| && Walk(leaves, t)[i] == Exit(c)
    ensures i > 0 && Walk(leaves, t)[i - 1] == Enter(c)
    decreases t, 1
  {
    if 0 < i < |Walk(leaves, t)| - 1 { EnterPrecedesAll(kids, leaves, t.subs, i - 1, c); }
  }

  lemma {:induction false} EnterPrecedesAll(kids: Kids, leaves: set<nat>, ts: seq<Tree>, i: nat, c: nat)
    requires (forall k :: 0 <= k < |ts| ==> Shape(kids, ts[k])) && c < |kids| && kids[c] == []
    requires i < |WalkAll(leaves, ts)| && WalkAll(leaves, ts)[i] == Exit(c)
    ensures i > 0 && WalkAll(leaves, ts)[i - 1] == Enter(c)
    decreases ts, 0
  {
    var n := |Walk(leaves, ts[0])|;
    if i < n { EnterPrecedes(kids, leaves, ts[0], i, c); } else { EnterPrecedesAll(kids, leaves, ts[1..], i - n, c); }
  }

  // ---------------------------------------------------------------- one reference done

  /** A new Text stands where `c` stood, and else all kinds and literals are as before. */
  ghost predicate Replaced(h: Heap, kids: Kids, c: nat, text: string, g: Heap, k: Kids) {
    && Forest(g, k) && |g| == |h| + 1 == |kids| + 1 && KidsSwapped(kids, k, c, |h|)
    && g[|h|].kind == Text && g[|h|].literal == text
    && forall n :: 0 <= n < |h| && n != c ==> g[n].kind == h[n].kind && g[n].literal == h[n].literal
  }

  lemma TextMarks(h: Heap, kids: Kids, t: Tree, q: nat, c: nat, text: string, g: Heap, k: Kids)
    requires Forest(h, kids) && Shape(kids, t) && Legal(h, kids) && Replaced(h, kids, c, text, g, k) && t.node != c
    requires c !in LeafNodes(h) && PairOnly(Walk(LeafNodes(h), t), q, c)
    ensures var t' := Swap(t, c, |h|); Shape(k, t') && t'.node == t.node
    ensures var w, w' := Walk(LeafNodes(h), t), Walk(LeafNodes(g), Swap(t, c, |h|));
            && EventAt(w', q + 1) == EventAt(w, q + 2) && |w'| == |w| - 1 && q < |w'|
            && Marks(g, w') == Marks(h, w)[..q] + [Opened(Text, text)] + Marks(h, w)[q + 2..]
  {
    var w, x := Walk(LeafNodes(h), t), |h|;
    LeavesSwapped(h, g, c);
    hide Walk, LeafNodes, Forest, Shape, IsLeaf;
    SwapShape(kids, k, t, c, x);
    SwapWalk(kids, LeafNodes(h), LeafNodes(g), t, c, x);
    SubPair(w, q, c, x);
    forall i: nat | i < |w| ensures !w[i].Done? && w[i].node < |h| {
      InWalk(h, kids, t, i);
    }
    MarksSpliced(h, g, w, q, c, x);
  }

  lemma LeavesSwapped(h: Heap, g: Heap, c: nat)
    requires |g| == |h| + 1 && g[|h|].kind == Text && forall n :: 0 <= n < |h| && n != c ==> g[n].kind == h[n].kind
    ensures |h| in LeafNodes(g) && forall n: nat :: n < |h| && n != c ==> (n in LeafNodes(h) <==> n in LeafNodes(g))
  {
  }

  lemma MarksSpliced(h: Heap, g: Heap, w: seq<Event>, q: nat, c: nat, x: nat)
    requires PairOnly(w, q, c) && |g| == |h| + 1 && x == |h| && forall i :: 0 <= i < |w| ==> !w[i].Done? && w[i].node < |h|
    requires forall n :: 0 <= n < |h| && n != c ==> g[n].kind == h[n].kind && g[n].literal == h[n].literal
    ensures Marks(g, w[..q] + [Enter(x)] + w[q + 2..]) == Marks(h, w)[..q] + [Opened(g[x].kind, g[x].literal)] + Marks(h, w)[q + 2..]
  {
    var w' := w[..q] + [Enter(x)] + w[q + 2..];
    forall i: nat | i < q ensures Marks(g, w')[i] == Marks(h, w)[i] {
      assert w'[i] == w[i] && w[i] != Enter(c) && w[i] != Exit(c) && w[i].node != c;
    }
    forall i: nat | q + 1 <= i < |w'| ensures Marks(g, w')[i] == Marks(h, w)[i + 1] {
      assert w'[i] == w[i + 1] && w[i + 1].node != c;
    }
  }

  lemma LiteralMarks(h: Heap, kids: Kids, t: Tree, q: nat, c: nat, text: string)
    requires Forest(h, kids) && Shape(kids, t) && Legal(h, kids) && c < |h| && h[c].kind == FootnoteReference
    requires PairOnly(Walk(LeafNodes(h), t), q, c)
    ensures var g := h[c := h[c].(literal := text)]; var w := Walk(LeafNodes(h), t);
            && Forest(g, kids) && Legal(g, kids) && LeafNodes(g) == LeafNodes(h)
            && Marks(g, w) == Marks(h, w)[..q] + [Opened(FootnoteReference, text), Closed(FootnoteReference)] + Marks(h, w)[q + 2..]
  {
    var w := Walk(LeafNodes(h), t);
    hide Walk, Shape, Forest, Legal, LeafNodes, PairOnly;
    LiteralOnly(h, kids, c, text);
    NoMarkElse(h, w, q, c, text);
  }

  lemma NoMarkElse(h: Heap, w: seq<Event>, q: nat, c: nat, text: string)
    requires c < |h| && h[c].kind == FootnoteReference && PairOnly(w, q, c)
    ensures var g := h[c := h[c].(literal := text)];
            Marks(g, w) == Marks(h, w)[..q] + [Opened(FootnoteReference, text), Closed(FootnoteReference)] + Marks(h, w)[q + 2..]
  {
    var g := h[c := h[c].(literal := text)];
    forall i: nat | i < |w| && i != q && i != q + 1 ensures Marks(g, w)[i] == Marks(h, w)[i] {
      assert w[i].Done? || w[i].node != c;
    }
  }

  lemma LiteralOnly(h: Heap, kids: Kids, c: nat, text: string)
    requires Forest(h, kids) && Legal(h, kids) && c < |h|
    ensures var g := h[c := h[c].(literal := text)]; Forest(g, kids) && Legal(g, kids) && LeafNodes(g) == LeafNodes(h)
  {
    var g := h[c := h[c].(literal := text)];
    hide CanContain, IsLeaf;
    forall n: nat | n < |g| ensures Down(g, kids, n) && Up(g, kids, n) && LegalAt(g, kids, n) {
      DownOf(h, kids, n);
      assert LegalAt(h, kids, n);
      ChainSame(h, g, kids[n]);
    }
    var rank :| Ranked(h, rank);
    assert Ranked(g, rank);
  }

  // ---------------------------------------------------------------- the replacement

  /** An unresolved reference makes way for its text. */
  method ReplaceByText(store: Store, cur: nat, text: string, junk: nat -> Node)
    requires store.Valid() && Legal(store.heap, store.kids) && forall n :: Alone(junk(n))
    requires cur < |store.heap| && store.heap[cur].kind == FootnoteReference && store.heap[cur].parent >= 0
    modifies store
    ensures Replaced(old(store.heap), old(store.kids), cur, text, store.heap, store.kids) && Legal(store.heap, store.kids)
  {
    ghost var h, kids := store.heap, store.kids;
    RefIsBare(h, kids, cur);
    InBounds(h, kids, cur);
    hide Forest, Removed, Legal, Put, Replaced, Freed, Shape, Nodes, Bypass, Moved, Under, WellFormed;
    var x := store.NewNode(Text, text);
    ghost var h1, k1 := store.heap, store.kids;
    TextMayStand(h, kids, cur, h1);
    var ok := store.InsertAfter(cur, x);
    ghost var h2, k2 := store.heap, store.kids;
    ghost var t;
    var freed;
    freed, t := FreeNode(store, cur, junk);
    NowReplaced(h, kids, cur, text, h1, h2, k2, t, store.heap, store.kids, junk);
  }

  /** The new node is above nothing, and its kind may stand where a reference does. */
  lemma TextMayStand(h: Heap, kids: Kids, c: nat, h1: Heap)
    requires Forest(h, kids) && Legal(h, kids) && c < |h| && h[c].kind == FootnoteReference && 0 <= h[c].parent < |h|
    requires |h1| == |h| + 1 && h1[|h|].kind == Text && forall n :: 0 <= n < |h| ==> h1[n] == h[n]
    requires h1[|h|].parent == NULL
    ensures forall safety: bool :: Allowed(h1, safety, h1[c].parent, |h|)
    ensures Fits(h1, c, |h|)
  {
    var p := h[c].parent;
    DownOf(h, kids, c);
    assert LegalAt(h, kids, p);
    RefOrText(h[p].kind);
    forall n: nat | n < |h1| ensures h1[n].parent != |h| {
      if n < |h| { InBounds(h, kids, n); }
    }
    NotAbove(h1, p, |h|);
  }

  lemma RefOrText(k: Kind)
    requires CanContain(k, FootnoteReference)
    ensures CanContain(k, Text) && k != FootnoteReference
  {
  }

  lemma NotAbove(h: Heap, m: nat, x: nat)
    requires m != x
    ensures Under(h, m, x) ==> exists n :: 0 <= n < |h| && h[n].parent == x
  {
    if Under(h, m, x) {
      var path :| Climbs(h, path) && path[0] == m && path[|path| - 1] == x;
      assert h[path[|path| - 2]].parent == path[|path| - 2 + 1];
    }
  }

  /** Putting `x` behind the `i`-th and taking that one out. */
  lemma PutAndTake(s: seq<nat>, i: nat, x: nat)
    requires Distinct(s) && i < |s| && x !in s
    ensures var r := Inserted(s, i + 1, x);
            Place(s, s[i]) == i && Place(r, s[i]) == i && i < |r| && s[i] in r && Without(r, i) == Renamed(s, s[i], x)
  {
    var r := Inserted(s, i + 1, x);
    assert r[i] == s[i];
    FirstPlace(s, i);
    FirstPlace(r, i);
    forall j: nat | j < |s| && j != i ensures s[j] != s[i] { }
  }

  lemma {:induction false} FirstPlace(s: seq<nat>, i: nat)
    requires i < |s| && forall j :: 0 <= j < i ==> s[j] != s[i]
    ensures Place(s, s[i]) == i
  {
    if i > 0 {
      assert s[1..][i - 1] == s[i] && s[0] != s[i] && forall j :: 0 <= j < i - 1 ==> s[1..][j] == s[j + 1];
      FirstPlace(s[1..], i - 1);
    }
  }

  lemma NowReplaced(h: Heap, kids: Kids, c: nat, text: string, h1: Heap, h2: Heap, k2: Kids, t: Tree, g: Heap, k: Kids, junk: nat -> Node)
    requires Forest(h, kids) && Legal(h, kids) && c < |h| && h[c].kind == FootnoteReference && 0 <= h[c].parent < |h|
    requires h1 == h + [Node(Text, text, NULL, NULL, NULL, NULL, NULL)]
    requires Forest(h2, k2) && Moved(h1, kids + [[]], h[c].parent, After(c), |h|, h2, k2)
    requires c < |h2| && t.node == c && Shape(k2, t) && Freed(Bypass(h2, c), g, Nodes(t), junk, {})
    requires k == Emptied(Removed(k2, h2[c].parent, c), Nodes(t)) && Forest(g, k)
    ensures Replaced(h, kids, c, text, g, k) && Legal(g, k)
  {
    NewKids(h, kids, c, h1, h2, k2);
    assert Nodes(t) == {c} by { assert t.subs == []; }
    hide Forest, Moved, Removed, Shape, Nodes, Legal;
    NewNodes(h, c, h1, h2, g, junk);
    LegalStill(h, kids, c, g, k);
  }

  lemma NewKids(h: Heap, kids: Kids, c: nat, h1: Heap, h2: Heap, k2: Kids)
    requires Forest(h, kids) && Legal(h, kids) && c < |h| && h[c].kind == FootnoteReference && 0 <= h[c].parent < |h|
    requires |h1| == |h| + 1 && h1[|h|].parent == NULL && h1[c] == h[c]
    requires Forest(h2, k2) && |h2| == |h1| && Moved(h1, kids + [[]], h[c].parent, After(c), |h|, h2, k2)
    ensures |k2| == |kids| + 1 && k2[c] == []
    ensures KidsSwapped(kids, Emptied(Removed(k2, h2[c].parent, c), {c}), c, |h|)
  {
    hide Forest, Moved, Put, Removed, Emptied;
    var p := h[c].parent;
    AfterPut(h, kids, c, h1, h2, k2);
    OnlyParent(h, kids, c);
    SwappedKids(kids, c, p, k2);
  }

  lemma AfterPut(h: Heap, kids: Kids, c: nat, h1: Heap, h2: Heap, k2: Kids)
    requires Forest(h, kids) && c < |h| && 0 <= h[c].parent < |h|
    requires |h1| == |h| + 1 && h1[|h|].parent == NULL
    requires Forest(h2, k2) && |h2| == |h1| && Moved(h1, kids + [[]], h[c].parent, After(c), |h|, h2, k2)
    ensures var p := h[c].parent; p < |kids| && c in kids[p] && k2 == Put(kids + [[]], p, Place(kids[p], c) + 1, |h|) && h2[c].parent == p
  {
    var p, x, k1 := h[c].parent, |h|, kids + [[]];
    DownOf(h, kids, c);
    hide Acyclic, Chain;
    assert Removed(k1, NULL, x) == k1 && k1[p] == kids[p];
    InsertedElements(kids[p], Place(kids[p], c) + 1, x);
    assert c in k2[p];
    DownOf(h2, k2, p);
  }

  lemma OnlyParent(h: Heap, kids: Kids, c: nat)
    requires Forest(h, kids) && Legal(h, kids) && c < |h| && h[c].kind == FootnoteReference && 0 <= h[c].parent < |h|
    ensures var p := h[c].parent;
            && |kids| == |h| && c != p && kids[c] == [] && Distinct(kids[p]) && (forall d :: d in kids[p] ==> d < |h|)
            && forall n :: 0 <= n < |kids| && n != p ==> c !in kids[n]
  {
    var p := h[c].parent;
    RefIsBare(h, kids, c);
    DownOf(h, kids, c);
    DownOf(h, kids, p);
    ChainIsDistinct(h, kids[p]);
    InRange(h, kids[p]);
    hide Acyclic, Chain, Legal;
    forall n: nat | n < |kids| && n != p ensures c !in kids[n] { DownOf(h, kids, n); }
  }

  lemma SwappedKids(kids: Kids, c: nat, p: nat, k2: Kids)
    requires c < |kids| && p < |kids| && c != p && c in kids[p] && kids[c] == [] && Distinct(kids[p]) && forall d :: d in kids[p] ==> d < |kids|
    requires forall n :: 0 <= n < |kids| && n != p ==> c !in kids[n]
    requires k2 == Put(kids + [[]], p, Place(kids[p], c) + 1, |kids|)
    ensures |k2| == |kids| + 1 && k2[c] == [] && KidsSwapped(kids, Emptied(Removed(k2, p, c), {c}), c, |kids|)
  {
    var x, i := |kids|, Place(kids[p], c);
    PutAndTake(kids[p], i, x);
    hide Place, Renamed, Inserted, Without;
    assert k2[p] == Inserted(kids[p], i + 1, x);
    assert Removed(k2, p, c) == k2[p := Renamed(kids[p], c, x)];
    forall n: nat | n < |kids| && n != c && n != p ensures kids[n] == Renamed(kids[n], c, x) {
      NotRenamed(kids[n], c, x);
    }
  }

  lemma NotRenamed(s: seq<nat>, c: nat, x: nat)
    requires c !in s
    ensures Renamed(s, c, x) == s
  {
    assert forall i :: 0 <= i < |s| ==> s[i] in s;
  }

  lemma NewNodes(h: Heap, c: nat, h1: Heap, h2: Heap, g: Heap, junk: nat -> Node)
    requires c < |h| && |h1| == |h| + 1 && (forall n :: 0 <= n < |h| ==> h1[n] == h[n]) && SameNodes(h1, h2)
    requires Freed(Bypass(h2, c), g, {c}, junk, {})
    ensures |g| == |h| + 1 && g[|h|].kind == h1[|h|].kind && g[|h|].literal == h1[|h|].literal
    ensures forall n :: 0 <= n < |h| && n != c ==> g[n].kind == h[n].kind && g[n].literal == h[n].literal
  {
    BypassSame(h2, c);
  }

  lemma LegalStill(h: Heap, kids: Kids, c: nat, g: Heap, k: Kids)
    requires Legal(h, kids) && c < |h| && h[c].kind == FootnoteReference && KidsSwapped(kids, k, c, |h|)
    requires |g| == |h| + 1 && g[|h|].kind == Text && forall n :: 0 <= n < |h| && n != c ==> g[n].kind == h[n].kind
    ensures Legal(g, k)
  {
    hide CanContain;
    RefIsBare(h, kids, c);
    forall n: nat | n < |g| ensures LegalAt(g, k, n) {
      if n < |h| && n != c {
        assert LegalAt(h, kids, n);
        forall d | d in k[n] ensures d < |g| && CanContain(g[n].kind, g[d].kind) {
          var i :| 0 <= i < |k[n]| && k[n][i] == d;
          assert kids[n][i] in kids[n];
          if kids[n][i] == c { RefOrText(h[n].kind); }
          RefHolds(h[n].kind);
        }
      }
    }
  }

  lemma RefHolds(k: Kind)
    ensures CanContain(k, FootnoteReference) ==> k != FootnoteReference
  {
  }

  // ---------------------------------------------------------------- the first walk

  predicate LeavesDefinition(h: Heap, e: Event) {
    e.Exit? && e.node < |h| && h[e.node].kind == FootnoteDefinition
  }

  /** The definitions in the order in which the walk leaves them. */
  function DefsIn(h: Heap, w: seq<Event>): seq<Definition> {
    if w == [] then []
    else
      var e := w[|w| - 1];
      DefsIn(h, w[..|w| - 1]) + if LeavesDefinition(h, e) then [Definition(h[e.node].literal, e.node)] else []
  }

  lemma OneMoreDef(h: Heap, w: seq<Event>, i: nat)
    requires i < |w|
    ensures DefsIn(h, w[..i + 1]) == DefsIn(h, w[..i]) + if LeavesDefinition(h, w[i]) then [Definition(h[w[i].node].literal, w[i].node)] else []
  {
    assert w[..i + 1][..i] == w[..i];
  }

  /** The loop that fills the map. */
  method Collect(store: Store, root: nat, normalize: string -> string, maxRefSize: nat) returns (refmap: Map, nodes: seq<nat>, ghost t: Tree)
    requires store.Valid() && root < |store.heap|
    ensures fresh(refmap) && refmap.Valid() && refmap.normalize == normalize && refmap.sorted == null
    ensures t.node == root && Shape(store.kids, t)
    ensures var ds := Labelled(normalize, DefsIn(store.heap, Walk(LeafNodes(store.heap), t)));
            refmap.Defs() == Entries(normalize, ds) && nodes == DefNodes(ds)
  {
    hide Labelled, Aged, Answers, Increasing, Walk, Shape, LeafNodes, DefsIn;
    ghost var h := store.heap;
    refmap := new Map(normalize, maxRefSize);
    nodes := [];
    var iter := new Iter(store, root);
    t := iter.tree;
    ghost var w := Walk(LeafNodes(h), t);
    NothingCollected(normalize, h, w);
    var e := iter.Next();
    while !e.Done?
      invariant iter.Valid() && iter.store == store && iter.tree == t && iter.root == root && iter.pos >= 1 && fresh(iter) && fresh(refmap)
      invariant iter.pos - 1 <= |w| && e == EventAt(w, iter.pos - 1)
      invariant refmap.Valid() && refmap.sorted == null && refmap.normalize == normalize
      invariant var ds := Labelled(normalize, DefsIn(h, w[..iter.pos - 1])); refmap.Defs() == Entries(normalize, ds) && nodes == DefNodes(ds)
      decreases |w| + 1 - iter.pos
    {
      ghost var i := iter.pos - 1;
      InWalk(h, store.kids, t, i);
      OneMoreDef(h, w, i);
      if e.Exit? && store.heap[e.node].kind == FootnoteDefinition {
        var literal := store.heap[e.node].literal;
        OneLabelled(normalize, DefsIn(h, w[..i]), Definition(literal, e.node));
        refmap.Create(literal, 0);
        if normalize(literal) != "" {
          nodes := nodes + [e.node];
        }
      } else {
        assert DefsIn(h, w[..i]) + [] == DefsIn(h, w[..i]);
      }
      e := iter.Next();
    }
    WalkEvents(LeafNodes(h), t);
    assert w[..|w|] == w;
  }

  lemma NothingCollected(normalize: string -> string, h: Heap, w: seq<Event>)
    ensures Labelled(normalize, DefsIn(h, w[..0])) == [] && DefNodes([]) == [] && Entries(normalize, []) == []
  {
    NoneLabelled(normalize);
  }

  lemma InWalk(h: Heap, kids: Kids, t: Tree, i: nat)
    requires Forest(h, kids) && Shape(kids, t) && i < |Walk(LeafNodes(h), t)|
    ensures var e := Walk(LeafNodes(h), t)[i]; !e.Done? && e.node < |h| && e.node in Nodes(t)
  {
    RollsAlong(h, kids, LeafNodes(h), t, i);
    WalkNodes(LeafNodes(h), t, i);
  }

  // ---------------------------------------------------------------- the second walk

  /** Where the loop stands in the tree: `i` is the place of the event in hand, `q` how far the walk is rewritten,
      with `m` references behind it.  The two differ by one while a reference has been entered only. */
  ghost predicate Numbering(h: Heap, kids: Kids, t: Tree, target: seq<Mark>, notes: seq<Note>, labels: seq<string>, i: nat, q: nat, m: nat) {
    && Forest(h, kids) && Legal(h, kids) && Shape(kids, t) && t.node < |h| && h[t.node].kind == Document
    && var w := Walk(LeafNodes(h), t);
    && q <= i <= |w| && Progress(target, notes, labels, Marks(h, w), q, m)
    && (q == i || (i == q + 1 && IsRef(Marks(h, w)[q])))
    && (q == i > 0 ==> !IsRef(Marks(h, w)[q - 1]))
  }

  /** An event that is not the exit of a reference. */
  lemma OtherEvent(h: Heap, kids: Kids, t: Tree, target: seq<Mark>, notes: seq<Note>, labels: seq<string>, i: nat, q: nat, m: nat)
    requires Numbering(h, kids, t, target, notes, labels, i, q, m) && i < |Walk(LeafNodes(h), t)|
    requires var e := Walk(LeafNodes(h), t)[i]; !e.Done? && e.node < |h| && !(e.Exit? && h[e.node].kind == FootnoteReference)
    ensures q == i && Numbering(h, kids, t, target, notes, labels, i + 1, if IsRef(MarkOf(h, Walk(LeafNodes(h), t)[i])) then q else q + 1, m)
  {
    var w := Walk(LeafNodes(h), t);
    hide Walk, LeafNodes, Forest, Shape, Progress, Legal;
    InWalk(h, kids, t, i);
    if i == q + 1 {
      InWalk(h, kids, t, q);
      RefIsBare(h, kids, w[q].node);
      ExitFollows(h, kids, t, q, w[q].node);
    } else if !IsRef(MarkOf(h, w[i])) {
      PassOver(target, notes, labels, Marks(h, w), q, m);
    }
  }

  /** The exit of a reference comes right after its entry, which is next to be rewritten. */
  lemma ExitOfRef(h: Heap, kids: Kids, t: Tree, target: seq<Mark>, notes: seq<Note>, labels: seq<string>, i: nat, q: nat, m: nat)
    requires Numbering(h, kids, t, target, notes, labels, i, q, m) && i < |Walk(LeafNodes(h), t)|
    requires var e := Walk(LeafNodes(h), t)[i]; e.Exit? && e.node < |h| && h[e.node].kind == FootnoteReference
    ensures var w := Walk(LeafNodes(h), t); var c := w[i].node;
            && i == q + 1 && PairOnly(w, q, c) && m < |labels| && labels[m] == h[c].literal && c != t.node && 0 <= h[c].parent < |h|
            && c !in LeafNodes(h) && IsRef(Marks(h, w)[q]) && !IsRef(Marks(h, w)[q + 1])
  {
    var w := Walk(LeafNodes(h), t);
    var c := w[i].node;
    hide Walk, LeafNodes, Forest, Shape, Progress, Legal;
    RefIsBare(h, kids, c);
    SizesMatch(h, kids);
    EnterPrecedes(kids, LeafNodes(h), t, i, c);
    InWalk(h, kids, t, i);
    ExitFollows(h, kids, t, i - 1, c);
    AtRef(target, notes, labels, Marks(h, w), q, m);
    ParentBelow(h, kids, t, c);
  }

  lemma SizesMatch(h: Heap, kids: Kids)
    requires Forest(h, kids)
    ensures |h| == |kids|
  {
  }

  lemma ParentBelow(h: Heap, kids: Kids, t: Tree, c: nat)
    requires Forest(h, kids) && Shape(kids, t) && c in Nodes(t) && c != t.node
    ensures c < |h| && 0 <= h[c].parent < |h|
  {
    ParentIn(h, kids, t, c);
    InBounds(h, kids, c);
  }

  /** Behind a note that has been put in the walk there is no reference entered only. */
  lemma NotePut(target: seq<Mark>, notes: seq<Note>, labels: seq<string>, ms: seq<Mark>, q: nat, m: nat, ms': seq<Mark>)
    requires Progress(target, notes, labels, ms, q, m) && q + 1 < |ms| && IsRef(ms[q]) && !IsRef(ms[q + 1]) && m < |labels| && m < |notes|
    requires ms' == match notes[m]
                    case Numbered(_, ix, _) => ms[..q] + [Opened(FootnoteReference, Decimal(ix)), Closed(FootnoteReference)] + ms[q + 2..]
                    case Plain(text) => ms[..q] + [Opened(Text, text)] + ms[q + 2..]
    ensures var i := if notes[m].Plain? then q + 1 else q + 2;
            i <= |ms'| && !IsRef(ms'[i - 1]) && Progress(target, notes, labels, ms', i, m + 1)
  {
    Rewrite(target, notes, labels, ms, q, m, ms');
  }

  lemma NumberedOn(h: Heap, kids: Kids, t: Tree, target: seq<Mark>, notes: seq<Note>, labels: seq<string>, i: nat, q: nat, m: nat)
    requires Numbering(h, kids, t, target, notes, labels, i, q, m) && i < |Walk(LeafNodes(h), t)|
    requires var e := Walk(LeafNodes(h), t)[i]; e.Exit? && e.node < |h| && h[e.node].kind == FootnoteReference
    requires m < |notes| && notes[m].Numbered?
    ensures var c := Walk(LeafNodes(h), t)[i].node; var g := h[c := h[c].(literal := Decimal(notes[m].ix))];
            LeafNodes(g) == LeafNodes(h) && Numbering(g, kids, t, target, notes, labels, i + 1, i + 1, m + 1)
  {
    var w := Walk(LeafNodes(h), t);
    var c := w[i].node;
    hide Walk, LeafNodes, Forest, Shape, Progress, Legal, PairOnly, Marks;
    ExitOfRef(h, kids, t, target, notes, labels, i, q, m);
    LiteralMarks(h, kids, t, q, c, Decimal(notes[m].ix));
    var g := h[c := h[c].(literal := Decimal(notes[m].ix))];
    NotePut(target, notes, labels, Marks(h, w), q, m, Marks(g, w));
  }

  lemma PlainOn(h: Heap, kids: Kids, t: Tree, target: seq<Mark>, notes: seq<Note>, labels: seq<string>, i: nat, q: nat, m: nat, g: Heap, k: Kids)
    requires Numbering(h, kids, t, target, notes, labels, i, q, m) && i < |Walk(LeafNodes(h), t)|
    requires var e := Walk(LeafNodes(h), t)[i]; e.Exit? && e.node < |h| && h[e.node].kind == FootnoteReference
    requires m < |notes| && notes[m].Plain? && Legal(g, k)
    requires Replaced(h, kids, Walk(LeafNodes(h), t)[i].node, notes[m].text, g, k)
    ensures i > 0
    ensures var t' := Swap(t, Walk(LeafNodes(h), t)[i].node, |h|);
            && Numbering(g, k, t', target, notes, labels, i, i, m + 1) && t'.node == t.node
            && EventAt(Walk(LeafNodes(g), t'), i) == EventAt(Walk(LeafNodes(h), t), i + 1)
            && |Walk(LeafNodes(g), t')| == |Walk(LeafNodes(h), t)| - 1
  {
    var w := Walk(LeafNodes(h), t);
    var c := w[i].node;
    var t' := Swap(t, c, |h|);
    hide Walk, LeafNodes, Forest, Shape, Progress, Legal, PairOnly, Marks, Swap, KidsSwapped;
    ExitOfRef(h, kids, t, target, notes, labels, i, q, m);
    TextMarks(h, kids, t, q, c, notes[m].text, g, k);
    var w' := Walk(LeafNodes(g), t');
    NotePut(target, notes, labels, Marks(h, w), q, m, Marks(g, w'));
  }

  /** What is no reference stays as it is, and the root stands alone. */
  ghost predicate Kept(h0: Heap, h: Heap, root: nat) {
    && root < |h0| <= |h| && h[root].parent == NULL
    && forall n :: 0 <= n < |h0| && h0[n].kind != FootnoteReference ==> h[n].kind == h0[n].kind && h[n].literal == h0[n].literal
  }

  lemma KeptReplaced(h0: Heap, h: Heap, kids: Kids, root: nat, c: nat, text: string, g: Heap, k: Kids)
    requires Kept(h0, h, root) && Forest(h, kids) && Replaced(h, kids, c, text, g, k) && c < |h| && h[c].kind == FootnoteReference && c != root
    ensures Kept(h0, g, root)
  {
    DownOf(g, k, root);
    DownOf(h, kids, root);
    if g[root].parent != NULL {
      var p := g[root].parent;
      var i :| 0 <= i < |k[p]| && k[p][i] == root;
      assert kids[p][i] == root;
      DownOf(h, kids, p);
    }
  }

  lemma StartNumbering(h: Heap, kids: Kids, t: Tree, notes: seq<Note>)
    requires Forest(h, kids) && Legal(h, kids) && Shape(kids, t) && t.node < |h| && h[t.node].kind == Document && h[t.node].parent == NULL
    requires |notes| == |RefLabels(Marks(h, Walk(LeafNodes(h), t)))|
    ensures var ms := Marks(h, Walk(LeafNodes(h), t)); Numbering(h, kids, t, Rewritten(ms, notes), notes, RefLabels(ms), 0, 0, 0)
    ensures Kept(h, h, t.node)
  {
    StartProgress(Marks(h, Walk(LeafNodes(h), t)), notes);
  }

  lemma EndNumbering(h: Heap, kids: Kids, t: Tree, target: seq<Mark>, notes: seq<Note>, labels: seq<string>, i: nat, q: nat, m: nat)
    requires Numbering(h, kids, t, target, notes, labels, i, q, m) && EventAt(Walk(LeafNodes(h), t), i).Done?
    ensures Marks(h, Walk(LeafNodes(h), t)) == target && m == |labels| && Shape(kids, t)
  {
    var w := Walk(LeafNodes(h), t);
    hide Walk, LeafNodes, Forest, Shape, Progress, Legal;
    if i < |w| { InWalk(h, kids, t, i); }
    assert q == i;
    EndProgress(target, notes, labels, Marks(h, w), m);
  }

  lemma NoteIs(ts: seq<int>, labels: seq<string>, ix: seq<nat>, counts: seq<nat>, last: nat, notes: seq<Note>)
    requires NumberedTo(ts, labels, |notes|, ix, counts, last, notes) && notes != []
    ensures |ts| == |labels| >= |notes| && notes[|notes| - 1] == NoteAt(ts, labels, |notes| - 1)
  {
  }

  lemma NumberingValid(h: Heap, kids: Kids, t: Tree, target: seq<Mark>, notes: seq<Note>, labels: seq<string>, i: nat, q: nat, m: nat)
    requires Numbering(h, kids, t, target, notes, labels, i, q, m)
    ensures Forest(h, kids) && Legal(h, kids) && Shape(kids, t)
  {
  }

  /** Writes a note where the iterator has just left a reference. */
  method PutNote(store: Store, iter: Iter, c: nat, note: Note, junk: nat -> Node, ghost h0: Heap, ghost target: seq<Mark>,
      ghost all: seq<Note>, ghost labels: seq<string>, ghost q: nat, ghost m: nat)
    requires iter.Valid() && iter.store == store && iter.pos >= 1 && forall n :: Alone(junk(n))
    requires EventAt(iter.Whole(), iter.pos - 1) == Exit(c) && c < |store.heap| && store.heap[c].kind == FootnoteReference
    requires Numbering(store.heap, store.kids, iter.tree, target, all, labels, iter.pos - 1, q, m) && m < |all| && note == all[m]
    requires Kept(h0, store.heap, iter.root)
    modifies store, iter
    ensures iter.Valid() && |iter.Whole()| - iter.pos == old(|iter.Whole()| - iter.pos)
    ensures Numbering(store.heap, store.kids, iter.tree, target, all, labels, iter.pos, iter.pos, m + 1)
    ensures Legal(store.heap, store.kids) && Kept(h0, store.heap, iter.root)
  {
    hide Walk, LeafNodes, Shape, Marks, Forest, Legal, Numbering, Kept, Replaced;
    ghost var h, k, t, i := store.heap, store.kids, iter.tree, iter.pos - 1;
    NumberingValid(h, k, t, target, all, labels, i, q, m);
    ExitOfRef(h, k, t, target, all, labels, i, q, m);
    match note
    case Numbered(_, n, _) =>
      NumberedOn(h, k, t, target, all, labels, i, q, m);
      store.heap := store.heap[c := store.heap[c].(literal := Decimal(n))];
      NumberingValid(store.heap, k, t, target, all, labels, i + 1, i + 1, m + 1);
      KeptLiteral(h0, h, iter.root, c, Decimal(n));
    case Plain(text) =>
      ReplaceByText(store, c, text, junk);
      PlainOn(h, k, t, target, all, labels, i, q, m, store.heap, store.kids);
      KeptReplaced(h0, h, k, iter.root, c, text, store.heap, store.kids);
      iter.tree := Swap(t, c, |h|);
      iter.pos := i;
      NumberingValid(store.heap, store.kids, iter.tree, target, all, labels, i, i, m + 1);
  }

  lemma KeptLiteral(h0: Heap, h: Heap, root: nat, c: nat, text: string)
    requires Kept(h0, h, root) && c < |h| && h[c].kind == FootnoteReference
    ensures Kept(h0, h[c := h[c].(literal := text)], root)
  {
  }

  /** What the loop does where it leaves a reference. */
  method NoteReference(store: Store, iter: Iter, refmap: Map, c: nat, junk: nat -> Node, ix: seq<nat>, counts: seq<nat>, last: nat,
      notes: seq<Note>, ghost h0: Heap, ghost target: seq<Mark>, ghost all: seq<Note>, ghost labels: seq<string>, ghost ts: seq<int>, ghost q: nat)
    returns (note: Note, ix': seq<nat>, counts': seq<nat>, last': nat)
    requires iter.Valid() && iter.store == store && iter.pos >= 1 && forall n :: Alone(junk(n))
    requires EventAt(iter.Whole(), iter.pos - 1) == Exit(c) && c < |store.heap| && store.heap[c].kind == FootnoteReference
    requires Numbering(store.heap, store.kids, iter.tree, target, all, labels, iter.pos - 1, q, |notes|) && Kept(h0, store.heap, iter.root)
    requires refmap.Valid() && (forall e :: e in refmap.Defs() ==> e.size == 0) && |ix| == |counts| == |refmap.Defs()|
    requires ts == Targets(refmap.normalize, refmap.Defs(), labels) && NumberedTo(ts, labels, |notes|, ix, counts, last, notes)
    requires |all| == |labels| == |ts| && forall i :: 0 <= i < |labels| ==> all[i] == NoteAt(ts, labels, i)
    modifies store, iter, refmap
    ensures iter.Valid() && |iter.Whole()| - iter.pos == old(|iter.Whole()| - iter.pos)
    ensures Numbering(store.heap, store.kids, iter.tree, target, all, labels, iter.pos, iter.pos, |notes| + 1) && Kept(h0, store.heap, iter.root)
    ensures refmap.Valid() && refmap.Defs() == old(refmap.Defs()) && |ix'| == |counts'| == |refmap.Defs()|
    ensures |notes| < |labels| && NumberedTo(ts, labels, |notes| + 1, ix', counts', last', notes + [note])
    ensures ts[|notes|] >= 0 || old(refmap.sorted) != null ==> refmap.sorted != null
  {
    hide FirstSeen, Count, Number, NumberedTo, Answers, Increasing, Counted, Targets, Walk, LeafNodes, Shape, Marks, Rewritten,
      RefLabels, Forest, Legal, NoteAt, Aged, Numbering, Kept, Replaced, Reversed;
    ExitOfRef(store.heap, store.kids, iter.tree, target, all, labels, iter.pos - 1, q, |notes|);
    note, ix', counts', last' := NumberOne(refmap, store.heap[c].literal, ix, counts, last, labels, notes);
    NoteIs(ts, labels, ix', counts', last', notes + [note]);
    PutNote(store, iter, c, note, junk, h0, target, all, labels, q, |notes|);
  }

  /** The body of the loop. */
  method HandleEvent(store: Store, iter: Iter, refmap: Map, e: Event, junk: nat -> Node, ix: seq<nat>, counts: seq<nat>, last: nat,
      notes: seq<Note>, ghost h0: Heap, ghost target: seq<Mark>, ghost all: seq<Note>, ghost labels: seq<string>, ghost ts: seq<int>, ghost q: nat)
    returns (notes': seq<Note>, ix': seq<nat>, counts': seq<nat>, last': nat, ghost q': nat)
    requires iter.Valid() && iter.store == store && iter.pos >= 1 && forall n :: Alone(junk(n))
    requires e == EventAt(iter.Whole(), iter.pos - 1) && !e.Done?
    requires Numbering(store.heap, store.kids, iter.tree, target, all, labels, iter.pos - 1, q, |notes|) && Kept(h0, store.heap, iter.root)
    requires refmap.Valid() && (forall e :: e in refmap.Defs() ==> e.size == 0) && |ix| == |counts| == |refmap.Defs()|
    requires ts == Targets(refmap.normalize, refmap.Defs(), labels) && NumberedTo(ts, labels, |notes|, ix, counts, last, notes)
    requires |all| == |labels| == |ts| && forall i :: 0 <= i < |labels| ==> all[i] == NoteAt(ts, labels, i)
    requires (forall j :: 0 <= j < |notes| && j < |ts| ==> ts[j] < 0) || refmap.sorted != null
    modifies store, iter, refmap
    ensures iter.Valid() && |iter.Whole()| - iter.pos == old(|iter.Whole()| - iter.pos)
    ensures Numbering(store.heap, store.kids, iter.tree, target, all, labels, iter.pos, q', |notes'|) && Kept(h0, store.heap, iter.root)
    ensures refmap.Valid() && refmap.Defs() == old(refmap.Defs()) && |ix'| == |counts'| == |refmap.Defs()|
    ensures NumberedTo(ts, labels, |notes'|, ix', counts', last', notes')
    ensures (forall j :: 0 <= j < |notes'| && j < |ts| ==> ts[j] < 0) || refmap.sorted != null
  {
    hide FirstSeen, Count, Number, NumberedTo, Answers, Increasing, Counted, Targets, Walk, LeafNodes, Shape, Marks, Rewritten,
      RefLabels, Forest, Legal, NoteAt, Aged, Numbering, Kept, Replaced, Reversed, MarkOf;
    notes', ix', counts', last' := notes, ix, counts, last;
    ghost var i := iter.pos - 1;
    InWalk(store.heap, store.kids, iter.tree, i);
    if e.Exit? && store.heap[e.node].kind == FootnoteReference {
      var note;
      note, ix', counts', last' := NoteReference(store, iter, refmap, e.node, junk, ix, counts, last, notes, h0, target, all, labels, ts, q);
      q' := iter.pos;
      notes' := notes + [note];
    } else {
      OtherEvent(store.heap, store.kids, iter.tree, target, all, labels, i, q, |notes|);
      q' := if IsRef(MarkOf(store.heap, e)) then q else q + 1;
    }
  }

  /** The loop itself, from a new iterator on. */
  method AllReferences(store: Store, iter: Iter, refmap: Map, junk: nat -> Node, ix0: seq<nat>, counts0: seq<nat>,
      ghost h0: Heap, ghost target: seq<Mark>, ghost all: seq<Note>, ghost labels: seq<string>, ghost ts: seq<int>)
    returns (notes: seq<Note>, ix: seq<nat>, counts: seq<nat>)
    requires iter.Valid() && iter.store == store && iter.pos == 0 && forall n :: Alone(junk(n))
    requires Numbering(store.heap, store.kids, iter.tree, target, all, labels, 0, 0, 0) && Kept(h0, store.heap, iter.root)
    requires refmap.Valid() && (forall e :: e in refmap.Defs() ==> e.size == 0) && |ix0| == |counts0| == |refmap.Defs()|
    requires ts == Targets(refmap.normalize, refmap.Defs(), labels) && NumberedTo(ts, labels, 0, ix0, counts0, 0, [])
    requires |all| == |labels| == |ts| && forall i :: 0 <= i < |labels| ==> all[i] == NoteAt(ts, labels, i)
    modifies store, iter, refmap
    ensures refmap.Valid() && refmap.Defs() == old(refmap.Defs()) && |ix| == |refmap.Defs()| && Counted(ts, ix, counts)
    ensures |notes| == |labels| && forall i :: 0 <= i < |labels| ==> notes[i] == NoteAt(ts, labels, i)
    ensures (forall j :: 0 <= j < |ts| ==> ts[j] < 0) || refmap.sorted != null
    ensures iter.Valid() && Legal(store.heap, store.kids) && Kept(h0, store.heap, iter.root)
    ensures Marks(store.heap, iter.Whole()) == target
  {
    hide FirstSeen, Count, Number, NumberedTo, Answers, Increasing, Counted, Targets, Walk, LeafNodes, Shape, Marks, Rewritten,
      RefLabels, Forest, Legal, NoteAt, Aged, Numbering, Kept, Replaced, Reversed, MarkOf, Decimal;
    var last := 0;
    ghost var q: nat := 0;
    notes, ix, counts := [], ix0, counts0;
    var e := iter.Next();
    while !e.Done?
      invariant iter.Valid() && iter.pos >= 1 && e == EventAt(iter.Whole(), iter.pos - 1)
      invariant Numbering(store.heap, store.kids, iter.tree, target, all, labels, iter.pos - 1, q, |notes|)
      invariant refmap.Valid() && refmap.Defs() == old(refmap.Defs()) && |ix| == |counts| == |refmap.Defs()|
      invariant NumberedTo(ts, labels, |notes|, ix, counts, last, notes)
      invariant (forall j :: 0 <= j < |notes| && j < |ts| ==> ts[j] < 0) || refmap.sorted != null
      invariant Kept(h0, store.heap, iter.root)
      decreases |iter.Whole()| + 1 - iter.pos
    {
      notes, ix, counts, last, q := HandleEvent(store, iter, refmap, e, junk, ix, counts, last, notes, h0, target, all, labels, ts, q);
      e := iter.Next();
    }
    NumberingValid(store.heap, store.kids, iter.tree, target, all, labels, iter.pos - 1, q, |notes|);
    EndNumbering(store.heap, store.kids, iter.tree, target, all, labels, iter.pos - 1, q, |notes|);
    AllDone(ts, labels, ix, counts, last, notes);
  }

  /** The loop over the references: each gets the number of its definition, or makes way for a text. */
  method NumberReferences(store: Store, root: nat, refmap: Map, junk: nat -> Node, ghost t0: Tree)
    returns (notes: seq<Note>, ix: seq<nat>, counts: seq<nat>, ghost t: Tree)
    requires store.Valid() && Legal(store.heap, store.kids) && (forall n :: Alone(junk(n)))
    requires root < |store.heap| && store.heap[root].kind == Document && store.heap[root].parent == NULL
    requires t0.node == root && Shape(store.kids, t0)
    requires refmap.Valid() && forall e :: e in refmap.Defs() ==> e.size == 0
    modifies store, refmap
    ensures refmap.Valid() && refmap.Defs() == old(refmap.Defs())
    ensures var labels := RefLabels(Marks(old(store.heap), Walk(LeafNodes(old(store.heap)), t0)));
            var ts := Targets(refmap.normalize, refmap.Defs(), labels);
            && |notes| == |labels| && (forall i :: 0 <= i < |labels| ==> notes[i] == NoteAt(ts, labels, i))
            && |ix| == |refmap.Defs()| && Counted(ts, ix, counts)
            && ((forall t :: t in ts ==> t < 0) || refmap.sorted != null)
    ensures store.Valid() && Legal(store.heap, store.kids) && t.node == root && Shape(store.kids, t)
    ensures Marks(store.heap, Walk(LeafNodes(store.heap), t))
         == Rewritten(Marks(old(store.heap), Walk(LeafNodes(old(store.heap)), t0)), notes)
    ensures Kept(old(store.heap), store.heap, root)
  {
    hide FirstSeen, Count, Number, NumberedTo, Answers, Increasing, Counted, Targets, Walk, LeafNodes, Shape, Marks, Rewritten,
      RefLabels, Forest, Legal, NoteAt, Aged, Numbering, Kept, Replaced, Reversed, MarkOf, Decimal;
    ghost var h0 := store.heap;
    ghost var labels := RefLabels(Marks(h0, Walk(LeafNodes(h0), t0)));
    ghost var ts := Targets(refmap.normalize, refmap.Defs(), labels);
    ghost var all := seq(|labels|, i requires 0 <= i < |labels| => NoteAt(ts, labels, i));
    ghost var target := Rewritten(Marks(h0, Walk(LeafNodes(h0), t0)), all);
    ix, counts := seq(|refmap.refs|, i => 0), seq(|refmap.refs|, i => 0);
    NothingSeen(|refmap.refs|, ts, labels);
    var iter := new Iter(store, root);
    ShapeUnique(store.kids, iter.tree, t0);
    StartNumbering(h0, store.kids, t0, all);
    notes, ix, counts := AllReferences(store, iter, refmap, junk, ix, counts, h0, target, all, labels, ts);
    t := iter.tree;
    assert notes == all;
  }

  // ---------------------------------------------------------------- what is freed in the end

  /** The subtrees `subs` have been freed, one after the other, each node once. */
  ghost predicate FreedTrees(h0: Heap, kids0: Kids, subs: seq<Tree>, freed: seq<nat>, junk: nat -> Node, h: Heap, kids: Kids) {
    && Forest(h, kids) && |h| == |h0| && kids == Emptied(kids0, NodesAll(subs))
    && (forall i :: 0 <= i < |subs| ==> Shape(kids0, subs[i]) && subs[i].node < |h0| && h0[subs[i].node].parent == NULL)
    && freed == PreorderAll(subs) && Distinct(freed)
    && forall m :: 0 <= m < |h| ==> h[m] == if m in NodesAll(subs) then junk(m) else h0[m]
  }

  lemma NoneFreed(h: Heap, kids: Kids, junk: nat -> Node)
    requires Forest(h, kids)
    ensures FreedTrees(h, kids, [], [], junk, h, kids)
  {
    assert Emptied(kids, {}) == kids;
  }

  /** A node that stood alone is in no freed subtree but its own. */
  lemma NotFreedYet(h0: Heap, kids0: Kids, subs: seq<Tree>, freed: seq<nat>, junk: nat -> Node, h: Heap, kids: Kids, x: nat)
    requires FreedTrees(h0, kids0, subs, freed, junk, h, kids) && Forest(h0, kids0) && x < |h0| && h0[x].parent == NULL
    requires forall i :: 0 <= i < |subs| ==> subs[i].node != x
    ensures x !in NodesAll(subs) && h[x] == h0[x]
  {
    if x in NodesAll(subs) {
      var i := InForest(subs, x);
      ParentIn(h0, kids0, subs[i], x);
    }
  }

  /** One more subtree. */
  lemma FreeOneMore(h0: Heap, kids0: Kids, subs: seq<Tree>, freed: seq<nat>, junk: nat -> Node, h: Heap, kids: Kids, t: Tree, g: Heap, k: Kids)
    requires FreedTrees(h0, kids0, subs, freed, junk, h, kids) && Forest(h0, kids0) && forall n :: Alone(junk(n))
    requires t.node < |h0| && h0[t.node].parent == NULL && forall i :: 0 <= i < |subs| ==> subs[i].node != t.node
    requires Shape(kids, t) && Freed(Bypass(h, t.node), g, Nodes(t), junk, {}) && Distinct(Preorder(t)) && Forest(g, k)
    requires k == Emptied(Removed(kids, h[t.node].parent, t.node), Nodes(t))
    ensures FreedTrees(h0, kids0, subs + [t], freed + Preorder(t), junk, g, k)
  {
    FreedApart(h0, kids0, subs, freed, junk, h, kids, t);
    hide Forest, Removed, Bypass, Emptied, Nodes, NodesAll, Preorder, PreorderAll, Shape, Distinct, Alone;
    ShapeSame(kids, kids0, t);
    NodesOneMore(subs, t);
    TreesApart(subs, t, freed);
    NothingRemoved(kids, t.node);
    EmptiedTwice(kids0, NodesAll(subs), Nodes(t));
    OneTreeMore(h0, kids0, subs, t);
  }

  /** The next subtree is apart from what has been freed, and stands alone. */
  lemma FreedApart(h0: Heap, kids0: Kids, subs: seq<Tree>, freed: seq<nat>, junk: nat -> Node, h: Heap, kids: Kids, t: Tree)
    requires FreedTrees(h0, kids0, subs, freed, junk, h, kids) && Forest(h0, kids0) && forall n :: Alone(junk(n))
    requires t.node < |h0| && h0[t.node].parent == NULL && (forall i :: 0 <= i < |subs| ==> subs[i].node != t.node) && Shape(kids, t)
    ensures h[t.node].parent == NULL && Bypass(h, t.node) == h && |kids| == |kids0|
    ensures forall m: nat :: m in Nodes(t) ==> m < |h| && m !in NodesAll(subs) && (m < |kids| ==> kids[m] == kids0[m])
  {
    var x := t.node;
    NotFreedYet(h0, kids0, subs, freed, junk, h, kids, x);
    RepOf(h, kids);
    BypassAlone(h, kids, x);
    hide Bypass, Rep, Acyclic;
    forall m: nat | m in Nodes(t) ensures m < |h| && m !in NodesAll(subs) {
      if m != x { ParentIn(h, kids, t, m); }
    }
  }

  lemma NothingRemoved(kids: Kids, x: nat)
    ensures Removed(kids, NULL, x) == kids
  {
  }

  lemma EmptiedTwice(kids: Kids, a: set<nat>, b: set<nat>)
    ensures Emptied(Emptied(kids, a), b) == Emptied(kids, a + b)
  {
  }

  lemma OneTreeMore(h0: Heap, kids0: Kids, subs: seq<Tree>, t: Tree)
    requires forall i :: 0 <= i < |subs| ==> Shape(kids0, subs[i]) && subs[i].node < |h0| && h0[subs[i].node].parent == NULL
    requires Shape(kids0, t) && t.node < |h0| && h0[t.node].parent == NULL
    ensures var s := subs + [t]; forall i :: 0 <= i < |s| ==> Shape(kids0, s[i]) && s[i].node < |h0| && h0[s[i].node].parent == NULL
  {
    hide Shape;
  }

  lemma NodesOneMore(subs: seq<Tree>, t: Tree)
    ensures NodesAll(subs + [t]) == NodesAll(subs) + Nodes(t) && PreorderAll(subs + [t]) == PreorderAll(subs) + Preorder(t)
  {
    PreorderConcat(subs, [t]);
    OnlyTree(t);
  }

  lemma TreesApart(subs: seq<Tree>, t: Tree, freed: seq<nat>)
    requires freed == PreorderAll(subs) && Distinct(freed) && Distinct(Preorder(t)) && forall m :: m in Nodes(t) ==> m !in NodesAll(subs)
    ensures Distinct(freed + Preorder(t))
  {
    forall m | m in freed ensures m !in Preorder(t) {
      PreorderAllNodes(subs, m);
      PreorderNodes(t, m);
    }
    DistinctConcat(freed, Preorder(t));
  }

  function Roots(subs: seq<Tree>): (r: seq<nat>)
    ensures |r| == |subs| && forall i :: 0 <= i < |subs| ==> r[i] == subs[i].node
  {
    seq(|subs|, i requires 0 <= i < |subs| => subs[i].node)
  }

  /** The nodes of the definitions without a number, from the last back to the `d`-th. */
  function Unnumbered(nodes: seq<nat>, ix: seq<nat>, d: nat): (r: seq<nat>)
    requires d <= |nodes| == |ix|
    ensures forall x :: x in r ==> exists e :: d <= e < |nodes| && nodes[e] == x && ix[e] == 0
    decreases |nodes| - d
  {
    if d == |nodes| then [] else Unnumbered(nodes, ix, d + 1) + if ix[d] == 0 then [nodes[d]] else []
  }

  /** `cmark_map_free`: every definition that was not written out is freed with all below it, no node twice. */
  method FreeDefinitions(store: Store, nodes: seq<nat>, ix: seq<nat>, junk: nat -> Node) returns (freed: seq<nat>, ghost subs: seq<Tree>)
    requires store.Valid() && Distinct(nodes) && |ix| == |nodes| && forall n :: Alone(junk(n))
    requires forall d :: 0 <= d < |nodes| && ix[d] == 0 ==> nodes[d] < |store.heap| && store.heap[nodes[d]].parent == NULL
    modifies store`heap, store`kids
    ensures FreedTrees(old(store.heap), old(store.kids), subs, freed, junk, store.heap, store.kids)
    ensures Roots(subs) == Unnumbered(nodes, ix, 0)
  {
    hide Forest, FreedTrees, Freed, Removed, Bypass, Shape, Nodes, Preorder, Distinct;
    ghost var h0, kids0 := store.heap, store.kids;
    freed, subs := [], [];
    NoneFreed(h0, kids0, junk);
    for d := |nodes| downto 0
      invariant FreedTrees(h0, kids0, subs, freed, junk, store.heap, store.kids) && Roots(subs) == Unnumbered(nodes, ix, d)
    {
      if ix[d] == 0 {
        ghost var h, k := store.heap, store.kids;
        NotYet(nodes, ix, d, subs);
        FreedValid(h0, kids0, subs, freed, junk, h, k);
        var more;
        ghost var t;
        more, t := FreeNode(store, nodes[d], junk);
        FreeOneMore(h0, kids0, subs, freed, junk, h, k, t, store.heap, store.kids);
        freed, subs := freed + more, subs + [t];
      }
    }
  }

  lemma FreedValid(h0: Heap, kids0: Kids, subs: seq<Tree>, freed: seq<nat>, junk: nat -> Node, h: Heap, kids: Kids)
    requires FreedTrees(h0, kids0, subs, freed, junk, h, kids)
    ensures Forest(h, kids) && |h| == |h0|
  {
  }

  lemma NotYet(nodes: seq<nat>, ix: seq<nat>, d: nat, subs: seq<Tree>)
    requires Distinct(nodes) && d < |nodes| == |ix| && Roots(subs) == Unnumbered(nodes, ix, d + 1)
    ensures forall i :: 0 <= i < |subs| ==> subs[i].node != nodes[d]
  {
    forall i | 0 <= i < |subs| ensures subs[i].node != nodes[d] {
      assert Roots(subs)[i] in Unnumbered(nodes, ix, d + 1);
    }
  }

  // ---------------------------------------------------------------- the whole

  /** Definitions are collected once each, from their exits. */
  lemma {:induction false} DefsOnce(h: Heap, kids: Kids, t: Tree, i: nat)
    requires Forest(h, kids) && Shape(kids, t) && i <= |Walk(LeafNodes(h), t)|
    ensures var ns := DefNodes(DefsIn(h, Walk(LeafNodes(h), t)[..i]));
            Distinct(ns) && forall x :: x in ns ==> x < |h| && h[x].kind == FootnoteDefinition && Exit(x) in Walk(LeafNodes(h), t)[..i]
    decreases i
  {
    if i > 0 {
      var w := Walk(LeafNodes(h), t);
      hide Walk, LeafNodes, Forest, Shape, Distinct;
      var ds := DefsIn(h, w[..i - 1]);
      DefsOnce(h, kids, t, i - 1);
      OneMoreDef(h, w, i - 1);
      assert w[..i] == w[..i - 1] + [w[i - 1]];
      if LeavesDefinition(h, w[i - 1]) {
        var n := w[i - 1].node;
        ExitOnce(h, kids, t, i - 1);
        assert DefNodes(ds + [Definition(h[n].literal, n)]) == DefNodes(ds) + [n];
        DistinctAdd(DefNodes(ds), n);
      } else {
        assert ds + [] == ds;
      }
    } else {
      NoDefs(h, Walk(LeafNodes(h), t));
    }
  }

  lemma NoDefs(h: Heap, w: seq<Event>)
    ensures w[..0] == [] && DefNodes(DefsIn(h, [])) == [] && Distinct<nat>([])
  {
  }

  lemma ExitOnce(h: Heap, kids: Kids, t: Tree, i: nat)
    requires Forest(h, kids) && Shape(kids, t) && i < |Walk(LeafNodes(h), t)|
    ensures Walk(LeafNodes(h), t)[i] !in Walk(LeafNodes(h), t)[..i]
  {
    hide Walk, LeafNodes, Forest, Shape;
    var w := Walk(LeafNodes(h), t);
    WalkIsRun(h, kids, LeafNodes(h), t);
    forall j | 0 <= j < i ensures w[j] != w[i] { RunDistinct(h, LeafNodes(h), t.node, w, j, i); }
  }

  /** What was collected may be placed, also after the references have been rewritten. */
  lemma StillDefinitions(h0: Heap, kids0: Kids, t0: Tree, normalize: string -> string, h: Heap)
    requires Forest(h0, kids0) && Shape(kids0, t0) && t0.node < |h0| && h0[t0.node].kind == Document && Kept(h0, h, t0.node)
    ensures Definitions(h, t0.node, DefNodes(Labelled(normalize, DefsIn(h0, Walk(LeafNodes(h0), t0)))))
  {
    hide Walk, LeafNodes, Labelled, Distinct;
    var w := Walk(LeafNodes(h0), t0);
    DefsOnce(h0, kids0, t0, |w|);
    assert w[..|w|] == w;
    LabelledDistinct(normalize, DefsIn(h0, w));
  }

  /** A definition that was taken out and not put behind the root stands alone. */
  lemma OutStandsAlone(h0: Heap, kids0: Kids, root: nat, gone: set<nat>, tail: seq<nat>, h: Heap, kids: Kids, x: nat)
    requires Tailed(h0, kids0, root, gone, tail, h, kids) && x in gone && x !in tail && x < |h|
    ensures h[x].parent == NULL
  {
    DownOf(h, kids, x);
    var p := h[x].parent;
    if p != NULL {
      StripMember(kids0[p], gone);
    }
  }

  datatype Snapshot = Snapshot(heap: Heap, kids: Kids, tree: Tree)

  /** `process_footnotes`.  In the document that is read, every reference carries its number or is text; then
      the definitions that are referenced stand behind the root's other children, in the order of first reference;
      and the others are freed with all below them, no node twice. */
  method ProcessFootnotes(store: Store, root: nat, normalize: string -> string, maxRefSize: nat, junk: nat -> Node)
    returns (notes: seq<Note>, counts: seq<nat>, freed: seq<nat>,
             ghost start: Snapshot, ghost numbered: Snapshot, ghost placed: Snapshot, ghost subs: seq<Tree>)
    requires store.Valid() && Legal(store.heap, store.kids) && forall n :: Alone(junk(n))
    requires root < |store.heap| && store.heap[root].kind == Document && store.heap[root].parent == NULL
    modifies store
    ensures start.heap == old(store.heap) && start.kids == old(store.kids) && start.tree.node == root && Shape(start.kids, start.tree)
    ensures numbered.tree.node == root && Shape(numbered.kids, numbered.tree)
    ensures var w := Walk(LeafNodes(start.heap), start.tree); var ms := Marks(start.heap, w);
            var labels, nodes := RefLabels(ms), DefNodes(Labelled(normalize, DefsIn(start.heap, w)));
            var ts := Targets(normalize, Entries(normalize, Labelled(normalize, DefsIn(start.heap, w))), labels);
            && |notes| == |labels| && (forall i :: 0 <= i < |labels| ==> notes[i] == NoteAt(ts, labels, i))
            && Marks(numbered.heap, Walk(LeafNodes(numbered.heap), numbered.tree)) == Rewritten(ms, notes)
            && |counts| == |nodes| && (forall d :: 0 <= d < |nodes| ==> counts[d] == Count(ts, d))
            && (forall d :: d in FirstSeen(ts) ==> d < |nodes|)
            && (exists gone: set<nat> :: (forall x :: x in gone <==> x in nodes)
                 && Tailed(numbered.heap, numbered.kids, root, gone, Pick(nodes, FirstSeen(ts)), placed.heap, placed.kids))
            && Roots(subs) == Unseen(nodes, FirstSeen(ts), 0)
    ensures FreedTrees(placed.heap, placed.kids, subs, freed, junk, store.heap, store.kids)
  {
    hide Forest, Legal, Walk, LeafNodes, Shape, Marks, Rewritten, RefLabels, Labelled, DefsIn, Targets, NoteAt, Count, FirstSeen, Counted,
      Tailed, Pick, FreedTrees, Definitions, Kept, Aged, Answers, Increasing, Reversed, Distinct, Unseen, Unnumbered;
    var refmap, nodes;
    ghost var t0, t1, gone;
    refmap, nodes, t0 := Collect(store, root, normalize, maxRefSize);
    start := Snapshot(store.heap, store.kids, t0);
    var ix: seq<nat>;
    notes, ix, counts, t1 := NumberReferences(store, root, refmap, junk, t0);
    numbered := Snapshot(store.heap, store.kids, t1);
    StillDefinitions(start.heap, start.kids, t0, normalize, store.heap);
    ghost var labels := RefLabels(Marks(start.heap, Walk(LeafNodes(start.heap), t0)));
    ghost var seen := FirstSeen(Targets(normalize, refmap.Defs(), labels));
    gone := PlaceDefinitions(store, root, refmap, nodes, ix, counts, labels);
    placed := Snapshot(store.heap, store.kids, t1);
    Unplaced(numbered.heap, numbered.kids, root, gone, nodes, seen, ix, store.heap, store.kids);
    freed, subs := FreeDefinitions(store, nodes, ix, junk);
    UnseenAreUnnumbered(nodes, seen, ix, 0);
  }

  /** The nodes of the definitions without a reference, from the last back to the `d`-th. */
  function Unseen(nodes: seq<nat>, seen: seq<nat>, d: nat): seq<nat>
    requires d <= |nodes|
    decreases |nodes| - d
  {
    if d == |nodes| then [] else Unseen(nodes, seen, d + 1) + if d !in seen then [nodes[d]] else []
  }

  lemma {:induction false} UnseenAreUnnumbered(nodes: seq<nat>, seen: seq<nat>, ix: seq<nat>, d: nat)
    requires d <= |nodes| == |ix| && forall e :: 0 <= e < |nodes| ==> (ix[e] == 0 <==> e !in seen)
    ensures Unnumbered(nodes, ix, d) == Unseen(nodes, seen, d)
    decreases |nodes| - d
  {
    if d < |nodes| { UnseenAreUnnumbered(nodes, seen, ix, d + 1); }
  }

  lemma Unplaced(h0: Heap, kids0: Kids, root: nat, gone: set<nat>, nodes: seq<nat>, seen: seq<nat>, ix: seq<nat>, h: Heap, kids: Kids)
    requires Definitions(h0, root, nodes) && (forall d :: d in seen ==> d < |nodes|) && (forall x :: x in gone <==> x in nodes)
    requires Tailed(h0, kids0, root, gone, Pick(nodes, seen), h, kids) && |ix| == |nodes|
    requires forall d :: 0 <= d < |nodes| ==> (ix[d] == 0 <==> d !in seen)
    ensures Forest(h, kids) && Distinct(nodes) && forall d :: 0 <= d < |nodes| && ix[d] == 0 ==> nodes[d] < |h| && h[nodes[d]].parent == NULL
  {
    hide Pick, Distinct, Forest;
    TailedSize(h0, kids0, root, gone, Pick(nodes, seen), h, kids);
    forall d | 0 <= d < |nodes| && ix[d] == 0 ensures nodes[d] < |h| && h[nodes[d]].parent == NULL {
      PickMember(nodes, seen, d);
      assert nodes[d] in nodes;
      OutStandsAlone(h0, kids0, root, gone, Pick(nodes, seen), h, kids, nodes[d]);
    }
  }

  lemma TailedSize(h0: Heap, kids0: Kids, root: nat, gone: set<nat>, tail: seq<nat>, h: Heap, kids: Kids)
    requires Tailed(h0, kids0, root, gone, tail, h, kids)
    ensures |h| == |h0| && Forest(h, kids)
  {
  }
}
