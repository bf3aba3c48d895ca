/** The inline parser's subject: a doubly linked delimiter list that points into a list of
    sibling nodes, both rewritten in place by `process_emphasis`. */
module Subject {
  import opened Lists
  import opened InlineTree
  import opened Emphasis
  import opened EmphasisProof
  import opened EmphasisBounds
  import opened EmphasisPairs
  import opened InlineRun
  import opened InlineLoss

  class Delimiter {
    const d: Delim
    var previous: Delimiter?
    var next: Delimiter?

    constructor (d: Delim, previous: Delimiter?)
      ensures this.d == d && this.previous == previous && next == null
    {
      this.d := d;
      this.previous := previous;
      next := null;
    }
  }

  function Vals(ds: seq<Delimiter>): (r: seq<Delim>)
    ensures |r| == |ds| && forall i :: 0 <= i < |ds| ==> r[i] == ds[i].d
  {
    seq(|ds|, i requires 0 <= i < |ds| => ds[i].d)
  }

  lemma ValsHole(s: seq<Delimiter>, a: nat, b: nat)
    requires a <= b <= |s|
    ensures Vals(Hole(s, a, b)) == Hole(Vals(s), a, b)
  {
  }

  lemma ValsKeep(s: seq<Delimiter>, o: nat, c: nat, keepO: bool, keepC: bool)
    requires o < c < |s|
    ensures Vals(Keep(s, o, c, keepO, keepC)) == Keep(Vals(s), o, c, keepO, keepC)
  {
    ValsHole(s, o + 1, c);
    var h := Hole(s, o + 1, c);
    ValsHole(h, o, o + 1);
    var h1 := if keepO then h else WithoutAt(h, o);
    var n := if keepO then o + 1 else o;
    ValsHole(h1, n, n + 1);
  }

  /** The pointers of the nodes spell out `s`, first to last, and no node is in it twice. */
  ghost predicate Chain(s: seq<Delimiter>)
    reads s
  {
    && (s != [] ==> s[0].previous == null && s[|s| - 1].next == null)
    && (forall i {:trigger s[i].previous} :: 1 <= i < |s| ==> s[i].previous == s[i - 1])
    && (forall i {:trigger s[i].next} :: 0 <= i < |s| - 1 ==> s[i].next == s[i + 1])
    && Distinct(s)
  }

  lemma DistinctAt<T>(s: seq<T>, i: nat, j: nat)
    requires Distinct(s) && i < |s| && j < |s|
    ensures s[i] == s[j] <==> i == j
  {
  }

  lemma DistinctFrom<T>(s: seq<T>, i: nat)
    requires Distinct(s) && i < |s|
    ensures forall j :: 0 <= j < |s| && j != i ==> s[j] != s[i]
  {
  }

  lemma DistinctWithout<T>(s: seq<T>, i: nat)
    requires Distinct(s) && i < |s|
    ensures Distinct(WithoutAt(s, i))
  {
  }

  lemma DistinctPush<T>(s: seq<T>, x: T)
    requires Distinct(s) && x !in s
    ensures Distinct(s + [x])
  {
  }

  /** The element at `i`, or null past either end: what a list pointer holds. */
  function At(s: seq<Delimiter>, i: int): Delimiter? {
    if 0 <= i < |s| then s[i] else null
  }

  /** The nodes of two matching delimiters are where the algorithm expects them. */
  ghost predicate Facing(opener: Delim, closer: Delim, xs: seq<Inline>) {
    && opener.ch == closer.ch
    && IndexOf(xs, opener.inl) < IndexOf(xs, closer.inl) < |xs|
    && Hosts(opener, xs[IndexOf(xs, opener.inl)]) && Hosts(closer, xs[IndexOf(xs, closer.inl)])
  }

  /** How `InsertEmph` rewrites the siblings, and which of the two runs has characters left. */
  ghost predicate EmphSpliced(xs: seq<Inline>, ys: seq<Inline>, o: Delim, c: Delim, keepO: bool, keepC: bool)
    requires Facing(o, c, xs)
  {
    var i, j := IndexOf(xs, o.inl), IndexOf(xs, c.inl);
    var u := UseDelims(LitLen(xs[i]), LitLen(xs[j]));
    var left, right := Trim(xs[i], u), Trim(xs[j], u);
    && keepO == (left != []) && keepC == (right != [])
    && ys == Wrap(xs, i, j, left, EmphNode(u, o.ch, xs[i + 1..j]), right)
  }

  lemma InsertEmphShape(ds: seq<Delim>, xs: seq<Inline>, o: nat, c: nat, ob: Bounds,
                        keepO: bool, keepC: bool, ys: seq<Inline>)
    requires o < c < |ds| && Facing(ds[o], ds[c], xs) && EmphSpliced(xs, ys, ds[o], ds[c], keepO, keepC)
    ensures InsertEmph(St(ds, xs, c, ob), o) == St(Keep(ds, o, c, keepO, keepC), ys, if keepO then o + 1 else o, ob)
  {
  }

  /** That is a STRONG or an EMPH, by the characters left in the two runs. */
  lemma SplicedMeans(xs: seq<Inline>, ys: seq<Inline>, o: Delim, c: Delim, keepO: bool, keepC: bool)
    requires Facing(o, c, xs) && IsEmph(o.ch) && EmphSpliced(xs, ys, o, c, keepO, keepC)
    ensures Emphasizes(xs, o, c, ys)
  {
    hide IndexOf;
    var i, j := IndexOf(xs, o.inl), IndexOf(xs, c.inl);
    var u := UseDelims(|xs[i].lit|, |xs[j].lit|);
    TrimLess(o, xs[i], u);
    TrimLess(c, xs[j], u);
  }

  /** The runs of two delimiters become emphasis around what is between them. */
  ghost predicate Emphasizes(xs: seq<Inline>, o: Delim, c: Delim, ys: seq<Inline>)
    requires Facing(o, c, xs) && IsEmph(o.ch)
  {
    Emphasized(xs, IndexOf(xs, o.inl), IndexOf(xs, c.inl), o.ch, ys)
  }

  /** How `InsertStrike` rewrites the siblings. */
  ghost predicate StrikeSpliced(xs: seq<Inline>, ys: seq<Inline>, o: Delim, c: Delim)
    requires Facing(o, c, xs)
  {
    var i, j := IndexOf(xs, o.inl), IndexOf(xs, c.inl);
    ys == if LitLen(xs[i]) == LitLen(xs[j]) then Wrap(xs, i, j, [], Strike(Spell(Shown, xs[i]), xs[i + 1..j]), []) else xs
  }

  lemma InsertStrikeShape(ds: seq<Delim>, xs: seq<Inline>, o: nat, c: nat, ob: Bounds, ys: seq<Inline>)
    requires o < c < |ds| && Facing(ds[o], ds[c], xs) && StrikeSpliced(xs, ys, ds[o], ds[c])
    ensures InsertStrike(St(ds, xs, c, ob), o) == St(Keep(ds, o, c, false, false), ys, o, ob)
  {
  }

  // ---------------------------------------------------------------- delimiters under the stack bottom

  /** A state seen with the delimiters under the stack bottom, `low`, in front. */
  function Lift(low: seq<Delim>, s: St): St {
    St(low + s.ds, s.xs, |low| + s.k, s.ob)
  }

  ghost predicate Parted(low: seq<Delim>, ds: seq<Delim>, bottom: nat) {
    && (forall d :: d in low ==> d.position < bottom)
    && forall d :: d in ds ==> d.position >= bottom
  }

  lemma PartedAt(low: seq<Delim>, ds: seq<Delim>, bottom: nat, i: nat)
    requires Parted(low, ds, bottom) && i < |low + ds|
    ensures (low + ds)[i].position >= bottom <==> i >= |low|
  {
    if i < |low| { assert low[i] in low; } else { assert ds[i - |low|] in ds; }
  }

  lemma {:induction false} SearchUnder(low: seq<Delim>, ds: seq<Delim>, m: nat, c: Delim, lo: nat)
    requires m <= |ds| && forall d :: d in low ==> d.position < lo
    ensures var r := Search(ds, m, c, lo);
            Search(low + ds, |low| + m, c, lo) == if r < 0 then -1 else |low| + r
  {
    if m > 0 {
      assert (low + ds)[|low| + m - 1] == ds[m - 1];
      if ds[m - 1].position >= lo && !Matches(ds[m - 1], c) { SearchUnder(low, ds, m - 1, c, lo); }
    } else if low != [] {
      assert low[|low| - 1] in low;
    }
  }

  lemma HoleUnder(low: seq<Delim>, ds: seq<Delim>, a: nat, b: nat)
    requires a <= b <= |ds|
    ensures Hole(low + ds, |low| + a, |low| + b) == low + Hole(ds, a, b)
    ensures |Hole(ds, a, b)| == |ds| - (b - a)
  {
  }

  lemma KeepUnder(low: seq<Delim>, ds: seq<Delim>, o: nat, c: nat, keepO: bool, keepC: bool)
    requires o < c < |ds|
    ensures Keep(low + ds, |low| + o, |low| + c, keepO, keepC) == low + Keep(ds, o, c, keepO, keepC)
  {
    hide Hole;
    HoleUnder(low, ds, o + 1, c);
    var h := Hole(ds, o + 1, c);
    HoleUnder(low, h, o, o + 1);
    var h1 := if keepO then h else WithoutAt(h, o);
    var n := if keepO then o + 1 else o;
    HoleUnder(low, h1, n, n + 1);
  }

  lemma StrikeUnder(low: seq<Delim>, s: St, o: nat)
    requires o < s.k < |s.ds| && Facing(s.ds[o], s.ds[s.k], s.xs)
    ensures InsertStrike(Lift(low, s), |low| + o) == Lift(low, InsertStrike(s, o))
  {
    hide Keep, Wrap, LitLen, IndexOf, Hosts;
    KeepUnder(low, s.ds, o, s.k, false, false);
  }

  lemma QuotesUnder(low: seq<Delim>, s: St, o: nat)
    requires o < s.k < |s.ds|
    ensures InsertQuotes(Lift(low, s), |low| + o) == Lift(low, InsertQuotes(s, o))
  {
    hide Hole, SetQuote;
    HoleUnder(low, s.ds, o, o + 1);
    HoleUnder(low, WithoutAt(s.ds, o), s.k - 1, s.k);
  }

  /** Delimiters under the stack bottom do not change what a match does ... */
  lemma FireUnder(low: seq<Delim>, s: St, o: nat)
    requires o < s.k < |s.ds| && Facing(s.ds[o], s.ds[s.k], s.xs)
    ensures Fire(Lift(low, s), |low| + o) == Lift(low, Fire(s, o))
    ensures Fire(s, o).ob == s.ob
  {
    hide InsertEmph, InsertStrike, InsertQuotes, Hosts, IndexOf;
    assert Lift(low, s).ds[|low| + s.k] == s.ds[s.k];
    EmphUnder(low, s, o);
    StrikeUnder(low, s, o);
    QuotesUnder(low, s, o);
    FireBounds(s, o);
  }

  lemma FireBounds(s: St, o: nat)
    requires o < s.k < |s.ds| && Facing(s.ds[o], s.ds[s.k], s.xs)
    ensures Fire(s, o).ob == s.ob
  {
    hide Keep, Wrap, Hosts, IndexOf, Trim, SetQuote, WithoutAt;
  }

  lemma EmphUnder(low: seq<Delim>, s: St, o: nat)
    requires o < s.k < |s.ds| && Facing(s.ds[o], s.ds[s.k], s.xs)
    ensures InsertEmph(Lift(low, s), |low| + o) == Lift(low, InsertEmph(s, o))
  {
    hide IndexOf, Wrap, Trim, EmphNode, Keep, UseDelims, LitLen, Hosts;
    var i, j := IndexOf(s.xs, s.ds[o].inl), IndexOf(s.xs, s.ds[s.k].inl);
    var u := UseDelims(LitLen(s.xs[i]), LitLen(s.xs[j]));
    KeepUnder(low, s.ds, o, s.k, Trim(s.xs[i], u) != [], Trim(s.xs[j], u) != []);
  }

  /** ... nor what a failed search does ... */
  lemma NoOpenerUnder(low: seq<Delim>, s: St)
    requires s.k < |s.ds|
    ensures NoOpener(Lift(low, s)) == Lift(low, NoOpener(s))
  {
    assert Lift(low, s).ds[|low| + s.k] == s.ds[s.k];
    HoleUnder(low, s.ds, s.k, s.k + 1);
  }

  /** ... nor what a search finds. */
  lemma OpenerUnder(low: seq<Delim>, s: St, bottom: nat)
    requires s.k < |s.ds| && Parted(low, s.ds, bottom)
    ensures var o := Opener(s, bottom, true);
            Opener(Lift(low, s), bottom, true) == if o < 0 then -1 else |low| + o
  {
    var b := BoundOf(s.ob, bottom, s.ds[s.k]);
    SearchUnder(low, s.ds, s.k, s.ds[s.k], if b > bottom then b else bottom);
    assert Lift(low, s).ds[|low| + s.k] == s.ds[s.k];
  }

  lemma StepSkips(s: St, bottom: nat)
    requires s.k < |s.ds| && Good(s.ds, s.xs) && !s.ds[s.k].canClose
    ensures Step(s, bottom, true) == s.(k := s.k + 1)
  {
  }

  lemma StepMisses(s: St, bottom: nat)
    requires s.k < |s.ds| && Good(s.ds, s.xs) && s.ds[s.k].canClose && Opener(s, bottom, true) < 0
    ensures Step(s, bottom, true) == NoOpener(s)
  {
  }

  lemma StepFires(s: St, bottom: nat, o: nat)
    requires s.k < |s.ds| && Good(s.ds, s.xs) && s.ds[s.k].canClose && o == Opener(s, bottom, true)
    ensures Facing(s.ds[o], s.ds[s.k], s.xs) && IsDelimChar(s.ds[o].ch) && Step(s, bottom, true) == Fire(s, o)
  {
    GoodIndex(s.ds, s.xs, o, s.k);
  }

  lemma HoleKeepsEnds<T>(s: seq<T>, o: nat, c: nat)
    requires o < c < |s|
    ensures Hole(s, o + 1, c)[o] == s[o] && Hole(s, o + 1, c)[o + 1] == s[c]
  {
  }

  class Subject {
    var pos: nat
    var lastDelim: Delimiter?
    var sibs: seq<Inline>
    var brackets: seq<Bracket>
    var ids: nat                      // the next unused address
    var columnOffset: int             // what positions are shifted by to give columns
    ghost var Read: string            // the input before `pos`
    ghost var Stack: seq<Delimiter>
    ghost var Nodes: set<Delimiter>   // every delimiter made so far

    ghost predicate Linked()
      reads this`Stack, this`lastDelim, this`Nodes, Stack
    {
      && (forall i :: 0 <= i < |Stack| ==> Stack[i] in Nodes)
      && Chain(Stack)
      && lastDelim == if Stack == [] then null else Stack[|Stack| - 1]
    }

    /** `push_delimiter`: the new delimiter stands at the current position, at the end. */
    method PushDelimiter(ch: char, canOpen: bool, canClose: bool, length: nat, inl: nat)
      requires Linked()
      modifies this`lastDelim, this`Stack, this`Nodes, Nodes
      ensures Linked() && |Stack| == |old(Stack)| + 1 && Stack[..|old(Stack)|] == old(Stack)
      ensures Stack[|old(Stack)|].d == Delim(ch, canOpen, canClose, pos, length, inl)
      ensures fresh(Nodes - old(Nodes))
    {
      var delim := new Delimiter(Delim(ch, canOpen, canClose, pos, length, inl), lastDelim);
      if delim.previous != null {
        delim.previous.next := delim;
      }
      lastDelim := delim;
      DistinctPush(Stack, delim);
      Stack, Nodes := Stack + [delim], Nodes + {delim};
    }

    /** `remove_delimiter`: unlinks one node, wherever it is. */
    method RemoveDelimiter(delim: Delimiter, ghost i: nat)
      requires Linked() && i < |Stack| && Stack[i] == delim
      modifies this`lastDelim, this`Stack, Nodes
      ensures Linked() && Stack == WithoutAt(old(Stack), i)
      ensures At(Stack, i) == At(old(Stack), i + 1)
    {
      DistinctWithout(Stack, i);
      WithoutElements(Stack, i);
      AtWithout(Stack, i);
      if i > 0 { DistinctFrom(Stack, i - 1); }
      if i + 1 < |Stack| { DistinctFrom(Stack, i + 1); }
      hide Hole, WithoutAt, Distinct, At;
      if delim.next == null {
        assert delim == lastDelim;
        lastDelim := delim.previous;
      } else {
        delim.next.previous := delim.previous;
      }
      if delim.previous != null {
        delim.previous.next := delim.next;
      }
      Stack := WithoutAt(Stack, i);
    }

    /** Frees the delimiters between `opener` and `closer`, walking back from the closer. */
    method FreeBetween(opener: Delimiter, closer: Delimiter, ghost o: nat, ghost c: nat)
      requires Linked() && o < c < |Stack| && Stack[o] == opener && Stack[c] == closer
      modifies this`lastDelim, this`Stack, Nodes
      ensures Linked() && Stack == Hole(old(Stack), o + 1, c)
    {
      hide Distinct, At;
      ghost var was := Stack;
      ghost var n := c;
      var delim := closer.previous;
      HoleAt(was, n, c);
      while delim != null && delim != opener
        invariant Linked() && o < n <= c && delim == was[n - 1]
        invariant Stack == Hole(was, n, c)
        invariant Stack[n - 1] == was[n - 1] && Stack[o] == opener
        decreases n
      {
        DistinctAt(Stack, n - 1, o);
        HoleAt(was, n, c);
        var previous := delim.previous;
        assert previous == Stack[n - 2] == was[n - 2];
        HoleGrows(was, n, c);
        RemoveDelimiter(delim, n - 1);
        n := n - 1;
        delim := previous;
        HoleAt(was, n, c);
      }
      DistinctAt(Stack, n - 1, o);
    }

    /** Unlinks the siblings after place `i` up to node `inl` and returns them in order. */
    method TakeBetween(i: nat, inl: nat) returns (kids: seq<Inline>)
      requires i < IndexOf(sibs, inl) < |sibs|
      modifies this`sibs
      ensures var j := IndexOf(old(sibs), inl);
              kids == old(sibs)[i + 1..j] && sibs == Hole(old(sibs), i + 1, j)
    {
      ghost var was := sibs;
      ghost var j := IndexOf(sibs, inl);
      ghost var n := i + 1;
      kids := [];
      assert Hole(was, n, n) == was;
      while i + 1 < |sibs| && !HasId(sibs[i + 1], inl)
        invariant i < n <= j
        invariant kids == was[i + 1..n]
        invariant sibs == Hole(was, i + 1, n)
        decreases j - n
      {
        HoleWidens(was, i + 1, n);
        hide Hole, WithoutAt;
        kids := kids + [sibs[i + 1]];
        sibs := WithoutAt(sibs, i + 1);
        n := n + 1;
      }
      HoleWidens(was, i + 1, n);
    }

    /** The tree side of `S_insert_emph`: shorten both runs, wrap what is between, drop empty runs. */
    method SpliceEmph(opener: Delim, closer: Delim) returns (keepO: bool, keepC: bool)
      requires Facing(opener, closer, sibs) && IsEmph(opener.ch)
      modifies this`sibs
      ensures EmphSpliced(old(sibs), sibs, opener, closer, keepO, keepC)
    {
      hide Hole;
      ghost var was := sibs;
      var i := IndexOf(sibs, opener.inl);
      HoleEdges(sibs, i, IndexOf(sibs, closer.inl));
      var kids := TakeBetween(i, closer.inl);
      var a, b := sibs[i], sibs[i + 1];   // the closer's node now follows the opener's
      var useDelims := if |b.lit| >= 2 && |a.lit| >= 2 then 2 else 1;
      var left := Text(a.id, a.lit[..|a.lit| - useDelims]);
      var right := Text(b.id, b.lit[..|b.lit| - useDelims]);
      keepO, keepC := |left.lit| != 0, |right.lit| != 0;
      assert a == was[i] && b == was[IndexOf(was, closer.inl)];
      assert Trim(a, useDelims) == (if keepO then [left] else []) && Trim(b, useDelims) == (if keepC then [right] else []);
      var emph := if useDelims == 1 then Emph(opener.ch, kids) else Strong(opener.ch, kids);
      sibs := sibs[..i] + (if keepO then [left] else []) + [emph] + (if keepC then [right] else []) + sibs[i + 2..];
    }

    /** The delimiter list and the siblings are those of `s`, and `p` is the delimiter it stands at. */
    ghost predicate Shows(s: St, p: Delimiter?)
      reads this, Stack
    {
      Linked() && Vals(Stack) == s.ds && sibs == s.xs && p == At(Stack, s.k)
    }

    /** `Shows`, and `opener` stands at place `o`, before `closer` and facing it in the tree. */
    ghost predicate ShowsPair(s: St, o: nat, opener: Delimiter, closer: Delimiter)
      reads this, Stack
    {
      && Shows(s, closer) && o < s.k < |s.ds| && opener == At(Stack, o)
      && Facing(s.ds[o], s.ds[s.k], s.xs) && IsDelimChar(s.ds[o].ch)
    }

    /** Frees what lies between two matched delimiters, and either of them that is used up;
        returns the closer, or its successor if the closer went too. */
    method DropMatched(opener: Delimiter, closer: Delimiter, keepO: bool, keepC: bool, ghost o: nat, ghost c: nat)
      returns (next: Delimiter?)
      requires Linked() && o < c < |Stack| && Stack[o] == opener && Stack[c] == closer
      modifies this`lastDelim, this`Stack, Nodes
      ensures Linked() && Stack == Keep(old(Stack), o, c, keepO, keepC)
      ensures next == At(Stack, if keepO then o + 1 else o)
    {
      hide Distinct;
      HoleKeepsEnds(Stack, o, c);
      FreeBetween(opener, closer, o, c);
      if !keepO {
        RemoveDelimiter(opener, o);
      }
      next := closer;
      ghost var n := if keepO then o + 1 else o;
      assert Stack[n] == closer;
      if !keepC {
        next := closer.next;
        assert next == At(Stack, n + 1);
        RemoveDelimiter(closer, n);
      }
    }

    /** The whole of `S_insert_emph`; returns the delimiter the main loop goes on with. */
    method InsertEmphasis(opener: Delimiter, closer: Delimiter, ghost s: St, ghost o: nat) returns (next: Delimiter?)
      requires ShowsPair(s, o, opener, closer) && IsEmph(opener.d.ch)
      modifies this`lastDelim, this`Stack, this`sibs, Nodes
      ensures Shows(InsertEmph(s, o), next) && Emphasizes(s.xs, s.ds[o], s.ds[s.k], sibs)
    {
      hide InsertEmph, Keep, Facing, EmphSpliced, Emphasizes;
      var keepO, keepC := SpliceEmph(opener.d, closer.d);
      SplicedMeans(s.xs, sibs, opener.d, closer.d, keepO, keepC);
      InsertEmphShape(s.ds, s.xs, o, s.k, s.ob, keepO, keepC, sibs);
      ValsKeep(Stack, o, s.k, keepO, keepC);
      next := DropMatched(opener, closer, keepO, keepC, o, s.k);
    }

    /** `insert` of the strikethrough extension. */
    method InsertStrikethrough(opener: Delimiter, closer: Delimiter, ghost s: St, ghost o: nat) returns (next: Delimiter?)
      requires ShowsPair(s, o, opener, closer) && opener.d.ch == '~'
      modifies this`lastDelim, this`Stack, this`sibs, Nodes
      ensures Shows(InsertStrike(s, o), next)
    {
      hide InsertStrike, Keep, Facing, StrikeSpliced;
      SpliceStrike(opener.d, closer.d);
      InsertStrikeShape(s.ds, s.xs, o, s.k, s.ob, sibs);
      ValsKeep(Stack, o, s.k, false, false);
      next := DropMatched(opener, closer, false, false, o, s.k);
    }

    /** The tree side of `insert`: the opener's node takes over what lies up to the closer's. */
    method SpliceStrike(opener: Delim, closer: Delim)
      requires Facing(opener, closer, sibs) && opener.ch == '~'
      modifies this`sibs
      ensures StrikeSpliced(old(sibs), sibs, opener, closer)
    {
      hide Hole;
      ghost var was := sibs;
      var i, j := IndexOf(sibs, opener.inl), IndexOf(sibs, closer.inl);
      var a, b := sibs[i], sibs[j];
      if |a.lit| == |b.lit| {
        HoleEdges(sibs, i, j);
        var kids := TakeBetween(i, closer.inl);
        var strike := Strike(a.lit, kids);
        sibs := sibs[..i] + [strike] + sibs[i + 2..];
        assert sibs == Wrap(was, i, j, [], strike, []);
      }
    }

    /** The backward search of the main loop. */
    method FindOpener(closer: Delimiter, bottom: nat, bound: nat, ghost c: nat) returns (opener: Delimiter?)
      requires Linked() && c < |Stack| && Stack[c] == closer
      ensures opener == At(Stack, Search(Vals(Stack), c, closer.d, if bound > bottom then bound else bottom))
    {
      ghost var lo := if bound > bottom then bound else bottom;
      opener := closer.previous;
      ghost var o := c - 1;
      while opener != null && opener.d.position >= bottom && opener.d.position >= bound
        invariant -1 <= o < c && opener == At(Stack, o)
        invariant Search(Vals(Stack), c, closer.d, lo) == Search(Vals(Stack), o + 1, closer.d, lo)
        decreases o
      {
        if opener.d.canOpen && opener.d.ch == closer.d.ch {
          if !(closer.d.canOpen || opener.d.canClose) || closer.d.length % 3 == 0
             || (opener.d.length + closer.d.length) % 3 != 0 {
            return;
          }
        }
        opener := opener.previous;
        o := o - 1;
      }
      opener := null;
    }

    /** Replaces the literal of a smart quote's text node by its left or right curly form. */
    method Curl(inl: nat, left: bool)
      modifies this`sibs
      ensures sibs == SetQuote(old(sibs), inl, left)
    {
      var i := IndexOf(sibs, inl);
      if i < |sibs| && sibs[i].Quote? {
        sibs := sibs[i := Quote(sibs[i].id, sibs[i].ch, left)];
      }
    }

    /** A matched pair of quotes: both texts are curled and both delimiters removed. */
    method MatchQuotes(opener: Delimiter, closer: Delimiter, ghost s: St, ghost o: nat) returns (next: Delimiter?)
      requires ShowsPair(s, o, opener, closer)
      modifies this`lastDelim, this`Stack, this`sibs, Nodes
      ensures Shows(InsertQuotes(s, o), next)
    {
      hide SetQuote, WithoutAt, Facing;
      Curl(closer.d.inl, false);
      next := closer.next;
      Curl(opener.d.inl, true);
      CutBoth(opener, closer, o, s.k);
    }

    /** Removes two delimiters and nothing between them. */
    method CutBoth(opener: Delimiter, closer: Delimiter, ghost o: nat, ghost c: nat)
      requires Linked() && o < c < |Stack| && Stack[o] == opener && Stack[c] == closer
      modifies this`lastDelim, this`Stack, Nodes
      ensures Linked() && Vals(Stack) == WithoutAt(WithoutAt(Vals(old(Stack)), o), c - 1)
      ensures At(Stack, c - 1) == At(old(Stack), c + 1)
    {
      hide Hole, Distinct;
      ValsHole(Stack, o, o + 1);
      WithoutElements(Stack, o);
      ValsHole(WithoutAt(Stack, o), c - 1, c);
      RemoveDelimiter(opener, o);
      RemoveDelimiter(closer, c - 1);
    }

    /** The main loop's action on a closer and the opener found for it. */
    method Match(opener: Delimiter, closer: Delimiter, ghost s: St, ghost o: nat) returns (next: Delimiter?)
      requires ShowsPair(s, o, opener, closer)
      modifies this`lastDelim, this`Stack, this`sibs, Nodes
      ensures Shows(Fire(s, o), next)
    {
      hide InsertEmph, InsertStrike, InsertQuotes, Hosts, IndexOf;
      assert closer.d == Vals(Stack)[s.k] == s.ds[s.k] && opener.d == Vals(Stack)[o] == s.ds[o];
      if closer.d.ch == '~' {
        next := InsertStrikethrough(opener, closer, s, o);
      } else if closer.d.ch == '*' || closer.d.ch == '_' {
        next := InsertEmphasis(opener, closer, s, o);
      } else {
        next := MatchQuotes(opener, closer, s, o);
      }
    }

    /** The main loop's action on a closer without an opener. */
    method NoMatch(closer: Delimiter, ob: Bounds, ghost s: St) returns (next: Delimiter?, bounds: Bounds)
      requires Shows(s, closer) && s.k < |s.ds| && ob == s.ob
      modifies this`lastDelim, this`Stack, this`sibs, Nodes
      ensures Shows(NoOpener(s), next) && bounds == NoOpener(s).ob
    {
      assert closer.d == Vals(Stack)[s.k] == s.ds[s.k];
      ValsHole(Stack, s.k, s.k + 1);
      hide SetQuote, WithoutAt, Vals;
      if IsQuote(closer.d.ch) {
        Curl(closer.d.inl, false);
      }
      next := closer.next;
      bounds := ob[(closer.d.length % 3, closer.d.ch) := closer.d.position];
      if !closer.d.canOpen {
        RemoveDelimiter(closer, s.k);
      }
    }

    /** The search of one turn, told about the delimiters that are not under `bottom`. */
    method SearchAbove(closer: Delimiter, bottom: nat, ob: Bounds, ghost low: seq<Delim>, ghost s: St)
      returns (opener: Delimiter?)
      requires Shows(Lift(low, s), closer) && ob == s.ob && s.k < |s.ds| && Parted(low, s.ds, bottom)
      ensures var o := Opener(s, bottom, true); opener == if o < 0 then null else At(Stack, |low| + o)
    {
      ghost var all := Lift(low, s);
      assert closer.d == Vals(Stack)[all.k] == s.ds[s.k];
      OpenerUnder(low, s, bottom);
      hide Search, Parted;
      opener := FindOpener(closer, bottom, BoundOf(ob, bottom, closer.d), all.k);
    }

    /** One turn of the main loop; `s` is the state with the delimiters `low`, under `bottom`, left out. */
    method Turn(closer: Delimiter, bottom: nat, ob: Bounds, ghost low: seq<Delim>, ghost s: St)
      returns (next: Delimiter?, bounds: Bounds)
      requires Shows(Lift(low, s), closer) && ob == s.ob
      requires s.k < |s.ds| && Parted(low, s.ds, bottom) && Good(s.ds, s.xs)
      modifies this`lastDelim, this`Stack, this`sibs, Nodes
      ensures Shows(Lift(low, Step(s, bottom, true)), next) && bounds == Step(s, bottom, true).ob
    {
      hide Step, Fire, NoOpener, Facing, Opener, Good, Parted;
      ghost var all := Lift(low, s);
      assert closer.d == Vals(Stack)[all.k] == s.ds[s.k];
      bounds := ob;
      if closer.d.canClose {
        ghost var o := Opener(s, bottom, true);
        var opener := SearchAbove(closer, bottom, ob, low, s);
        if opener != null {
          StepFires(s, bottom, o);
          FireUnder(low, s, o);
          assert all.ds[|low| + o] == s.ds[o];
          next := Match(opener, closer, all, |low| + o);
        } else {
          StepMisses(s, bottom);
          NoOpenerUnder(low, s);
          next, bounds := NoMatch(closer, ob, all);
        }
      } else {
        StepSkips(s, bottom);
        next := closer.next;
      }
    }

    /** `process_emphasis`.  `low` are the delimiters under `bottom`; the siblings are those of the rest.
        Exactly the delimiters under `bottom` are left, and the tree is that of the bounded run. */
    method ProcessEmphasis(bottom: nat, ghost low: seq<Delim>, ghost ds: seq<Delim>)
      requires Linked() && Vals(Stack) == low + ds && Parted(low, ds, bottom) && Good(ds, sibs)
      modifies this`lastDelim, this`Stack, this`sibs, Nodes
      ensures Linked() && Vals(Stack) == low
      ensures sibs == Run(St(ds, old(sibs), 0, map[]), bottom, true)
    {
      var closer := FirstAtOrAbove(bottom, low, ds);
      var ob: Bounds := map[];
      ghost var s := St(ds, sibs, 0, ob);
      ghost var tree := Run(s, bottom, true);
      while closer != null
        invariant s.k <= |s.ds| && Good(s.ds, s.xs) && Parted(low, s.ds, bottom) && ob == s.ob
        invariant Shows(Lift(low, s), closer)
        invariant Run(s, bottom, true) == tree
        decreases TopChars(s.xs), |s.ds| - s.k
      {
        EmphasisProof.Turn(s, bottom, true);
        StepShrinks(s, bottom, true);
        closer, ob := this.Turn(closer, bottom, ob, low, s);
        s := Step(s, bottom, true);
      }
      RemoveAbove(bottom, low, s.ds);
    }

    /** The state of the run, as `InlineRun` describes it. */
    ghost function View(): Parse
      reads this, Stack
    {
      Parse(Vals(Stack), sibs, brackets, Read, ids, if columnOffset <= 0 then -columnOffset else 0)
    }

    ghost predicate Running()
      reads this, Stack
    {
      Linked() && Ok(View()) && pos == |Read| && columnOffset <= 0
    }

    constructor ()
      ensures Running() && View() == START && fresh(Nodes)
    {
      pos, lastDelim, sibs, brackets, ids, columnOffset := 0, null, [], [], 0, 0;
      Read, Stack, Nodes := "", [], {};
      new;
      StartOk();
    }

    /** Advances past `src` and appends the node made from it. */
    method Append(node: Inline, src: string)
      requires Linked() && pos == |Read|
      modifies this`pos, this`sibs, this`ids, this`Read
      ensures Linked() && pos == |Read| && View() == AddText(old(View()), node, src)
    {
      pos := pos + |src|;
      sibs := sibs + [node];
      ids := ids + 1;
      Read := Read + src;
    }

    /** Plain text; columns are counted anew behind the last line ending in it. */
    method AppendPlain(src: string, newLine: nat)
      requires Linked() && pos == |Read| && columnOffset <= 0
      modifies this`pos, this`sibs, this`ids, this`Read, this`columnOffset
      ensures Linked() && pos == |Read| && columnOffset <= 0
      ensures var p := old(View()); View() == AddText(p, Leaf(src), src).(line := LineAfter(p.text, p.line, Plain(src, newLine)))
    {
      hide Linked, Vals;
      if newLine > 0 {
        columnOffset := -(pos + newLine);
      }
      Append(Leaf(src), src);
    }

    /** A run, or a smart quote, that goes on the delimiter stack. */
    method AppendDelim(node: Inline, src: string, ch: char, canOpen: bool, canClose: bool, length: nat)
      requires Linked() && pos == |Read|
      modifies this`pos, this`sibs, this`ids, this`Read, this`lastDelim, this`Stack, this`Nodes, Nodes
      ensures Linked() && pos == |Read| && fresh(Nodes - old(Nodes))
      ensures View() == AddDelim(old(View()), node, src, ch, canOpen, canClose, length)
    {
      ghost var was := Stack;
      Append(node, src);
      PushDelimiter(ch, canOpen, canClose, length, ids - 1);
      assert Stack == was + [Stack[|was|]];
      assert Vals(Stack) == Vals(was) + [Stack[|was|].d];
    }

    method AppendBracket(lit: string)
      requires Linked() && pos == |Read| && columnOffset <= 0
      modifies this`pos, this`sibs, this`ids, this`Read, this`brackets
      ensures Linked() && pos == |Read|
      ensures var p := old(View());
              View() == AddText(p, Text(p.ids, lit), lit).(bs := p.bs + [Bracket(p.ids, |p.text| + |lit|, lit, p.line)])
    {
      Append(Text(ids, lit), lit);
      brackets := brackets + [Bracket(ids - 1, pos, lit, -columnOffset)];
    }

    /** `parse_inline` for one token. */
    method Take(t: Token)
      requires Running() && ValidToken(t)
      modifies this, Nodes
      ensures Running() && View() == Next(old(View()), t) && fresh(Nodes - old(Nodes))
    {
      hide Ok, Run, LowCount, CloseWith, AddText, AddDelim, Vals;
      NextOk(View(), t);
      match t
      case Plain(src, newLine) => AppendPlain(src, newLine);
      case RunOf(ch, n, canOpen, canClose, push) =>
        var lit := seq(n, _ => ch);
        if push { AppendDelim(Text(ids, lit), lit, ch, canOpen, canClose, n); } else { Append(Text(ids, lit), lit); }
      case SmartQuote(ch, canOpen, canClose) =>
        var node := Quote(ids, ch, ch == '"' && !canClose);
        if canOpen || canClose { AppendDelim(node, [ch], ch, canOpen, canClose, 3); } else { Append(node, [ch]); }
      case Open(lit) => AppendBracket(lit);
      case Close(how) => CloseBracket(how);
    }

    /** `handle_close_bracket`, its decision being given. */
    method CloseBracket(how: Closing)
      requires Running() && ValidToken(Close(how))
      modifies this, Nodes
      ensures Linked() && pos == |Read| && columnOffset <= 0 && View() == Next(old(View()), Close(how)) && Nodes == old(Nodes)
    {
      hide CaretBehind, Ok, Next, Vals, Linked, Inside;
      var inside := "";
      if brackets != [] { inside := InsideBracket(); }
      if brackets == [] || how.Literal? || (how.Footnote? && !CaretBehind(brackets[|brackets| - 1].open, inside)) {
        LiteralNext(View(), how);
        KeepLiteral(how);
      } else if how.Matched? {
        MakeLink(how.tail);
      } else {
        MakeFootnote(how.after, inside);
      }
    }

    /** No span, whatever has been consumed: the innermost bracket, if any, is popped. */
    method KeepLiteral(how: Closing)
      requires Linked() && pos == |Read|
      modifies this`pos, this`sibs, this`ids, this`Read, this`brackets
      ensures Linked() && pos == |Read| && View() == PopBracket(AddText(old(View()), CloseNode(how), Source(Close(how))))
    {
      hide Linked, Vals;
      var src := if how.Matched? then how.tail else if how.Literal? then "]" + how.rest else "]";
      Append(CloseNode(how), src);
      if brackets != [] { brackets := brackets[..|brackets| - 1]; }
    }

    /** What was read behind the last bracket, from the siblings made of it. */
    method InsideBracket() returns (inside: string)
      requires Running() && brackets != []
      ensures inside == Inside(Read, brackets[|brackets| - 1].position)
    {
      hide Ok, Flat;
      InsideSiblings(View());
      var i := IndexOf(sibs, brackets[|brackets| - 1].inl);
      inside := Flat(Consumed, sibs[i + 1..]);
    }

    /** Detaches the siblings after place `i`, runs `process_emphasis` on them and returns the rest. */
    method ProcessAfter(i: nat, bottom: nat, ghost n: nat) returns (outer: seq<Inline>)
      requires Linked() && i < |sibs| && n <= |Stack| && Good(Vals(Stack)[n..], sibs[i + 1..])
      requires Parted(Vals(Stack)[..n], Vals(Stack)[n..], bottom)
      modifies this`lastDelim, this`Stack, this`sibs, Nodes
      ensures Linked() && Vals(Stack) == Vals(old(Stack))[..n] && outer == old(sibs)[..i]
      ensures sibs == Run(St(Vals(old(Stack))[n..], old(sibs)[i + 1..], 0, map[]), bottom, true)
    {
      hide Good, Run, Parted, Linked;
      ghost var ds := Vals(Stack);
      assert ds == ds[..n] + ds[n..];
      outer := sibs[..i];
      sibs := sibs[i + 1..];
      ProcessEmphasis(bottom, ds[..n], ds[n..]);
    }

    /** Ends the innermost span: pops the bracket and moves past its closing text. */
    method EndSpan(outer: seq<Inline>, node: Inline, src: string)
      requires brackets != [] && pos == |Read|
      modifies this`sibs, this`brackets, this`pos, this`Read
      ensures pos == |Read| && sibs == outer + [node] && brackets == old(brackets)[..|old(brackets)| - 1]
      ensures Read == old(Read) + src
    {
      sibs := outer + [node];
      brackets := brackets[..|brackets| - 1];
      pos := pos + |src|;
      Read := Read + src;
    }

    /** A link, image or attribute span takes over the siblings after the bracket, and replaces it. */
    method MakeLink(tail: string)
      requires Running() && brackets != [] && tail != "" && tail[0] == ']'
      modifies this, Nodes
      ensures Linked() && pos == |Read| && columnOffset <= 0 && View() == Next(old(View()), Close(Matched(tail))) && Nodes == old(Nodes)
    {
      hide Ok, LowCount, Good, Run, Next, IndexOf, End, Vals, Linked, HasId;
      ghost var p := View();
      LastBracket(p);
      NextMatched(p, tail);
      var b := brackets[|brackets| - 1];
      var i := IndexOf(sibs, b.inl);
      ghost var n := LowCount(p.ds, b.position);
      var outer := ProcessAfter(i, b.position, n);
      EndSpan(outer, Link(b.open, sibs, tail), tail);
    }

    /** A footnote reference replaces the bracket and everything after it. */
    method MakeFootnote(after: string, inside: string)
      requires Running() && !StaysLiteral(View(), Footnote(after)) && inside == Inside(Read, brackets[|brackets| - 1].position)
      modifies this, Nodes
      ensures Linked() && pos == |Read| && columnOffset <= 0 && View() == Next(old(View()), Close(Footnote(after))) && Nodes == old(Nodes)
    {
      hide Ok, LowCount, Good, Run, Next, IndexOf, End, Vals, Linked, HasId, Flat, CaretBehind, ReferenceTo;
      ghost var p := View();
      LastBracket(p);
      NextFootnote(p, after);
      var b := brackets[|brackets| - 1];
      var i := IndexOf(sibs, b.inl);
      var reference := ReferenceTo(b.open, inside, b.line, -columnOffset, after);
      ghost var n := LowCount(p.ds, b.position);
      var outer := ProcessAfter(i, b.position, n);
      EndSpan(outer, reference, "]");
    }

    /** `cmark_parse_inlines`: the whole run, the last `process_emphasis`, both stacks emptied. */
    method ParseInlines(ts: seq<Token>)
      requires Running() && View() == START && ValidTokens(ts)
      modifies this, Nodes
      ensures Linked() && Stack == [] && brackets == []
      ensures sibs == Tree(ts) && Flat(Consumed, sibs) == Sources(ts)
      ensures |Sources(ts)| - |Flat(Shown, sibs)| == Dropped(ts) && (Flat(Shown, sibs) == Sources(ts) <==> Spoiled(ts) == 0)
    {
      hide Ok, Run, Flat, Next, Good, Linked, Vals, Sources, Dropped, Spoiled;
      var i := 0;
      while i < |ts|
        invariant 0 <= i <= |ts| && Running() && View() == After(ts[..i])
        invariant fresh(Nodes - old(Nodes))
      {
        AfterOne(ts, i);
        Take(ts[i]);
        i := i + 1;
      }
      assert ts[..i] == ts;
      Finish();
      TreeAccountsForSource(ts);
      TreeSpellsSource(ts);
    }

    /** The end of a run: no delimiter is under position 0, so all of them go. */
    method Finish()
      requires Running()
      modifies this`lastDelim, this`Stack, this`sibs, this`brackets, Nodes
      ensures Linked() && Stack == [] && brackets == []
      ensures var p := old(View()); Good(p.ds, p.xs) && sibs == Run(St(p.ds, p.xs, 0, map[]), 0, true)
    {
      hide Ok, Run, Good, Linked;
      OkGood(View());
      ghost var ds := Vals(Stack);
      assert [] + ds == ds;
      ProcessEmphasis(0, [], ds);
      brackets := [];
    }

    /** Walks back to the first delimiter at or above `bottom`. */
    method FirstAtOrAbove(bottom: nat, ghost low: seq<Delim>, ghost ds: seq<Delim>) returns (closer: Delimiter?)
      requires Linked() && Vals(Stack) == low + ds && Parted(low, ds, bottom)
      ensures closer == At(Stack, |low|)
    {
      forall i: nat | i < |Stack| ensures Stack[i].d.position >= bottom <==> i >= |low| {
        PartedAt(low, ds, bottom, i);
        assert Vals(Stack)[i] == Stack[i].d;
      }
      closer := null;
      var candidate := lastDelim;
      ghost var n: nat := |Stack|;
      while candidate != null && candidate.d.position >= bottom
        invariant |low| <= n <= |Stack| && candidate == At(Stack, n - 1) && closer == At(Stack, n)
        decreases n
      {
        closer := candidate;
        candidate := candidate.previous;
        n := n - 1;
      }
    }

    /** Frees the delimiters at or above `bottom`, from the end of the list. */
    method RemoveAbove(bottom: nat, ghost low: seq<Delim>, ghost ds: seq<Delim>)
      requires Linked() && Vals(Stack) == low + ds && Parted(low, ds, bottom)
      modifies this`lastDelim, this`Stack, Nodes
      ensures Linked() && Vals(Stack) == low
    {
      ghost var all := low + ds;
      ghost var n: nat := |all|;
      assert all[..n] == all && all[..|low|] == low;
      while lastDelim != null && lastDelim.d.position >= bottom
        invariant |low| <= n <= |all| && Linked() && Vals(Stack) == all[..n]
        decreases n
      {
        assert lastDelim.d == Vals(Stack)[n - 1] == all[n - 1];
        PartedAt(low, ds, bottom, n - 1);
        ValsHole(Stack, n - 1, n);
        assert WithoutAt(all[..n], n - 1) == all[..n - 1];
        RemoveDelimiter(lastDelim, n - 1);
        n := n - 1;
      }
      if n > 0 {
        assert lastDelim.d == Vals(Stack)[n - 1] == all[n - 1];
        PartedAt(low, ds, bottom, n - 1);
      }
    }
  }

  lemma WithoutElements<T>(s: seq<T>, i: nat)
    requires i < |s|
    ensures var t := WithoutAt(s, i);
            && |t| == |s| - 1
            && (forall k :: 0 <= k < i ==> t[k] == s[k])
            && (forall k :: i <= k < |t| ==> t[k] == s[k + 1])
  {
  }

  lemma AtWithout(s: seq<Delimiter>, i: nat)
    requires i < |s|
    ensures At(WithoutAt(s, i), i) == At(s, i + 1)
  {
  }

  lemma HoleAt<T>(s: seq<T>, n: nat, c: nat)
    requires 1 <= n <= c < |s|
    ensures Hole(s, c, c) == s
    ensures forall x :: x in Hole(s, n, c) ==> x in s
    ensures Hole(s, n, c)[..n] == s[..n]
    ensures Hole(s, n, c)[n - 1] == s[n - 1] && (n >= 2 ==> Hole(s, n, c)[n - 2] == s[n - 2])
  {
  }

  lemma HoleGrows<T>(s: seq<T>, n: nat, c: nat)
    requires 1 <= n <= c <= |s|
    ensures WithoutAt(Hole(s, n, c), n - 1) == Hole(s, n - 1, c)
  {
  }

  lemma HoleWidens<T>(s: seq<T>, i: nat, n: nat)
    requires i <= n < |s|
    ensures Hole(s, i, n)[i] == s[n]
    ensures WithoutAt(Hole(s, i, n), i) == Hole(s, i, n + 1)
    ensures s[i..n] + [s[n]] == s[i..n + 1]
  {
  }

  lemma HoleEdges<T>(s: seq<T>, i: nat, j: nat)
    requires i < j < |s|
    ensures var h := Hole(s, i + 1, j); |h| == |s| - (j - i - 1) && h[..i] == s[..i] && h[i] == s[i] && h[i + 1] == s[j] && h[i + 2..] == s[j + 1..]
  {
  }
}
