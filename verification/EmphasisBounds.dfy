/** The whole loop of `process_emphasis`, and what the `openers_bottom` table may lose. */
module EmphasisBounds {
  import opened InlineTree
  import opened Emphasis
  import opened EmphasisProof

  /** The main loop run to its end; `fast` searches obey `openers_bottom`. */
  function Run(s: St, bottom: nat, fast: bool): seq<Inline>
    requires s.k <= |s.ds| && Good(s.ds, s.xs)
    decreases TopChars(s.xs), |s.ds| - s.k
  {
    if s.k == |s.ds| then s.xs else Turn(s, bottom, fast); Run(Step(s, bottom, fast), bottom, fast)
  }

  /** Emphasis conserves text. */
  lemma {:induction false} RunKeepsText(s: St, bottom: nat, fast: bool)
    requires s.k <= |s.ds| && Good(s.ds, s.xs)
    ensures SameText(s.xs, Run(s, bottom, fast))
    decreases TopChars(s.xs), |s.ds| - s.k
  {
    if s.k < |s.ds| {
      Turn(s, bottom, fast);
      RunKeepsText(Step(s, bottom, fast), bottom, fast);
    }
  }

  // ---------------------------------------------------------------- the search bound

  /** An opener below the bound of its character and length class fails the "multiple of 3" test. */
  ghost predicate BoundsSound(ds: seq<Delim>, ob: Bounds, bottom: nat) {
    && (forall d :: d in ds ==> d.position >= bottom)
    && forall d, c :: d in ds && Below(d, c, ob, bottom) && d.canOpen ==> c.length % 3 != 0 && (d.length + c.length) % 3 == 0
  }

  /** `d` has `c`'s character and lies under the bound a search for `c` would obey. */
  predicate Below(d: Delim, c: Delim, ob: Bounds, bottom: nat) {
    d.ch == c.ch && d.position < BoundOf(ob, bottom, c)
  }

  predicate PureOpener(d: Delim) { d.canOpen && !d.canClose }

  /** Some delimiter before the closer can only open, matches its character and lies under its bound. */
  predicate HidesOpener(s: St, bottom: nat)
    requires s.k < |s.ds|
  {
    exists i :: 0 <= i < s.k && Below(s.ds[i], s.ds[s.k], s.ob, bottom) && PureOpener(s.ds[i])
  }

  /** Some delimiter before the closer matches it, at or above its bound. */
  predicate MatchAbove(s: St, bottom: nat)
    requires s.k < |s.ds|
  {
    var c := s.ds[s.k];
    exists i :: 0 <= i < s.k && s.ds[i].position >= bottom && s.ds[i].position >= BoundOf(s.ob, bottom, c) && Matches(s.ds[i], c)
  }

  lemma {:induction false} SearchFirst(ds: seq<Delim>, n: nat, c: Delim, lo: nat)
    requires n <= |ds| && Ordered(ds)
    ensures var o := Search(ds, n, c, lo);
            forall i :: o < i < n && ds[i].position >= lo ==> !Matches(ds[i], c)
  {
    if n == 0 || ds[n - 1].position < lo || Matches(ds[n - 1], c) {
    } else {
      SearchFirst(ds, n - 1, c, lo);
    }
  }

  /** Exactly when a bounded search finds what an unbounded one would. */
  lemma BoundedSearchExact(s: St, bottom: nat)
    requires s.k < |s.ds| && Ordered(s.ds) && BoundsSound(s.ds, s.ob, bottom)
    ensures var c := s.ds[s.k];
            Opener(s, bottom, true) == Opener(s, bottom, false) <==>
            (MatchAbove(s, bottom) || c.canOpen || c.length % 3 == 0 || !HidesOpener(s, bottom))
  {
    var c := s.ds[s.k];
    var b := BoundOf(s.ob, bottom, c);
    var lo := if b > bottom then b else bottom;
    var fast, slow := Opener(s, bottom, true), Opener(s, bottom, false);
    SearchFirst(s.ds, s.k, c, lo);
    SearchFirst(s.ds, s.k, c, bottom);
    assert fast >= 0 <==> MatchAbove(s, bottom);
    if fast < 0 && slow >= 0 {
      assert s.ds[slow] in s.ds && Below(s.ds[slow], c, s.ob, bottom);
      assert !c.canOpen && c.length % 3 != 0 && PureOpener(s.ds[slow]);
    }
    if !c.canOpen {
      forall i | 0 <= i < s.k && Below(s.ds[i], c, s.ob, bottom) && PureOpener(s.ds[i])
        ensures Matches(s.ds[i], c) && s.ds[i].position >= bottom
      {
        assert s.ds[i] in s.ds;
      }
    }
  }

  lemma HoleIsSubset(ds: seq<Delim>, a: nat, b: nat)
    requires a <= b <= |ds|
    ensures forall d :: d in Hole(ds, a, b) ==> d in ds
  {
  }

  lemma KeepIsSubset(ds: seq<Delim>, o: nat, c: nat, keepO: bool, keepC: bool)
    requires o < c < |ds|
    ensures forall d :: d in Keep(ds, o, c, keepO, keepC) ==> d in ds
  {
    HoleIsSubset(ds, o + 1, c);
    var h := Hole(ds, o + 1, c);
    HoleIsSubset(h, o, o + 1);
    var h1 := if keepO then h else WithoutAt(h, o);
    var n := if keepO then o + 1 else o;
    HoleIsSubset(h1, n, n + 1);
  }

  lemma FireShrinks(s: St, o: nat)
    requires o < s.k < |s.ds|
    requires IndexOf(s.xs, s.ds[o].inl) < IndexOf(s.xs, s.ds[s.k].inl) < |s.xs|
    ensures forall d :: d in Fire(s, o).ds ==> d in s.ds
    ensures Fire(s, o).ob == s.ob
  {
    var i, j := IndexOf(s.xs, s.ds[o].inl), IndexOf(s.xs, s.ds[s.k].inl);
    var u := UseDelims(LitLen(s.xs[i]), LitLen(s.xs[j]));
    KeepIsSubset(s.ds, o, s.k, false, false);
    KeepIsSubset(s.ds, o, s.k, Trim(s.xs[i], u) != [], Trim(s.xs[j], u) != []);
    HoleIsSubset(s.ds, o, o + 1);
    HoleIsSubset(WithoutAt(s.ds, o), s.k - 1, s.k);
  }

  /** A turn only drops delimiters, and only a failed search writes a bound. */
  lemma StepShrinks(s: St, bottom: nat, fast: bool)
    requires s.k < |s.ds| && Good(s.ds, s.xs)
    ensures forall d :: d in Step(s, bottom, fast).ds ==> d in s.ds
    ensures Step(s, bottom, fast).ob == s.ob
         || (Opener(s, bottom, fast) < 0 && Step(s, bottom, fast).ob
               == s.ob[(s.ds[s.k].length % 3, s.ds[s.k].ch) := s.ds[s.k].position])
  {
    var o := Opener(s, bottom, fast);
    if !s.ds[s.k].canClose {
      assert Step(s, bottom, fast) == s.(k := s.k + 1);
    } else if o >= 0 {
      GoodIndex(s.ds, s.xs, o, s.k);
      FireShrinks(s, o);
      assert Step(s, bottom, fast) == Fire(s, o);
    } else {
      assert Step(s, bottom, fast) == NoOpener(s);
    }
  }

  /** Under a bound just written there is nothing that matches the closer which wrote it. */
  lemma Unmatched(s: St, bottom: nat, d: Delim)
    requires s.k < |s.ds| && Ordered(s.ds) && Opener(s, bottom, true) < 0
    requires d in s.ds && bottom <= d.position < s.ds[s.k].position
    ensures d.position < BoundOf(s.ob, bottom, s.ds[s.k]) || !Matches(d, s.ds[s.k])
  {
    var e := s.ds[s.k];
    var b := BoundOf(s.ob, bottom, e);
    SearchFirst(s.ds, s.k, e, if b > bottom then b else bottom);
    var i :| 0 <= i < |s.ds| && s.ds[i] == d;
  }

  /** Being under the new bound means being under the old one, or unmatched with its writer. */
  lemma NewBound(s: St, bottom: nat, d: Delim, c: Delim)
    requires s.k < |s.ds| && Good(s.ds, s.xs)
    requires d in s.ds && d.position >= bottom
    requires Below(d, c, Step(s, bottom, true).ob, bottom)
    ensures Below(d, c, s.ob, bottom)
         || (!Matches(d, s.ds[s.k]) && c.ch == d.ch == s.ds[s.k].ch && c.length % 3 == s.ds[s.k].length % 3)
  {
    StepShrinks(s, bottom, true);
    var e, t := s.ds[s.k], Step(s, bottom, true);
    if t.ob != s.ob && (c.length % 3, c.ch) == (e.length % 3, e.ch) {
      Unmatched(s, bottom, d);
    }
  }

  lemma SoundAfter(s: St, bottom: nat, d: Delim, c: Delim)
    requires s.k < |s.ds| && Good(s.ds, s.xs) && BoundsSound(s.ds, s.ob, bottom)
    requires d in s.ds && d.canOpen && Below(d, c, Step(s, bottom, true).ob, bottom)
    ensures c.length % 3 != 0 && (d.length + c.length) % 3 == 0
  {
    NewBound(s, bottom, d, c);
    if !Below(d, c, s.ob, bottom) { MissMeansThree(d, s.ds[s.k], c); }
  }

  lemma MissMeansThree(d: Delim, e: Delim, c: Delim)
    requires d.canOpen && d.ch == e.ch && !Matches(d, e) && c.length % 3 == e.length % 3
    ensures c.length % 3 != 0 && (d.length + c.length) % 3 == 0
  {
    assert (d.length + c.length) % 3 == (d.length % 3 + c.length % 3) % 3;
  }

  /** Every turn keeps the meaning of the table. */
  lemma StepKeepsBounds(s: St, bottom: nat)
    requires s.k < |s.ds| && Good(s.ds, s.xs) && BoundsSound(s.ds, s.ob, bottom)
    ensures BoundsSound(Step(s, bottom, true).ds, Step(s, bottom, true).ob, bottom)
  {
    StepShrinks(s, bottom, true);
    var ds, ob := Step(s, bottom, true).ds, Step(s, bottom, true).ob;
    forall d, c | d in ds && Below(d, c, ob, bottom) && d.canOpen
      ensures c.length % 3 != 0 && (d.length + c.length) % 3 == 0
    {
      SoundAfter(s, bottom, d, c);
    }
  }

  /** A table fresh from `memset` and the loop over the four characters is sound. */
  lemma FreshBounds(ds: seq<Delim>, bottom: nat)
    requires forall d :: d in ds ==> d.position >= bottom
    ensures BoundsSound(ds, map[], bottom)
  {
  }

  // ---------------------------------------------------------------- fast loop against plain loop

  /** No run that can both open and close has a length the "multiple of 3" rule looks at. */
  ghost predicate NoMixedRuns(ds: seq<Delim>) {
    forall d :: d in ds && d.canOpen && d.canClose ==> d.length % 3 == 0
  }

  ghost predicate NoPureOpeners(ds: seq<Delim>) {
    forall d :: d in ds ==> !PureOpener(d)
  }

  /** Without mixed runs nothing that can open is left below a bound. */
  ghost predicate NothingBelow(ds: seq<Delim>, ob: Bounds, bottom: nat) {
    forall d, c :: d in ds && Below(d, c, ob, bottom) ==> !d.canOpen
  }

  lemma StepKeepsNothingBelow(s: St, bottom: nat)
    requires s.k < |s.ds| && Good(s.ds, s.xs) && NothingBelow(s.ds, s.ob, bottom) && NoMixedRuns(s.ds)
    requires forall d :: d in s.ds ==> d.position >= bottom
    ensures NothingBelow(Step(s, bottom, true).ds, Step(s, bottom, true).ob, bottom)
  {
    StepShrinks(s, bottom, true);
    var t, e := Step(s, bottom, true), s.ds[s.k];
    assert e in s.ds;
    hide Step, Good;
    forall d, c | d in t.ds && Below(d, c, t.ob, bottom)
      ensures !d.canOpen
    {
      NewBound(s, bottom, d, c);
    }
  }

  /** The bounded loop builds the tree of the unbounded loop when the delimiters are of either kind. */
  lemma {:induction false} FastRunIsPlainRun(s: St, bottom: nat)
    requires s.k <= |s.ds| && Good(s.ds, s.xs) && BoundsSound(s.ds, s.ob, bottom)
    requires NoPureOpeners(s.ds) || (NoMixedRuns(s.ds) && NothingBelow(s.ds, s.ob, bottom))
    ensures Run(s, bottom, true) == Run(s, bottom, false)
    decreases TopChars(s.xs), |s.ds| - s.k
  {
    if s.k < |s.ds| {
      Turn(s, bottom, true);
      BoundedSearchExact(s, bottom);
      forall i | 0 <= i < s.k && Below(s.ds[i], s.ds[s.k], s.ob, bottom) ensures !PureOpener(s.ds[i]) {
        assert s.ds[i] in s.ds;
      }
      assert Step(s, bottom, true) == Step(s, bottom, false);
      StepShrinks(s, bottom, true);
      StepKeepsBounds(s, bottom);
      if !NoPureOpeners(s.ds) { StepKeepsNothingBelow(s, bottom); }
      FastRunIsPlainRun(Step(s, bottom, true), bottom);
    }
  }

  // ---------------------------------------------------------------- where the bound does lose a match

  /** `n` turns, or fewer if the loop ends before. */
  ghost function Turns(s: St, bottom: nat, fast: bool, n: nat): (t: St)
    requires s.k <= |s.ds| && Good(s.ds, s.xs)
    ensures t.k <= |t.ds| && Good(t.ds, t.xs)
    decreases n
  {
    if n == 0 || s.k == |s.ds| then s else Turn(s, bottom, fast); Turns(Step(s, bottom, fast), bottom, fast, n - 1)
  }

  /** The table has its meaning in every state of the bounded loop. */
  lemma {:induction false} TurnsSound(s: St, bottom: nat, n: nat)
    requires s.k <= |s.ds| && Good(s.ds, s.xs) && BoundsSound(s.ds, s.ob, bottom)
    ensures var t := Turns(s, bottom, true, n); BoundsSound(t.ds, t.ob, bottom)
    decreases n
  {
    hide Good, BoundsSound, Step;
    if n > 0 && s.k < |s.ds| {
      Turn(s, bottom, true);
      StepKeepsBounds(s, bottom);
      TurnsSound(Step(s, bottom, true), bottom, n - 1);
    }
  }

  /** So after any number of turns from a fresh table, exactly then does the bound lose no match. */
  lemma ReachableSearchExact(ds: seq<Delim>, xs: seq<Inline>, k: nat, bottom: nat, n: nat)
    requires k <= |ds| && Good(ds, xs) && forall d :: d in ds ==> d.position >= bottom
    ensures var t := Turns(St(ds, xs, k, map[]), bottom, true, n);
            t.k == |t.ds| || (Opener(t, bottom, true) == Opener(t, bottom, false) <==>
              (MatchAbove(t, bottom) || t.ds[t.k].canOpen || t.ds[t.k].length % 3 == 0 || !HidesOpener(t, bottom)))
  {
    hide Opener, HidesOpener, MatchAbove, BoundsSound;
    FreshBounds(ds, bottom);
    TurnsSound(St(ds, xs, k, map[]), bottom, n);
    var t := Turns(St(ds, xs, k, map[]), bottom, true, n);
    if t.k < |t.ds| { BoundedSearchExact(t, bottom); }
  }

  // ---------------------------------------------------------------- whole runs, turn by turn

  /** If a search is made here, the bounded one finds what the unbounded one does. */
  ghost predicate Agrees(t: St, bottom: nat) {
    t.k < |t.ds| && t.ds[t.k].canClose ==> Opener(t, bottom, true) == Opener(t, bottom, false)
  }

  lemma {:induction false} TurnsNext(s: St, bottom: nat, fast: bool, n: nat)
    requires s.k <= |s.ds| && Good(s.ds, s.xs)
    ensures var t := Turns(s, bottom, fast, n); Turns(s, bottom, fast, n + 1) == if t.k == |t.ds| then t else Step(t, bottom, fast)
    decreases n
  {
    hide Good, Step;
    if n > 0 && s.k < |s.ds| {
      Turn(s, bottom, fast);
      TurnsNext(Step(s, bottom, fast), bottom, fast, n - 1);
    }
  }

  /** A search that finds something where the other finds nothing leads to another state. */
  lemma StepDiffers(t: St, bottom: nat)
    requires t.k < |t.ds| && Good(t.ds, t.xs) && !Agrees(t, bottom)
    ensures Step(t, bottom, true) != Step(t, bottom, false)
  {
    var fast, slow := Opener(t, bottom, true), Opener(t, bottom, false);
    OneFails(t, bottom);
    GoodIndex(t.ds, t.xs, slow, t.k);
    hide Good, Opener;
    assert Step(t, bottom, true) == NoOpener(t) && Step(t, bottom, false) == Fire(t, slow);
    if IsEmph(t.ds[t.k].ch) { EmphDiffers(t, slow); }
  }

  lemma OneFails(t: St, bottom: nat)
    requires t.k < |t.ds| && Ordered(t.ds) && Opener(t, bottom, true) != Opener(t, bottom, false)
    ensures Opener(t, bottom, true) < 0 <= Opener(t, bottom, false)
  {
    var c := t.ds[t.k];
    var b := BoundOf(t.ob, bottom, c);
    SearchFirst(t.ds, t.k, c, if b > bottom then b else bottom);
    SearchFirst(t.ds, t.k, c, bottom);
  }

  lemma EmphDiffers(t: St, o: nat)
    requires o < t.k < |t.ds| && IsEmph(t.ds[t.k].ch)
    requires IndexOf(t.xs, t.ds[o].inl) < IndexOf(t.xs, t.ds[t.k].inl) < |t.xs|
    ensures InsertEmph(t, o) != NoOpener(t)
  {
    var i, j := IndexOf(t.xs, t.ds[o].inl), IndexOf(t.xs, t.ds[t.k].inl);
    var u := UseDelims(LitLen(t.xs[i]), LitLen(t.xs[j]));
    var left, right := Trim(t.xs[i], u), Trim(t.xs[j], u);
    var e := InsertEmph(t, o);
    KeepSizes(t.ds, o, t.k, left != [], right != []);
    WrapAt(t.xs, i, j, left, EmphNode(u, t.ds[o].ch, t.xs[i + 1..j]), right);
    hide Keep, Wrap, IndexOf, Trim, UseDelims;
    if e.k == t.k && |e.ds| == |t.ds| - 1 {
      assert left != [] && right == [];
      assert |e.xs| == |t.xs| ==> HasId(t.xs[i + 1], t.ds[t.k].inl);
    }
  }

  lemma WrapAt(xs: seq<Inline>, i: nat, j: nat, left: seq<Inline>, mid: Inline, right: seq<Inline>)
    requires i < j < |xs|
    ensures var ys := Wrap(xs, i, j, left, mid, right); |ys| == |xs| - (j - i) + |left| + |right| && ys[i + |left|] == mid
  {
  }

  lemma KeepSizes(ds: seq<Delim>, o: nat, c: nat, keepO: bool, keepC: bool)
    requires o < c < |ds|
    ensures |Keep(ds, o, c, keepO, keepC)| == |ds| - (c - o - 1) - (if keepO then 0 else 1) - (if keepC then 0 else 1)
  {
  }

  /** The bounded loop goes through the states of the unbounded loop, exactly when both searches agree at each
      of its turns; and then the two build one tree. */
  lemma RunsAgree(s: St, bottom: nat)
    requires s.k <= |s.ds| && Good(s.ds, s.xs)
    ensures (forall n: nat :: Turns(s, bottom, true, n) == Turns(s, bottom, false, n)) <==> (forall n: nat :: Agrees(Turns(s, bottom, true, n), bottom))
    ensures (forall n: nat :: Agrees(Turns(s, bottom, true, n), bottom)) ==> Run(s, bottom, true) == Run(s, bottom, false)
  {
    hide Good, Step, Turns, Agrees, Run;
    if forall n: nat :: Agrees(Turns(s, bottom, true, n), bottom) {
      forall n: nat ensures Turns(s, bottom, true, n) == Turns(s, bottom, false, n) { SameTurns(s, bottom, n); }
      SameRun(s, bottom);
    } else {
      var n: nat :| !Agrees(Turns(s, bottom, true, n), bottom);
      var t := Turns(s, bottom, true, n);
      TurnsNext(s, bottom, true, n);
      TurnsNext(s, bottom, false, n);
      AgreesAtEnd(t, bottom);
      StepDiffers(t, bottom);
      assert Turns(s, bottom, true, n) != Turns(s, bottom, false, n) || Turns(s, bottom, true, n + 1) != Turns(s, bottom, false, n + 1);
    }
  }

  lemma AgreesAtEnd(t: St, bottom: nat)
    requires t.k <= |t.ds| && !Agrees(t, bottom)
    ensures t.k < |t.ds|
  {
  }

  lemma AgreeingStep(t: St, bottom: nat)
    requires t.k < |t.ds| && Good(t.ds, t.xs) && Agrees(t, bottom)
    ensures Step(t, bottom, true) == Step(t, bottom, false)
  {
  }

  lemma {:induction false} SameTurns(s: St, bottom: nat, n: nat)
    requires s.k <= |s.ds| && Good(s.ds, s.xs) && forall m: nat :: Agrees(Turns(s, bottom, true, m), bottom)
    ensures Turns(s, bottom, true, n) == Turns(s, bottom, false, n)
    decreases n
  {
    hide Good, Step, Agrees, Turns;
    if n == 0 {
      NoTurns(s, bottom);
    } else {
      SameTurns(s, bottom, n - 1);
      TurnsNext(s, bottom, true, n - 1);
      TurnsNext(s, bottom, false, n - 1);
      var t := Turns(s, bottom, true, n - 1);
      if t.k < |t.ds| { AgreeingStep(t, bottom); }
    }
  }

  lemma NoTurns(s: St, bottom: nat)
    requires s.k <= |s.ds| && Good(s.ds, s.xs)
    ensures Turns(s, bottom, true, 0) == s == Turns(s, bottom, false, 0)
  {
  }

  lemma {:induction false} SameRun(s: St, bottom: nat)
    requires s.k <= |s.ds| && Good(s.ds, s.xs) && forall m: nat :: Agrees(Turns(s, bottom, true, m), bottom)
    ensures Run(s, bottom, true) == Run(s, bottom, false)
    decreases TopChars(s.xs), |s.ds| - s.k
  {
    hide Good, Step, Agrees;
    if s.k < |s.ds| {
      NoTurns(s, bottom);
      AgreeingStep(s, bottom);
      Turn(s, bottom, true);
      var t := Step(s, bottom, true);
      forall m: nat ensures Agrees(Turns(t, bottom, true, m), bottom) { assert Turns(t, bottom, true, m) == Turns(s, bottom, true, m + 1); }
      SameRun(t, bottom);
    }
  }

  /** The text `**foo*bar****`: a run that opens, a run that can do both, a run that closes. */
  function LostText(): St {
    St([Delim('*', true, false, 2, 2, 0), Delim('*', true, true, 6, 1, 1), Delim('*', false, true, 13, 4, 2)],
       [Text(0, "**"), Leaf("foo"), Text(1, "*"), Leaf("bar"), Text(2, "****")], 0, map[])
  }

  lemma LostPlaced()
    ensures Placed(LostText().ds, LostText().xs, [0, 2, 4]) && Uniq(LostText().xs)
  {
  }

  lemma LostGood()
    ensures Good(LostText().ds, LostText().xs)
    ensures IndexOf(LostText().xs, 1) == 2 && IndexOf(LostText().xs, 2) == 4
  {
    var s := LostText();
    hide Placed, Uniq;
    var ix: seq<nat> := [0, 2, 4];
    LostPlaced();
    PlacedIndex(s.ds, s.xs, ix, 1);
    PlacedIndex(s.ds, s.xs, ix, 2);
  }

  /** The middle run finds no opener, because 2 + 1 is a multiple of 3, and sets the bound. */
  lemma LostTurn2()
    ensures Good(LostText().ds, LostText().xs)
    ensures Step(LostText().(k := 1), 0, true) == LostText().(k := 2, ob := map[(1, '*') := 6])
  {
    LostGood();
    var s := LostText();
    assert !Matches(s.ds[0], s.ds[1]);
    assert Search(s.ds, 1, s.ds[1], 0) == Search(s.ds, 0, s.ds[1], 0) == -1;
  }

  /** The last run takes the middle one as its opener, and uses it up. */
  lemma LostTurn3()
    ensures Good(LostText().ds, LostText().xs)
    ensures var s := LostText(); var t := Step(s.(k := 2, ob := map[(1, '*') := 6]), 0, true);
            t.ds == [s.ds[0], s.ds[2]] && t.k == 1 && t.ob == map[(1, '*') := 6]
  {
    LostGood();
    var s := LostText().(k := 2, ob := map[(1, '*') := 6]);
    assert Search(s.ds, 2, s.ds[2], 6) == 1;
    assert Step(s, 0, true) == InsertEmph(s, 1);
    assert Trim(s.xs[2], 1) == [] && |Trim(s.xs[4], 1)| == 1;
    assert Keep(s.ds, 1, 2, false, true) == [s.ds[0], s.ds[2]];
  }

  /** The bound set by the middle run hides the first run from the last: an unbounded search finds it. */
  lemma BoundLosesAMatch()
    ensures Good(LostText().ds, LostText().xs)
    ensures var t := Turns(LostText(), 0, true, 3);
            t.k < |t.ds| && Opener(t, 0, true) == -1 && Opener(t, 0, false) == 0
  {
    LostGood();
    LostTurn2();
    LostTurn3();
    hide Good, InsertEmph, NoOpener;
    var s := LostText();
    var d, c := s.ds[0], s.ds[2];
    var s2 := s.(k := 2, ob := map[(1, '*') := 6]);
    assert Step(s, 0, true) == s.(k := 1);
    var s3 := Step(s2, 0, true);
    assert Search(s3.ds, 1, c, 6) == -1 && Search(s3.ds, 1, c, 0) == 0;
    assert Turns(s, 0, true, 3) == Turns(s.(k := 1), 0, true, 2) == Turns(s2, 0, true, 1) == Turns(s3, 0, true, 0) == s3;
  }
}
