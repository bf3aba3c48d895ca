/** Which nodes emphasis makes: what one match does to the siblings, and what a pair of runs comes to. */
module EmphasisPairs {
  import opened InlineTree
  import opened Emphasis
  import opened EmphasisProof
  import opened EmphasisBounds

  /** Which runs match (rules 9 and 10 of section 6.4 of the GitHub Flavored Markdown Spec): if one of them can both
      open and close, the sum of their lengths is no multiple of 3, unless both lengths are. */
  lemma MatchesMean(o: Delim, c: Delim)
    ensures Matches(o, c) <==>
      && o.canOpen && o.ch == c.ch
      && (o.canClose || c.canOpen ==> (o.length + c.length) % 3 == 0 ==> o.length % 3 == 0 && c.length % 3 == 0)
  {
  }

  // ---------------------------------------------------------------- one match

  /** A run without `n` of its characters; a run that is used up is gone. */
  function Less(x: Inline, n: nat): seq<Inline>
    requires x.Text? && n <= |x.lit|
  {
    if n == |x.lit| then [] else [Text(x.id, x.lit[n..])]
  }

  /** Between the runs at `i` and `j`: with two characters or more in both, two of each go and what they enclose
      becomes STRONG; otherwise one of each goes and it becomes EMPH. */
  ghost predicate Emphasized(xs: seq<Inline>, i: nat, j: nat, ch: char, ys: seq<Inline>)
    requires i < j < |xs| && xs[i].Text? && xs[j].Text? && xs[i].lit != "" && xs[j].lit != ""
  {
    var inside := xs[i + 1..j];
    if |xs[i].lit| >= 2 && |xs[j].lit| >= 2
    then ys == xs[..i] + Less(xs[i], 2) + [Strong(ch, inside)] + Less(xs[j], 2) + xs[j + 1..]
    else ys == xs[..i] + Less(xs[i], 1) + [Emph(ch, inside)] + Less(xs[j], 1) + xs[j + 1..]
  }

  lemma TrimLess(d: Delim, x: Inline, u: nat)
    requires Hosts(d, x) && !IsQuote(d.ch) && u <= |x.lit|
    ensures Trim(x, u) == Less(x, u)
  {
    if u < |x.lit| { assert x.lit[..|x.lit| - u] == x.lit[u..]; }
  }

  /** Of the delimiters the two, if they are not used up, and those outside them stay; the loop goes on at the closer,
      or behind it when it is used up. */
  ghost predicate Narrowed(s: St, o: nat, keepO: bool, keepC: bool, t: St)
    requires o < s.k < |s.ds|
  {
    && t.ds == s.ds[..o] + (if keepO then [s.ds[o]] else []) + (if keepC then [s.ds[s.k]] else []) + s.ds[s.k + 1..]
    && t.k == (if keepO then o + 1 else o) && t.ob == s.ob
  }

  lemma KeepIs<T>(ds: seq<T>, o: nat, c: nat, keepO: bool, keepC: bool)
    requires o < c < |ds|
    ensures Keep(ds, o, c, keepO, keepC) == ds[..o] + (if keepO then [ds[o]] else []) + (if keepC then [ds[c]] else []) + ds[c + 1..]
  {
  }

  /** The places of the two runs among the siblings, and their texts. */
  ghost predicate RunsAt(s: St, o: nat, i: nat, j: nat)
    requires o < s.k < |s.ds|
  {
    && i < j < |s.xs| && HasId(s.xs[i], s.ds[o].inl) && HasId(s.xs[j], s.ds[s.k].inl)
    && s.xs[i].Text? && s.xs[j].Text? && s.xs[i].lit != "" && s.xs[j].lit != ""
  }

  lemma RunsFound(s: St, o: nat) returns (i: nat, j: nat)
    requires o < s.k < |s.ds| && Good(s.ds, s.xs) && !IsQuote(s.ds[o].ch) && !IsQuote(s.ds[s.k].ch)
    ensures RunsAt(s, o, i, j) && i == IndexOf(s.xs, s.ds[o].inl) && j == IndexOf(s.xs, s.ds[s.k].inl)
    ensures Hosts(s.ds[o], s.xs[i]) && Hosts(s.ds[s.k], s.xs[j])
  {
    GoodIndex(s.ds, s.xs, o, s.k);
    i, j := IndexOf(s.xs, s.ds[o].inl), IndexOf(s.xs, s.ds[s.k].inl);
  }

  /** A match of two runs of `*` or `_` does that, and the delimiters follow. */
  lemma MatchMeans(s: St, o: nat) returns (i: nat, j: nat)
    requires o < s.k < |s.ds| && Good(s.ds, s.xs) && s.ds[o].ch == s.ds[s.k].ch && IsEmph(s.ds[o].ch)
    ensures IndexOf(s.xs, s.ds[o].inl) < IndexOf(s.xs, s.ds[s.k].inl) < |s.xs|
    ensures RunsAt(s, o, i, j) && Emphasized(s.xs, i, j, s.ds[o].ch, Fire(s, o).xs)
    ensures var used := if |s.xs[i].lit| >= 2 && |s.xs[j].lit| >= 2 then 2 else 1;
            Narrowed(s, o, |s.xs[i].lit| > used, |s.xs[j].lit| > used, Fire(s, o))
  {
    hide Good, Keep, Hosts;
    i, j := RunsFound(s, o);
    var u := UseDelims(|s.xs[i].lit|, |s.xs[j].lit|);
    TrimLess(s.ds[o], s.xs[i], u);
    TrimLess(s.ds[s.k], s.xs[j], u);
    KeepIs(s.ds, o, s.k, |s.xs[i].lit| > u, |s.xs[j].lit| > u);
  }

  lemma WrapAlone(xs: seq<Inline>, i: nat, j: nat, mid: Inline)
    requires i < j < |xs|
    ensures Wrap(xs, i, j, [], mid, []) == xs[..i] + [mid] + xs[j + 1..]
  {
  }

  /** A match of two runs of tildes: of one length, they become one node around what they enclose; otherwise they
      stay as text.  Both delimiters go. */
  lemma StrikeMeans(s: St, o: nat) returns (i: nat, j: nat)
    requires o < s.k < |s.ds| && Good(s.ds, s.xs) && s.ds[o].ch == s.ds[s.k].ch == '~'
    ensures IndexOf(s.xs, s.ds[o].inl) < IndexOf(s.xs, s.ds[s.k].inl) < |s.xs|
    ensures RunsAt(s, o, i, j) && Narrowed(s, o, false, false, Fire(s, o))
    ensures Fire(s, o).xs == if |s.xs[i].lit| == |s.xs[j].lit|
                             then s.xs[..i] + [Strike(s.xs[i].lit, s.xs[i + 1..j])] + s.xs[j + 1..] else s.xs
  {
    hide Good, Keep, Hosts, Wrap, IndexOf;
    i, j := RunsFound(s, o);
    KeepIs(s.ds, o, s.k, false, false);
    WrapAlone(s.xs, i, j, Strike(s.xs[i].lit, s.xs[i + 1..j]));
  }

  /** A match of two quotes: the first becomes a left one, the second a right one; no other node changes, and what
      lies between stays on the list. */
  lemma QuotesMean(s: St, o: nat) returns (i: nat, j: nat)
    requires o < s.k < |s.ds| && Good(s.ds, s.xs) && s.ds[o].ch == s.ds[s.k].ch && IsQuote(s.ds[o].ch)
    ensures IndexOf(s.xs, s.ds[o].inl) < IndexOf(s.xs, s.ds[s.k].inl) < |s.xs|
    ensures i < j < |s.xs| && s.xs[i].Quote? && HasId(s.xs[i], s.ds[o].inl) && s.xs[j].Quote? && HasId(s.xs[j], s.ds[s.k].inl)
    ensures Fire(s, o).xs == s.xs[i := Quote(s.ds[o].inl, s.ds[o].ch, true)][j := Quote(s.ds[s.k].inl, s.ds[o].ch, false)]
    ensures Fire(s, o).ds == s.ds[..o] + s.ds[o + 1..s.k] + s.ds[s.k + 1..] && Fire(s, o).k == s.k - 1 && Fire(s, o).ob == s.ob
  {
    hide Good, SetQuote, IndexOf, WithoutAt;
    GoodIndex(s.ds, s.xs, o, s.k);
    i, j := IndexOf(s.xs, s.ds[o].inl), IndexOf(s.xs, s.ds[s.k].inl);
    QuoteSet(s.xs, s.ds[s.k].inl, s.ds[o].ch, false);
    var ys := SetQuote(s.xs, s.ds[s.k].inl, false);
    SameIndex(s.xs, j, ys[j], s.ds[o].inl);
    QuoteSet(ys, s.ds[o].inl, s.ds[o].ch, true);
    Swapped(s.xs, i, j, Quote(s.ds[o].inl, s.ds[o].ch, true), ys[j]);
    TwoGone(s.ds, o, s.k);
  }

  lemma QuoteSet(xs: seq<Inline>, id: nat, ch: char, left: bool)
    requires var i := IndexOf(xs, id); i < |xs| && xs[i].Quote? && xs[i].ch == ch
    ensures SetQuote(xs, id, left) == xs[IndexOf(xs, id) := Quote(id, ch, left)]
  {
  }

  lemma Swapped(xs: seq<Inline>, i: nat, j: nat, a: Inline, b: Inline)
    requires i < j < |xs|
    ensures xs[j := b][i := a] == xs[i := a][j := b]
  {
  }

  lemma TwoGone(ds: seq<Delim>, o: nat, c: nat)
    requires o < c < |ds|
    ensures |WithoutAt(ds, o)| == |ds| - 1 && WithoutAt(WithoutAt(ds, o), c - 1) == ds[..o] + ds[o + 1..c] + ds[c + 1..]
  {
  }

  lemma {:induction false} SameIndex(xs: seq<Inline>, j: nat, y: Inline, id: nat)
    requires j < |xs| && forall n: nat :: HasId(y, n) <==> HasId(xs[j], n)
    ensures IndexOf(xs[j := y], id) == IndexOf(xs, id)
  {
    if !HasId(xs[j := y][0], id) && j > 0 {
      assert xs[j := y][1..] == xs[1..][j - 1 := y];
      SameIndex(xs[1..], j - 1, y, id);
    } else if j == 0 {
      assert xs[j := y][1..] == xs[1..];
    }
  }

  // ---------------------------------------------------------------- a pair of runs

  function Strongs(ch: char, k: nat, kids: seq<Inline>): seq<Inline> {
    if k == 0 then kids else [Strong(ch, Strongs(ch, k - 1, kids))]
  }

  /** `n` characters on each side of `kids`: a STRONG for every two, and an EMPH around them for an odd one. */
  function Nest(ch: char, n: nat, kids: seq<Inline>): seq<Inline> {
    if n % 2 == 1 then [Emph(ch, Strongs(ch, n / 2, kids))] else Strongs(ch, n / 2, kids)
  }

  lemma {:induction false} StrongsInside(ch: char, k: nat, kids: seq<Inline>)
    ensures Strongs(ch, k, [Strong(ch, kids)]) == Strongs(ch, k + 1, kids)
  {
    if k > 0 { StrongsInside(ch, k - 1, kids); } else { assert Strongs(ch, 1, kids) == [Strong(ch, Strongs(ch, 0, kids))]; }
  }

  function Repeat(ch: char, n: nat): (s: string)
    ensures |s| == n && forall i :: 0 <= i < n ==> s[i] == ch
  {
    seq(n, _ => ch)
  }

  /** A run of `n` characters as a text node, if it is one. */
  function Marks(id: nat, ch: char, n: nat): seq<Inline> {
    if n == 0 then [] else [Text(id, Repeat(ch, n))]
  }

  /** Runs of `m` and `n` characters around `kids`, with `before` and `behind` beside them. */
  function Around(o: Delim, c: Delim, m: nat, n: nat, before: seq<Inline>, kids: seq<Inline>, behind: seq<Inline>): seq<Inline> {
    before + Marks(o.inl, o.ch, m) + kids + Marks(c.inl, c.ch, n) + behind
  }

  function Min(m: nat, n: nat): nat { if m < n then m else n }

  lemma LessRun(id: nat, ch: char, n: nat, u: nat)
    requires 0 < u <= n
    ensures Less(Text(id, Repeat(ch, n)), u) == Marks(id, ch, n - u)
  {
    assert Repeat(ch, n)[u..] == Repeat(ch, n - u);
  }

  lemma AroundAt(o: Delim, c: Delim, m: nat, n: nat, before: seq<Inline>, kids: seq<Inline>, behind: seq<Inline>)
    requires m > 0 && n > 0
    ensures var xs, i := Around(o, c, m, n, before, kids, behind), |before|; var j := i + 1 + |kids|;
            && |xs| > j && xs[..i] == before && xs[i] == Text(o.inl, Repeat(o.ch, m)) && xs[i + 1..j] == kids
            && xs[j] == Text(c.inl, Repeat(c.ch, n)) && xs[j + 1..] == behind
  {
  }

  lemma OneAt(xs: seq<Inline>, p: nat, i: nat, id: nat)
    requires Uniq(xs) && p < |xs| && HasId(xs[p], id) && i < |xs| && HasId(xs[i], id)
    ensures i == p
  {
  }

  /** An opener and a closer with `m` and `n` characters left, that match: the walk stands at the closer. */
  ghost predicate Pair(s: St, bottom: nat, fast: bool, m: nat, n: nat, before: seq<Inline>, kids: seq<Inline>, behind: seq<Inline>) {
    && |s.ds| == 2 && s.k == 1 && Good(s.ds, s.xs) && m > 0 && n > 0
    && var o, c := s.ds[0], s.ds[1];
    && IsEmph(o.ch) && c.canClose && Matches(o, c)
    && o.position >= bottom && (fast ==> o.position >= BoundOf(s.ob, bottom, c))
    && s.xs == Around(o, c, m, n, before, kids, behind)
  }

  /** What `Emphasized` says of such runs. */
  lemma PairSiblings(xs: seq<Inline>, i: nat, j: nat, o: Delim, c: Delim, m: nat, n: nat,
                     before: seq<Inline>, kids: seq<Inline>, behind: seq<Inline>, ys: seq<Inline>)
    requires m > 0 && n > 0 && Uniq(xs) && xs == Around(o, c, m, n, before, kids, behind) && o.ch == c.ch
    requires i < j < |xs| && HasId(xs[i], o.inl) && HasId(xs[j], c.inl) && xs[i].Text? && xs[j].Text? && xs[i].lit != "" && xs[j].lit != ""
    requires Emphasized(xs, i, j, o.ch, ys)
    ensures |xs[i].lit| == m && |xs[j].lit| == n
    ensures var two := m >= 2 && n >= 2; var used := if two then 2 else 1;
            ys == Around(o, c, m - used, n - used, before, [if two then Strong(o.ch, kids) else Emph(o.ch, kids)], behind)
  {
    hide Uniq;
    AroundAt(o, c, m, n, before, kids, behind);
    OneAt(xs, |before|, i, o.inl);
    OneAt(xs, |before| + 1 + |kids|, j, c.inl);
    var used := if m >= 2 && n >= 2 then 2 else 1;
    LessRun(o.inl, o.ch, m, used);
    LessRun(c.inl, c.ch, n, used);
    hide Repeat;
  }

  lemma PairSearch(s: St, bottom: nat, fast: bool)
    requires |s.ds| == 2 && s.k == 1 && Good(s.ds, s.xs) && s.ds[1].canClose && Matches(s.ds[0], s.ds[1]) && IsEmph(s.ds[0].ch)
    requires s.ds[0].position >= bottom && (fast ==> s.ds[0].position >= BoundOf(s.ob, bottom, s.ds[1]))
    ensures IndexOf(s.xs, s.ds[0].inl) < IndexOf(s.xs, s.ds[1].inl) < |s.xs|
    ensures Step(s, bottom, fast) == Fire(s, 0) && s.ds[0].ch == s.ds[1].ch
  {
    hide Fire, Good;
    GoodIndex(s.ds, s.xs, 0, 1);
    assert Opener(s, bottom, fast) == 0;
  }

  /** One turn on a pair. */
  lemma PairStep(s: St, bottom: nat, fast: bool, m: nat, n: nat, before: seq<Inline>, kids: seq<Inline>, behind: seq<Inline>)
    requires Pair(s, bottom, fast, m, n, before, kids, behind)
    ensures var o, c := s.ds[0], s.ds[1]; var two := m >= 2 && n >= 2; var used := if two then 2 else 1;
            var t := Step(s, bottom, fast);
            && t.xs == Around(o, c, m - used, n - used, before, [if two then Strong(o.ch, kids) else Emph(o.ch, kids)], behind)
            && t.ds == (if m > used then [o] else []) + (if n > used then [c] else []) && t.k == (if m > used then 1 else 0) && t.ob == s.ob
  {
    hide Good, Step, Fire, Around, Emphasized;
    PairSearch(s, bottom, fast);
    GoodUniq(s);
    var i, j := MatchMeans(s, 0);
    PairSiblings(s.xs, i, j, s.ds[0], s.ds[1], m, n, before, kids, behind, Fire(s, 0).xs);
  }

  lemma GoodUniq(s: St)
    requires Good(s.ds, s.xs)
    ensures Uniq(s.xs)
  {
  }

  /** A closer alone finds nothing. */
  lemma LoneCloser(s: St, bottom: nat, fast: bool)
    requires |s.ds| == 1 && s.k <= 1 && Good(s.ds, s.xs) && !IsQuote(s.ds[0].ch)
    ensures Run(s, bottom, fast) == s.xs
  {
    if s.k == 0 {
      Turn(s, bottom, fast);
      var t := Step(s, bottom, fast);
      assert Opener(s, bottom, fast) == -1;
      assert t.xs == s.xs && t.k == |t.ds|;
      assert Run(t, bottom, fast) == t.xs;
    }
  }

  /** A pair of runs turns as many characters as both have into STRONG and EMPH; what is left of the longer run
      stays as text. */
  lemma {:induction false} PairMeans(s: St, bottom: nat, fast: bool, m: nat, n: nat, before: seq<Inline>, kids: seq<Inline>, behind: seq<Inline>)
    requires Pair(s, bottom, fast, m, n, before, kids, behind)
    ensures var o, c, p := s.ds[0], s.ds[1], Min(m, n);
            Run(s, bottom, fast) == Around(o, c, m - p, n - p, before, Nest(o.ch, p, kids), behind)
    decreases m
  {
    hide Good, Step, Around;
    PairStep(s, bottom, fast, m, n, before, kids, behind);
    Turn(s, bottom, fast);
    var o, c, t := s.ds[0], s.ds[1], Step(s, bottom, fast);
    var p := Min(m, n);
    if p > 2 {
      StrongsInside(o.ch, (p - 2) / 2, kids);
      PairMeans(t, bottom, fast, m - 2, n - 2, before, [Strong(o.ch, kids)], behind);
    } else {
      assert p == 2 ==> Strongs(o.ch, 1, kids) == [Strong(o.ch, Strongs(o.ch, 0, kids))];
      if |t.ds| == 1 { LoneCloser(t, bottom, fast); }
    }
  }

  /** Standing at the opener, the walk goes on to the closer. */
  lemma OpenerPassed(s: St, bottom: nat, fast: bool)
    requires |s.ds| == 2 && s.k == 0 && Good(s.ds, s.xs) && s.ds[0].canOpen && !IsQuote(s.ds[0].ch) && s.ob == map[] && s.ds[0].position >= bottom
    ensures var t := Step(s, bottom, fast);
            t.xs == s.xs && t.ds == s.ds && t.k == 1 && BoundOf(t.ob, bottom, s.ds[1]) <= s.ds[0].position
  {
    hide Good;
    if s.ds[0].canClose { assert Opener(s, bottom, fast) == -1; }
  }

  /** Runs of equal length always match; the walk begins at the opener, with a fresh table. */
  lemma EqualRuns(o: Delim, c: Delim, n: nat, bottom: nat, fast: bool, before: seq<Inline>, kids: seq<Inline>, behind: seq<Inline>)
    requires IsEmph(o.ch) && o.ch == c.ch && o.canOpen && c.canClose && o.length == c.length == n > 0 && o.position >= bottom
    requires Good([o, c], Around(o, c, n, n, before, kids, behind))
    ensures Run(St([o, c], Around(o, c, n, n, before, kids, behind), 0, map[]), bottom, fast) == before + Nest(o.ch, n, kids) + behind
  {
    hide Good, Around, Step;
    var s := St([o, c], Around(o, c, n, n, before, kids, behind), 0, map[]);
    OpenerPassed(s, bottom, fast);
    Turn(s, bottom, fast);
    PairMeans(Step(s, bottom, fast), bottom, fast, n, n, before, kids, behind);
    NothingLeft(o, c, before, Nest(o.ch, n, kids), behind);
  }

  lemma NothingLeft(o: Delim, c: Delim, before: seq<Inline>, kids: seq<Inline>, behind: seq<Inline>)
    ensures Around(o, c, 0, 0, before, kids, behind) == before + kids + behind
  {
  }
}
