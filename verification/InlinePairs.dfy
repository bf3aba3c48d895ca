/** What short runs of tokens come to: emphasis in the text and in a link, and a pair of quotes. */
module InlinePairs {
  import opened InlineTree
  import opened Emphasis
  import opened EmphasisProof
  import opened EmphasisBounds
  import opened EmphasisPairs
  import opened InlineRun

  /** A run of `n`, text, and a run of `n`. */
  function Marked(ch: char, n: nat, both: bool, text: string): seq<Token>
    requires n > 0 && IsEmph(ch) && text != ""
  {
    [RunOf(ch, n, true, both, true), Plain(text, 0), RunOf(ch, n, both, true, true)]
  }

  /** Where the three tokens leave any subject. */
  ghost predicate MarkedRead(p: Parse, ch: char, n: nat, both: bool, text: string, q: Parse) {
    && Ok(q) && q.bs == p.bs && q.line == p.line
    && q.ds == p.ds + [Delim(ch, true, both, |p.text| + n, n, p.ids), Delim(ch, both, true, |p.text| + n + |text| + n, n, p.ids + 2)]
    && q.xs == p.xs + [Text(p.ids, Repeat(ch, n)), Leaf(text), Text(p.ids + 2, Repeat(ch, n))]
  }

  lemma ReadMarked(p: Parse, ch: char, n: nat, both: bool, text: string)
    requires Ok(p) && n > 0 && IsEmph(ch) && text != ""
    ensures var ts := Marked(ch, n, both, text);
            && ValidTokens(ts) && Ok(Next(p, ts[0])) && Ok(Next(Next(p, ts[0]), ts[1]))
            && MarkedRead(p, ch, n, both, text, Next(Next(Next(p, ts[0]), ts[1]), ts[2]))
  {
    hide Ok;
    var ts := Marked(ch, n, both, text);
    assert seq(n, _ => ch) == Repeat(ch, n);
    NextOk(p, ts[0]);
    var a := Next(p, ts[0]);
    NextOk(a, ts[1]);
    var b := Next(a, ts[1]);
    NextOk(b, ts[2]);
  }

  /** Over a paragraph: a STRONG for every two characters, and an EMPH around them for an odd one. */
  lemma TreeOfPair(ch: char, n: nat, both: bool, text: string)
    requires n > 0 && IsEmph(ch) && text != ""
    ensures var ts := Marked(ch, n, both, text); ValidTokens(ts) && Tree(ts) == Nest(ch, n, [Leaf(text)])
  {
    hide Ok, Next, Run, MarkedRead;
    var ts := Marked(ch, n, both, text);
    StartOk();
    ReadMarked(START, ch, n, both, text);
    ReadThree(ts);
    var q := After(ts);
    PairRead(START, ch, n, both, text, q);
    OkGood(q);
    assert q.ds == [q.ds[0], q.ds[1]];
    EqualRuns(q.ds[0], q.ds[1], n, 0, true, [], [Leaf(text)], []);
    assert [] + Nest(ch, n, [Leaf(text)]) + [] == Nest(ch, n, [Leaf(text)]);
  }

  lemma ReadThree(ts: seq<Token>)
    requires |ts| == 3 && ValidTokens(ts) && Ok(START) && Ok(Next(START, ts[0])) && Ok(Next(Next(START, ts[0]), ts[1]))
    ensures After(ts) == Next(Next(Next(START, ts[0]), ts[1]), ts[2])
  {
    hide Ok, Next;
    assert ts[..3] == ts && ts[..0] == [];
    AfterOne(ts, 0);
    AfterOne(ts, 1);
    AfterOne(ts, 2);
  }

  /** The two delimiters and the siblings behind `p` are a pair. */
  lemma PairRead(p: Parse, ch: char, n: nat, both: bool, text: string, q: Parse)
    requires MarkedRead(p, ch, n, both, text, q) && n > 0 && IsEmph(ch)
    ensures |q.ds| == |p.ds| + 2 && |q.xs| == |p.xs| + 3 && Ok(q) && q.bs == p.bs && q.xs[..|p.xs|] == p.xs
    ensures var o, c := q.ds[|p.ds|], q.ds[|p.ds| + 1];
            && o.ch == c.ch == ch && o.canOpen && c.canClose && o.length == c.length == n && o.position == |p.text| + n
            && q.ds[|p.ds|..] == [o, c] && q.xs[|p.xs|..] == Around(o, c, n, n, [], [Leaf(text)], [])
  {
    hide Ok;
  }

  /** The same inside a link: its kids are emphasized when it is closed. */
  lemma LinkOfPair(lit: string, tail: string, ch: char, n: nat, both: bool, text: string)
    requires n > 0 && IsEmph(ch) && text != "" && lit in {"[", "![", "^["} && tail != "" && tail[0] == ']'
    ensures var ts := [Open(lit)] + Marked(ch, n, both, text) + [Close(Matched(tail))];
            ValidTokens(ts) && Tree(ts) == [Link(lit, Nest(ch, n, [Leaf(text)]), tail)]
  {
    hide Ok, Next, Run, MarkedRead;
    var ts := [Open(lit)] + Marked(ch, n, both, text) + [Close(Matched(tail))];
    StartOk();
    NextOk(START, Open(lit));
    var p := Next(START, Open(lit));
    OpenRead(lit, p);
    ReadMarked(p, ch, n, both, text);
    ReadFive(ts);
    var q := After(ts[..4]);
    PairRead(p, ch, n, both, text, q);
    LinkClosed(p, q, lit, tail, ch, n, text);
    AfterOne(ts, 4);
    assert ts[..5] == ts;
    LoneNode(After(ts));
  }

  lemma OpenRead(lit: string, p: Parse)
    requires Ok(START) && ValidToken(Open(lit)) && p == Next(START, Open(lit))
    ensures p.ds == [] && p.xs == [Text(0, lit)] && p.bs == [Bracket(0, |lit|, lit, 0)] && p.text == lit && p.ids == 1
  {
    hide Ok;
  }

  lemma ReadFive(ts: seq<Token>)
    requires |ts| == 5 && ValidTokens(ts) && Ok(START) && Ok(Next(START, ts[0])) && Ok(Next(Next(START, ts[0]), ts[1]))
    requires Ok(Next(Next(Next(START, ts[0]), ts[1]), ts[2]))
    ensures After(ts[..4]) == Next(Next(Next(Next(START, ts[0]), ts[1]), ts[2]), ts[3])
  {
    hide Ok, Next;
    assert ts[..0] == [];
    AfterOne(ts, 0);
    AfterOne(ts, 1);
    AfterOne(ts, 2);
    AfterOne(ts, 3);
  }

  lemma LinkClosed(p: Parse, q: Parse, lit: string, tail: string, ch: char, n: nat, text: string)
    requires Ok(q) && q.bs == [Bracket(0, |lit|, lit, 0)] && p.ds == [] && p.xs == [Text(0, lit)] && p.text == lit && lit != ""
    requires |q.ds| == 2 && |q.xs| == 4 && n > 0 && IsEmph(ch) && tail != "" && tail[0] == ']' && q.xs[0] == Text(0, lit)
    requires var o, c := q.ds[0], q.ds[1];
             && o.ch == c.ch == ch && o.canOpen && c.canClose && o.length == c.length == n && o.position == |lit| + n
             && q.xs[1..] == Around(o, c, n, n, [], [Leaf(text)], [])
    ensures var r := Next(q, Close(Matched(tail))); r.ds == [] && r.xs == [Link(lit, Nest(ch, n, [Leaf(text)]), tail)]
  {
    hide Ok, Run, Good, Around;
    LastBracket(q);
    assert LowCount(q.ds, |lit|) == 0;
    assert IndexOf(q.xs, 0) == 0;
    assert q.ds[0..] == [q.ds[0], q.ds[1]];
    EqualRuns(q.ds[0], q.ds[1], n, |lit|, true, [], [Leaf(text)], []);
    assert [] + Nest(ch, n, [Leaf(text)]) + [] == Nest(ch, n, [Leaf(text)]);
  }

  lemma LoneNode(p: Parse)
    requires Ok(p) && p.ds == []
    ensures Good(p.ds, p.xs) && Run(St(p.ds, p.xs, 0, map[]), 0, true) == p.xs
  {
    OkGood(p);
  }

  /** A pair of quotes around text: the first becomes a left one, the second a right one. */
  lemma TreeOfQuotes(ch: char, text: string)
    requires IsQuote(ch) && text != ""
    ensures var ts := [SmartQuote(ch, true, false), Plain(text, 0), SmartQuote(ch, false, true)];
            ValidTokens(ts) && Tree(ts) == [Quote(0, ch, true), Leaf(text), Quote(2, ch, false)]
  {
    hide Ok, Run;
    var ts := [SmartQuote(ch, true, false), Plain(text, 0), SmartQuote(ch, false, true)];
    StartOk();
    NextOk(START, ts[0]);
    NextOk(Next(START, ts[0]), ts[1]);
    ReadThree(ts);
    var q := After(ts);
    OkGood(q);
    QuotesRun(St(q.ds, q.xs, 0, map[]), ch, text);
  }

  lemma QuotesRun(s: St, ch: char, text: string)
    requires IsQuote(ch) && Good(s.ds, s.xs) && s.k == 0 && s.ob == map[] && |s.ds| == 2 && |s.xs| == 3
    requires s.ds[0].ch == s.ds[1].ch == ch && s.ds[0].canOpen && !s.ds[0].canClose && s.ds[1].canClose && !s.ds[1].canOpen
    requires s.ds[0].inl == 0 && s.ds[1].inl == 2 && s.xs[0] == Quote(0, ch, s.xs[0].Quote? && s.xs[0].left) && s.xs[1] == Leaf(text)
    requires s.xs[2] == Quote(2, ch, s.xs[2].Quote? && s.xs[2].left)
    ensures Run(s, 0, true) == [Quote(0, ch, true), Leaf(text), Quote(2, ch, false)]
  {
    hide Good, Fire;
    var t := s.(k := 1);
    Turn(s, 0, true);
    assert Step(s, 0, true) == t;
    assert Opener(t, 0, true) == 0;
    Turn(t, 0, true);
    var i, j := QuotesMean(t, 0);
    var u := Step(t, 0, true);
    assert u == Fire(t, 0);
    assert u.ds == [] && u.k == 0;
    assert Run(u, 0, true) == u.xs;
    assert i == 0 && j == 2;
  }

  /** A quote that stays alone: a single one is a right one, a double one a left one unless it can close. */
  lemma TreeOfQuote(ch: char, canOpen: bool, canClose: bool)
    requires IsQuote(ch)
    ensures var ts := [SmartQuote(ch, canOpen, canClose)]; ValidTokens(ts) && Tree(ts) == [Quote(0, ch, ch == '"' && !canClose)]
  {
    hide Ok, Run;
    var ts := [SmartQuote(ch, canOpen, canClose)];
    StartOk();
    NextOk(START, ts[0]);
    assert ts[..1] == ts && ts[..0] == [];
    AfterOne(ts, 0);
    var q := After(ts);
    OkGood(q);
    QuoteRun(St(q.ds, q.xs, 0, map[]), canClose);
  }

  lemma QuoteRun(s: St, canClose: bool)
    requires Good(s.ds, s.xs) && s.k == 0 && s.ob == map[] && |s.xs| == 1 && s.xs[0].Quote? && (canClose ==> !s.xs[0].left)
    requires s.ds == [] || (|s.ds| == 1 && s.ds[0].canClose == canClose)
    ensures Run(s, 0, true) == s.xs
  {
    hide Good;
    if s.ds != [] {
      Turn(s, 0, true);
      var t := Step(s, 0, true);
      if canClose { assert Opener(s, 0, true) == -1; assert SetQuote(s.xs, s.ds[0].inl, false) == s.xs; }
      assert t.xs == s.xs && t.k == |t.ds|;
      assert Run(t, 0, true) == t.xs;
    }
  }
}
