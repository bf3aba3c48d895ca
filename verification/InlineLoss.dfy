/** What an inline run loses.  When the label behind an attribute bracket is not found, the code has consumed it
    and keeps only the `]`; and a footnote reference keeps of what it encloses as much as its columns say.  The
    rest of the source is shown in the tree. */
module InlineLoss {
  import opened InlineTree
  import opened Emphasis
  import opened EmphasisProof
  import opened EmphasisBounds
  import opened InlineRun

  // ---------------------------------------------------------------- the account, from the tokens alone

  /** An open bracket: its text, where it ends, and where the line began that its columns are counted in. */
  datatype Span = Span(open: string, position: nat, line: nat)

  /** What the tokens tell without a tree: the brackets open, the text read, and where its last line began. */
  datatype Outline = Outline(spans: seq<Span>, text: string, line: nat)

  /** A footnote close without a bracket, or without a caret behind it, stays literal. */
  predicate Refers(o: Outline) {
    o.spans != [] && CaretBehind(o.spans[|o.spans| - 1].open, Inside(o.text, o.spans[|o.spans| - 1].position))
  }

  function OutlineStep(o: Outline, t: Token): Outline
    requires ValidToken(t)
  {
    var spans := match t
      case Open(lit) => o.spans + [Span(lit, |o.text| + |lit|, o.line)]
      case Close(_) => if o.spans == [] then [] else o.spans[..|o.spans| - 1]
      case _ => o.spans;
    Outline(spans, o.text + Source(t), LineAfter(o.text, o.line, t))
  }

  function OutlineOf(ts: seq<Token>): Outline
    requires ValidTokens(ts)
  {
    if ts == [] then Outline([], "", 0) else OutlineStep(OutlineOf(ts[..|ts| - 1]), ts[|ts| - 1])
  }

  /** The reference that a footnote close makes of its bracket. */
  function ReferenceMade(o: Outline, after: string): Inline
    requires o.spans != []
  {
    var s := o.spans[|o.spans| - 1];
    ReferenceTo(s.open, Inside(o.text, s.position), s.line, o.line, after)
  }

  /** How much longer one reading of a node is than what it shows. */
  function Loss(v: Reading, x: Inline): nat {
    if |Spell(Shown, x)| <= |Spell(v, x)| then |Spell(v, x)| - |Spell(Shown, x)| else 0
  }

  /** What was dropped since each open bracket, outermost first: a literal close drops what it consumed
      behind the `]`; a closed bracket leaves its account to the one around it; but a footnote reference drops
      what it does not keep of all that it enclosed, whatever has been dropped there before. */
  function DropStep(v: Reading, st: seq<nat>, o: Outline, t: Token): (r: seq<nat>)
    requires st != [] && ValidToken(t)
    ensures r != []
  {
    match t
    case Open(_) => st + [0]
    case Close(how) =>
      if how.Literal? then Merge(st, |how.rest|)
      else if how.Matched? || |st| == 1 || !Refers(o) then Merge(st, 0)
      else Merge(st[..|st| - 1] + [0], Loss(v, ReferenceMade(o, how.after)))
    case _ => st
  }

  /** The innermost account is closed, with `d` added. */
  function Merge(st: seq<nat>, d: nat): (r: seq<nat>)
    requires st != []
    ensures r != []
  {
    var n := |st| - 1;
    if n == 0 then [st[0] + d] else st[..n - 1] + [st[n - 1] + st[n] + d]
  }

  function Drops(v: Reading, ts: seq<Token>): (st: seq<nat>)
    requires ValidTokens(ts)
    ensures st != []
  {
    if ts == [] then [0] else DropStep(v, Drops(v, ts[..|ts| - 1]), OutlineOf(ts[..|ts| - 1]), ts[|ts| - 1])
  }

  function Sum(st: seq<nat>): nat {
    if st == [] then 0 else Sum(st[..|st| - 1]) + st[|st| - 1]
  }

  /** How much source the literal closes and references that stay in the tree have dropped. */
  function Dropped(ts: seq<Token>): nat
    requires ValidTokens(ts)
  {
    Sum(Drops(Consumed, ts))
  }

  /** The same, with one more for each reference that shows as much as it was made of, but something else. */
  function Spoiled(ts: seq<Token>): nat
    requires ValidTokens(ts)
  {
    Sum(Drops(Checked, ts))
  }

  // ---------------------------------------------------------------- the tree keeps this account

  function PlaceOf(p: Parse, j: nat): nat
    requires j < |p.bs|
  {
    IndexOf(p.xs, p.bs[j].inl)
  }

  /** Up to each open bracket the siblings have dropped what the account says. */
  ghost predicate Marks(v: Reading, p: Parse, st: seq<nat>) {
    && |st| == |p.bs| + 1 && Excess(v, p.xs) == Sum(st)
    && forall j :: 0 <= j < |p.bs| ==> PlaceOf(p, j) < |p.xs| && Excess(v, p.xs[..PlaceOf(p, j)]) == Sum(st[..j + 1])
  }

  /** Open brackets stand on their own text nodes, in order. */
  lemma Places(p: Parse)
    requires Ok(p)
    ensures forall j :: 0 <= j < |p.bs| ==> PlaceOf(p, j) < |p.xs| && p.xs[PlaceOf(p, j)] == Text(p.bs[j].inl, p.bs[j].open)
    ensures forall j, k :: 0 <= j < k < |p.bs| ==> PlaceOf(p, j) < PlaceOf(p, k)
  {
    var ix: seq<nat>, bx: seq<nat> :| DelimsAt(p.ds, p.xs, ix) && BracketsAt(p.bs, p.xs, bx) && Apart(ix, bx);
    forall j | 0 <= j < |p.bs| ensures PlaceOf(p, j) == bx[j] {
      assert HasId(p.xs[bx[j]], p.bs[j].inl);
    }
  }

  lemma {:induction false} IndexInPrefix(xs: seq<Inline>, ys: seq<Inline>, id: nat, n: nat)
    requires n <= |xs| && n <= |ys| && xs[..n] == ys[..n] && IndexOf(xs, id) < n
    ensures IndexOf(ys, id) == IndexOf(xs, id)
  {
    assert xs[0] == xs[..n][0] == ys[..n][0] == ys[0];
    if !HasId(xs[0], id) {
      assert xs[1..][..n - 1] == xs[..n][1..] == ys[..n][1..] == ys[1..][..n - 1];
      IndexInPrefix(xs[1..], ys[1..], id, n - 1);
    }
  }

  lemma SumEnd(st: seq<nat>, d: nat)
    ensures Sum(st + [d]) == Sum(st) + d
  {
    assert (st + [d])[..|st|] == st;
  }

  lemma MergeSums(st: seq<nat>, d: nat)
    requires st != []
    ensures Sum(Merge(st, d)) == Sum(st) + d
    ensures forall n :: 0 <= n < |Merge(st, d)| ==> n < |st| && Merge(st, d)[..n] == st[..n]
  {
    var n := |st| - 1;
    if n == 0 {
      SumEnd([], st[0]);
      SumEnd([], st[0] + d);
      assert st == [] + [st[0]] && Merge(st, d) == [] + [st[0] + d];
    } else {
      SumEnd(st[..n], st[n]);
      SumEnd(st[..n - 1], st[n - 1]);
      SumEnd(st[..n - 1], st[n - 1] + st[n] + d);
      assert st == st[..n] + [st[n]] && st[..n] == st[..n - 1] + [st[n - 1]];
    }
  }

  /** `q` has the siblings of `p` up to place `n`, and its first `m` brackets. */
  lemma PrefixMarks(v: Reading, p: Parse, q: Parse, st: seq<nat>, n: nat, m: nat)
    requires Marks(v, p, st) && m <= |p.bs| && m <= |q.bs| && n <= |p.xs| && n <= |q.xs|
    requires p.bs[..m] == q.bs[..m] && p.xs[..n] == q.xs[..n]
    requires forall j :: 0 <= j < m ==> PlaceOf(p, j) < n
    ensures forall j :: 0 <= j < m ==> PlaceOf(q, j) < |q.xs| && Excess(v, q.xs[..PlaceOf(q, j)]) == Sum(st[..j + 1])
  {
    forall j | 0 <= j < m ensures PlaceOf(q, j) < |q.xs| && Excess(v, q.xs[..PlaceOf(q, j)]) == Sum(st[..j + 1]) {
      assert p.bs[j] == p.bs[..m][j] == q.bs[..m][j] == q.bs[j];
      assert PlaceOf(p, j) < n;
      IndexInPrefix(p.xs, q.xs, p.bs[j].inl, n);
      var i := PlaceOf(p, j);
      assert p.xs[..i] == p.xs[..n][..i] == q.xs[..n][..i] == q.xs[..i];
    }
  }

  lemma OneExcess(v: Reading, node: Inline)
    ensures Excess(v, [node]) == |Spell(v, node)| - |Spell(Shown, node)|
  {
    FlatOne(v, node);
    FlatOne(Shown, node);
  }

  lemma MarksAppend(v: Reading, p: Parse, node: Inline, src: string, st: seq<nat>)
    requires Ok(p) && Marks(v, p, st) && Excess(v, [node]) == 0
    ensures Marks(v, AddText(p, node, src), st)
  {
    hide Ok, Excess, Sum;
    Places(p);
    ExcessConcat(v, p.xs, [node]);
    PrefixMarks(v, p, AddText(p, node, src), st, |p.xs|, |p.bs|);
  }

  lemma MarksDelim(v: Reading, p: Parse, node: Inline, src: string, ch: char, canOpen: bool, canClose: bool, length: nat, st: seq<nat>)
    requires Ok(p) && Marks(v, p, st) && Excess(v, [node]) == 0
    ensures Marks(v, AddDelim(p, node, src, ch, canOpen, canClose, length), st)
  {
    hide Ok, Excess, Sum;
    MarksAppend(v, p, node, src, st);
    PrefixMarks(v, AddText(p, node, src), AddDelim(p, node, src, ch, canOpen, canClose, length), st, |p.xs| + 1, |p.bs|);
  }

  lemma MarksOpen(v: Reading, p: Parse, lit: string, st: seq<nat>)
    requires Ok(p) && Marks(v, p, st) && lit != ""
    ensures Marks(v, AddText(p, Text(p.ids, lit), lit).(bs := p.bs + [Bracket(p.ids, |p.text| + |lit|, lit, p.line)]), st + [0])
  {
    OneExcess(v, Text(p.ids, lit));
    hide Ok, Excess, Sum;
    var q := AddText(p, Text(p.ids, lit), lit).(bs := p.bs + [Bracket(p.ids, |p.text| + |lit|, lit, p.line)]);
    Places(p);
    FreshIndex(p);
    ExcessConcat(v, p.xs, [Text(p.ids, lit)]);
    PrefixMarks(v, p, q, st, |p.xs|, |p.bs|);
    SumEnd(st, 0);
    IndexLast(p.xs, p.ids, lit);
    assert q.xs[..|p.xs|] == p.xs;
    PushMarks(v, q, st);
  }

  lemma PushMarks(v: Reading, q: Parse, st: seq<nat>)
    requires q.bs != [] && |st| == |q.bs| && Excess(v, q.xs) == Sum(st + [0])
    requires forall j :: 0 <= j < |q.bs| - 1 ==> PlaceOf(q, j) < |q.xs| && Excess(v, q.xs[..PlaceOf(q, j)]) == Sum(st[..j + 1])
    requires PlaceOf(q, |q.bs| - 1) < |q.xs| && Excess(v, q.xs[..PlaceOf(q, |q.bs| - 1)]) == Sum(st)
    ensures Marks(v, q, st + [0])
  {
    hide Excess, Sum, PlaceOf;
    forall j | 0 <= j < |q.bs| ensures PlaceOf(q, j) < |q.xs| && Excess(v, q.xs[..PlaceOf(q, j)]) == Sum((st + [0])[..j + 1]) {
      assert (st + [0])[..j + 1] == st[..j + 1];
      if j == |q.bs| - 1 { assert st[..j + 1] == st; }
    }
  }

  lemma FreshIndex(p: Parse)
    requires Ok(p)
    ensures forall i :: 0 <= i < |p.xs| ==> !HasId(p.xs[i], p.ids)
  {
  }

  lemma {:induction false} IndexLast(xs: seq<Inline>, id: nat, lit: string)
    requires forall i :: 0 <= i < |xs| ==> !HasId(xs[i], id)
    ensures IndexOf(xs + [Text(id, lit)], id) == |xs|
  {
    if xs != [] {
      assert (xs + [Text(id, lit)])[1..] == xs[1..] + [Text(id, lit)];
      IndexLast(xs[1..], id, lit);
    }
  }

  /** A close that makes no span: `d` is dropped, and the innermost bracket, if any, is popped. */
  lemma MarksLiteral(v: Reading, p: Parse, node: Inline, src: string, d: nat, st: seq<nat>)
    requires Ok(p) && Marks(v, p, st) && Excess(v, [node]) == d
    ensures Marks(v, PopBracket(AddText(p, node, src)), Merge(st, d))
  {
    hide Ok, Excess, Sum, Merge;
    var q := PopBracket(AddText(p, node, src));
    Places(p);
    ExcessConcat(v, p.xs, [node]);
    PrefixMarks(v, p, q, st, |p.xs|, |q.bs|);
    MergeSums(st, d);
    MergeSize(st, d);
  }

  lemma MergeSize(st: seq<nat>, d: nat)
    requires st != []
    ensures |Merge(st, d)| == if |st| == 1 then 1 else |st| - 1
  {
  }

  /** Everything from the last bracket on gives way to a node. */
  lemma MarksClose(v: Reading, p: Parse, node: Inline, src: string, st: seq<nat>, st': seq<nat>)
    requires Ok(p) && Marks(v, p, st) && p.bs != [] && |st'| == |p.bs|
    requires forall n :: 0 <= n < |p.bs| ==> st'[..n] == st[..n]
    requires Sum(st') == Sum(st[..|p.bs|]) + Excess(v, [node])
    ensures PlaceOf(p, |p.bs| - 1) < |p.xs| && Marks(v, CloseWith(p, PlaceOf(p, |p.bs| - 1), node, src), st')
  {
    hide Ok, Excess, Sum, LowCount;
    var m := |p.bs| - 1;
    Places(p);
    var i := PlaceOf(p, m);
    var q := CloseWith(p, i, node, src);
    ExcessConcat(v, p.xs[..i], [node]);
    PrefixMarks(v, p, q, st, i, m);
  }

  /** A link keeps what it encloses; `process_emphasis` drops nothing. */
  lemma LinkExcess(v: Reading, p: Parse, tail: string)
    requires Ok(p) && p.bs != []
    ensures var b := p.bs[|p.bs| - 1]; var i := PlaceOf(p, |p.bs| - 1); var n := LowCount(p.ds, b.position);
            && i < |p.xs| && Good(p.ds[n..], p.xs[i + 1..])
            && var node := Link(b.open, Run(St(p.ds[n..], p.xs[i + 1..], 0, map[]), b.position, true), tail);
               Excess(v, p.xs[..i]) + Excess(v, [node]) == Excess(v, p.xs)
  {
    LastBracket(p);
    hide Ok, Run, LowCount, Good;
    var b, i, n := p.bs[|p.bs| - 1], PlaceOf(p, |p.bs| - 1), LowCount(p.ds, p.bs[|p.bs| - 1].position);
    var s := St(p.ds[n..], p.xs[i + 1..], 0, map[]);
    var kids := Run(s, b.position, true);
    RunKeepsText(s, b.position, true);
    LinkSpells(v, b.open, kids, tail);
    SplitExcess(v, p.xs, i);
    OneExcess(v, p.xs[i]);
  }

  lemma LinkSpells(v: Reading, open: string, kids: seq<Inline>, tail: string)
    ensures Excess(v, [Link(open, kids, tail)]) == Excess(v, kids)
  {
    OneExcess(v, Link(open, kids, tail));
  }

  lemma SplitExcess(v: Reading, xs: seq<Inline>, i: nat)
    requires i < |xs|
    ensures Excess(v, xs) == Excess(v, xs[..i]) + Excess(v, [xs[i]]) + Excess(v, xs[i + 1..])
  {
    ExcessConcat(v, xs[..i], [xs[i]] + xs[i + 1..]);
    ExcessConcat(v, [xs[i]], xs[i + 1..]);
    assert xs == xs[..i] + ([xs[i]] + xs[i + 1..]);
  }

  lemma MarksNext(v: Reading, p: Parse, t: Token, st: seq<nat>)
    requires Ok(p) && ValidToken(t) && Marks(v, p, st) && !v.Shown?
    ensures Marks(v, Next(p, t), DropStep(v, st, Traced(p), t))
  {
    hide Ok, Run, LowCount, Good, Excess, Marks, Merge, CloseWith, CaretBehind, Loss;
    MarksSize(v, p, st);
    match t
    case Plain(src, _) =>
      OneExcess(v, Leaf(src));
      MarksAppend(v, p, Leaf(src), src, st);
      MarksLine(v, AddText(p, Leaf(src), src), LineAfter(p.text, p.line, t), st);
    case RunOf(ch, n, canOpen, canClose, push) =>
      var node := Text(p.ids, seq(n, _ => ch));
      OneExcess(v, node);
      if push { MarksDelim(v, p, node, Source(t), ch, canOpen, canClose, n, st); } else { MarksAppend(v, p, node, Source(t), st); }
    case SmartQuote(ch, canOpen, canClose) =>
      var node := Quote(p.ids, ch, ch == '"' && !canClose);
      OneExcess(v, node);
      if canOpen || canClose { MarksDelim(v, p, node, [ch], ch, canOpen, canClose, 3, st); } else { MarksAppend(v, p, node, [ch], st); }
    case Open(lit) =>
      MarksOpen(v, p, lit, st);
    case Close(how) =>
      if StaysLiteral(p, how) {
        OneExcess(v, CloseNode(how));
        MarksLiteral(v, p, CloseNode(how), Source(t), if how.Literal? then |how.rest| else 0, st);
      } else if how.Matched? {
        MarksMatched(v, p, how.tail, st);
      } else {
        MarksFootnote(v, p, how.after, st);
      }
  }

  /** The outline of a subject. */
  function Traced(p: Parse): Outline {
    Outline(seq(|p.bs|, j requires 0 <= j < |p.bs| => Span(p.bs[j].open, p.bs[j].position, p.bs[j].line)), p.text, p.line)
  }

  lemma TracedNext(p: Parse, t: Token)
    requires Ok(p) && ValidToken(t)
    ensures Traced(Next(p, t)) == OutlineStep(Traced(p), t)
  {
    hide Ok, Run, LowCount, Good, CaretBehind;
    if t.Close? && !StaysLiteral(p, t.how) {
      if t.how.Matched? { NextMatched(p, t.how.tail); } else { NextFootnote(p, t.how.after); }
    }
  }

  lemma {:induction false} TracedAfter(ts: seq<Token>)
    requires ValidTokens(ts)
    ensures Traced(After(ts)) == OutlineOf(ts)
  {
    hide Ok, Next, OutlineStep;
    if ts != [] {
      TracedAfter(ts[..|ts| - 1]);
      TracedNext(After(ts[..|ts| - 1]), ts[|ts| - 1]);
    }
  }

  lemma MarksLine(v: Reading, p: Parse, line: nat, st: seq<nat>)
    requires Marks(v, p, st)
    ensures Marks(v, p.(line := line), st)
  {
    hide Excess, Sum;
    assert forall j :: 0 <= j < |p.bs| ==> PlaceOf(p.(line := line), j) == PlaceOf(p, j);
  }

  lemma MarksSize(v: Reading, p: Parse, st: seq<nat>)
    requires Marks(v, p, st)
    ensures |st| == |p.bs| + 1
  {
  }

  lemma MarksMatched(v: Reading, p: Parse, tail: string, st: seq<nat>)
    requires Ok(p) && p.bs != [] && tail != "" && tail[0] == ']' && Marks(v, p, st)
    ensures Marks(v, Next(p, Close(Matched(tail))), Merge(st, 0))
  {
    hide Ok, Run, LowCount, Good, Excess, Merge, CloseWith, Sum;
    NextMatched(p, tail);
    LinkExcess(v, p, tail);
    MergeSums(st, 0);
    MergeSize(st, 0);
    var b, i, n := p.bs[|p.bs| - 1], PlaceOf(p, |p.bs| - 1), LowCount(p.ds, p.bs[|p.bs| - 1].position);
    var node := Link(b.open, Run(St(p.ds[n..], p.xs[i + 1..], 0, map[]), b.position, true), tail);
    MarksClose(v, p, node, tail, st, Merge(st, 0));
    CloseWithIs(p, i, node, tail);
  }

  lemma CloseWithIs(p: Parse, i: nat, node: Inline, src: string)
    requires p.bs != [] && i <= |p.xs|
    ensures CloseWith(p, i, node, src)
         == Parse(p.ds[..LowCount(p.ds, p.bs[|p.bs| - 1].position)], p.xs[..i] + [node], p.bs[..|p.bs| - 1], p.text + src, p.ids, p.line)
  {
  }

  lemma MarksFootnote(v: Reading, p: Parse, after: string, st: seq<nat>)
    requires Ok(p) && !StaysLiteral(p, Footnote(after)) && Marks(v, p, st) && !v.Shown?
    ensures Marks(v, Next(p, Close(Footnote(after))), Merge(st[..|st| - 1] + [0], Loss(v, ReferenceMade(Traced(p), after))))
  {
    hide Ok, LowCount, Good, Excess, CloseWith, Sum, Merge, Run;
    NextFootnote(p, after);
    MarksSize(v, p, st);
    var i, b := PlaceOf(p, |p.bs| - 1), p.bs[|p.bs| - 1];
    var node := ReferenceTo(b.open, Inside(p.text, b.position), b.line, p.line, after);
    OneExcess(v, node);
    ShownOrDroppedOne(node);
    var r := st[..|st| - 1] + [0];
    MergeSums(r, Loss(v, node));
    MergeSize(r, Loss(v, node));
    SumEnd(st[..|st| - 1], 0);
    assert st[..|st| - 1] == st[..|p.bs|];
    assert forall n :: 0 <= n < |p.bs| ==> r[..n] == st[..n];
    MarksClose(v, p, node, "]", st, Merge(r, Loss(v, node)));
    CloseWithIs(p, i, node, "]");
  }

  lemma {:induction false} AfterMarks(v: Reading, ts: seq<Token>)
    requires ValidTokens(ts) && !v.Shown?
    ensures Marks(v, After(ts), Drops(v, ts))
  {
    hide Ok, Marks, Next, DropStep, Traced;
    if ts == [] {
      StartMarks(v);
    } else {
      var r := ts[..|ts| - 1];
      AfterMarks(v, r);
      TracedAfter(r);
      MarksNext(v, After(r), ts[|ts| - 1], Drops(v, r));
    }
  }

  lemma StartMarks(v: Reading)
    ensures Marks(v, START, [0])
  {
    SumEnd([], 0);
    assert [] + [0] == [0];
  }

  // ---------------------------------------------------------------- the tree against the source

  /** The tree shows all of the source but what the literal closes and references that stay in it have dropped;
      and it spells the source exactly when they dropped nothing and no reference shows something else. */
  lemma TreeSpellsSource(ts: seq<Token>)
    requires ValidTokens(ts)
    ensures |Sources(ts)| - |Flat(Shown, Tree(ts))| == Dropped(ts)
    ensures Flat(Shown, Tree(ts)) == Sources(ts) <==> Spoiled(ts) == 0
  {
    var p := After(ts);
    OkGood(p);
    TreeAccountsForSource(ts);
    AfterMarks(Consumed, ts);
    AfterMarks(Checked, ts);
    ShownOrDropped(Tree(ts));
    hide Ok, Good, Run, Flat, Drops, After;
    RunKeepsText(St(p.ds, p.xs, 0, map[]), 0, true);
  }

  // ---------------------------------------------------------------- when nothing is lost

  /** A footnote close with a plain caret behind its bracket, and no line begun since. */
  predicate PlainReference(o: Outline) {
    o.spans != [] &&
    var s := o.spans[|o.spans| - 1]; var inside := Inside(o.text, s.position);
    CaretBehind(s.open, inside) && inside[0] == '^' && (o.line <= s.line || |inside| == 1)
  }

  /** Such a reference loses nothing, and no other does not. */
  lemma ReferenceLoses(o: Outline, after: string)
    requires Refers(o)
    ensures Loss(Checked, ReferenceMade(o, after)) == 0 <==> PlainReference(o)
    ensures PlainReference(o) ==> Loss(Consumed, ReferenceMade(o, after)) == 0
  {
    var s := o.spans[|o.spans| - 1];
    ReferenceFaithful(s.open, Inside(o.text, s.position), s.line, o.line, after);
    ShownOrDroppedOne(ReferenceMade(o, after));
  }

  lemma {:induction false} OutlineText(ts: seq<Token>)
    requires ValidTokens(ts)
    ensures OutlineOf(ts).text == Sources(ts) && OutlineOf(ts).line <= |Sources(ts)|
  {
    if ts != [] { OutlineText(ts[..|ts| - 1]); }
  }

  /** Lines begin where plain text says so, and only there. */
  lemma {:induction false} LineBegun(ts: seq<Token>, i: nat)
    requires ValidTokens(ts) && i <= |ts|
    ensures OutlineOf(ts[..i]).line <= OutlineOf(ts).line
    ensures OutlineOf(ts[..i]).line == OutlineOf(ts).line <==> forall k :: i <= k < |ts| && ts[k].Plain? ==> ts[k].newLine == 0
    decreases |ts|
  {
    if i == |ts| {
      assert ts[..i] == ts;
    } else {
      var r, t := ts[..|ts| - 1], ts[|ts| - 1];
      assert r[..i] == ts[..i] && ts == r + [t];
      LineBegun(r, i);
      LineStep(r, t);
      hide OutlineOf;
      assert forall k :: 0 <= k < |r| ==> r[k] == ts[k];
    }
  }

  lemma LineStep(r: seq<Token>, t: Token)
    requires ValidTokens(r) && ValidToken(t)
    ensures OutlineOf(r + [t]).line >= OutlineOf(r).line
    ensures OutlineOf(r + [t]).line == OutlineOf(r).line <==> (t.Plain? ==> t.newLine == 0)
  {
    OutlineText(r);
    assert (r + [t])[..|r|] == r;
  }

  /** In particular when every literal close consumes just its `]` and every reference is a plain one, in the tree
      or not. */
  lemma {:induction false} NothingDropped(ts: seq<Token>)
    requires ValidTokens(ts)
    requires forall i :: 0 <= i < |ts| && ts[i].Close? && ts[i].how.Literal? ==> ts[i].how.rest == ""
    requires forall i :: 0 <= i < |ts| && ts[i].Close? && ts[i].how.Footnote? && Refers(OutlineOf(ts[..i])) ==> PlainReference(OutlineOf(ts[..i]))
    ensures Dropped(ts) == 0 && Spoiled(ts) == 0
  {
    hide OutlineOf, PlainReference, Refers;
    if ts == [] {
      SumEnd([], 0);
      assert [0] == [] + [0];
    } else {
      var r, t := ts[..|ts| - 1], ts[|ts| - 1];
      assert forall i :: 0 <= i < |r| ==> r[i] == ts[i] && r[..i] == ts[..i];
      NothingDropped(r);
      StepDropsNothing(Consumed, Drops(Consumed, r), OutlineOf(r), t);
      StepDropsNothing(Checked, Drops(Checked, r), OutlineOf(r), t);
    }
  }

  lemma StepDropsNothing(v: Reading, st: seq<nat>, o: Outline, t: Token)
    requires st != [] && ValidToken(t) && Sum(st) == 0 && !v.Shown? && (t.Close? && t.how.Literal? ==> t.how.rest == "")
    requires t.Close? && t.how.Footnote? && Refers(o) ==> PlainReference(o)
    ensures Sum(DropStep(v, st, o, t)) == 0
  {
    hide Sum, Merge, PlainReference, Refers;
    SumEnd(st, 0);
    MergeSums(st, 0);
    assert st == st[..|st| - 1] + [st[|st| - 1]];
    SumEnd(st[..|st| - 1], st[|st| - 1]);
    if t.Close? && t.how.Footnote? && Refers(o) {
      ReferenceLoses(o, t.how.after);
      SumEnd(st[..|st| - 1], 0);
      MergeSums(st[..|st| - 1] + [0], 0);
    }
  }

  // ---------------------------------------------------------------- the same, told token by token

  /** How many brackets are open before token `k`. */
  function Depth(ts: seq<Token>, k: nat): nat
    requires ValidTokens(ts) && k <= |ts|
  {
    |OutlineOf(ts[..k]).spans|
  }

  /** Token `j` closes a footnote reference. */
  predicate ClosesReference(ts: seq<Token>, j: nat)
    requires ValidTokens(ts) && j < |ts|
  {
    ts[j].Close? && ts[j].how.Footnote? && Refers(OutlineOf(ts[..j]))
  }

  /** A literal close that consumes more than its `]`, or the close of a reference that is not plain. */
  predicate Loses(ts: seq<Token>, i: nat)
    requires ValidTokens(ts) && i < |ts|
  {
    (ts[i].Close? && ts[i].how.Literal? && ts[i].how.rest != "") || (ClosesReference(ts, i) && !PlainReference(OutlineOf(ts[..i])))
  }

  /** The reference that token `j` closes encloses token `i`: its bracket was open then and ever since. */
  ghost predicate Encloses(ts: seq<Token>, i: nat, j: nat)
    requires ValidTokens(ts)
  {
    i < j < |ts| && ClosesReference(ts, j) && forall k :: i < k <= j ==> Depth(ts, k) >= Depth(ts, j)
  }

  ghost predicate Enclosed(ts: seq<Token>, i: nat)
    requires ValidTokens(ts)
  {
    exists j :: Encloses(ts, i, j)
  }

  /** The least number of brackets open since token `i`. */
  function Level(ts: seq<Token>, i: nat): nat
    requires ValidTokens(ts) && i < |ts|
  {
    var n := |ts| - 1;
    if i == n then Depth(ts, n + 1)
    else
      var m := Level(ts[..n], i);
      if Depth(ts, n + 1) < m then Depth(ts, n + 1) else m
  }

  /** A loss that stays, and has come to the account of the `n`-th bracket. */
  ghost predicate Lost(ts: seq<Token>, n: nat)
    requires ValidTokens(ts)
  {
    exists i :: 0 <= i < |ts| && Loses(ts, i) && !Enclosed(ts, i) && Level(ts, i) == n
  }

  lemma DepthBefore(ts: seq<Token>, k: nat)
    requires ValidTokens(ts) && ts != [] && k < |ts|
    ensures Depth(ts, k) == Depth(ts[..|ts| - 1], k)
    ensures k < |ts| - 1 ==> (ClosesReference(ts, k) <==> ClosesReference(ts[..|ts| - 1], k)) && (Loses(ts, k) <==> Loses(ts[..|ts| - 1], k))
  {
    assert ts[..|ts| - 1][..k] == ts[..k];
  }

  lemma {:induction false} LevelIs(ts: seq<Token>, i: nat)
    requires ValidTokens(ts) && i < |ts|
    ensures forall k :: i < k <= |ts| ==> Level(ts, i) <= Depth(ts, k)
    ensures exists k :: i < k <= |ts| && Depth(ts, k) == Level(ts, i)
    decreases |ts|
  {
    hide OutlineOf, Depth;
    if i < |ts| - 1 {
      var r := ts[..|ts| - 1];
      LevelIs(r, i);
      forall k: nat | i < k < |ts| ensures Depth(ts, k) == Depth(r, k) { DepthBefore(ts, k); }
      var k :| i < k <= |r| && Depth(r, k) == Level(r, i);
      assert Depth(ts, k) == Depth(r, k);
      assert Depth(ts, |ts|) == Depth(ts, |ts|);
    } else {
      assert Depth(ts, |ts|) == Level(ts, i);
    }
  }

  /** What one more token encloses. */
  lemma EnclosedNext(ts: seq<Token>, i: nat)
    requires ValidTokens(ts) && i < |ts| - 1
    ensures var r := ts[..|ts| - 1];
            Enclosed(ts, i) <==> Enclosed(r, i) || (ClosesReference(ts, |r|) && Level(r, i) == Depth(ts, |r|))
  {
    hide OutlineOf, Depth, ClosesReference, Level;
    var r := ts[..|ts| - 1];
    forall k: nat | k <= |r| ensures Depth(ts, k) == Depth(r, k) && (k < |r| ==> (ClosesReference(ts, k) <==> ClosesReference(r, k))) { DepthBefore(ts, k); }
    LevelIs(r, i);
    forall j: nat | j < |r| ensures Encloses(ts, i, j) <==> Encloses(r, i, j) { }
    if Enclosed(ts, i) {
      var j: nat :| Encloses(ts, i, j);
      if j == |r| { assert Level(r, i) >= Depth(ts, |r|); } else { assert Encloses(r, i, j); }
    }
    if Enclosed(r, i) {
      var j: nat :| Encloses(r, i, j);
      assert Encloses(ts, i, j);
    }
    if ClosesReference(ts, |r|) && Level(r, i) == Depth(ts, |r|) { assert Encloses(ts, i, |r|); }
  }

  lemma LastOpen(ts: seq<Token>, j: nat)
    requires ValidTokens(ts) && j + 1 == |ts|
    ensures !Enclosed(ts, j) && Level(ts, j) == Depth(ts, |ts|)
  {
  }

  /** The account of every bracket is empty, unless a loss has come to it that stays. */
  ghost predicate Told(ts: seq<Token>, st: seq<nat>)
    requires ValidTokens(ts)
  {
    |st| == Depth(ts, |ts|) + 1 && forall n :: 0 <= n < |st| ==> (st[n] > 0 <==> Lost(ts, n))
  }

  /** Losses that come to brackets open before and after the token are as they were. */
  lemma LostBelow(ts: seq<Token>, n: nat)
    requires ValidTokens(ts) && ts != [] && n < Depth(ts, |ts|) && n <= Depth(ts, |ts| - 1)
    requires ClosesReference(ts, |ts| - 1) ==> n < Depth(ts, |ts| - 1)
    ensures Lost(ts, n) <==> Lost(ts[..|ts| - 1], n)
  {
    hide OutlineOf, Depth, ClosesReference, Enclosed, Loses;
    var r := ts[..|ts| - 1];
    LastOpen(ts, |r|);
    forall i: nat | i < |r|
      ensures (Loses(ts, i) && !Enclosed(ts, i) && Level(ts, i) == n) <==> (Loses(r, i) && !Enclosed(r, i) && Level(r, i) == n)
    {
      DepthBefore(ts, i);
      EnclosedNext(ts, i);
    }
    if Lost(r, n) {
      var i: nat :| i < |r| && Loses(r, i) && !Enclosed(r, i) && Level(r, i) == n;
      assert Loses(ts, i) && !Enclosed(ts, i) && Level(ts, i) == n;
    }
  }

  /** To the innermost bracket come the losses of those closed by the token, and its own; a reference takes those
      inside it away. */
  lemma LostHere(ts: seq<Token>)
    requires ValidTokens(ts) && ts != []
    ensures var r := ts[..|ts| - 1]; var d, e := Depth(r, |r|), Depth(ts, |ts|);
            e < d ==> d == e + 1 && (Lost(ts, e) <==> Loses(ts, |r|) || Lost(r, e) || (!ClosesReference(ts, |r|) && Lost(r, d)))
  {
    hide OutlineOf, ClosesReference, Enclosed, Loses, Refers;
    var r := ts[..|ts| - 1];
    var d, e := Depth(r, |r|), Depth(ts, |ts|);
    assert r[..|r|] == r && ts[..|ts|] == ts;
    OneFewer(ts);
    if e < d {
      LastOpen(ts, |r|);
      DepthBefore(ts, |r|);
      forall i: nat | i < |r|
        ensures (Loses(ts, i) && !Enclosed(ts, i) && Level(ts, i) == e)
                <==> (Loses(r, i) && !Enclosed(r, i) && (Level(r, i) == e || (Level(r, i) == d && !ClosesReference(ts, |r|))))
      {
        DepthBefore(ts, i);
        EnclosedNext(ts, i);
        LevelIs(r, i);
      }
      if Lost(r, e) {
        var i: nat :| i < |r| && Loses(r, i) && !Enclosed(r, i) && Level(r, i) == e;
        assert Loses(ts, i) && !Enclosed(ts, i) && Level(ts, i) == e;
      }
      if Lost(r, d) && !ClosesReference(ts, |r|) {
        var i: nat :| i < |r| && Loses(r, i) && !Enclosed(r, i) && Level(r, i) == d;
        assert Loses(ts, i) && !Enclosed(ts, i) && Level(ts, i) == e;
      }
    }
  }

  /** A token opens or closes one bracket at most. */
  lemma OneFewer(ts: seq<Token>)
    requires ValidTokens(ts) && ts != []
    ensures var n := |ts| - 1; var d, e := Depth(ts, n), Depth(ts, n + 1);
            e == if ts[n].Open? then d + 1 else if ts[n].Close? && d > 0 then d - 1 else d
    ensures Depth(ts, |ts| - 1) == Depth(ts[..|ts| - 1], |ts| - 1)
  {
    var r := ts[..|ts| - 1];
    assert ts[..|ts|] == ts && r[..|r|] == r;
  }

  lemma LostElse(ts: seq<Token>)
    requires ValidTokens(ts) && ts != []
    ensures var r := ts[..|ts| - 1]; var d, e := Depth(r, |r|), Depth(ts, |ts|);
            && (e == d ==> (Lost(ts, e) <==> Loses(ts, |r|) || Lost(r, e)))
            && (e > d ==> !Lost(ts, e))
  {
    hide OutlineOf, Enclosed, Refers;
    var r := ts[..|ts| - 1];
    var d, e := Depth(r, |r|), Depth(ts, |ts|);
    OneFewer(ts);
    LastOpen(ts, |r|);
    DepthBefore(ts, |r|);
    if e == d { NoReference(ts); }
    forall i: nat | i < |r|
      ensures Level(ts, i) <= d && (e == d ==> Level(ts, i) == Level(r, i) && (Enclosed(ts, i) <==> Enclosed(r, i))) && (Loses(ts, i) <==> Loses(r, i))
    {
      DepthBefore(ts, i);
      EnclosedNext(ts, i);
      LevelIs(r, i);
    }
    hide Loses, Depth, Level;
    if e == d && Lost(r, e) {
      var i: nat :| i < |r| && Loses(r, i) && !Enclosed(r, i) && Level(r, i) == e;
      assert Loses(ts, i) && !Enclosed(ts, i) && Level(ts, i) == e;
    }
  }

  /** A token that leaves no fewer brackets open closes no reference. */
  lemma NoReference(ts: seq<Token>)
    requires ValidTokens(ts) && ts != [] && Depth(ts, |ts|) >= Depth(ts, |ts| - 1)
    ensures !ClosesReference(ts, |ts| - 1)
  {
    OneFewer(ts);
  }

  lemma {:induction false} AllTold(ts: seq<Token>)
    requires ValidTokens(ts)
    ensures Told(ts, Drops(Checked, ts))
  {
    hide OutlineOf, Depth, Loses, Lost, DropStep, Told;
    if ts == [] {
      NothingTold();
    } else {
      var r := ts[..|ts| - 1];
      AllTold(r);
      ToldNext(ts, Drops(Checked, r));
    }
  }

  lemma NothingTold()
    ensures Told([], [0])
  {
  }

  lemma ToldNext(ts: seq<Token>, st: seq<nat>)
    requires ValidTokens(ts) && ts != [] && st != [] && Told(ts[..|ts| - 1], st)
    ensures Told(ts, DropStep(Checked, st, OutlineOf(ts[..|ts| - 1]), ts[|ts| - 1]))
  {
    hide OutlineOf, Depth, Lost, Loses, ClosesReference;
    var r, t := ts[..|ts| - 1], ts[|ts| - 1];
    var d, e := Depth(r, |r|), Depth(ts, |ts|);
    var u := DropStep(Checked, st, OutlineOf(r), t);
    OneFewer(ts);
    StepIs(ts, st);
    if e >= d { NoReference(ts); }
    forall n: nat | n < |u| ensures u[n] > 0 <==> Lost(ts, n) {
      if n < e && !(e < d && n >= d) {
        LostBelow(ts, n);
      } else if e < d {
        LostHere(ts);
      } else {
        LostElse(ts);
      }
    }
  }

  /** The accounts after the token. */
  lemma StepIs(ts: seq<Token>, st: seq<nat>)
    requires ValidTokens(ts) && ts != [] && |st| == Depth(ts, |ts| - 1) + 1
    ensures var r, t := ts[..|ts| - 1], ts[|ts| - 1]; var d, e := Depth(ts, |r|), Depth(ts, |ts|);
            var u := DropStep(Checked, st, OutlineOf(r), t);
            && |u| == e + 1 && (forall n: nat :: n < e && n < d ==> u[n] == st[n])
            && (e > d ==> u[d] == st[d] && u[e] == 0)
            && (e == d ==> (u[e] > 0 <==> Loses(ts, |r|) || st[e] > 0))
            && (e < d ==> (u[e] > 0 <==> Loses(ts, |r|) || st[e] > 0 || (!ClosesReference(ts, |r|) && st[d] > 0)))
  {
    hide OutlineOf, PlainReference, ReferenceMade;
    OneFewer(ts);
    var r, t := ts[..|ts| - 1], ts[|ts| - 1];
    if t.Close? && t.how.Footnote? && Refers(OutlineOf(r)) { ReferenceLoses(OutlineOf(r), t.how.after); }
  }

  lemma {:induction false} SumZero(st: seq<nat>)
    ensures Sum(st) == 0 <==> forall n :: 0 <= n < |st| ==> st[n] == 0
  {
    if st != [] {
      SumZero(st[..|st| - 1]);
      assert forall n :: 0 <= n < |st| - 1 ==> st[..|st| - 1][n] == st[n];
    }
  }

  /** The tree spells the source exactly when every literal close consumes just its `]` and every reference has a
      plain caret and no line begun behind it, but for those that a reference encloses. */
  lemma SpellsExactly(ts: seq<Token>)
    requires ValidTokens(ts)
    ensures Flat(Shown, Tree(ts)) == Sources(ts) <==> forall i :: 0 <= i < |ts| && Loses(ts, i) ==> Enclosed(ts, i)
  {
    hide Drops, Loses, Enclosed, Sum, Flat, Tree, Sources;
    TreeSpellsSource(ts);
    AllTold(ts);
    SumZero(Drops(Checked, ts));
    forall i: nat | i < |ts| && Loses(ts, i) && !Enclosed(ts, i) ensures Lost(ts, Level(ts, i)) && Level(ts, i) <= Depth(ts, |ts|) {
      LevelIs(ts, i);
    }
  }

  // ---------------------------------------------------------------- where something is

  /** An attribute bracket with the text `a`, and `rest` read behind it without a match: it is gone. */
  lemma AttributeDropped(open: string, a: string, rest: string)
    requires open == "^[" && a != ""
    ensures var ts := [Open(open), Plain(a, 0), Close(Literal(rest))];
            ValidTokens(ts) && Sources(ts) == open + a + ("]" + rest) && Dropped(ts) == |rest| && Flat(Shown, Tree(ts)) == open + (a + "]")
  {
    var r, q, ts := [Open(open)], [Open(open), Plain(a, 0)], [Open(open), Plain(a, 0), Close(Literal(rest))];
    assert r == [] + [Open(open)] && q == r + [Plain(a, 0)] && ts == q + [Close(Literal(rest))];
    TokenEnd([], Open(open));
    TokenEnd(r, Plain(a, 0));
    TokenEnd(q, Close(Literal(rest)));
    LabelDrops(|rest|);
    LabelTree(open, a, rest, r, q, ts);
    hide Sources, Drops, Sum, Tree, Flat;
    assert "" + open == open;
  }

  lemma LabelDrops(d: nat)
    ensures Sum(Merge([0] + [0], d)) == d
  {
    SumEnd([0], 0);
    SumEnd([], 0);
    MergeSums([0] + [0], d);
    assert [0] == [] + [0];
  }

  lemma TokenEnd(ts: seq<Token>, t: Token)
    requires ValidTokens(ts) && ValidToken(t)
    ensures ValidTokens(ts + [t]) && Sources(ts + [t]) == Sources(ts) + Source(t) && forall v: Reading :: Drops(v, ts + [t]) == DropStep(v, Drops(v, ts), OutlineOf(ts), t)
    ensures After(ts + [t]) == Next(After(ts), t)
    ensures Sources([]) == "" && (forall v: Reading :: Drops(v, []) == [0]) && After([]) == START
  {
    assert (ts + [t])[..|ts|] == ts;
  }

  lemma LabelTree(open: string, a: string, rest: string, r: seq<Token>, q: seq<Token>, ts: seq<Token>)
    requires open == "^[" && a != "" && r == [] + [Open(open)] && q == r + [Plain(a, 0)] && ts == q + [Close(Literal(rest))]
    ensures ValidTokens(ts) && Flat(Shown, Tree(ts)) == open + (a + "]")
  {
    LabelStates(open, a, rest, r, q, ts);
    hide After, Next, Good, Ok, Flat, Drops, Sources;
    OkGood(After(ts));
    ThreeNodes(Text(0, open), Leaf(a), CloseText(rest));
  }

  lemma ThreeNodes(x: Inline, y: Inline, z: Inline)
    ensures Flat(Shown, [x, y, z]) == Spell(Shown, x) + (Spell(Shown, y) + Spell(Shown, z))
  {
    FlatOne(Shown, x);
    FlatOne(Shown, y);
    FlatOne(Shown, z);
    FlatConcat(Shown, [x], [y, z]);
    FlatConcat(Shown, [y], [z]);
    assert [x, y, z] == [x] + [y, z] && [y, z] == [y] + [z];
  }

  lemma LabelStates(open: string, a: string, rest: string, r: seq<Token>, q: seq<Token>, ts: seq<Token>)
    requires open == "^[" && a != "" && r == [] + [Open(open)] && q == r + [Plain(a, 0)] && ts == q + [Close(Literal(rest))]
    ensures ValidTokens(ts) && After(ts).ds == [] && After(ts).xs == [Text(0, open), Leaf(a), CloseText(rest)]
  {
    hide Ok, After, Drops, Sources, Flat;
    TokenEnd([], Open(open));
    TokenEnd(r, Plain(a, 0));
    TokenEnd(q, Close(Literal(rest)));
  }

  /** The text `^[a][b]` where `b` is no attribute reference: the label is read, and then it is gone. */
  lemma LabelDropped()
    ensures var ts := [Open("^["), Plain("a", 0), Close(Literal("[b]"))];
            ValidTokens(ts) && Sources(ts) == "^[a][b]" && Dropped(ts) == 3 && Flat(Shown, Tree(ts)) == "^[a]"
  {
    hide Sources, Drops, Sum, Tree, Flat, Dropped;
    AttributeDropped("^[", "a", "[b]");
    assert "^[" + "a" + ("]" + "[b]") == "^[a][b]" && "^[" + ("a" + "]") == "^[a]";
  }

  lemma OutlineEnd(ts: seq<Token>, t: Token)
    requires ValidTokens(ts) && ValidToken(t)
    ensures OutlineOf(ts + [t]) == OutlineStep(OutlineOf(ts), t) && OutlineOf([]) == Outline([], "", 0)
  {
    assert (ts + [t])[..|ts|] == ts;
  }

  ghost predicate AllPlain(ts: seq<Token>) {
    forall i :: 0 <= i < |ts| ==> ts[i].Plain?
  }

  /** A bracket and plain text behind it. */
  lemma {:induction false} BracketAndPlain(open: string, mid: seq<Token>)
    requires ValidToken(Open(open)) && ValidTokens(mid) && AllPlain(mid)
    ensures ValidTokens([Open(open)] + mid)
    ensures var p := After([Open(open)] + mid); p.ds == [] && |p.xs| > 0 && p.xs[0] == Text(0, open) && |p.bs| == 1 && p.bs[0].inl == 0
  {
    hide Ok, Run, After, Good;
    var ts := [Open(open)] + mid;
    if mid == [] {
      assert ts == [] + [Open(open)];
      TokenEnd([], Open(open));
    } else {
      var r := mid[..|mid| - 1];
      BracketAndPlain(open, r);
      assert ts == ([Open(open)] + r) + [mid[|mid| - 1]];
      TokenEnd([Open(open)] + r, mid[|mid| - 1]);
    }
  }

  /** Closed as a footnote it becomes one reference. */
  lemma OneReference(open: string, mid: seq<Token>, after: string)
    requires ValidToken(Open(open)) && ValidTokens(mid) && AllPlain(mid) && ValidTokens([Open(open)] + mid) && Refers(OutlineOf([Open(open)] + mid))
    ensures var ts := [Open(open)] + mid;
            ValidTokens(ts + [Close(Footnote(after))]) && Tree(ts + [Close(Footnote(after))]) == [ReferenceMade(OutlineOf(ts), after)]
  {
    hide Ok, After, OutlineOf, CaretBehind, ReferenceTo, Next;
    var ts := [Open(open)] + mid;
    var p := After(ts);
    BracketAndPlain(open, mid);
    TracedAfter(ts);
    TokenEnd(ts, Close(Footnote(after)));
    NextFootnote(p, after);
    OkGood(After(ts + [Close(Footnote(after))]));
    OnlySibling(p);
  }

  lemma OnlySibling(p: Parse)
    requires p.ds == [] && |p.xs| > 0 && p.xs[0].Text? && |p.bs| == 1 && p.bs[0].inl == p.xs[0].id
    ensures IndexOf(p.xs, p.bs[0].inl) == 0 && p.xs[..0] == [] && p.ds[..0] == []
  {
  }

  /** What has been read, behind one bracket, of a text that is plain but for it. */
  ghost predicate ReadBehind(ts: seq<Token>, open: string, inside: string, line: nat) {
    && ValidToken(Open(open)) && ts != [] && ts[0] == Open(open) && ValidTokens(ts) && AllPlain(ts[1..])
    && Sources(ts) == open + inside && OutlineOf(ts) == Outline([Span(open, |open|, 0)], open + inside, line)
  }

  lemma ReadOpen(open: string)
    requires ValidToken(Open(open))
    ensures ReadBehind([Open(open)], open, "", 0)
  {
    hide After;
    TokenEnd([], Open(open));
    OutlineEnd([], Open(open));
    assert [] + [Open(open)] == [Open(open)] && "" + open == open == open + "";
  }

  lemma ReadPlain(ts: seq<Token>, open: string, inside: string, line: nat, src: string, newLine: nat)
    requires ReadBehind(ts, open, inside, line) && ValidToken(Plain(src, newLine))
    ensures ReadBehind(ts + [Plain(src, newLine)], open, inside + src, if newLine > 0 then |open| + |inside| + newLine else line)
  {
    hide After, Drops, OutlineOf, Sources;
    TokenEnd(ts, Plain(src, newLine));
    OutlineEnd(ts, Plain(src, newLine));
    assert (ts + [Plain(src, newLine)])[1..] == ts[1..] + [Plain(src, newLine)];
    assert open + inside + src == open + (inside + src);
  }

  /** Closed as a footnote, the tree shows the reference only. */
  lemma ShowsReference(ts: seq<Token>, open: string, inside: string, line: nat, after: string)
    requires ReadBehind(ts, open, inside, line) && CaretBehind(open, inside)
    ensures var us := ts + [Close(Footnote(after))];
            && ValidTokens(us) && Sources(us) == open + inside + "]"
            && Flat(Shown, Tree(us)) == Spell(Shown, ReferenceTo(open, inside, 0, line, after))
  {
    hide After, Tree, OutlineOf, Sources, Drops, CaretBehind, ReferenceTo, Spell;
    assert ts == [Open(open)] + ts[1..];
    assert Inside(open + inside, |open|) == inside;
    OneReference(open, ts[1..], after);
    TokenEnd(ts, Close(Footnote(after)));
    FlatOne(Shown, ReferenceTo(open, inside, 0, line, after));
  }

  /** A new line inside a reference: of `[^`, `a`, a line ending, `b` and `]` nothing is kept but `[^]`. */
  lemma NewLineDropped()
    ensures var ts := [Open("["), Plain("^a", 0), Plain("\n", 1), Plain("b", 0), Close(Footnote(""))];
            ValidTokens(ts) && Sources(ts) == "[^a\nb]" && Flat(Shown, Tree(ts)) == "[^]" && Dropped(ts) == 3
  {
    hide Tree, Sources, Dropped, CaretBehind, ReferenceTo, ReadBehind, Spoiled;
    var ts := NewLineRead("[", "^a", "\n", "b");
    var inside := "^a" + "\n" + "b";
    NewLineReference(inside);
    ShowsReference(ts, "[", inside, 4, "");
    TreeSpellsSource(ts + [Close(Footnote(""))]);
    assert ts + [Close(Footnote(""))] == [Open("["), Plain("^a", 0), Plain("\n", 1), Plain("b", 0), Close(Footnote(""))];
    assert "[" + inside + "]" == "[^a\nb]";
  }

  lemma NewLineRead(open: string, a: string, nl: string, b: string) returns (ts: seq<Token>)
    requires open == "[" && a != "" && nl == "\n" && b != ""
    ensures ts == [Open(open), Plain(a, 0), Plain(nl, 1), Plain(b, 0)] && ReadBehind(ts, open, a + nl + b, 2 + |a|)
  {
    hide ReadBehind;
    ReadOpen(open);
    ReadPlain([Open(open)], open, "", 0, a, 0);
    assert "" + a == a && [Open(open)] + [Plain(a, 0)] == [Open(open), Plain(a, 0)];
    ReadPlain([Open(open), Plain(a, 0)], open, a, 0, nl, 1);
    ts := [Open(open), Plain(a, 0), Plain(nl, 1)];
    assert [Open(open), Plain(a, 0)] + [Plain(nl, 1)] == ts;
    ReadPlain(ts, open, a + nl, 2 + |a|, b, 0);
    assert ts + [Plain(b, 0)] == [Open(open), Plain(a, 0), Plain(nl, 1), Plain(b, 0)];
    ts := ts + [Plain(b, 0)];
  }

  lemma NewLineReference(inside: string)
    requires inside == "^a" + "\n" + "b"
    ensures CaretBehind("[", inside) && Spell(Shown, ReferenceTo("[", inside, 0, 4, "")) == "[^]"
  {
    var x := ReferenceTo("[", inside, 0, 4, "");
    assert x.body == inside[1..] && |x.body| == 3;
    assert Label(false, false, x.body, "", 4) == "";
  }

  /** An escaped caret: `[\^foo]` is shown as `[^foo]]`. */
  lemma EscapedCaret()
    ensures var ts := [Open("["), Plain("\\^", 0), Plain("foo", 0), Close(Footnote(""))];
            ValidTokens(ts) && Sources(ts) == "[\\^foo]" && Flat(Shown, Tree(ts)) == "[^foo]]" && Dropped(ts) == 0 && Spoiled(ts) > 0
  {
    hide Tree, Sources, Dropped, CaretBehind, ReferenceTo, ReadBehind, Spoiled;
    var ts := TwoRead("[", "\\^", "foo");
    var inside := "\\^" + "foo";
    EscapedReference(inside);
    ShowsReference(ts, "[", inside, 0, "");
    TreeSpellsSource(ts + [Close(Footnote(""))]);
    assert ts + [Close(Footnote(""))] == [Open("["), Plain("\\^", 0), Plain("foo", 0), Close(Footnote(""))];
    assert "[" + inside + "]" == "[\\^foo]";
    assert "[\\^foo]"[1] != "[^foo]]"[1];
  }

  lemma TwoRead(open: string, a: string, b: string) returns (ts: seq<Token>)
    requires open == "[" && a != "" && b != ""
    ensures ts == [Open(open), Plain(a, 0), Plain(b, 0)] && ReadBehind(ts, open, a + b, 0)
  {
    hide ReadBehind;
    ReadOpen(open);
    ReadPlain([Open(open)], open, "", 0, a, 0);
    ts := [Open(open), Plain(a, 0)];
    assert "" + a == a && [Open(open)] + [Plain(a, 0)] == ts;
    ReadPlain(ts, open, a, 0, b, 0);
    assert ts + [Plain(b, 0)] == [Open(open), Plain(a, 0), Plain(b, 0)];
    ts := ts + [Plain(b, 0)];
  }

  lemma EscapedReference(inside: string)
    requires inside == "\\^" + "foo"
    ensures CaretBehind("[", inside) && Spell(Shown, ReferenceTo("[", inside, 0, 0, "")) == "[^foo]]"
  {
    var x := ReferenceTo("[", inside, 0, 0, "");
    assert x.body == inside[2..] == "foo";
    assert Label(false, true, x.body, "", 0) == "foo]";
  }
}
