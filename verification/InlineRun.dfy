/** A whole inline run as a machine over tokens: text, delimiter runs, opening and closing brackets.
    What the scanners decide (flanking, whether a bracket matches) comes with the token. */
module InlineRun {
  import opened InlineTree
  import opened Emphasis
  import opened EmphasisProof
  import opened EmphasisBounds

  /** `line` is where the line began that the columns of the bracket are counted in. */
  datatype Bracket = Bracket(inl: nat, position: nat, open: string, line: nat)

  /** The decision of `handle_close_bracket`; `tail` is what it consumes from the `]` on, and `rest` what it
      consumes behind the `]` although it keeps the `]` only; `after` is what follows the `]` of a footnote. */
  datatype Closing = Matched(tail: string) | Literal(rest: string) | Footnote(after: string)

  /** Of plain text `newLine` bytes go before the last line begun in it, if columns are counted anew there. */
  datatype Token =
    | Plain(src: string, newLine: nat)
    | RunOf(ch: char, n: nat, canOpen: bool, canClose: bool, push: bool)
    | SmartQuote(ch: char, canOpen: bool, canClose: bool)
    | Open(lit: string)
    | Close(how: Closing)

  predicate ValidToken(t: Token) {
    match t
    case Plain(src, newLine) => src != "" && newLine <= |src| && (newLine > 0 ==> src[newLine - 1] == '\n' || src[newLine - 1] == '\r')
    case RunOf(ch, n, canOpen, canClose, push) => n >= 1 && (IsEmph(ch) || ch == '~') && (push ==> canOpen || canClose)
    case SmartQuote(ch, _, _) => IsQuote(ch)
    case Open(lit) => lit == "[" || lit == "![" || lit == "^["
    case Close(Matched(tail)) => tail != "" && tail[0] == ']'
    case Close(_) => true
  }

  /** The source characters a token stands for. */
  function Source(t: Token): string {
    match t
    case Plain(src, _) => src
    case RunOf(ch, n, _, _, _) => seq(n, _ => ch)
    case SmartQuote(ch, _, _) => [ch]
    case Open(lit) => lit
    case Close(Matched(tail)) => tail
    case Close(Literal(rest)) => "]" + rest
    case Close(Footnote(_)) => "]"
  }

  /** The subject: both stacks, the siblings, the text read so far, the next unused address, and where the line
      began that columns are counted in. */
  datatype Parse = Parse(ds: seq<Delim>, xs: seq<Inline>, bs: seq<Bracket>, text: string, ids: nat, line: nat)

  const START := Parse([], [], [], "", 0, 0)

  /** How many leading delimiters lie under `bottom`. */
  function LowCount(ds: seq<Delim>, bottom: nat): (n: nat)
    ensures n <= |ds|
    ensures forall i :: 0 <= i < n ==> ds[i].position < bottom
    ensures n < |ds| ==> ds[n].position >= bottom
  {
    if ds == [] || ds[0].position >= bottom then 0 else 1 + LowCount(ds[1..], bottom)
  }

  function AddText(p: Parse, node: Inline, src: string): Parse {
    p.(xs := p.xs + [node], text := p.text + src, ids := p.ids + 1)
  }

  function AddDelim(p: Parse, node: Inline, src: string, ch: char, canOpen: bool, canClose: bool, length: nat): Parse {
    AddText(p, node, src).(ds := p.ds + [Delim(ch, canOpen, canClose, |p.text| + |src|, length, p.ids)])
  }

  /** Pops the last bracket and puts `node` in place of everything from it on. */
  function CloseWith(p: Parse, i: nat, node: Inline, src: string): Parse
    requires p.bs != [] && i <= |p.xs|
  {
    var b := p.bs[|p.bs| - 1];
    Parse(p.ds[..LowCount(p.ds, b.position)], p.xs[..i] + [node], p.bs[..|p.bs| - 1], p.text + src, p.ids, p.line)
  }

  function PopBracket(p: Parse): Parse {
    if p.bs == [] then p else p.(bs := p.bs[..|p.bs| - 1])
  }

  /** Where columns are counted from behind the token. */
  function LineAfter(text: string, line: nat, t: Token): nat {
    if t.Plain? && t.newLine > 0 then |text| + t.newLine else line
  }

  // ---------------------------------------------------------------- footnote references

  /** What has been read behind a bracket. */
  function Inside(text: string, position: nat): string {
    if position <= |text| then text[position..] else ""
  }

  /** Does a caret of the text stand behind the bracket?  One that opens an attribute does not count, and an image
      bracket does not stand before a caret that is not escaped. */
  predicate CaretBehind(open: string, inside: string) {
    || (open == "[" && inside != "" && inside[0] == '^' && (|inside| == 1 || inside[1] != '['))
    || ((open == "[" || open == "![") && |inside| >= 2 && inside[0] == '\\' && inside[1] == '^')
  }

  /** The reference made of a bracket, what is inside it, and the lines its ends stand on. */
  function ReferenceTo(open: string, inside: string, line: nat, lineNow: nat, after: string): Inline {
    var escaped := inside != "" && inside[0] == '\\';
    Reference(open == "![", escaped, Inside(inside, if escaped then 2 else 1), after, if line <= lineNow then lineNow - line else 0)
  }

  /** It replaces the source it was made of. */
  lemma ReferenceSource(open: string, inside: string, line: nat, lineNow: nat, after: string)
    requires CaretBehind(open, inside)
    ensures Spell(Consumed, ReferenceTo(open, inside, line, lineNow, after)) == open + inside + "]"
  {
    var escaped := inside[0] == '\\';
    var skip := if escaped then 2 else 1;
    assert inside == (if escaped then "\\^" else "^") + inside[skip..];
  }

  /** Its label is as long as the columns of its two ends say, counted as the code counts them. */
  lemma LabelByColumns(open: string, inside: string, start: nat, line: nat, lineNow: nat, after: string)
    requires CaretBehind(open, inside) && line <= start && line <= lineNow <= start + |open| + |inside|
    ensures var first, last := start + 1 - line, start + |open| + |inside| + 1 - lineNow;
            var x := ReferenceTo(open, inside, line, lineNow, after);
            |Label(x.image, x.escaped, x.body, x.after, x.cut)| == if first + 2 <= last then last - first - 2 else 0
  {
  }

  /** It shows that source, exactly for a plain bracket and caret with no line begun behind it. */
  lemma ReferenceFaithful(open: string, inside: string, line: nat, lineNow: nat, after: string)
    requires CaretBehind(open, inside)
    ensures var x := ReferenceTo(open, inside, line, lineNow, after);
            Spell(Shown, x) == Spell(Consumed, x) <==> inside[0] == '^' && (lineNow <= line || |inside| == 1)
  {
    var x := ReferenceTo(open, inside, line, lineNow, after);
    ReferenceShown(x.image, x.escaped, x.body, x.after, x.cut);
  }

  /** A close that makes no span.  (Without an open bracket there is nothing to match.) */
  function CloseNode(how: Closing): Inline {
    if how.Literal? then CloseText(how.rest) else Leaf(Source(Close(how)))
  }

  /** One token. */
  ghost function Next(p: Parse, t: Token): Parse
    requires Ok(p) && ValidToken(t)
  {
    match t
    case Plain(src, _) => AddText(p, Leaf(src), src).(line := LineAfter(p.text, p.line, t))
    case RunOf(ch, n, canOpen, canClose, push) =>
      var node := Text(p.ids, seq(n, _ => ch));
      if push then AddDelim(p, node, Source(t), ch, canOpen, canClose, n) else AddText(p, node, Source(t))
    case SmartQuote(ch, canOpen, canClose) =>
      var node := Quote(p.ids, ch, ch == '"' && !canClose);
      if canOpen || canClose then AddDelim(p, node, [ch], ch, canOpen, canClose, 3) else AddText(p, node, [ch])
    case Open(lit) =>
      AddText(p, Text(p.ids, lit), lit).(bs := p.bs + [Bracket(p.ids, |p.text| + |lit|, lit, p.line)])
    case Close(how) =>
      if StaysLiteral(p, how) then PopBracket(AddText(p, CloseNode(how), Source(t)))
      else
        var b := p.bs[|p.bs| - 1];
        var i := IndexOf(p.xs, b.inl);
        var n := LowCount(p.ds, b.position);
        LastBracket(p);
        match how
        case Matched(tail) =>
          CloseWith(p, i, Link(b.open, Run(St(p.ds[n..], p.xs[i + 1..], 0, map[]), b.position, true), tail), tail)
        case Footnote(after) => CloseWith(p, i, ReferenceTo(b.open, Inside(p.text, b.position), b.line, p.line, after), "]")
  }

  /** A close makes no span without an open bracket, and no reference without a caret. */
  predicate StaysLiteral(p: Parse, how: Closing) {
    || p.bs == [] || how.Literal?
    || (how.Footnote? && !CaretBehind(p.bs[|p.bs| - 1].open, Inside(p.text, p.bs[|p.bs| - 1].position)))
  }

  // ---------------------------------------------------------------- the invariant of a run

  function End(xs: seq<Inline>, i: nat): nat
    requires i < |xs|
  {
    |Flat(Consumed, xs[..i + 1])|
  }

  ghost predicate IdsBelow(xs: seq<Inline>, ids: nat) {
    forall i, id: nat :: 0 <= i < |xs| && HasId(xs[i], id) ==> id < ids
  }

  /** Positions are the text offsets where the nodes of the delimiters end. */
  ghost predicate DelimsAt(ds: seq<Delim>, xs: seq<Inline>, ix: seq<nat>) {
    Placed(ds, xs, ix) && forall k :: 0 <= k < |ix| ==> ds[k].position == End(xs, ix[k])
  }

  ghost predicate BracketsAt(bs: seq<Bracket>, xs: seq<Inline>, bx: seq<nat>) {
    && |bx| == |bs| && Ascending(bx)
    && forall k :: 0 <= k < |bx| ==>
         && bx[k] < |xs| && bs[k].open != "" && xs[bx[k]] == Text(bs[k].inl, bs[k].open)
         && bs[k].position == End(xs, bx[k])
  }

  ghost predicate Apart(ix: seq<nat>, bx: seq<nat>) {
    forall k, m :: 0 <= k < |ix| && 0 <= m < |bx| ==> ix[k] != bx[m]
  }

  /** The siblings spell the text read; both stacks point into them, in order, at the right offsets. */
  ghost predicate Ok(p: Parse) {
    && Flat(Consumed, p.xs) == p.text && Uniq(p.xs) && IdsBelow(p.xs, p.ids) && Chars(p.ds)
    && exists ix, bx :: DelimsAt(p.ds, p.xs, ix) && BracketsAt(p.bs, p.xs, bx) && Apart(ix, bx)
  }

  lemma {:induction false} EndGrows(xs: seq<Inline>, i: nat, j: nat)
    requires i < j < |xs|
    ensures End(xs, j) >= End(xs, i) + |Spell(Consumed, xs[j])|
  {
    FlatSplit(Consumed, xs[..j], i + 1);
    assert xs[..j][..i + 1] == xs[..i + 1];
    assert xs[..j + 1] == xs[..j] + [xs[j]];
    FlatConcat(Consumed, xs[..j], [xs[j]]);
    FlatOne(Consumed, xs[j]);
  }

  lemma DelimsOrdered(ds: seq<Delim>, xs: seq<Inline>, ix: seq<nat>)
    requires DelimsAt(ds, xs, ix)
    ensures Ordered(ds)
  {
    forall i, j | 0 <= i < j < |ds| ensures ds[i].position < ds[j].position {
      EndGrows(xs, ix[i], ix[j]);
      assert |Spell(Consumed, xs[ix[j]])| >= 1;
    }
  }

  /** A delimiter's node stands before a place exactly when its position is under the place's end. */
  lemma Side(ds: seq<Delim>, xs: seq<Inline>, ix: seq<nat>, i: nat, k: nat)
    requires DelimsAt(ds, xs, ix) && i < |xs| && Spell(Consumed, xs[i]) != "" && k < |ix| && ix[k] != i
    ensures ix[k] < i <==> ds[k].position < End(xs, i)
  {
    if ix[k] < i { EndGrows(xs, ix[k], i); } else { EndGrows(xs, i, ix[k]); }
  }

  lemma LowCountSplits(ds: seq<Delim>, bottom: nat)
    requires Ordered(ds)
    ensures forall k :: LowCount(ds, bottom) <= k < |ds| ==> ds[k].position >= bottom
  {
  }

  /** The delimiters after a place are those with positions above it, and they are good for the tail. */
  lemma Cut(ds: seq<Delim>, xs: seq<Inline>, ix: seq<nat>, i: nat)
    requires DelimsAt(ds, xs, ix) && Uniq(xs) && Chars(ds) && i < |xs| && Spell(Consumed, xs[i]) != ""
    requires forall k :: 0 <= k < |ix| ==> ix[k] != i
    ensures var n := LowCount(ds, End(xs, i));
            && (forall k :: 0 <= k < n ==> ix[k] < i) && (forall k :: n <= k < |ds| ==> ix[k] > i)
            && (forall k :: n <= k < |ds| ==> ds[k].position >= End(xs, i))
            && Good(ds[n..], xs[i + 1..])
  {
    hide End, Hosts, LowCount;
    var b := End(xs, i);
    var n := LowCount(ds, b);
    DelimsOrdered(ds, xs, ix);
    LowCountSplits(ds, b);
    forall k | 0 <= k < |ds| ensures ix[k] < i <==> ds[k].position < b {
      Side(ds, xs, ix, i, k);
    }
    CutGood(ds, xs, ix, i, n);
  }

  lemma CutGood(ds: seq<Delim>, xs: seq<Inline>, ix: seq<nat>, i: nat, n: nat)
    requires Placed(ds, xs, ix) && Uniq(xs) && Chars(ds) && Ordered(ds) && i < |xs| && n <= |ds|
    requires forall k :: n <= k < |ds| ==> ix[k] > i
    ensures Good(ds[n..], xs[i + 1..])
  {
    var iy := seq(|ds| - n, k requires 0 <= k < |ds| - n => ix[n + k] - (i + 1));
    assert Placed(ds[n..], xs[i + 1..], iy);
  }

  /** The node of the last bracket, and what a close needs of the siblings after it. */
  lemma LastBracket(p: Parse)
    requires Ok(p) && p.bs != []
    ensures var b := p.bs[|p.bs| - 1]; var i := IndexOf(p.xs, b.inl); var n := LowCount(p.ds, b.position);
            && i < |p.xs| && p.xs[i] == Text(b.inl, b.open) && b.position == End(p.xs, i)
            && Good(p.ds[n..], p.xs[i + 1..])
            && (forall d :: d in p.ds[n..] ==> d.position >= b.position)
            && (forall d :: d in p.ds[..n] ==> d.position < b.position)
  {
    var ix: seq<nat>, bx: seq<nat> :| DelimsAt(p.ds, p.xs, ix) && BracketsAt(p.bs, p.xs, bx) && Apart(ix, bx);
    var m := |p.bs| - 1;
    assert HasId(p.xs[bx[m]], p.bs[m].inl);
    assert IndexOf(p.xs, p.bs[m].inl) == bx[m];
    Cut(p.ds, p.xs, ix, bx[m]);
  }

  // ---------------------------------------------------------------- every token keeps it

  lemma AppendEnds(xs: seq<Inline>, node: Inline, i: nat)
    requires i < |xs|
    ensures End(xs + [node], i) == End(xs, i)
  {
    assert (xs + [node])[..i + 1] == xs[..i + 1];
  }

  lemma AppendKeepsDelims(ds: seq<Delim>, xs: seq<Inline>, ix: seq<nat>, node: Inline)
    requires DelimsAt(ds, xs, ix)
    ensures DelimsAt(ds, xs + [node], ix)
  {
    forall k | 0 <= k < |ix| ensures End(xs + [node], ix[k]) == End(xs, ix[k]) { AppendEnds(xs, node, ix[k]); }
  }

  lemma AppendKeepsBrackets(bs: seq<Bracket>, xs: seq<Inline>, bx: seq<nat>, node: Inline)
    requires BracketsAt(bs, xs, bx)
    ensures BracketsAt(bs, xs + [node], bx)
  {
    forall k | 0 <= k < |bx| ensures End(xs + [node], bx[k]) == End(xs, bx[k]) { AppendEnds(xs, node, bx[k]); }
  }

  lemma LastEnd(xs: seq<Inline>, node: Inline)
    ensures End(xs + [node], |xs|) == |Flat(Consumed, xs)| + |Spell(Consumed, node)|
    ensures Flat(Consumed, xs + [node]) == Flat(Consumed, xs) + Spell(Consumed, node)
  {
    assert (xs + [node])[..|xs| + 1] == xs + [node];
    FlatConcat(Consumed, xs, [node]);
    FlatOne(Consumed, node);
  }

  /** A node with no address, or the fresh one. */
  ghost predicate Fresh(node: Inline, ids: nat) {
    forall id: nat :: HasId(node, id) ==> id == ids
  }

  lemma AddTextOk(p: Parse, node: Inline)
    requires Ok(p) && Fresh(node, p.ids)
    ensures Ok(AddText(p, node, Spell(Consumed, node)))
  {
    hide End, Placed;
    var ix: seq<nat>, bx: seq<nat> :| DelimsAt(p.ds, p.xs, ix) && BracketsAt(p.bs, p.xs, bx) && Apart(ix, bx);
    AppendKeepsDelims(p.ds, p.xs, ix, node);
    AppendKeepsBrackets(p.bs, p.xs, bx, node);
    LastEnd(p.xs, node);
    AppendUniq(p.xs, node, p.ids);
  }

  lemma AppendUniq(xs: seq<Inline>, node: Inline, ids: nat)
    requires Uniq(xs) && IdsBelow(xs, ids) && Fresh(node, ids)
    ensures Uniq(xs + [node]) && IdsBelow(xs + [node], ids + 1)
  {
  }

  lemma PushDelimPlaced(ds: seq<Delim>, xs: seq<Inline>, ix: seq<nat>, node: Inline, d: Delim)
    requires DelimsAt(ds, xs, ix) && Hosts(d, node) && d.position == |Flat(Consumed, xs)| + |Spell(Consumed, node)|
    ensures DelimsAt(ds + [d], xs + [node], ix + [|xs|])
  {
    AppendKeepsDelims(ds, xs, ix, node);
    LastEnd(xs, node);
  }

  lemma AddDelimOk(p: Parse, node: Inline, ch: char, canOpen: bool, canClose: bool, length: nat)
    requires Ok(p) && Fresh(node, p.ids) && IsDelimChar(ch)
    requires Hosts(Delim(ch, canOpen, canClose, |p.text| + |Spell(Consumed, node)|, length, p.ids), node)
    ensures Ok(AddDelim(p, node, Spell(Consumed, node), ch, canOpen, canClose, length))
  {
    hide End, Placed, Hosts;
    var ix: seq<nat>, bx: seq<nat> :| DelimsAt(p.ds, p.xs, ix) && BracketsAt(p.bs, p.xs, bx) && Apart(ix, bx);
    PushDelimPlaced(p.ds, p.xs, ix, node, Delim(ch, canOpen, canClose, |p.text| + |Spell(Consumed, node)|, length, p.ids));
    AppendKeepsBrackets(p.bs, p.xs, bx, node);
    LastEnd(p.xs, node);
    AppendUniq(p.xs, node, p.ids);
    assert Apart(ix + [|p.xs|], bx);
  }

  lemma OpenOk(p: Parse, lit: string)
    requires Ok(p) && lit != ""
    ensures Ok(AddText(p, Text(p.ids, lit), lit).(bs := p.bs + [Bracket(p.ids, |p.text| + |lit|, lit, p.line)]))
  {
    hide End, Placed;
    var node := Text(p.ids, lit);
    var ix: seq<nat>, bx: seq<nat> :| DelimsAt(p.ds, p.xs, ix) && BracketsAt(p.bs, p.xs, bx) && Apart(ix, bx);
    AppendKeepsDelims(p.ds, p.xs, ix, node);
    AppendKeepsBrackets(p.bs, p.xs, bx, node);
    LastEnd(p.xs, node);
    AppendUniq(p.xs, node, p.ids);
    assert BracketsAt(p.bs + [Bracket(p.ids, |p.text| + |lit|, lit, p.line)], p.xs + [node], bx + [|p.xs|]);
    assert Apart(ix, bx + [|p.xs|]) by { assert forall k :: 0 <= k < |ix| ==> ix[k] < |p.xs| by { PlacedBelow(p.ds, p.xs, ix); } }
  }

  lemma PlacedBelow(ds: seq<Delim>, xs: seq<Inline>, ix: seq<nat>)
    requires Placed(ds, xs, ix)
    ensures forall k :: 0 <= k < |ix| ==> ix[k] < |xs|
  {
  }

  lemma PopOk(p: Parse)
    requires Ok(p)
    ensures Ok(PopBracket(p))
  {
    if p.bs != [] {
      var ix: seq<nat>, bx: seq<nat> :| DelimsAt(p.ds, p.xs, ix) && BracketsAt(p.bs, p.xs, bx) && Apart(ix, bx);
      var m := |p.bs| - 1;
      assert BracketsAt(p.bs[..m], p.xs, bx[..m]) && Apart(ix, bx[..m]);
    }
  }

  lemma PrefixEnds(xs: seq<Inline>, i: nat, node: Inline, j: nat)
    requires j < i <= |xs|
    ensures End(xs[..i] + [node], j) == End(xs, j)
  {
    assert (xs[..i] + [node])[..j + 1] == xs[..j + 1];
  }

  lemma CutDelims(ds: seq<Delim>, xs: seq<Inline>, ix: seq<nat>, n: nat, i: nat, node: Inline)
    requires DelimsAt(ds, xs, ix) && n <= |ds| && i <= |xs|
    requires forall k :: 0 <= k < n ==> ix[k] < i
    ensures DelimsAt(ds[..n], xs[..i] + [node], ix[..n])
  {
    forall j | 0 <= j < i ensures End(xs[..i] + [node], j) == End(xs, j) { PrefixEnds(xs, i, node, j); }
  }

  lemma CutBrackets(bs: seq<Bracket>, xs: seq<Inline>, bx: seq<nat>, node: Inline)
    requires BracketsAt(bs, xs, bx) && bs != []
    ensures BracketsAt(bs[..|bs| - 1], xs[..bx[|bs| - 1]] + [node], bx[..|bs| - 1])
  {
    var i := bx[|bs| - 1];
    forall j | 0 <= j < i ensures End(xs[..i] + [node], j) == End(xs, j) { PrefixEnds(xs, i, node, j); }
  }

  lemma PrefixUniq(xs: seq<Inline>, i: nat, node: Inline, ids: nat)
    requires Uniq(xs) && IdsBelow(xs, ids) && i <= |xs| && !node.Text? && !node.Quote?
    ensures Uniq(xs[..i] + [node]) && IdsBelow(xs[..i] + [node], ids)
  {
  }

  lemma PrefixFlat(xs: seq<Inline>, i: nat, node: Inline, src: string)
    requires i <= |xs| && Spell(Consumed, node) == Flat(Consumed, xs[i..]) + src
    ensures Flat(Consumed, xs[..i] + [node]) == Flat(Consumed, xs) + src
  {
    LastEnd(xs[..i], node);
    FlatSplit(Consumed, xs, i);
    Assoc(Flat(Consumed, xs[..i]), Flat(Consumed, xs[i..]), src);
  }

  /** A node may replace the whole tail from the last bracket on, if it spells that tail. */
  lemma CloseOk(p: Parse, i: nat, node: Inline, src: string)
    requires Ok(p) && p.bs != [] && i == IndexOf(p.xs, p.bs[|p.bs| - 1].inl)
    requires i <= |p.xs| && Spell(Consumed, node) == Flat(Consumed, p.xs[i..]) + src && !node.Text? && !node.Quote?
    ensures Ok(CloseWith(p, i, node, src))
  {
    CloseStacks(p, i, node, src);
    hide End, Flat, LowCount, IndexOf, Uniq, IdsBelow, DelimsAt, BracketsAt, Spell;
    PrefixUniq(p.xs, i, node, p.ids);
    PrefixFlat(p.xs, i, node, src);
  }

  /** Both stacks still point into what is left of the siblings. */
  lemma CloseStacks(p: Parse, i: nat, node: Inline, src: string)
    requires Ok(p) && p.bs != [] && i == IndexOf(p.xs, p.bs[|p.bs| - 1].inl) && i <= |p.xs|
    ensures var q := CloseWith(p, i, node, src);
            exists ix: seq<nat>, bx: seq<nat> :: DelimsAt(q.ds, q.xs, ix) && BracketsAt(q.bs, q.xs, bx) && Apart(ix, bx)
  {
    hide Ok, DelimsAt, BracketsAt, Apart, Uniq, LowCount, IndexOf;
    var ix, bx := LastBracketAt(p);
    var m, n := |p.bs| - 1, LowCount(p.ds, p.bs[|p.bs| - 1].position);
    CutStacks(p.ds, p.xs, p.bs, ix, bx, node, i, m, n);
    var q := CloseWith(p, i, node, src);
    assert q.ds == p.ds[..n] && q.bs == p.bs[..m] && q.xs == p.xs[..i] + [node];
  }

  lemma CutStacks(ds: seq<Delim>, xs: seq<Inline>, bs: seq<Bracket>, ix: seq<nat>, bx: seq<nat>, node: Inline, i: nat, m: nat, n: nat)
    requires |ix| == |ds| && |bx| == |bs| == m + 1 && i == bx[m] <= |xs| && n == LowCount(ds, bs[m].position)
    requires DelimsAt(ds, xs, ix) && BracketsAt(bs, xs, bx) && Apart(ix, bx) && Uniq(xs) && Chars(ds)
    ensures DelimsAt(ds[..n], xs[..i] + [node], ix[..n]) && BracketsAt(bs[..m], xs[..i] + [node], bx[..m]) && Apart(ix[..n], bx[..m])
  {
    LastEnds(bs, xs, bx);
    LastApart(ix, bx, m);
    hide Apart, BracketsAt, DelimsAt, Placed, Uniq, Good, Spell, End, LowCount, Chars;
    Cut(ds, xs, ix, i);
    CutDelims(ds, xs, ix, n, i, node);
    CutBrackets(bs, xs, bx, node);
    ApartPrefix(ix, bx, n, m);
  }

  lemma LastApart(ix: seq<nat>, bx: seq<nat>, m: nat)
    requires Apart(ix, bx) && m < |bx|
    ensures forall k :: 0 <= k < |ix| ==> ix[k] != bx[m]
  {
  }

  lemma ApartPrefix(ix: seq<nat>, bx: seq<nat>, n: nat, m: nat)
    requires Apart(ix, bx) && n <= |ix| && m <= |bx|
    ensures Apart(ix[..n], bx[..m])
  {
  }

  lemma LastEnds(bs: seq<Bracket>, xs: seq<Inline>, bx: seq<nat>)
    requires BracketsAt(bs, xs, bx) && bs != []
    ensures var m := |bs| - 1; |bx| == |bs| && bx[m] < |xs| && Spell(Consumed, xs[bx[m]]) != "" && bs[m].position == End(xs, bx[m])
  {
  }

  lemma LastBracketAt(p: Parse) returns (ix: seq<nat>, bx: seq<nat>)
    requires Ok(p) && p.bs != []
    ensures DelimsAt(p.ds, p.xs, ix) && BracketsAt(p.bs, p.xs, bx) && Apart(ix, bx) && Uniq(p.xs) && Chars(p.ds)
    ensures |ix| == |p.ds| && |bx| == |p.bs| && bx[|p.bs| - 1] == IndexOf(p.xs, p.bs[|p.bs| - 1].inl)
  {
    ix, bx :| DelimsAt(p.ds, p.xs, ix) && BracketsAt(p.bs, p.xs, bx) && Apart(ix, bx);
    var m := |p.bs| - 1;
    assert HasId(p.xs[bx[m]], p.bs[m].inl);
    assert IndexOf(p.xs, p.bs[m].inl) == bx[m];
  }

  /** The invariant of an inline run: every token keeps it and reads exactly its own source. */
  lemma NextOk(p: Parse, t: Token)
    requires Ok(p) && ValidToken(t)
    ensures Ok(Next(p, t)) && Next(p, t).text == p.text + Source(t)
  {
    hide Ok, Run, LowCount;
    match t
    case Plain(src, _) =>
      AddTextOk(p, Leaf(src));
      NewLineOk(AddText(p, Leaf(src), src), LineAfter(p.text, p.line, t));
    case RunOf(ch, n, canOpen, canClose, push) =>
      var node := Text(p.ids, seq(n, _ => ch));
      if push { AddDelimOk(p, node, ch, canOpen, canClose, n); } else { AddTextOk(p, node); }
    case SmartQuote(ch, canOpen, canClose) =>
      var node := Quote(p.ids, ch, ch == '"' && !canClose);
      if canOpen || canClose { AddDelimOk(p, node, ch, canOpen, canClose, 3); } else { AddTextOk(p, node); }
    case Open(lit) => OpenOk(p, lit);
    case Close(how) =>
      if StaysLiteral(p, how) {
        var node := CloseNode(how);
        assert Spell(Consumed, node) == Source(t);
        AddTextOk(p, node);
        PopOk(AddText(p, node, Source(t)));
      } else {
        ClosingOk(p, how);
      }
  }

  lemma NewLineOk(p: Parse, line: nat)
    requires Ok(p)
    ensures Ok(p.(line := line))
  {
    var q := p.(line := line);
    var ix: seq<nat>, bx: seq<nat> :| DelimsAt(p.ds, p.xs, ix) && BracketsAt(p.bs, p.xs, bx) && Apart(ix, bx);
    assert DelimsAt(q.ds, q.xs, ix) && BracketsAt(q.bs, q.xs, bx);
  }

  lemma ClosingOk(p: Parse, how: Closing)
    requires Ok(p) && !StaysLiteral(p, how) && ValidToken(Close(how))
    ensures Ok(Next(p, Close(how))) && Next(p, Close(how)).text == p.text + Source(Close(how))
  {
    var b := p.bs[|p.bs| - 1];
    var i := IndexOf(p.xs, b.inl);
    LastBracket(p);
    if how.Matched? {
      LinkOk(p, how.tail);
    } else {
      hide Ok, LowCount, Good, Flat, CaretBehind, Spell;
      InsideSpells(p);
      ReferenceSource(b.open, Inside(p.text, b.position), b.line, p.line, how.after);
      CloseOk(p, i, ReferenceTo(b.open, Inside(p.text, b.position), b.line, p.line, how.after), "]");
    }
  }

  lemma LiteralNext(p: Parse, how: Closing)
    requires Ok(p) && ValidToken(Close(how)) && StaysLiteral(p, how)
    ensures Next(p, Close(how)) == PopBracket(AddText(p, CloseNode(how), Source(Close(how))))
  {
    hide Ok;
  }

  /** The siblings from the last bracket on were made from it and what is inside it. */
  lemma InsideSpells(p: Parse)
    requires Ok(p) && p.bs != []
    ensures var b := p.bs[|p.bs| - 1]; var i := IndexOf(p.xs, b.inl);
            i < |p.xs| && Flat(Consumed, p.xs[i..]) == b.open + Inside(p.text, b.position)
  {
    LastBracket(p);
    var b := p.bs[|p.bs| - 1];
    var i := IndexOf(p.xs, b.inl);
    hide Ok, Good, LowCount, Flat, Spell;
    TextIsFlat(p);
    FlatSplit(Consumed, p.xs, i + 1);
    assert Spell(Consumed, p.xs[i]) == b.open;
    TailSpells(p.xs, i);
  }

  /** And those behind it from what is inside. */
  lemma InsideSiblings(p: Parse)
    requires Ok(p) && p.bs != []
    ensures var b := p.bs[|p.bs| - 1]; var i := IndexOf(p.xs, b.inl);
            i < |p.xs| && Flat(Consumed, p.xs[i + 1..]) == Inside(p.text, b.position)
  {
    InsideSpells(p);
    LastBracket(p);
    var b := p.bs[|p.bs| - 1];
    var i := IndexOf(p.xs, b.inl);
    hide Ok, Good, LowCount, Flat, Spell;
    TailSpells(p.xs, i);
    assert Spell(Consumed, p.xs[i]) == b.open;
    assert (b.open + Flat(Consumed, p.xs[i + 1..]))[|b.open|..] == Flat(Consumed, p.xs[i + 1..]);
    assert (b.open + Inside(p.text, b.position))[|b.open|..] == Inside(p.text, b.position);
  }

  lemma TextIsFlat(p: Parse)
    requires Ok(p)
    ensures Flat(Consumed, p.xs) == p.text
  {
  }

  lemma LinkOk(p: Parse, tail: string)
    requires Ok(p) && p.bs != [] && tail != "" && tail[0] == ']'
    ensures Ok(Next(p, Close(Matched(tail)))) && Next(p, Close(Matched(tail))).text == p.text + tail
  {
    hide Ok, Run, LowCount, Good, CloseWith;
    LastBracket(p);
    var b := p.bs[|p.bs| - 1];
    var i, n := IndexOf(p.xs, b.inl), LowCount(p.ds, b.position);
    var s := St(p.ds[n..], p.xs[i + 1..], 0, map[]);
    var kids := Run(s, b.position, true);
    RunKeepsText(s, b.position, true);
    TailSpells(p.xs, i);
    CloseOk(p, i, Link(b.open, kids, tail), tail);
    assert Next(p, Close(Matched(tail))) == CloseWith(p, i, Link(b.open, kids, tail), tail);
    CloseReads(p, i, Link(b.open, kids, tail), tail);
  }

  lemma CloseReads(p: Parse, i: nat, node: Inline, src: string)
    requires p.bs != [] && i <= |p.xs|
    ensures CloseWith(p, i, node, src).text == p.text + src
  {
  }

  lemma TailSpells(xs: seq<Inline>, i: nat)
    requires i < |xs|
    ensures Flat(Consumed, xs[i..]) == Spell(Consumed, xs[i]) + Flat(Consumed, xs[i + 1..])
  {
    assert xs[i..][1..] == xs[i + 1..];
  }

  lemma NextMatched(p: Parse, tail: string)
    requires Ok(p) && p.bs != [] && tail != "" && tail[0] == ']'
    ensures var b := p.bs[|p.bs| - 1]; var i := IndexOf(p.xs, b.inl); var n := LowCount(p.ds, b.position);
            && i < |p.xs| && Good(p.ds[n..], p.xs[i + 1..])
            && Next(p, Close(Matched(tail)))
               == Parse(p.ds[..n],
                        p.xs[..i] + [Link(b.open, Run(St(p.ds[n..], p.xs[i + 1..], 0, map[]), b.position, true), tail)],
                        p.bs[..|p.bs| - 1], p.text + tail, p.ids, p.line)
  {
    hide Ok, Run, Good, LowCount;
    LastBracket(p);
  }

  lemma NextFootnote(p: Parse, after: string)
    requires Ok(p) && !StaysLiteral(p, Footnote(after))
    ensures var b := p.bs[|p.bs| - 1]; var i := IndexOf(p.xs, b.inl); var n := LowCount(p.ds, b.position);
            && i < |p.xs| && Good(p.ds[n..], p.xs[i + 1..])
            && Next(p, Close(Footnote(after)))
               == Parse(p.ds[..n], p.xs[..i] + [ReferenceTo(b.open, Inside(p.text, b.position), b.line, p.line, after)],
                        p.bs[..|p.bs| - 1], p.text + "]", p.ids, p.line)
  {
    hide Ok, Run, Good, LowCount, Flat;
    LastBracket(p);
  }

  // ---------------------------------------------------------------- the whole run

  /** All the source of a list of tokens. */
  function Sources(ts: seq<Token>): string {
    if ts == [] then "" else Sources(ts[..|ts| - 1]) + Source(ts[|ts| - 1])
  }

  ghost predicate ValidTokens(ts: seq<Token>) {
    forall i :: 0 <= i < |ts| ==> ValidToken(ts[i])
  }

  /** The subject after the tokens, before the last `process_emphasis`. */
  ghost function After(ts: seq<Token>): (p: Parse)
    requires ValidTokens(ts)
    ensures Ok(p) && p.text == Sources(ts)
  {
    if ts == [] then
      StartOk(); START
    else
      var p := After(ts[..|ts| - 1]);
      NextOk(p, ts[|ts| - 1]);
      Next(p, ts[|ts| - 1])
  }

  lemma AfterOne(ts: seq<Token>, i: nat)
    requires ValidTokens(ts) && i < |ts|
    ensures After(ts[..i + 1]) == Next(After(ts[..i]), ts[i])
  {
    assert ts[..i + 1][..i] == ts[..i];
  }

  lemma StartOk()
    ensures Ok(START)
  {
    assert DelimsAt([], [], []) && BracketsAt([], [], []) && Apart([], []);
  }

  /** At the end of a run all delimiters are good for the whole sibling list. */
  lemma OkGood(p: Parse)
    requires Ok(p)
    ensures Good(p.ds, p.xs)
  {
    var ix: seq<nat>, bx: seq<nat> :| DelimsAt(p.ds, p.xs, ix) && BracketsAt(p.bs, p.xs, bx) && Apart(ix, bx);
    DelimsOrdered(p.ds, p.xs, ix);
  }

  /** The tree `cmark_parse_inlines` leaves for a paragraph whose tokens are `ts`. */
  ghost function Tree(ts: seq<Token>): seq<Inline>
    requires ValidTokens(ts)
  {
    var p := After(ts);
    OkGood(p);
    Run(St(p.ds, p.xs, 0, map[]), 0, true)
  }

  /** Every byte of the source is consumed for some node of the tree, in order, nested links and all. */
  lemma TreeAccountsForSource(ts: seq<Token>)
    requires ValidTokens(ts)
    ensures Flat(Consumed, Tree(ts)) == Sources(ts)
  {
    var p := After(ts);
    OkGood(p);
    RunKeepsText(St(p.ds, p.xs, 0, map[]), 0, true);
  }
}
