/** `process_emphasis` (section 6.4 of the GitHub Flavored Markdown Spec) as a transition
    system over the delimiters at or above `stack_bottom` and their sibling list. */
module Emphasis {
  import opened InlineTree

  datatype Delim = Delim(ch: char, canOpen: bool, canClose: bool, position: nat, length: nat, inl: nat)

  predicate IsQuote(ch: char) { ch == '\'' || ch == '"' }

  predicate IsEmph(ch: char) { ch == '*' || ch == '_' }

  /** The characters a delimiter can have: the four built in and the strikethrough extension's. */
  predicate IsDelimChar(ch: char) { IsEmph(ch) || IsQuote(ch) || ch == '~' }

  /** Section 6.4, rules 9 and 10: the "multiple of 3" test on the original run lengths. */
  predicate Matches(o: Delim, c: Delim) {
    && o.canOpen && o.ch == c.ch
    && (!(c.canOpen || o.canClose) || c.length % 3 == 0 || (o.length + c.length) % 3 != 0)
  }

  type Bounds = map<(nat, char), nat>

  /** `openers_bottom[length % 3][char]`; entries never set are 0 or `stack_bottom`. */
  function BoundOf(ob: Bounds, bottom: nat, c: Delim): nat {
    var key := (c.length % 3, c.ch);
    if key in ob then ob[key] else if c.ch == '~' then 0 else bottom
  }

  /** The backward walk over `ds[..n]`: first match, or -1 once a position falls under `lo`. */
  function Search(ds: seq<Delim>, n: nat, c: Delim, lo: nat): (o: int)
    requires n <= |ds|
    ensures -1 <= o < n
    ensures o >= 0 ==> Matches(ds[o], c) && ds[o].position >= lo
  {
    if n == 0 || ds[n - 1].position < lo then -1
    else if Matches(ds[n - 1], c) then n - 1
    else Search(ds, n - 1, c, lo)
  }

  datatype St = St(ds: seq<Delim>, xs: seq<Inline>, k: nat, ob: Bounds)

  // ---------------------------------------------------------------- one match

  /** A list without its elements at `a..b`. */
  function Hole<T>(s: seq<T>, a: nat, b: nat): seq<T>
    requires a <= b <= |s|
  {
    s[..a] + s[b..]
  }

  function WithoutAt<T>(s: seq<T>, i: nat): seq<T>
    requires i < |s|
  {
    Hole(s, i, i + 1)
  }

  /** Delimiters after a match of `o` and `c`: everything strictly between is dropped. */
  function Keep<T>(ds: seq<T>, o: nat, c: nat, keepO: bool, keepC: bool): seq<T>
    requires o < c < |ds|
  {
    var h := Hole(ds, o + 1, c);
    var h1 := if keepO then h else WithoutAt(h, o);
    if keepC then h1 else WithoutAt(h1, if keepO then o + 1 else o)
  }

  /** Siblings after a match: `mid` swallows what lay between nodes `i` and `j`. */
  function Wrap(xs: seq<Inline>, i: nat, j: nat, left: seq<Inline>, mid: Inline, right: seq<Inline>): seq<Inline>
    requires i < j < |xs|
  {
    xs[..i] + left + [mid] + right + xs[j + 1..]
  }

  function LitLen(x: Inline): nat { if x.Text? then |x.lit| else 3 }

  function UseDelims(a: nat, b: nat): nat { if b >= 2 && a >= 2 then 2 else 1 }

  /** A text node with its last `u` characters taken away, or nothing if none would be left. */
  function Trim(x: Inline, u: nat): seq<Inline> {
    if x.Text? && u < |x.lit| then [Text(x.id, x.lit[..|x.lit| - u])] else []
  }

  function EmphNode(u: nat, ch: char, kids: seq<Inline>): Inline {
    if u == 1 then Emph(ch, kids) else Strong(ch, kids)
  }

  /** `S_insert_emph`. */
  function InsertEmph(s: St, o: nat): St
    requires o < s.k < |s.ds|
    requires IndexOf(s.xs, s.ds[o].inl) < IndexOf(s.xs, s.ds[s.k].inl) < |s.xs|
  {
    var i, j := IndexOf(s.xs, s.ds[o].inl), IndexOf(s.xs, s.ds[s.k].inl);
    var u := UseDelims(LitLen(s.xs[i]), LitLen(s.xs[j]));
    var left, right := Trim(s.xs[i], u), Trim(s.xs[j], u);
    St(Keep(s.ds, o, s.k, left != [], right != []),
       Wrap(s.xs, i, j, left, EmphNode(u, s.ds[o].ch, s.xs[i + 1..j]), right),
       o + |left|,
       s.ob)
  }

  /** `insert` of the strikethrough extension: both runs must have the same length. */
  function InsertStrike(s: St, o: nat): St
    requires o < s.k < |s.ds|
    requires IndexOf(s.xs, s.ds[o].inl) < IndexOf(s.xs, s.ds[s.k].inl) < |s.xs|
  {
    var i, j := IndexOf(s.xs, s.ds[o].inl), IndexOf(s.xs, s.ds[s.k].inl);
    St(Keep(s.ds, o, s.k, false, false),
       if LitLen(s.xs[i]) == LitLen(s.xs[j])
       then Wrap(s.xs, i, j, [], Strike(Spell(Shown, s.xs[i]), s.xs[i + 1..j]), [])
       else s.xs,
       o,
       s.ob)
  }

  function SetQuote(xs: seq<Inline>, id: nat, left: bool): seq<Inline> {
    var i := IndexOf(xs, id);
    if i < |xs| && xs[i].Quote? then xs[i := xs[i].(left := left)] else xs
  }

  /** A quote pair: both texts are curled, both delimiters go, nothing between them does. */
  function InsertQuotes(s: St, o: nat): St
    requires o < s.k < |s.ds|
  {
    St(WithoutAt(WithoutAt(s.ds, o), s.k - 1),
       SetQuote(SetQuote(s.xs, s.ds[s.k].inl, false), s.ds[o].inl, true),
       s.k - 1,
       s.ob)
  }

  /** A closer without an opener sets the bound, and leaves if it cannot open either. */
  function NoOpener(s: St): St
    requires s.k < |s.ds|
  {
    var c := s.ds[s.k];
    St(if c.canOpen then s.ds else WithoutAt(s.ds, s.k),
       if IsQuote(c.ch) then SetQuote(s.xs, c.inl, false) else s.xs,
       if c.canOpen then s.k + 1 else s.k,
       s.ob[(c.length % 3, c.ch) := c.position])
  }

  // ---------------------------------------------------------------- the invariant

  /** Node `x` is the text node of delimiter `d`, and still spells at least one `d.ch`. */
  ghost predicate Hosts(d: Delim, x: Inline) {
    && HasId(x, d.inl)
    && if IsQuote(d.ch) then x.Quote? && x.ch == d.ch
       else x.Text? && |x.lit| >= 1 && forall i :: 0 <= i < |x.lit| ==> x.lit[i] == d.ch
  }

  ghost predicate Ascending(ix: seq<nat>) {
    forall i, j :: 0 <= i < j < |ix| ==> ix[i] < ix[j]
  }

  /** `ix[i]` is the place of the node of `ds[i]`: same list, same order. */
  ghost predicate Placed(ds: seq<Delim>, xs: seq<Inline>, ix: seq<nat>) {
    && |ix| == |ds|
    && Ascending(ix)
    && forall i :: 0 <= i < |ix| ==> ix[i] < |xs| && Hosts(ds[i], xs[ix[i]])
  }

  ghost predicate Ordered(ds: seq<Delim>) {
    forall i, j :: 0 <= i < j < |ds| ==> ds[i].position < ds[j].position
  }

  ghost predicate Chars(ds: seq<Delim>) {
    forall i :: 0 <= i < |ds| ==> IsDelimChar(ds[i].ch)
  }

  ghost predicate Good(ds: seq<Delim>, xs: seq<Inline>) {
    Ordered(ds) && Chars(ds) && Uniq(xs) && exists ix :: Placed(ds, xs, ix)
  }

  lemma PlacedIndex(ds: seq<Delim>, xs: seq<Inline>, ix: seq<nat>, i: nat)
    requires Placed(ds, xs, ix) && Uniq(xs) && i < |ds|
    ensures IndexOf(xs, ds[i].inl) == ix[i]
  {
    var r := IndexOf(xs, ds[i].inl);
    assert HasId(xs[ix[i]], ds[i].inl);
  }

  /** What the splice loops of the algorithm rely on: the opener's node comes before the closer's. */
  lemma GoodIndex(ds: seq<Delim>, xs: seq<Inline>, o: nat, c: nat)
    requires Good(ds, xs) && o < c < |ds|
    ensures IndexOf(xs, ds[o].inl) < IndexOf(xs, ds[c].inl) < |xs|
    ensures Hosts(ds[o], xs[IndexOf(xs, ds[o].inl)]) && Hosts(ds[c], xs[IndexOf(xs, ds[c].inl)])
  {
    var ix :| Placed(ds, xs, ix);
    PlacedIndex(ds, xs, ix, o);
    PlacedIndex(ds, xs, ix, c);
  }

  // ---------------------------------------------------------------- the whole loop

  function Fire(s: St, o: nat): St
    requires o < s.k < |s.ds|
    requires IndexOf(s.xs, s.ds[o].inl) < IndexOf(s.xs, s.ds[s.k].inl) < |s.xs|
  {
    var ch := s.ds[s.k].ch;
    if ch == '~' then InsertStrike(s, o)
    else if IsEmph(ch) then InsertEmph(s, o)
    else InsertQuotes(s, o)
  }

  /** One turn of the main loop; `fast` says whether `openers_bottom` limits the search. */
  function Step(s: St, bottom: nat, fast: bool): St
    requires s.k < |s.ds| && Good(s.ds, s.xs)
  {
    var c := s.ds[s.k];
    if !c.canClose then s.(k := s.k + 1)
    else
      var o := Opener(s, bottom, fast);
      if o < 0 then NoOpener(s)
      else GoodIndex(s.ds, s.xs, o, s.k); Fire(s, o)
  }

  function Opener(s: St, bottom: nat, fast: bool): (o: int)
    requires s.k < |s.ds|
    ensures -1 <= o < s.k
    ensures o >= 0 ==> Matches(s.ds[o], s.ds[s.k])
  {
    var c := s.ds[s.k];
    var b := BoundOf(s.ob, bottom, c);
    Search(s.ds, s.k, c, if fast && b > bottom then b else bottom)
  }
}
