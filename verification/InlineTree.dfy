/** Inline nodes as the delimiter algorithm sees them, and the text they were made from.

    A node address is modelled by a number (`id`); only text nodes that a delimiter or a
    bracket may point at carry one.  `ch`, `lit`, `open` and `tail` record the markup a
    container replaced, so that every node can be spelled back as source text. */
module InlineTree {

  datatype Inline =
    | Text(id: nat, lit: string)
    | Quote(id: nat, ch: char, left: bool)      // text node holding one of the four curly quotes
    | Emph(ch: char, kids: seq<Inline>)
    | Strong(ch: char, kids: seq<Inline>)
    | Strike(lit: string, kids: seq<Inline>)
    | Link(open: string, kids: seq<Inline>, tail: string)   // link, image or attribute span
    | Leaf(src: string)                         // code, raw HTML, breaks, entities
    | CloseText(rest: string)                   // a literal `]`; `rest` was consumed with it and dropped
    | Reference(image: bool, escaped: bool, body: string, after: string, cut: nat)   // footnote reference

  /** What a reader of the tree sees, and the source that was consumed for it; `Checked` is the latter with a
      mark where as much is shown, but something else. */
  datatype Reading = Shown | Consumed | Checked

  /** The first `n` bytes of a text, and then of what ends it. */
  function Leading(s: string, n: nat): (r: string)
    ensures |r| == n && forall i :: 0 <= i < n ==> r[i] == if i < |s| then s[i] else '\0'
  {
    seq(n, i requires 0 <= i < n => if i < |s| then s[i] else '\0')
  }

  /** The label a reference keeps: what stands behind the caret, as long as the columns of its ends say, less
      the `[^` and the `]`.  An image bracket or a backslash makes it one longer, a new line shorter by `cut`. */
  function Label(image: bool, escaped: bool, body: string, after: string, cut: nat): (s: string) {
    var n := |body| + (if image then 1 else 0) + (if escaped then 1 else 0);
    Leading(body + "]" + after, if cut <= n then n - cut else 0)
  }

  /** The source of a reference. */
  function Bracketed(image: bool, escaped: bool, body: string): string {
    (if image then "![" else "[") + (if escaped then "\\" else "") + "^" + body + "]"
  }

  /** The text a node stands for: EMPH is one delimiter character a side, STRONG two. */
  function Spell(v: Reading, x: Inline): string
    decreases x, 1
  {
    match x
    case Text(_, lit) => lit
    case Quote(_, ch, _) => [ch]
    case Emph(ch, kids) => [ch] + Flat(v, kids) + [ch]
    case Strong(ch, kids) => [ch, ch] + Flat(v, kids) + [ch, ch]
    case Strike(lit, kids) => lit + Flat(v, kids) + lit
    case Link(open, kids, tail) => open + Flat(v, kids) + tail
    case Leaf(src) => src
    case CloseText(rest) => if v.Shown? then "]" else "]" + rest
    case Reference(image, escaped, body, after, cut) =>
      var src, shown := Bracketed(image, escaped, body), "[^" + Label(image, escaped, body, after, cut) + "]";
      if v.Shown? then shown else if v.Checked? && |shown| == |src| && shown != src then src + "!" else src
  }

  /** The text of a list of siblings. */
  function Flat(v: Reading, xs: seq<Inline>): string
    decreases xs, 0
  {
    if xs == [] then "" else Spell(v, xs[0]) + Flat(v, xs[1..])
  }

  lemma {:induction false} FlatConcat(v: Reading, a: seq<Inline>, b: seq<Inline>)
    ensures Flat(v, a + b) == Flat(v, a) + Flat(v, b)
  {
    if a == [] {
      assert a + b == b;
    } else {
      assert (a + b)[1..] == a[1..] + b;
      FlatConcat(v, a[1..], b);
    }
  }

  lemma FlatOne(v: Reading, x: Inline)
    ensures Flat(v, [x]) == Spell(v, x)
  {
    assert [x][1..] == [];
    assert Flat(v, [x]) == Spell(v, x) + Flat(v, []);
  }

  lemma FlatSplit(v: Reading, xs: seq<Inline>, i: nat)
    requires i <= |xs|
    ensures Flat(v, xs) == Flat(v, xs[..i]) + Flat(v, xs[i..])
  {
    assert xs == xs[..i] + xs[i..];
    FlatConcat(v, xs[..i], xs[i..]);
  }

  /** A list cut around two of its elements. */
  lemma FlatAround(v: Reading, xs: seq<Inline>, i: nat, j: nat)
    requires i < j < |xs|
    ensures Flat(v, xs) == Flat(v, xs[..i]) + Spell(v, xs[i]) + Flat(v, xs[i + 1..j]) + Spell(v, xs[j]) + Flat(v, xs[j + 1..])
  {
    FlatAt(v, xs, j);
    FlatAt(v, xs[..j], i);
    assert xs[..j][..i] == xs[..i];
    assert xs[..j][i + 1..] == xs[i + 1..j];
  }

  lemma FlatAt(v: Reading, xs: seq<Inline>, i: nat)
    requires i < |xs|
    ensures Flat(v, xs) == Flat(v, xs[..i]) + Spell(v, xs[i]) + Flat(v, xs[i + 1..])
  {
    FlatSplit(v, xs, i);
    var ys := xs[i..];
    assert ys[0] == xs[i] && ys[1..] == xs[i + 1..];
    Assoc(Flat(v, xs[..i]), Spell(v, xs[i]), Flat(v, xs[i + 1..]));
  }

  lemma Assoc(a: string, b: string, c: string)
    ensures a + (b + c) == a + b + c
  {
  }

  /** The characters still held by text nodes of this sibling list, children not counted. */
  function TopChars(xs: seq<Inline>): nat
  {
    if xs == [] then 0 else (if xs[0].Text? then |xs[0].lit| else 0) + TopChars(xs[1..])
  }

  lemma {:induction false} TopCharsConcat(a: seq<Inline>, b: seq<Inline>)
    ensures TopChars(a + b) == TopChars(a) + TopChars(b)
  {
    if a == [] {
      assert a + b == b;
    } else {
      assert (a + b)[1..] == a[1..] + b;
      TopCharsConcat(a[1..], b);
    }
  }

  lemma TopCharsAt(xs: seq<Inline>, i: nat)
    requires i < |xs|
    ensures TopChars(xs) == TopChars(xs[..i]) + TopChars([xs[i]]) + TopChars(xs[i + 1..])
  {
    assert xs == xs[..i] + ([xs[i]] + xs[i + 1..]);
    TopCharsConcat(xs[..i], [xs[i]] + xs[i + 1..]);
    TopCharsConcat([xs[i]], xs[i + 1..]);
  }

  predicate HasId(x: Inline, id: nat) {
    (x.Text? || x.Quote?) && x.id == id
  }

  /** No two siblings are the same node. */
  ghost predicate Uniq(xs: seq<Inline>) {
    forall i, j, id: nat :: 0 <= i < j < |xs| && HasId(xs[i], id) ==> !HasId(xs[j], id)
  }

  /** Follows a pointer: the place of node `id` among the siblings, `|xs|` when it is not there. */
  function IndexOf(xs: seq<Inline>, id: nat): (r: nat)
    ensures r <= |xs|
    ensures r < |xs| ==> HasId(xs[r], id)
    ensures forall j :: 0 <= j < r ==> !HasId(xs[j], id)
  {
    if xs == [] then 0 else if HasId(xs[0], id) then 0 else 1 + IndexOf(xs[1..], id)
  }

  /** What was consumed and is not shown; in the checked reading also what is shown wrongly. */
  function Excess(v: Reading, xs: seq<Inline>): int {
    |Flat(v, xs)| - |Flat(Shown, xs)|
  }

  /** What one reading says of a text against the others, and of its parts. */
  ghost predicate Measured(shown: string, consumed: string, checked: string) {
    |shown| <= |consumed| <= |checked| && (shown == consumed <==> |checked| == |shown|)
  }

  lemma MeasuredConcat(a: string, b: string, c: string, x: string, y: string, z: string)
    requires Measured(a, b, c) && Measured(x, y, z)
    ensures Measured(a + x, b + y, c + z)
  {
    if a + x == b + y {
      assert (a + x)[..|a|] == a && |a + x| == |a| + |x| && |b + y| == |b| + |y|;
      assert |a| == |b| && (b + y)[..|b|] == b;
      assert (a + x)[|a|..] == x && (b + y)[|b|..] == y;
    }
  }

  lemma MeasuredSame(a: string)
    ensures Measured(a, a, a)
  {
  }

  /** No more is shown than was read; and what was read is shown unless something was dropped, or shown wrongly. */
  lemma {:induction false} ShownOrDropped(xs: seq<Inline>)
    ensures Measured(Flat(Shown, xs), Flat(Consumed, xs), Flat(Checked, xs))
    decreases xs, 0
  {
    hide Measured, Spell;
    if xs == [] {
      MeasuredSame("");
    } else {
      ShownOrDroppedOne(xs[0]);
      ShownOrDropped(xs[1..]);
      MeasuredConcat(Spell(Shown, xs[0]), Spell(Consumed, xs[0]), Spell(Checked, xs[0]),
        Flat(Shown, xs[1..]), Flat(Consumed, xs[1..]), Flat(Checked, xs[1..]));
    }
  }

  lemma {:induction false} ShownOrDroppedOne(x: Inline)
    ensures Measured(Spell(Shown, x), Spell(Consumed, x), Spell(Checked, x))
    decreases x, 1
  {
    hide Measured, Flat, Label;
    match x
    case Emph(ch, kids) => MeasuredAround([ch], kids, [ch]);
    case Strong(ch, kids) => MeasuredAround([ch, ch], kids, [ch, ch]);
    case Strike(lit, kids) => MeasuredAround(lit, kids, lit);
    case Link(open, kids, tail) => MeasuredAround(open, kids, tail);
    case Reference(image, escaped, body, after, cut) => ReferenceMeasured(image, escaped, body, after, cut);
    case CloseText(rest) => CloseMeasured(rest);
    case _ => MeasuredSame(Spell(Shown, x));
  }

  lemma MeasuredAround(a: string, kids: seq<Inline>, b: string)
    ensures Measured(a + Flat(Shown, kids) + b, a + Flat(Consumed, kids) + b, a + Flat(Checked, kids) + b)
    decreases kids, 1
  {
    hide Measured;
    ShownOrDropped(kids);
    MeasuredSame(a);
    MeasuredSame(b);
    var s, c, k := Flat(Shown, kids), Flat(Consumed, kids), Flat(Checked, kids);
    MeasuredConcat(a, a, a, s, c, k);
    MeasuredConcat(a + s, a + c, a + k, b, b, b);
  }

  lemma CloseMeasured(rest: string)
    ensures Measured("]", "]" + rest, "]" + rest)
  {
  }

  lemma ReferenceMeasured(image: bool, escaped: bool, body: string, after: string, cut: nat)
    ensures var x := Reference(image, escaped, body, after, cut); Measured(Spell(Shown, x), Spell(Consumed, x), Spell(Checked, x))
  {
  }

  lemma ExcessConcat(v: Reading, a: seq<Inline>, b: seq<Inline>)
    ensures Excess(v, a + b) == Excess(v, a) + Excess(v, b)
  {
    FlatConcat(v, a, b);
    FlatConcat(Shown, a, b);
  }

  /** When a reference shows its source: no image bracket, no backslash, and no line begun inside it. */
  lemma ReferenceShown(image: bool, escaped: bool, body: string, after: string, cut: nat)
    ensures var x := Reference(image, escaped, body, after, cut);
            Spell(Shown, x) == Spell(Consumed, x) <==> !image && !escaped && (cut == 0 || body == "")
  {
    var shown, src := "[^" + Label(image, escaped, body, after, cut) + "]", Bracketed(image, escaped, body);
    if image || escaped {
      assert shown[0] == '[' && shown[1] == '^';
      assert src[0] == (if image then '!' else '[') && (!image ==> src[1] == '\\');
    } else if cut == 0 {
      assert Label(image, escaped, body, after, cut) == body;
    }
  }
}
