/** What every turn of `process_emphasis` keeps, and what the whole loop delivers. */
module EmphasisProof {
  import opened InlineTree
  import opened Emphasis

  // ---------------------------------------------------------------- splicing the siblings

  lemma Regroup(a: string, b: string, c: string, d: string, e: string, l: string, m: string, r: string)
    requires l + m + r == b + c + d
    ensures a + l + m + r + e == a + b + c + d + e
  {
    assert a + l + m + r + e == a + (l + m + r) + e;
    assert a + b + c + d + e == a + (b + c + d) + e;
  }

  lemma WrapFlat(v: Reading, xs: seq<Inline>, i: nat, j: nat, left: seq<Inline>, mid: Inline, right: seq<Inline>)
    requires i < j < |xs|
    requires Flat(v, left) + Spell(v, mid) + Flat(v, right) == Spell(v, xs[i]) + Flat(v, xs[i + 1..j]) + Spell(v, xs[j])
    ensures Flat(v, Wrap(xs, i, j, left, mid, right)) == Flat(v, xs)
  {
    FlatAround(v, xs, i, j);
    FlatConcat(v, xs[..i] + left + [mid] + right, xs[j + 1..]);
    FlatConcat(v, xs[..i] + left + [mid], right);
    FlatConcat(v, xs[..i] + left, [mid]);
    FlatConcat(v, xs[..i], left);
    FlatOne(v, mid);
    Regroup(Flat(v, xs[..i]), Spell(v, xs[i]), Flat(v, xs[i + 1..j]), Spell(v, xs[j]), Flat(v, xs[j + 1..]),
            Flat(v, left), Spell(v, mid), Flat(v, right));
  }

  lemma WrapTop(xs: seq<Inline>, i: nat, j: nat, left: seq<Inline>, mid: Inline, right: seq<Inline>)
    requires i < j < |xs| && !mid.Text?
    requires TopChars(left) + TopChars(right) < TopChars([xs[i]]) + TopChars([xs[j]])
    ensures TopChars(Wrap(xs, i, j, left, mid, right)) < TopChars(xs)
  {
    TopCharsAt(xs, j);
    TopCharsAt(xs[..j], i);
    assert xs[..j][..i] == xs[..i];
    var tail := xs[j + 1..];
    TopCharsConcat(xs[..i] + left + [mid] + right, tail);
    TopCharsConcat(xs[..i] + left + [mid], right);
    TopCharsConcat(xs[..i] + left, [mid]);
    TopCharsConcat(xs[..i], left);
    assert TopChars([mid]) == 0;
  }

  /** `l` is what is left of node `x`: nothing, or a node with the same address. */
  ghost predicate Residue(l: seq<Inline>, x: Inline) {
    |l| <= 1 && (l != [] ==> forall id: nat :: HasId(l[0], id) ==> HasId(x, id))
  }

  lemma WrapUniq(xs: seq<Inline>, i: nat, j: nat, left: seq<Inline>, mid: Inline, right: seq<Inline>)
    requires i < j < |xs| && Uniq(xs) && !mid.Text? && !mid.Quote?
    requires Residue(left, xs[i]) && Residue(right, xs[j])
    ensures Uniq(Wrap(xs, i, j, left, mid, right))
  {
    var ys := Wrap(xs, i, j, left, mid, right);
    var m := i + |left|;
    var t := m + 1 + |right|;
    forall p, q, id: nat | 0 <= p < q < |ys| && HasId(ys[p], id)
      ensures !HasId(ys[q], id)
    {
      if HasId(ys[q], id) {
        var p' := Back(xs, i, j, left, mid, right, p, id);
        var q' := Back(xs, i, j, left, mid, right, q, id);
      }
    }
  }

  /** Every addressed node of the new list sits at a place of the old one, in the same order. */
  lemma Back(xs: seq<Inline>, i: nat, j: nat, left: seq<Inline>, mid: Inline, right: seq<Inline>, p: nat, id: nat)
    returns (p': nat)
    requires i < j < |xs| && !mid.Text? && !mid.Quote?
    requires Residue(left, xs[i]) && Residue(right, xs[j])
    requires p < |Wrap(xs, i, j, left, mid, right)|
    requires HasId(Wrap(xs, i, j, left, mid, right)[p], id)
    ensures p' < |xs| && HasId(xs[p'], id)
    ensures p' == if p < i + |left| then p
                  else if p < i + |left| + 1 + |right| then j
                  else p - (i + |left| + 1 + |right|) + (j + 1)
  {
    p' := if p < i + |left| then p
          else if p < i + |left| + 1 + |right| then j
          else p - (i + |left| + 1 + |right|) + (j + 1);
  }

  // ---------------------------------------------------------------- dropping delimiters

  lemma HolePlaced(ds: seq<Delim>, xs: seq<Inline>, ix: seq<nat>, a: nat, b: nat)
    requires Placed(ds, xs, ix) && a <= b <= |ds|
    ensures Placed(Hole(ds, a, b), xs, Hole(ix, a, b))
  {
  }

  lemma HoleGood(ds: seq<Delim>, xs: seq<Inline>, a: nat, b: nat)
    requires Good(ds, xs) && a <= b <= |ds|
    ensures Good(Hole(ds, a, b), xs)
  {
    var ix :| Placed(ds, xs, ix);
    HolePlaced(ds, xs, ix, a, b);
  }

  lemma HoleOrdered(ds: seq<Delim>, a: nat, b: nat)
    requires Ordered(ds) && Chars(ds) && a <= b <= |ds|
    ensures Ordered(Hole(ds, a, b)) && Chars(Hole(ds, a, b))
  {
  }

  lemma KeepOrdered(ds: seq<Delim>, o: nat, c: nat, keepO: bool, keepC: bool)
    requires Ordered(ds) && Chars(ds) && o < c < |ds|
    ensures Ordered(Keep(ds, o, c, keepO, keepC)) && Chars(Keep(ds, o, c, keepO, keepC))
  {
    HoleOrdered(ds, o + 1, c);
    var h := Hole(ds, o + 1, c);
    HoleOrdered(h, o, o + 1);
    var h1 := if keepO then h else WithoutAt(h, o);
    var n := if keepO then o + 1 else o;
    HoleOrdered(h1, n, n + 1);
  }

  // ---------------------------------------------------------------- places after a wrap

  /** Where a wrap of `i..j` moves place `p`, which it does not swallow. */
  function NewPlace(i: nat, j: nat, left: nat, right: nat, p: nat): nat
    requires i < j && (p <= i || p >= j)
  {
    if p <= i then p else if p == j then i + left + 1 else p - (j + 1) + i + left + 1 + right
  }

  /** The places in `ix` survive the wrap, and those of the two end nodes still host their delimiters. */
  ghost predicate Spared(ds: seq<Delim>, ix: seq<nat>, i: nat, j: nat, left: seq<Inline>, right: seq<Inline>) {
    && i < j && |ix| == |ds| && |left| <= 1 && |right| <= 1
    && forall k :: 0 <= k < |ix| ==>
         && (ix[k] <= i || ix[k] >= j)
         && (ix[k] == i ==> left != [] && Hosts(ds[k], left[0]))
         && (ix[k] == j ==> right != [] && Hosts(ds[k], right[0]))
  }

  lemma WrapPlaced(ds: seq<Delim>, xs: seq<Inline>, ix: seq<nat>, i: nat, j: nat,
                   left: seq<Inline>, mid: Inline, right: seq<Inline>) returns (iy: seq<nat>)
    requires j < |xs| && Placed(ds, xs, ix) && Spared(ds, ix, i, j, left, right)
    ensures Placed(ds, Wrap(xs, i, j, left, mid, right), iy)
  {
    iy := seq(|ix|, k requires 0 <= k < |ix| && (ix[k] <= i || ix[k] >= j) => NewPlace(i, j, |left|, |right|, ix[k]));
    forall k | 0 <= k < |ix|
      ensures iy[k] < |Wrap(xs, i, j, left, mid, right)| && Hosts(ds[k], Wrap(xs, i, j, left, mid, right)[iy[k]])
    {
      WrapAt(xs, i, j, left, mid, right, ix[k]);
    }
  }

  lemma WrapAt(xs: seq<Inline>, i: nat, j: nat, left: seq<Inline>, mid: Inline, right: seq<Inline>, p: nat)
    requires i < j < |xs| && |left| <= 1 && |right| <= 1
    ensures p < i ==> Wrap(xs, i, j, left, mid, right)[p] == xs[p]
    ensures left != [] ==> Wrap(xs, i, j, left, mid, right)[i] == left[0]
    ensures right != [] ==> Wrap(xs, i, j, left, mid, right)[i + |left| + 1] == right[0]
    ensures j < p < |xs| ==> Wrap(xs, i, j, left, mid, right)[p - (j + 1) + i + |left| + 1 + |right|] == xs[p]
  {
  }

  /** The delimiters a match keeps are placed in the wrapped list. */
  lemma KeepPlaced(ds: seq<Delim>, xs: seq<Inline>, ix: seq<nat>, o: nat, c: nat,
                   left: seq<Inline>, mid: Inline, right: seq<Inline>) returns (iy: seq<nat>)
    requires Placed(ds, xs, ix) && o < c < |ds|
    requires |left| <= 1 && (left != [] ==> Hosts(ds[o], left[0]))
    requires |right| <= 1 && (right != [] ==> Hosts(ds[c], right[0]))
    ensures Placed(Keep(ds, o, c, left != [], right != []), Wrap(xs, ix[o], ix[c], left, mid, right), iy)
  {
    var keepO, keepC := left != [], right != [];
    PlacedSize(ds, xs, ix);
    KeepSpared(ds, ix, o, c, left, right);
    hide Placed, Spared, Hosts, Ascending;
    HolePlaced(ds, xs, ix, o + 1, c);
    var h, hx := Hole(ds, o + 1, c), Hole(ix, o + 1, c);
    HolePlaced(h, xs, hx, o, o + 1);
    var h1, hx1 := if keepO then h else WithoutAt(h, o), if keepO then hx else WithoutAt(hx, o);
    var n := if keepO then o + 1 else o;
    HolePlaced(h1, xs, hx1, n, n + 1);
    iy := WrapPlaced(Keep(ds, o, c, keepO, keepC), xs, Keep(ix, o, c, keepO, keepC), ix[o], ix[c], left, mid, right);
  }

  lemma PlacedSize(ds: seq<Delim>, xs: seq<Inline>, ix: seq<nat>)
    requires Placed(ds, xs, ix)
    ensures |ix| == |ds| && Ascending(ix) && forall i :: 0 <= i < |ix| ==> ix[i] < |xs|
  {
  }

  lemma HoleValues(ix: seq<nat>, a: nat, b: nat)
    requires Ascending(ix) && a <= b <= |ix|
    ensures Ascending(Hole(ix, a, b))
    ensures forall v :: v in Hole(ix, a, b) ==> (a > 0 && v <= ix[a - 1]) || (b < |ix| && v >= ix[b])
  {
  }

  /** Only the delimiter `d` stands at place `p`. */
  ghost predicate Tagged(ds: seq<Delim>, ix: seq<nat>, p: nat, d: Delim) {
    |ix| == |ds| && forall k :: 0 <= k < |ix| && ix[k] == p ==> ds[k] == d
  }

  lemma HoleTagged(ds: seq<Delim>, ix: seq<nat>, p: nat, d: Delim, a: nat, b: nat)
    requires Tagged(ds, ix, p, d) && a <= b <= |ix|
    ensures Tagged(Hole(ds, a, b), Hole(ix, a, b), p, d)
  {
  }

  lemma KeepTagged(ds: seq<Delim>, ix: seq<nat>, p: nat, d: Delim, o: nat, c: nat, keepO: bool, keepC: bool)
    requires Tagged(ds, ix, p, d) && o < c < |ix|
    ensures Tagged(Keep(ds, o, c, keepO, keepC), Keep(ix, o, c, keepO, keepC), p, d)
  {
    HoleTagged(ds, ix, p, d, o + 1, c);
    var h, hx := Hole(ds, o + 1, c), Hole(ix, o + 1, c);
    HoleTagged(h, hx, p, d, o, o + 1);
    var n := if keepO then o + 1 else o;
    HoleTagged(if keepO then h else WithoutAt(h, o), if keepO then hx else WithoutAt(hx, o), p, d, n, n + 1);
  }

  lemma WithoutValues(ix: seq<nat>, n: nat)
    requires Ascending(ix) && n < |ix|
    ensures Ascending(WithoutAt(ix, n))
    ensures forall v :: v in WithoutAt(ix, n) ==> v in ix && v != ix[n]
  {
    HoleValues(ix, n, n + 1);
  }

  lemma KeepValues(ix: seq<nat>, o: nat, c: nat, keepO: bool, keepC: bool)
    requires Ascending(ix) && o < c < |ix|
    ensures forall v :: v in Keep(ix, o, c, keepO, keepC) ==>
              (v <= ix[o] || v >= ix[c]) && (v == ix[o] ==> keepO) && (v == ix[c] ==> keepC)
  {
    HoleValues(ix, o + 1, c);
    var h := Hole(ix, o + 1, c);
    assert h[o] == ix[o] && h[o + 1] == ix[c];
    hide Hole, WithoutAt;
    if !keepO {
      WithoutValues(h, o);
      if !keepC { WithoutValues(WithoutAt(h, o), o); }
    } else if !keepC {
      WithoutValues(h, o + 1);
    }
  }

  lemma KeepSpared(ds: seq<Delim>, ix: seq<nat>, o: nat, c: nat, left: seq<Inline>, right: seq<Inline>)
    requires |ix| == |ds| && Ascending(ix) && o < c < |ds|
    requires |left| <= 1 && (left != [] ==> Hosts(ds[o], left[0]))
    requires |right| <= 1 && (right != [] ==> Hosts(ds[c], right[0]))
    ensures Spared(Keep(ds, o, c, left != [], right != []), Keep(ix, o, c, left != [], right != []),
                   ix[o], ix[c], left, right)
  {
    hide Keep, Hosts;
    var keepO, keepC := left != [], right != [];
    KeepTagged(ds, ix, ix[o], ds[o], o, c, keepO, keepC);
    KeepTagged(ds, ix, ix[c], ds[c], o, c, keepO, keepC);
    KeepValues(ix, o, c, keepO, keepC);
    var iy := Keep(ix, o, c, keepO, keepC);
    assert forall k :: 0 <= k < |iy| ==> iy[k] in iy;
  }

  // ---------------------------------------------------------------- the four outcomes of a turn

  /** The same text, as shown and as read. */
  ghost predicate SameText(xs: seq<Inline>, ys: seq<Inline>) {
    Flat(Shown, ys) == Flat(Shown, xs) && Flat(Consumed, ys) == Flat(Consumed, xs) && Flat(Checked, ys) == Flat(Checked, xs)
  }

  /** What a turn keeps: the invariant, the text, and a measure that must run out. */
  ghost predicate Kept(s: St, t: St) {
    && Good(t.ds, t.xs) && t.k <= |t.ds|
    && SameText(s.xs, t.xs)
    && (TopChars(t.xs) < TopChars(s.xs) || (TopChars(t.xs) == TopChars(s.xs) && |t.ds| - t.k < |s.ds| - s.k))
  }

  lemma TrimHosts(d: Delim, x: Inline, u: nat)
    requires Hosts(d, x) && !IsQuote(d.ch) && 1 <= u <= |x.lit|
    ensures Residue(Trim(x, u), x) && |Trim(x, u)| <= 1
    ensures Trim(x, u) != [] ==> Hosts(d, Trim(x, u)[0])
    ensures TopChars(Trim(x, u)) < TopChars([x])
    ensures forall v: Reading :: Spell(v, x) == Flat(v, Trim(x, u)) + seq(u, _ => d.ch)
    ensures forall v: Reading :: Spell(v, x) == seq(u, _ => d.ch) + Flat(v, Trim(x, u))
  {
    if Trim(x, u) != [] {
      FlatOne(Shown, Trim(x, u)[0]);
      FlatOne(Consumed, Trim(x, u)[0]);
      FlatOne(Checked, Trim(x, u)[0]);
    }
    assert x.lit == x.lit[..|x.lit| - u] + seq(u, _ => d.ch);
    assert x.lit == seq(u, _ => d.ch) + x.lit[..|x.lit| - u];
  }

  lemma EmphNodeSpells(v: Reading, u: nat, ch: char, kids: seq<Inline>)
    requires 1 <= u <= 2
    ensures Spell(v, EmphNode(u, ch, kids)) == seq(u, _ => ch) + Flat(v, kids) + seq(u, _ => ch)
  {
    assert [ch] == seq(1, _ => ch) && [ch, ch] == seq(2, _ => ch);
  }

  lemma Regroup2(l: string, r: string, q: string, k: string)
    ensures l + (q + k + q) + r == (l + q) + k + (q + r)
  {
  }

  lemma EmphWrapFlat(v: Reading, xs: seq<Inline>, i: nat, j: nat, left: seq<Inline>, right: seq<Inline>, u: nat, ch: char)
    requires i < j < |xs| && 1 <= u <= 2
    requires Spell(v, xs[i]) == Flat(v, left) + seq(u, _ => ch) && Spell(v, xs[j]) == seq(u, _ => ch) + Flat(v, right)
    ensures Flat(v, Wrap(xs, i, j, left, EmphNode(u, ch, xs[i + 1..j]), right)) == Flat(v, xs)
  {
    EmphNodeSpells(v, u, ch, xs[i + 1..j]);
    Regroup2(Flat(v, left), Flat(v, right), seq(u, _ => ch), Flat(v, xs[i + 1..j]));
    WrapFlat(v, xs, i, j, left, EmphNode(u, ch, xs[i + 1..j]), right);
  }

  lemma EmphWrapSame(xs: seq<Inline>, i: nat, j: nat, left: seq<Inline>, right: seq<Inline>, u: nat, ch: char)
    requires i < j < |xs| && 1 <= u <= 2
    requires forall v: Reading :: Spell(v, xs[i]) == Flat(v, left) + seq(u, _ => ch) && Spell(v, xs[j]) == seq(u, _ => ch) + Flat(v, right)
    ensures SameText(xs, Wrap(xs, i, j, left, EmphNode(u, ch, xs[i + 1..j]), right))
  {
    hide Flat, Spell, Wrap;
    EmphWrapFlat(Shown, xs, i, j, left, right, u, ch);
    EmphWrapFlat(Consumed, xs, i, j, left, right, u, ch);
    EmphWrapFlat(Checked, xs, i, j, left, right, u, ch);
  }

  lemma EmphTurn(s: St, o: nat)
    requires o < s.k < |s.ds| && Good(s.ds, s.xs)
    requires s.ds[o].ch == s.ds[s.k].ch && IsEmph(s.ds[o].ch)
    ensures IndexOf(s.xs, s.ds[o].inl) < IndexOf(s.xs, s.ds[s.k].inl) < |s.xs|
    ensures Kept(s, InsertEmph(s, o))
  {
    hide SameText;
    var c, xs := s.k, s.xs;
    var ix :| Placed(s.ds, xs, ix);
    PlacedIndex(s.ds, xs, ix, o);
    PlacedIndex(s.ds, xs, ix, c);
    var i, j, ch := ix[o], ix[c], s.ds[o].ch;
    var u := UseDelims(LitLen(xs[i]), LitLen(xs[j]));
    TrimHosts(s.ds[o], xs[i], u);
    TrimHosts(s.ds[c], xs[j], u);
    var left, right, mid := Trim(xs[i], u), Trim(xs[j], u), EmphNode(u, ch, xs[i + 1..j]);
    EmphWrapSame(xs, i, j, left, right, u, ch);
    WrapTop(xs, i, j, left, mid, right);
    WrapUniq(xs, i, j, left, mid, right);
    KeepOrdered(s.ds, o, c, left != [], right != []);
    var iy := KeepPlaced(s.ds, xs, ix, o, c, left, mid, right);
  }

  lemma StrikeTurn(s: St, o: nat)
    requires o < s.k < |s.ds| && Good(s.ds, s.xs)
    requires s.ds[o].ch == s.ds[s.k].ch == '~'
    ensures IndexOf(s.xs, s.ds[o].inl) < IndexOf(s.xs, s.ds[s.k].inl) < |s.xs|
    ensures Kept(s, InsertStrike(s, o))
  {
    var ix :| Placed(s.ds, s.xs, ix);
    PlacedIndex(s.ds, s.xs, ix, o);
    PlacedIndex(s.ds, s.xs, ix, s.k);
    KeepOrdered(s.ds, o, s.k, false, false);
    KeepNeither(s.ds, o, s.k);
    if LitLen(s.xs[ix[o]]) == LitLen(s.xs[ix[s.k]]) {
      StrikeWraps(s.ds, s.xs, ix, o, s.k);
    } else {
      HoleGood(s.ds, s.xs, o, s.k + 1);
    }
  }

  lemma KeepNeither<T>(ds: seq<T>, o: nat, c: nat)
    requires o < c < |ds|
    ensures Keep(ds, o, c, false, false) == Hole(ds, o, c + 1)
  {
  }

  lemma StrikeWrapSame(xs: seq<Inline>, i: nat, j: nat)
    requires i < j < |xs| && xs[i].Text? && xs[j].Text? && xs[i].lit == xs[j].lit
    ensures SameText(xs, Wrap(xs, i, j, [], Strike(xs[i].lit, xs[i + 1..j]), []))
  {
    hide Wrap;
    StrikeWrapFlat(Shown, xs, i, j);
    StrikeWrapFlat(Consumed, xs, i, j);
    StrikeWrapFlat(Checked, xs, i, j);
  }

  lemma StrikeWrapFlat(v: Reading, xs: seq<Inline>, i: nat, j: nat)
    requires i < j < |xs| && xs[i].Text? && xs[j].Text? && xs[i].lit == xs[j].lit
    ensures Flat(v, Wrap(xs, i, j, [], Strike(xs[i].lit, xs[i + 1..j]), [])) == Flat(v, xs)
  {
    hide Wrap;
    var mid := Strike(xs[i].lit, xs[i + 1..j]);
    assert Flat(v, []) == "" && "" + Spell(v, mid) + "" == Spell(v, mid);
    WrapFlat(v, xs, i, j, [], mid, []);
  }

  lemma StrikeWraps(ds: seq<Delim>, xs: seq<Inline>, ix: seq<nat>, o: nat, c: nat)
    requires Ordered(ds) && Chars(ds) && Uniq(xs) && Placed(ds, xs, ix) && o < c < |ds|
    requires ds[o].ch == ds[c].ch == '~' && LitLen(xs[ix[o]]) == LitLen(xs[ix[c]])
    ensures var ys := Wrap(xs, ix[o], ix[c], [], Strike(Spell(Shown, xs[ix[o]]), xs[ix[o] + 1..ix[c]]), []);
            && SameText(xs, ys) && TopChars(ys) < TopChars(xs)
            && Uniq(ys) && exists iy :: Placed(Keep(ds, o, c, false, false), ys, iy)
  {
    var i, j := ix[o], ix[c];
    var mid := Strike(Spell(Shown, xs[i]), xs[i + 1..j]);
    assert Spell(Shown, xs[i]) == xs[i].lit == xs[j].lit;
    hide SameText, Spell, Flat;
    assert TopChars([xs[i]]) == |xs[i].lit|;
    StrikeWrapSame(xs, i, j);
    WrapTop(xs, i, j, [], mid, []);
    WrapUniq(xs, i, j, [], mid, []);
    var iy := KeepPlaced(ds, xs, ix, o, c, [], mid, []);
  }

  lemma SetFlat(v: Reading, xs: seq<Inline>, i: nat, y: Inline)
    requires i < |xs| && Flat(v, [y]) == Flat(v, [xs[i]])
    ensures Flat(v, xs[i := y]) == Flat(v, xs)
  {
    var ys := xs[i := y];
    assert ys[..i] == xs[..i] && ys[i + 1..] == xs[i + 1..];
    FlatOne(v, y);
    FlatOne(v, xs[i]);
    FlatAt(v, xs, i);
    FlatAt(v, ys, i);
  }

  lemma {:induction false} SetAt(xs: seq<Inline>, i: nat, y: Inline)
    requires i < |xs| && SameText([xs[i]], [y]) && TopChars([y]) == TopChars([xs[i]])
    ensures SameText(xs, xs[i := y]) && TopChars(xs[i := y]) == TopChars(xs)
  {
    var ys := xs[i := y];
    assert ys[..i] == xs[..i] && ys[i + 1..] == xs[i + 1..];
    SetFlat(Shown, xs, i, y);
    SetFlat(Consumed, xs, i, y);
    SetFlat(Checked, xs, i, y);
    TopCharsAt(xs, i);
    TopCharsAt(ys, i);
  }

  lemma SameOne(x: Inline, y: Inline)
    requires forall v: Reading :: Spell(v, x) == Spell(v, y)
    ensures SameText([x], [y])
  {
    FlatOne(Shown, x);
    FlatOne(Shown, y);
    FlatOne(Consumed, x);
    FlatOne(Consumed, y);
    FlatOne(Checked, x);
    FlatOne(Checked, y);
  }

  /** Curling a quote changes neither the text it stands for nor any place. */
  lemma SetQuoteKeeps(ds: seq<Delim>, xs: seq<Inline>, id: nat, left: bool)
    requires Good(ds, xs)
    ensures Good(ds, SetQuote(xs, id, left))
    ensures SameText(xs, SetQuote(xs, id, left)) && TopChars(SetQuote(xs, id, left)) == TopChars(xs)
  {
    var i := IndexOf(xs, id);
    if i < |xs| && xs[i].Quote? {
      var y := xs[i].(left := left);
      SameOne(xs[i], y);
      SetAt(xs, i, y);
      var ix :| Placed(ds, xs, ix);
      assert forall p: nat, q: nat :: p < |xs| ==> (HasId(xs[i := y][p], q) <==> HasId(xs[p], q));
      assert Placed(ds, xs[i := y], ix);
    }
  }

  lemma QuoteTurn(s: St, o: nat)
    requires o < s.k < |s.ds| && Good(s.ds, s.xs)
    ensures Kept(s, InsertQuotes(s, o))
  {
    hide Good, SameText, SetQuote, TopChars;
    var t := InsertQuotes(s, o);
    TwoQuotesKeep(s.ds, s.xs, s.ds[s.k].inl, s.ds[o].inl);
    HoleGood(s.ds, t.xs, o, o + 1);
    HoleGood(WithoutAt(s.ds, o), t.xs, s.k - 1, s.k);
    assert |t.ds| - t.k < |s.ds| - s.k;
  }

  lemma TwoQuotesKeep(ds: seq<Delim>, xs: seq<Inline>, a: nat, b: nat)
    requires Good(ds, xs)
    ensures var ys := SetQuote(SetQuote(xs, a, false), b, true);
            Good(ds, ys) && SameText(xs, ys) && TopChars(ys) == TopChars(xs)
  {
    SetQuoteKeeps(ds, xs, a, false);
    SetQuoteKeeps(ds, SetQuote(xs, a, false), b, true);
  }

  lemma NoOpenerTurn(s: St)
    requires s.k < |s.ds| && Good(s.ds, s.xs)
    ensures Kept(s, NoOpener(s))
  {
    var c := s.ds[s.k];
    if IsQuote(c.ch) { SetQuoteKeeps(s.ds, s.xs, c.inl, false); }
    HoleGood(s.ds, NoOpener(s).xs, s.k, s.k + 1);
  }

  /** Every turn keeps the text and the invariant, and makes progress. */
  lemma Turn(s: St, bottom: nat, fast: bool)
    requires s.k < |s.ds| && Good(s.ds, s.xs)
    ensures Kept(s, Step(s, bottom, fast))
  {
    var o := Opener(s, bottom, fast);
    var ch := s.ds[s.k].ch;
    if s.ds[s.k].canClose {
      if o < 0 {
        NoOpenerTurn(s);
      } else {
        assert s.ds[o].ch == ch;
        if ch == '~' { StrikeTurn(s, o); }
        else if IsEmph(ch) { EmphTurn(s, o); }
        else { GoodIndex(s.ds, s.xs, o, s.k); QuoteTurn(s, o); }
      }
    }
  }
}
