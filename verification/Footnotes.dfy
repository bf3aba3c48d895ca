/** `process_footnotes`: numbering the references and moving the definitions to the end. */
module Footnotes {
  import opened Lists
  import opened RefMap
  import opened NodeKinds
  import opened NodeTree
  import opened NodeStore

  // ---------------------------------------------------------------- what the numbering means

  /** Which definition each reference is to, or -1. */
  function Targets(normalize: string -> string, defs: seq<Entry>, labels: seq<string>): (ts: seq<int>)
    ensures |ts| == |labels|
  {
    seq(|labels|, i requires 0 <= i < |labels| =>
      var r := Answer(normalize, defs, labels[i], 0); if r.Some? then r.value.age else -1)
  }

  /** The definitions in the order of their first reference. */
  function FirstSeen(ts: seq<int>): (r: seq<nat>)
    ensures forall d :: d in r ==> d in ts
  {
    if ts == [] then []
    else
      var r, d := FirstSeen(ts[..|ts| - 1]), ts[|ts| - 1];
      if d < 0 || d in r then r else r + [d]
  }

  function Count(ts: seq<int>, d: nat): nat {
    if ts == [] then 0 else Count(ts[..|ts| - 1], d) + if ts[|ts| - 1] == d then 1 else 0
  }

  /** The place of `d`, from one; zero if it is not there. */
  function Number(s: seq<nat>, d: nat): (n: nat)
    ensures n <= |s| && (n > 0 <==> d in s) && (n > 0 ==> s[n - 1] == d)
  {
    if s == [] then 0
    else if s[0] == d then 1
    else var n := Number(s[1..], d); if n == 0 then 0 else n + 1
  }

  datatype Note = Numbered(def: nat, ix: nat, refIx: nat) | Plain(text: string)

  /** What becomes of the `i`-th reference. */
  function NoteAt(ts: seq<int>, labels: seq<string>, i: nat): Note
    requires i < |ts| == |labels|
  {
    if ts[i] < 0 then Plain("[^" + labels[i] + "]")
    else Numbered(ts[i], Number(FirstSeen(ts), ts[i]), Count(ts[..i + 1], ts[i]))
  }

  /** A reference without a definition becomes the text it was written as. */
  lemma NoteText(normalize: string -> string, defs: seq<Entry>, labels: seq<string>, i: nat)
    requires i < |labels|
    requires Answer(normalize, defs, labels[i], 0).None?
    ensures var note, n := NoteAt(Targets(normalize, defs, labels), labels, i), |labels[i]|;
            note.Plain? && |note.text| == n + 3 && note.text[..2] == "[^" && note.text[2..n + 2] == labels[i] && note.text[n + 2..] == "]"
  {
  }

  lemma {:induction false} NumberEnd(s: seq<nat>, e: nat, d: nat)
    ensures d in s ==> Number(s + [e], d) == Number(s, d)
    ensures d !in s ==> Number(s + [e], d) == if d == e then |s| + 1 else 0
  {
    if s != [] {
      assert (s + [e])[1..] == s[1..] + [e];
      if s[0] != d { NumberEnd(s[1..], e, d); }
    }
  }

  lemma Snoc(ts: seq<int>, i: nat)
    requires i < |ts|
    ensures ts[..i + 1][..i] == ts[..i] && ts[..i + 1][i] == ts[i]
  {
  }

  /** A number once given stays. */
  lemma {:induction false} NumbersStay(ts: seq<int>, i: nat, d: nat)
    requires i <= |ts| && d in FirstSeen(ts[..i])
    ensures d in FirstSeen(ts) && Number(FirstSeen(ts), d) == Number(FirstSeen(ts[..i]), d)
    decreases |ts|
  {
    if i == |ts| {
      assert ts[..i] == ts;
    } else {
      var r := ts[..|ts| - 1];
      assert r[..i] == ts[..i];
      NumbersStay(r, i, d);
      if ts[|ts| - 1] >= 0 { NumberEnd(FirstSeen(r), ts[|ts| - 1], d); }
    }
  }

  /** Definitions are numbered 1..k, one number each, exactly those that are referenced, by first reference. */
  lemma {:induction false} NumberedByFirstReference(ts: seq<int>)
    ensures Distinct(FirstSeen(ts))
    ensures forall d: nat :: d in FirstSeen(ts) <==> d in ts
    ensures forall i, j :: 0 <= i < j < |FirstSeen(ts)| ==> FirstAt(ts, FirstSeen(ts)[i]) < FirstAt(ts, FirstSeen(ts)[j])
  {
    if ts != [] {
      var r, d := ts[..|ts| - 1], ts[|ts| - 1];
      assert ts == r + [d];
      NumberedByFirstReference(r);
      var f, g := FirstSeen(r), FirstSeen(ts);
      forall i, j | 0 <= i < j < |g| ensures g[i] != g[j] && FirstAt(ts, g[i]) < FirstAt(ts, g[j]) {
        FirstAtEnd(r, d, g[i]);
        FirstAtEnd(r, d, g[j]);
        assert g[i] == f[i];
        if j < |f| { assert g[j] == f[j]; }
      }
    }
  }

  /** The place of the first reference. */
  function FirstAt(ts: seq<int>, d: int): (n: nat)
    ensures n <= |ts| && (d in ts ==> n < |ts|)
  {
    if ts == [] || ts[0] == d then 0 else 1 + FirstAt(ts[1..], d)
  }

  lemma {:induction false} FirstAtEnd(r: seq<int>, e: int, d: int)
    ensures d in r ==> FirstAt(r + [e], d) == FirstAt(r, d) < |r|
    ensures d !in r ==> FirstAt(r + [e], d) >= |r|
  {
    if r != [] {
      assert (r + [e])[1..] == r[1..] + [e];
      if r[0] != d { FirstAtEnd(r[1..], e, d); }
    }
  }

  /** The references to one definition are numbered 1..count, each number once and in order. */
  lemma {:induction false} ReferencesCounted(ts: seq<int>, d: nat, n: nat) returns (i: nat)
    requires 1 <= n <= Count(ts, d)
    ensures i < |ts| && ts[i] == d && Count(ts[..i + 1], d) == n
    ensures forall j :: 0 <= j < |ts| && ts[j] == d && Count(ts[..j + 1], d) == n ==> j == i
  {
    var r := ts[..|ts| - 1];
    assert ts[..|r| + 1] == ts;
    if ts[|ts| - 1] == d && n == Count(ts, d) {
      i := |ts| - 1;
      assert ts[..i + 1] == ts;
      forall j | 0 <= j < |ts| && ts[j] == d && j != i ensures Count(ts[..j + 1], d) != n {
        CountGrows(ts, j + 1, i, d);
      }
    } else {
      i := ReferencesCounted(r, d, n);
      assert r[..i + 1] == ts[..i + 1];
      forall j | 0 <= j < |ts| && ts[j] == d && Count(ts[..j + 1], d) == n ensures j == i {
        assert j < |r| ==> r[..j + 1] == ts[..j + 1];
      }
    }
  }

  lemma {:induction false} CountGrows(ts: seq<int>, i: nat, j: nat, d: nat)
    requires i <= j <= |ts|
    ensures Count(ts[..i], d) <= Count(ts[..j], d)
  {
    if i < j {
      Snoc(ts, j - 1);
      CountGrows(ts, i, j - 1, d);
    }
  }

  // ---------------------------------------------------------------- the numbering loop

  /** What the records of the definitions hold after the references seen so far. */
  ghost predicate Counted(ts: seq<int>, ix: seq<nat>, counts: seq<nat>) {
    |ix| == |counts| && forall d :: 0 <= d < |ix| ==> ix[d] == Number(FirstSeen(ts), d) && counts[d] == Count(ts, d)
  }

  lemma CountedStep(ts: seq<int>, d: nat, ix: seq<nat>, counts: seq<nat>)
    requires Counted(ts, ix, counts) && d < |ix|
    ensures var ix' := if ix[d] == 0 then ix[d := |FirstSeen(ts)| + 1] else ix;
            Counted(ts + [d], ix', counts[d := counts[d] + 1]) && ix'[d] > 0
            && |FirstSeen(ts + [d])| == |FirstSeen(ts)| + (if ix[d] == 0 then 1 else 0)
  {
    hide FirstSeen, Count, Number;
    SeenEnd(ts, d);
    var ix' := if ix[d] == 0 then ix[d := |FirstSeen(ts)| + 1] else ix;
    var counts' := counts[d := counts[d] + 1];
    forall e: nat | e < |ix| ensures ix'[e] == Number(FirstSeen(ts + [d]), e) && counts'[e] == Count(ts + [d], e) {
      NumberEnd(FirstSeen(ts), d, e);
      CountEnd(ts, d, e);
    }
  }

  lemma SeenEnd(ts: seq<int>, d: nat)
    ensures FirstSeen(ts + [d]) == if d in FirstSeen(ts) then FirstSeen(ts) else FirstSeen(ts) + [d]
  {
    assert (ts + [d])[..|ts|] == ts;
  }

  lemma CountEnd(ts: seq<int>, d: nat, e: nat)
    ensures Count(ts + [d], e) == Count(ts, e) + if d == e then 1 else 0
  {
    assert (ts + [d])[..|ts|] == ts;
  }

  lemma NoteKept(ts: seq<int>, labels: seq<string>, i: nat)
    requires i < |ts| == |labels|
    ensures ts[i] >= 0 ==> Number(FirstSeen(ts[..i + 1]), ts[i]) == Number(FirstSeen(ts), ts[i]) > 0
  {
    if ts[i] >= 0 {
      Snoc(ts, i);
      NumbersStay(ts, i + 1, ts[i]);
    }
  }

  /** The first `i` references are done. */
  ghost predicate NumberedTo(ts: seq<int>, labels: seq<string>, i: nat, ix: seq<nat>, counts: seq<nat>, last: nat, notes: seq<Note>) {
    && |ts| == |labels| && i == |notes| <= |ts| && Counted(ts[..i], ix, counts) && last == |FirstSeen(ts[..i])|
    && forall j :: 0 <= j < i ==> notes[j] == NoteAt(ts, labels, j)
  }

  lemma DoneNumbered(ts: seq<int>, labels: seq<string>, i: nat, ix: seq<nat>, counts: seq<nat>, last: nat, notes: seq<Note>, d: nat)
    requires NumberedTo(ts, labels, i, ix, counts, last, notes) && i < |ts| && ts[i] == d < |ix|
    ensures |ix| == |counts|
    ensures var last' := if ix[d] == 0 then last + 1 else last;
            var ix' := if ix[d] == 0 then ix[d := last'] else ix;
            var counts' := counts[d := counts[d] + 1];
            NumberedTo(ts, labels, i + 1, ix', counts', last', notes + [Numbered(d, ix'[d], counts'[d])])
  {
    hide FirstSeen, Count, Number, Counted;
    SizesAgree(ts[..i], ix, counts);
    CountedStep(ts[..i], d, ix, counts);
    assert ts[..i + 1] == ts[..i] + [d];
    NoteKept(ts, labels, i);
    var last' := if ix[d] == 0 then last + 1 else last;
    var ix' := if ix[d] == 0 then ix[d := last'] else ix;
    var counts' := counts[d := counts[d] + 1];
    assert Counted(ts[..i + 1], ix', counts');
    CountedAt(ts[..i + 1], ix', counts', d);
  }

  lemma SizesAgree(ts: seq<int>, ix: seq<nat>, counts: seq<nat>)
    requires Counted(ts, ix, counts)
    ensures |ix| == |counts|
  {
  }

  lemma CountedAt(ts: seq<int>, ix: seq<nat>, counts: seq<nat>, d: nat)
    requires Counted(ts, ix, counts) && d < |ix|
    ensures |ix| == |counts| && ix[d] == Number(FirstSeen(ts), d) && counts[d] == Count(ts, d)
  {
  }

  lemma DonePlain(ts: seq<int>, labels: seq<string>, i: nat, ix: seq<nat>, counts: seq<nat>, last: nat, notes: seq<Note>)
    requires NumberedTo(ts, labels, i, ix, counts, last, notes) && i < |ts| && ts[i] < 0
    ensures NumberedTo(ts, labels, i + 1, ix, counts, last, notes + [Plain("[^" + labels[i] + "]")])
  {
    hide FirstSeen, Count, Number, Counted;
    NotSeen(ts[..i], ts[i], ix, counts);
    assert ts[..i + 1] == ts[..i] + [ts[i]];
  }

  /** What the loop over the references does with one label: its note, with the numbers given. */
  method NumberOne(refmap: Map, name: string, ix: seq<nat>, counts: seq<nat>, last: nat, ghost labels: seq<string>, ghost notes: seq<Note>)
    returns (note: Note, ix': seq<nat>, counts': seq<nat>, last': nat)
    requires refmap.Valid() && |notes| < |labels| && name == labels[|notes|] && (forall e :: e in refmap.Defs() ==> e.size == 0)
    requires |ix| == |counts| == |refmap.Defs()|
    requires NumberedTo(Targets(refmap.normalize, refmap.Defs(), labels), labels, |notes|, ix, counts, last, notes)
    modifies refmap
    ensures refmap.Valid() && refmap.Defs() == old(refmap.Defs()) && |ix'| == |counts'| == |refmap.Defs()|
    ensures var ts := Targets(refmap.normalize, refmap.Defs(), labels);
            && NumberedTo(ts, labels, |notes| + 1, ix', counts', last', notes + [note])
            && (ts[|notes|] >= 0 || old(refmap.sorted) != null ==> refmap.sorted != null)
  {
    hide FirstSeen, Count, Number, NumberedTo, Answers, Increasing, Answer, Counted, Targets;
    ghost var ts := Targets(refmap.normalize, refmap.Defs(), labels);
    ix', counts', last' := ix, counts, last;
    var r := refmap.Lookup(name);
    TargetOf(refmap.normalize, refmap.Defs(), labels, |notes|, r);
    if r.Some? {
      var d := r.value.age;
      DoneNumbered(ts, labels, |notes|, ix, counts, last, notes, d);
      if ix[d] == 0 {
        last' := last + 1;
        ix' := ix[d := last'];
      }
      counts' := counts[d := counts[d] + 1];
      note := Numbered(d, ix'[d], counts'[d]);
    } else {
      DonePlain(ts, labels, |notes|, ix, counts, last, notes);
      note := Plain("[^" + name + "]");
    }
  }

  lemma AllDone(ts: seq<int>, labels: seq<string>, ix: seq<nat>, counts: seq<nat>, last: nat, notes: seq<Note>)
    requires NumberedTo(ts, labels, |labels|, ix, counts, last, notes)
    ensures |notes| == |labels| && Counted(ts, ix, counts) && forall i :: 0 <= i < |labels| ==> notes[i] == NoteAt(ts, labels, i)
  {
    assert ts[..|labels|] == ts;
  }

  lemma NothingSeen(n: nat, ts: seq<int>, labels: seq<string>)
    requires |ts| == |labels|
    ensures NumberedTo(ts, labels, 0, seq(n, i => 0), seq(n, i => 0), 0, [])
  {
    assert ts[..0] == [];
  }

  lemma NotSeen(ts: seq<int>, t: int, ix: seq<nat>, counts: seq<nat>)
    requires Counted(ts, ix, counts) && t < 0
    ensures Counted(ts + [t], ix, counts) && FirstSeen(ts + [t]) == FirstSeen(ts)
  {
    assert (ts + [t])[..|ts|] == ts;
  }

  /** Entries of no size are never withheld. */
  lemma TargetOf(normalize: string -> string, defs: seq<Entry>, labels: seq<string>, i: nat, r: Option<Entry>)
    requires i < |labels| && Aged(defs, 0) && (forall e :: e in defs ==> e.size == 0)
    requires exists left: nat :: r == Answer(normalize, defs, labels[i], left)
    ensures Targets(normalize, defs, labels)[i] == (if r.Some? then r.value.age else -1)
    ensures r.Some? ==> r.value.age < |defs|
  {
    if r.Some? { assert r.value in defs; }
  }

  // ---------------------------------------------------------------- collecting the definitions

  datatype Definition = Definition(literal: string, node: nat)

  /** Those whose label is not blank. */
  function Labelled(normalize: string -> string, ds: seq<Definition>): (r: seq<Definition>)
    ensures forall d :: d in r ==> d in ds
  {
    if ds == [] then []
    else Labelled(normalize, ds[..|ds| - 1]) + if normalize(ds[|ds| - 1].literal) == "" then [] else [ds[|ds| - 1]]
  }

  function Entries(normalize: string -> string, ds: seq<Definition>): seq<Entry> {
    seq(|ds|, i requires 0 <= i < |ds| => Entry(normalize(ds[i].literal), i, 0))
  }

  function DefNodes(ds: seq<Definition>): seq<nat> {
    seq(|ds|, i requires 0 <= i < |ds| => ds[i].node)
  }

  lemma NoneLabelled(normalize: string -> string)
    ensures Labelled(normalize, []) == []
  {
  }

  lemma OneLabelled(normalize: string -> string, ds: seq<Definition>, d: Definition)
    ensures var l := Labelled(normalize, ds);
            if normalize(d.literal) == "" then Labelled(normalize, ds + [d]) == l
            else Labelled(normalize, ds + [d]) == l + [d] && DefNodes(l + [d]) == DefNodes(l) + [d.node]
                 && Entries(normalize, l + [d]) == Entries(normalize, l) + [Entry(normalize(d.literal), |l|, 0)]
  {
    hide Labelled;
    LabelledEnd(normalize, ds, d);
  }

  lemma LabelledEnd(normalize: string -> string, ds: seq<Definition>, d: Definition)
    ensures Labelled(normalize, ds + [d]) == Labelled(normalize, ds) + if normalize(d.literal) == "" then [] else [d]
  {
    assert (ds + [d])[..|ds|] == ds;
  }

  // ---------------------------------------------------------------- the order at the end

  function Key(ix: seq<nat>, d: nat): nat { if d < |ix| then ix[d] else 0 }

  function InsertByIx(d: nat, s: seq<nat>, ix: seq<nat>): seq<nat> {
    if s == [] || Key(ix, d) <= Key(ix, s[0]) then [d] + s else [s[0]] + InsertByIx(d, s[1..], ix)
  }

  /** `qsort` with `sort_footnote_by_ix`. */
  function SortByIx(s: seq<nat>, ix: seq<nat>): seq<nat> {
    if s == [] then [] else InsertByIx(s[0], SortByIx(s[1..], ix), ix)
  }

  ghost predicate ByIx(s: seq<nat>, ix: seq<nat>) {
    Distinct(s) && forall i, j :: 0 <= i < j < |s| ==> Key(ix, s[i]) <= Key(ix, s[j])
  }

  lemma TailByIx(s: seq<nat>, ix: seq<nat>)
    requires ByIx(s, ix) && s != []
    ensures ByIx(s[1..], ix) && s[0] !in s[1..] && s == [s[0]] + s[1..]
    ensures forall e :: e in s ==> Key(ix, s[0]) <= Key(ix, e)
  {
    hide Key;
    assert forall i :: 0 <= i < |s[1..]| ==> s[1..][i] == s[i + 1];
  }

  lemma HeadByIx(d: nat, s: seq<nat>, ix: seq<nat>)
    requires ByIx(s, ix) && d !in s && forall e :: e in s ==> Key(ix, d) <= Key(ix, e)
    ensures ByIx([d] + s, ix)
  {
    hide Key;
    var r := [d] + s;
    forall i, j | 0 <= i < j < |r| ensures r[i] != r[j] && Key(ix, r[i]) <= Key(ix, r[j]) {
      assert r[j] == s[j - 1] && s[j - 1] in s;
      if i > 0 { assert r[i] == s[i - 1]; }
    }
  }

  lemma {:induction false} InsertByIxOk(d: nat, s: seq<nat>, ix: seq<nat>)
    requires ByIx(s, ix) && d !in s
    ensures var r := InsertByIx(d, s, ix); ByIx(r, ix) && forall e :: e in r <==> e == d || e in s
  {
    hide ByIx, Key;
    if s != [] { TailByIx(s, ix); }
    if s == [] || Key(ix, d) <= Key(ix, s[0]) {
      HeadByIx(d, s, ix);
    } else {
      InsertByIxOk(d, s[1..], ix);
      HeadByIx(s[0], InsertByIx(d, s[1..], ix), ix);
    }
  }

  lemma {:induction false} SortByIxOk(s: seq<nat>, ix: seq<nat>)
    requires Distinct(s)
    ensures ByIx(SortByIx(s, ix), ix) && Distinct(SortByIx(s, ix)) && forall e :: e in SortByIx(s, ix) <==> e in s
  {
    hide Key;
    if s != [] {
      assert forall i :: 0 <= i < |s[1..]| ==> s[1..][i] == s[i + 1];
      assert s == [s[0]] + s[1..];
      SortByIxOk(s[1..], ix);
      InsertByIxOk(s[0], SortByIx(s[1..], ix), ix);
    }
  }

  function Referenced(s: seq<nat>, ix: seq<nat>): seq<nat> {
    if s == [] then []
    else Referenced(s[..|s| - 1], ix) + if Key(ix, s[|s| - 1]) > 0 then [s[|s| - 1]] else []
  }

  lemma InitByIx(r: seq<nat>, d: nat, ix: seq<nat>)
    requires ByIx(r + [d], ix)
    ensures ByIx(r, ix) && d !in r && forall e :: e in r ==> Key(ix, e) <= Key(ix, d)
  {
    hide Key;
    var s := r + [d];
    assert s[|r|] == d;
    assert forall i :: 0 <= i < |r| ==> s[i] == r[i];
  }

  /** In index order the referenced definitions are those of `FirstSeen`, in its order. */
  lemma {:induction false} InOrder(s: seq<nat>, ix: seq<nat>, f: seq<nat>, k: nat)
    requires ByIx(s, ix) && Distinct(f) && k <= |f|
    requires forall d :: d in s ==> Key(ix, d) == Number(f, d) <= k
    requires forall d :: d in f[..k] ==> d in s
    ensures Referenced(s, ix) == f[..k]
    decreases |s|
  {
    hide Key, ByIx, Distinct;
    if k > 0 {
      assert f[k - 1] in f[..k];
      NumberAt(f, k - 1);
    }
    if s != [] {
      var r, d := s[..|s| - 1], s[|s| - 1];
      assert s == r + [d];
      InitByIx(r, d, ix);
      if Key(ix, d) == 0 {
        assert k == 0;
        InOrder(r, ix, f, k);
      } else {
        assert f[k - 1] == d;
        forall e | e in f[..k - 1] ensures e in r { DistinctInit(f, k, e); }
        InOrder(r, ix, f, k - 1);
        assert f[..k] == f[..k - 1] + [d];
      }
    }
  }

  lemma {:induction false} NumberAt(f: seq<nat>, i: nat)
    requires Distinct(f) && i < |f|
    ensures Number(f, f[i]) == i + 1
  {
    var n := Number(f, f[i]);
    assert f[n - 1] == f[i];
  }

  lemma DistinctInit(f: seq<nat>, k: nat, e: nat)
    requires Distinct(f) && 0 < k <= |f| && e in f[..k - 1]
    ensures e in f[..k] && e != f[k - 1]
  {
    var i :| 0 <= i < k - 1 && f[i] == e;
    assert f[..k][i] == e;
  }

  // ---------------------------------------------------------------- the tail of the document

  /** The nodes of `gone` are out of their places; `tail` follows the rest of the root's children. */
  ghost predicate Tailed(h0: Heap, kids0: Kids, root: nat, gone: set<nat>, tail: seq<nat>, h: Heap, kids: Kids) {
    && Forest(h, kids) && SameNodes(h0, h) && |kids| == |kids0|
    && forall n :: 0 <= n < |kids| ==> kids[n] == Strip(kids0[n], gone) + if n == root then tail else []
  }

  lemma StartTailed(h: Heap, kids: Kids, root: nat)
    requires Forest(h, kids)
    ensures Tailed(h, kids, root, {}, [], h, kids)
  {
    hide Rep, Acyclic;
    forall n: nat | n < |kids| ensures kids[n] == Strip(kids[n], {}) { StripNone(kids[n], {}); }
  }

  /** The lists of children with one more node taken out. */
  lemma TakenOut(h0: Heap, kids0: Kids, root: nat, gone: set<nat>, tail: seq<nat>, h: Heap, kids: Kids, x: nat, n: nat)
    requires Tailed(h0, kids0, root, gone, tail, h, kids) && x < |h| && x !in tail && n < |kids|
    ensures Removed(kids, h[x].parent, x)[n] == Strip(kids0[n], gone + {x}) + if n == root then tail else []
  {
    hide Strip, Removed, Rep, Acyclic;
    RepOf(h, kids);
    RemovedIsStrip(h, kids, x, n);
    var t := if n == root then tail else [];
    StripConcat(Strip(kids0[n], gone), t, {x});
    StripTwice(kids0[n], gone, {x});
    StripNone(t, {x});
  }

  lemma TailedUnlink(h0: Heap, kids0: Kids, root: nat, gone: set<nat>, tail: seq<nat>, h: Heap, kids: Kids, x: nat, h': Heap, kids': Kids)
    requires Tailed(h0, kids0, root, gone, tail, h, kids) && x < |h| && x !in tail
    requires Forest(h', kids') && SameNodes(h, h') && kids' == Removed(kids, h[x].parent, x)
    ensures Tailed(h0, kids0, root, gone + {x}, tail, h', kids')
  {
    hide Strip, Removed, Forest;
    forall n: nat | n < |kids'| ensures kids'[n] == Strip(kids0[n], gone + {x}) + if n == root then tail else [] {
      TakenOut(h0, kids0, root, gone, tail, h, kids, x, n);
    }
  }

  lemma TailedAppend(h0: Heap, kids0: Kids, root: nat, gone: set<nat>, tail: seq<nat>, h: Heap, kids: Kids, x: nat, h': Heap, kids': Kids)
    requires Tailed(h0, kids0, root, gone, tail, h, kids) && x < |h| && x !in tail
    requires Forest(h', kids') && Moved(h, kids, root, Back, x, h', kids')
    ensures Tailed(h0, kids0, root, gone + {x}, tail + [x], h', kids')
  {
    hide Strip, Removed, Forest;
    var k := Removed(kids, h[x].parent, x);
    forall n: nat | n < |kids'| ensures kids'[n] == Strip(kids0[n], gone + {x}) + if n == root then tail + [x] else [] {
      TakenOut(h0, kids0, root, gone, tail, h, kids, x, n);
      assert n == root ==> kids'[n] == k[n] + [x];
    }
  }

  /** The root stays the root: any other node may be moved below it. */
  lemma RootTakes(h0: Heap, kids0: Kids, root: nat, gone: set<nat>, tail: seq<nat>, h: Heap, kids: Kids, x: nat)
    requires Tailed(h0, kids0, root, gone, tail, h, kids) && Forest(h0, kids0)
    requires root < |h0| && h0[root].parent == NULL && root !in tail && x < |h0| && x != root
    ensures |h| == |h0| && !Under(h, root, x)
  {
    hide Under, Strip, Acyclic;
    DownOf(h, kids, root);
    if h[root].parent != NULL {
      var p := h[root].parent;
      StripMember(kids0[p], gone);
      assert root in kids0[p];
      DownOf(h0, kids0, p);
    }
    UnderStep(h, root, x);
  }

  function Pick(nodes: seq<nat>, ds: seq<nat>): seq<nat>
    requires forall d :: d in ds ==> d < |nodes|
  {
    seq(|ds|, i requires 0 <= i < |ds| => assert ds[i] in ds; nodes[ds[i]])
  }

  lemma PickMember(nodes: seq<nat>, ds: seq<nat>, d: nat)
    requires Distinct(nodes) && (forall e :: e in ds ==> e < |nodes|) && d < |nodes|
    ensures nodes[d] in Pick(nodes, ds) <==> d in ds
  {
    if d in ds {
      var i :| 0 <= i < |ds| && ds[i] == d;
      assert Pick(nodes, ds)[i] == nodes[d];
    }
    if nodes[d] in Pick(nodes, ds) {
      var i :| 0 <= i < |Pick(nodes, ds)| && Pick(nodes, ds)[i] == nodes[d];
      assert ds[i] in ds && nodes[ds[i]] == nodes[d];
    }
  }

  lemma {:induction false} ReferencedMember(s: seq<nat>, ix: seq<nat>)
    ensures forall d :: d in Referenced(s, ix) <==> d in s && Key(ix, d) > 0
  {
    hide Key;
    if s != [] {
      ReferencedMember(s[..|s| - 1], ix);
      assert s == s[..|s| - 1] + [s[|s| - 1]];
    }
  }

  /** What may be called a definition of the document under `root`. */
  ghost predicate Definitions(h: Heap, root: nat, nodes: seq<nat>) {
    && root < |h| && h[root].kind == Document && h[root].parent == NULL && Distinct(nodes)
    && forall x :: x in nodes ==> x < |h| && x != root && h[x].kind == FootnoteDefinition
  }

  /** The loop over the sorted array: those referenced go to the end of the root, the others go. */
  method WriteOut(store: Store, root: nat, nodes: seq<nat>, order: seq<nat>, ix: seq<nat>) returns (ghost gone: set<nat>)
    requires store.Valid() && Definitions(store.heap, root, nodes) && Distinct(order) && forall d :: d in order ==> d < |nodes|
    modifies store`heap, store`kids
    ensures forall d :: d in Referenced(order, ix) ==> d < |nodes|
    ensures Tailed(old(store.heap), old(store.kids), root, gone, Pick(nodes, Referenced(order, ix)), store.heap, store.kids)
    ensures forall d :: 0 <= d < |nodes| ==> (nodes[d] in gone <==> d in order)
    ensures forall x :: x in gone ==> x in nodes
  {
    hide Forest, Moved, Removed, Tailed, Referenced, Key, Under, Pick;
    ghost var h0, kids0 := store.heap, store.kids;
    gone := {};
    ghost var tail: seq<nat> := [];
    StartTailed(h0, kids0, root);
    StartAlong(nodes, order, ix);
    for i := 0 to |order|
      invariant Tailed(h0, kids0, root, gone, tail, store.heap, store.kids)
      invariant Along(nodes, order, ix, i, gone, tail)
    {
      AlongNext(nodes, order, ix, i, gone, tail);
      var x := nodes[order[i]];
      ghost var h, k := store.heap, store.kids;
      TailedValid(h0, kids0, root, gone, tail, h, k, nodes, x);
      if Key(ix, order[i]) == 0 {
        InBounds(store.heap, store.kids, x);
        store.Unlink(x);
        TailedUnlink(h0, kids0, root, gone, tail, h, k, x, store.heap, store.kids);
      } else {
        RootTakes(h0, kids0, root, gone, tail, h, k, x);
        var ok := store.AppendChild(root, x);
        TailedAppend(h0, kids0, root, gone, tail, h, k, x, store.heap, store.kids);
        tail := tail + [x];
      }
      gone := gone + {x};
    }
    AlongDone(nodes, order, ix, gone, tail);
  }

  ghost predicate Along(nodes: seq<nat>, order: seq<nat>, ix: seq<nat>, i: nat, gone: set<nat>, tail: seq<nat>) {
    && i <= |order| && (forall d :: d in Referenced(order[..i], ix) ==> d < |nodes|)
    && tail == Pick(nodes, Referenced(order[..i], ix)) && (forall x :: x in tail ==> x in nodes) && (forall x :: x in gone ==> x in nodes)
    && forall d :: 0 <= d < |nodes| ==> (nodes[d] in gone <==> d in order[..i])
  }

  lemma StartAlong(nodes: seq<nat>, order: seq<nat>, ix: seq<nat>)
    ensures Along(nodes, order, ix, 0, {}, [])
  {
    assert order[..0] == [];
  }

  lemma AlongNext(nodes: seq<nat>, order: seq<nat>, ix: seq<nat>, i: nat, gone: set<nat>, tail: seq<nat>)
    requires Along(nodes, order, ix, i, gone, tail) && i < |order|
    requires Distinct(nodes) && Distinct(order) && forall d :: d in order ==> d < |nodes|
    ensures order[i] < |nodes|
    ensures var x := nodes[order[i]];
            x in nodes && x !in tail && Along(nodes, order, ix, i + 1, gone + {x}, if Key(ix, order[i]) == 0 then tail else tail + [x])
  {
    hide Key, Distinct, Referenced;
    var d := order[i];
    assert d in order && nodes[d] in nodes;
    assert order[..i + 1] == order[..i] + [d];
    NewAlong(order, i);
    ReferencedMember(order[..i], ix);
    PickMember(nodes, Referenced(order[..i], ix), d);
    ReferencedEnd(order[..i], d, ix);
    forall e: nat | e < |nodes| ensures nodes[e] in gone + {nodes[d]} <==> e in order[..i + 1] {
      if e != d { Differ(nodes, e, d); }
    }
  }

  lemma Differ(s: seq<nat>, i: nat, j: nat)
    requires Distinct(s) && i < |s| && j < |s| && i != j
    ensures s[i] != s[j]
  {
  }

  lemma NewAlong(s: seq<nat>, i: nat)
    requires Distinct(s) && i < |s|
    ensures s[i] !in s[..i]
  {
  }

  lemma ReferencedEnd(s: seq<nat>, d: nat, ix: seq<nat>)
    ensures Referenced(s + [d], ix) == Referenced(s, ix) + if Key(ix, d) > 0 then [d] else []
  {
    assert (s + [d])[..|s|] == s;
  }

  lemma AlongDone(nodes: seq<nat>, order: seq<nat>, ix: seq<nat>, gone: set<nat>, tail: seq<nat>)
    requires Along(nodes, order, ix, |order|, gone, tail)
    ensures forall d :: d in Referenced(order, ix) ==> d < |nodes|
    ensures tail == Pick(nodes, Referenced(order, ix)) && (forall x :: x in gone ==> x in nodes)
    ensures forall d :: 0 <= d < |nodes| ==> (nodes[d] in gone <==> d in order)
  {
    assert order[..|order|] == order;
  }

  /** Where a definition may go in a document that is being written out. */
  lemma TailedValid(h0: Heap, kids0: Kids, root: nat, gone: set<nat>, tail: seq<nat>, h: Heap, kids: Kids, nodes: seq<nat>, x: nat)
    requires Tailed(h0, kids0, root, gone, tail, h, kids) && Definitions(h0, root, nodes) && x in nodes
    ensures Forest(h, kids) && |h| == |h0| && x < |h| && x != root && root < |h| && CanContain(h[root].kind, h[x].kind)
  {
  }

  /** `cmark_unlink_footnotes_map`: from the newest definition to the oldest, those not written out. */
  method UnlinkRest(store: Store, root: nat, nodes: seq<nat>, ix: seq<nat>, ghost h0: Heap, ghost kids0: Kids, ghost done: set<nat>, ghost ds: seq<nat>)
    returns (ghost gone: set<nat>)
    requires Definitions(h0, root, nodes) && Forest(h0, kids0) && (forall d :: d in ds ==> d < |nodes| && Key(ix, d) > 0)
    requires Tailed(h0, kids0, root, done, Pick(nodes, ds), store.heap, store.kids)
    modifies store`heap, store`kids
    ensures Tailed(h0, kids0, root, gone, Pick(nodes, ds), store.heap, store.kids)
    ensures forall x :: x in gone <==> x in done || exists d :: 0 <= d < |nodes| && Key(ix, d) == 0 && nodes[d] == x
  {
    hide Forest, Removed, Tailed, Key, Pick, Distinct;
    gone := done;
    for d := |nodes| downto 0
      invariant Tailed(h0, kids0, root, gone, Pick(nodes, ds), store.heap, store.kids)
      invariant forall x :: x in gone <==> x in done || exists e :: d <= e < |nodes| && Key(ix, e) == 0 && nodes[e] == x
    {
      if Key(ix, d) == 0 {
        var x := nodes[d];
        assert x in nodes;
        ghost var h, k := store.heap, store.kids;
        TailedValid(h0, kids0, root, gone, Pick(nodes, ds), h, k, nodes, x);
        PickMember(nodes, ds, d);
        InBounds(store.heap, store.kids, x);
        store.Unlink(x);
        TailedUnlink(h0, kids0, root, gone, Pick(nodes, ds), h, k, x, store.heap, store.kids);
        gone := gone + {x};
      }
    }
  }

  // ---------------------------------------------------------------- the whole

  /** The entries left by the deduplication: one for each label, among them every one found. */
  lemma SortedAges(u: seq<Entry>, defs: seq<Entry>, ages: seq<nat>, normalize: string -> string, labels: seq<string>)
    requires Increasing(u) && Answers(u, defs) && Aged(defs, 0)
    requires |ages| == |u| && forall i :: 0 <= i < |u| ==> ages[i] == u[i].age
    ensures Distinct(ages) && (forall d :: d in ages ==> d < |defs|)
    ensures forall t :: t in Targets(normalize, defs, labels) && t >= 0 ==> t in ages
  {
    hide Find, Answer, Increasing, Answers;
    forall i: nat | i < |u| ensures u[i].age < |defs| && defs[u[i].age] == u[i] { EntryKept(u, defs, i); }
    forall i: nat, j: nat | i < j < |u| ensures ages[i] != ages[j] { if u[i] == u[j] { OnlyOne(u, i, j); } }
    forall t | t in Targets(normalize, defs, labels) && t >= 0 ensures t in ages {
      var i :| 0 <= i < |labels| && Targets(normalize, defs, labels)[i] == t;
      var r := Answer(normalize, defs, labels[i], 0);
      FoundKept(u, defs, normalize(labels[i]));
      assert r.value in u;
      var k :| 0 <= k < |u| && u[k] == r.value;
      assert ages[k] == t;
    }
  }

  lemma FoundKept(u: seq<Entry>, defs: seq<Entry>, key: string)
    requires Answers(u, defs)
    ensures Find(defs, key).Some? ==> Find(defs, key).value in u
  {
    assert AnswersKey(u, defs, key);
  }

  lemma EntryKept(u: seq<Entry>, defs: seq<Entry>, i: nat)
    requires Increasing(u) && Answers(u, defs) && Aged(defs, 0) && i < |u|
    ensures u[i].age < |defs| && defs[u[i].age] == u[i]
  {
    hide Find, Increasing;
    assert AnswersKey(u, defs, u[i].key);
    assert u[i] in u;
    var e := Find(defs, u[i].key).value;
    var j :| 0 <= j < |u| && u[j] == e;
    OnlyOne(u, i, j);
    var k :| 0 <= k < |defs| && defs[k] == e;
  }

  lemma {:induction false} LabelledDistinct(normalize: string -> string, ds: seq<Definition>)
    requires Distinct(DefNodes(ds))
    ensures Distinct(DefNodes(Labelled(normalize, ds)))
    ensures forall x :: x in DefNodes(Labelled(normalize, ds)) ==> x in DefNodes(ds)
  {
    if ds != [] {
      var r, d := ds[..|ds| - 1], ds[|ds| - 1];
      var l := Labelled(normalize, r);
      assert DefNodes(ds) == DefNodes(r) + [d.node];
      DistinctEnd(DefNodes(r), d.node);
      LabelledDistinct(normalize, r);
      assert l + [] == l;
      assert DefNodes(l + [d]) == DefNodes(l) + [d.node];
      DistinctAdd(DefNodes(l), d.node);
    }
  }

  lemma DistinctEnd(s: seq<nat>, x: nat)
    requires Distinct(s + [x])
    ensures Distinct(s) && x !in s
  {
    assert (s + [x])[|s|] == x && forall i :: 0 <= i < |s| ==> (s + [x])[i] == s[i];
  }

  lemma DistinctAdd(s: seq<nat>, x: nat)
    requires Distinct(s) && x !in s
    ensures Distinct(s + [x])
  {
  }

  /** What is written out is what is referenced, in the order of first reference. */
  lemma OrderSeen(order: seq<nat>, ix: seq<nat>, counts: seq<nat>, ts: seq<int>)
    requires Counted(ts, ix, counts) && ByIx(order, ix)
    requires forall d :: d in order ==> d < |ix|
    requires forall t :: t in ts && t >= 0 ==> t in order
    ensures Referenced(order, ix) == FirstSeen(ts)
    ensures forall d :: d in FirstSeen(ts) ==> d < |ix| && Key(ix, d) > 0
    ensures |counts| == |ix| && forall d :: 0 <= d < |ix| ==> counts[d] == Count(ts, d) && (Key(ix, d) > 0 ==> d in order)
  {
    hide FirstSeen, Count, Number, ByIx, Referenced;
    NumberedByFirstReference(ts);
    var f := FirstSeen(ts);
    assert f[..|f|] == f;
    InOrder(order, ix, f, |f|);
    ReferencedMember(order, ix);
  }

  lemma NoOrder(ix: seq<nat>, ts: seq<int>, nodes: seq<nat>)
    requires forall t :: t in ts ==> t < 0
    ensures FirstSeen(ts) == [] && ByIx([], ix) && Pick(nodes, []) == []
  {
    NumberedByFirstReference(ts);
    if FirstSeen(ts) != [] { assert FirstSeen(ts)[0] in FirstSeen(ts); }
  }

  /** The end of `process_footnotes` in the tree: the definitions leave their places, and those that are
      referenced follow the other children of the root in the order of their numbers. */
  method PlaceDefinitions(store: Store, root: nat, refmap: Map, nodes: seq<nat>, ix: seq<nat>, ghost counts: seq<nat>, ghost labels: seq<string>)
    returns (ghost gone: set<nat>)
    requires store.Valid() && Definitions(store.heap, root, nodes) && refmap.Valid() && |nodes| == |refmap.Defs()| == |ix|
    requires var ts := Targets(refmap.normalize, refmap.Defs(), labels);
             Counted(ts, ix, counts) && ((forall t :: t in ts ==> t < 0) || refmap.sorted != null)
    modifies store`heap, store`kids
    ensures var ts := Targets(refmap.normalize, refmap.Defs(), labels);
            && (forall d :: d in FirstSeen(ts) ==> d < |nodes|) && (forall x :: x in gone <==> x in nodes)
            && Tailed(old(store.heap), old(store.kids), root, gone, Pick(nodes, FirstSeen(ts)), store.heap, store.kids)
            && |counts| == |nodes| && forall d :: 0 <= d < |nodes| ==> counts[d] == Count(ts, d) && (ix[d] == 0 <==> d !in FirstSeen(ts))
  {
    hide Forest, Tailed, Answers, Increasing, Targets, FirstSeen, Count, Number, Key, Referenced, Labelled, Pick, Distinct, ByIx;
    ghost var h0, kids0 := store.heap, store.kids;
    ghost var defs := refmap.Defs();
    ghost var ts := Targets(refmap.normalize, defs, labels);
    var order: seq<nat> := [];
    gone := {};
    if refmap.sorted != null {
      var sorted: array<Entry> := refmap.sorted;
      var ages := seq(refmap.size, i requires 0 <= i < sorted.Length reads sorted => sorted[i].age);
      SortedAges(sorted[..refmap.size], defs, ages, refmap.normalize, labels);
      SortByIxOk(ages, ix);
      order := SortByIx(ages, ix);
      gone := WriteOut(store, root, nodes, order, ix);
    } else {
      StartTailed(h0, kids0, root);
      NoOrder(ix, ts, nodes);
    }
    OrderSeen(order, ix, counts, ts);
    ghost var done := gone;
    gone := UnlinkRest(store, root, nodes, ix, h0, kids0, gone, FirstSeen(ts));
    AllGone(nodes, order, ix, done, gone);
  }

  lemma AllGone(nodes: seq<nat>, order: seq<nat>, ix: seq<nat>, done: set<nat>, gone: set<nat>)
    requires |ix| == |nodes| && (forall x :: x in done ==> x in nodes)
    requires forall d :: 0 <= d < |nodes| ==> (d in order ==> nodes[d] in done) && (Key(ix, d) > 0 ==> d in order)
    requires forall x :: x in gone <==> x in done || exists d :: 0 <= d < |nodes| && Key(ix, d) == 0 && nodes[d] == x
    ensures forall x :: x in gone <==> x in nodes
  {
    hide Key;
    forall x | x in nodes ensures x in gone {
      var d :| 0 <= d < |nodes| && nodes[d] == x;
    }
  }
}
