/** The label map of map.c: definitions in a list, sorted and deduplicated on the first lookup and
    then searched by halving, against a scan of the definitions in order. */
module RefMap {

  datatype Option<T> = None | Some(value: T)

  datatype Entry = Entry(key: string, age: nat, size: nat)

  const MAX_LABEL_LENGTH: nat := 1000

  // ---------------------------------------------------------------- the order

  /** `strcmp` on labels without NUL: negative, zero or positive. */
  function Compare(a: string, b: string): int {
    if a == "" then (if b == "" then 0 else -1)
    else if b == "" then 1
    else if a[0] < b[0] then -1
    else if a[0] > b[0] then 1
    else Compare(a[1..], b[1..])
  }

  lemma {:induction false} CompareOrder(a: string, b: string, c: string)
    ensures Compare(a, b) == 0 <==> a == b
    ensures Compare(a, b) < 0 <==> Compare(b, a) > 0
    ensures Compare(a, b) < 0 && Compare(b, c) < 0 ==> Compare(a, c) < 0
  {
    if a != "" && b != "" {
      CompareOrder(a[1..], b[1..], if c == "" then c else c[1..]);
      assert a == [a[0]] + a[1..] && b == [b[0]] + b[1..];
    }
  }

  /** `refcmp`: by label, and among equal labels by age. */
  function RefCmp(a: Entry, b: Entry): int {
    var c := Compare(a.key, b.key);
    if c != 0 then c else a.age - b.age
  }

  lemma RefCmpOrder(a: Entry, b: Entry, c: Entry)
    ensures RefCmp(a, b) <= 0 || RefCmp(b, a) <= 0
    ensures RefCmp(a, b) <= 0 && RefCmp(b, c) <= 0 ==> RefCmp(a, c) <= 0
  {
    CompareOrder(a.key, b.key, c.key);
    CompareOrder(b.key, a.key, c.key);
    CompareOrder(b.key, c.key, a.key);
    CompareOrder(a.key, c.key, b.key);
  }

  ghost predicate Sorted(s: seq<Entry>) {
    forall i, j :: 0 <= i < j < |s| ==> RefCmp(s[i], s[j]) <= 0
  }

  // ---------------------------------------------------------------- a stand-in for qsort

  function InsertSorted(e: Entry, s: seq<Entry>): seq<Entry> {
    if s == [] || RefCmp(e, s[0]) <= 0 then [e] + s else [s[0]] + InsertSorted(e, s[1..])
  }

  function SortEntries(s: seq<Entry>): seq<Entry> {
    if s == [] then [] else InsertSorted(s[0], SortEntries(s[1..]))
  }

  lemma SortedCons(e: Entry, s: seq<Entry>)
    requires Sorted(s) && forall f :: f in s ==> RefCmp(e, f) <= 0
    ensures Sorted([e] + s)
  {
    hide RefCmp;
    assert forall i :: 0 <= i < |s| ==> s[i] in s;
  }

  lemma SortedTail(s: seq<Entry>)
    requires Sorted(s) && s != []
    ensures Sorted(s[1..]) && forall f :: f in s[1..] ==> RefCmp(s[0], f) <= 0
  {
    hide RefCmp;
  }

  lemma {:induction false} InsertSortedOk(e: Entry, s: seq<Entry>)
    requires Sorted(s)
    ensures Sorted(InsertSorted(e, s)) && multiset(InsertSorted(e, s)) == multiset(s) + multiset{e}
    ensures forall f :: f in InsertSorted(e, s) <==> f == e || f in s
  {
    hide RefCmp, Sorted;
    if s != [] {
      SortedTail(s);
      assert s == [s[0]] + s[1..];
    }
    if s == [] || RefCmp(e, s[0]) <= 0 {
      forall f | f in s ensures RefCmp(e, f) <= 0 { RefCmpOrder(e, s[0], f); }
      SortedCons(e, s);
    } else {
      InsertSortedOk(e, s[1..]);
      RefCmpOrder(e, s[0], e);
      SortedCons(s[0], InsertSorted(e, s[1..]));
    }
  }

  lemma {:induction false} SortEntriesOk(s: seq<Entry>)
    ensures Sorted(SortEntries(s)) && multiset(SortEntries(s)) == multiset(s)
  {
    if s != [] {
      SortEntriesOk(s[1..]);
      InsertSortedOk(s[0], SortEntries(s[1..]));
      assert s == [s[0]] + s[1..];
    }
  }

  // ---------------------------------------------------------------- deduplication

  /** Of neighbours with the same label the first. */
  function Firsts(s: seq<Entry>): (u: seq<Entry>)
    ensures s != [] ==> u != [] && u[|u| - 1].key == s[|s| - 1].key
    ensures |u| <= |s|
  {
    if s == [] then []
    else
      var u, e := Firsts(s[..|s| - 1]), s[|s| - 1];
      if u != [] && Compare(e.key, u[|u| - 1].key) == 0 then
        CompareOrder(e.key, u[|u| - 1].key, ""); u
      else u + [e]
  }

  /** Labels strictly increase: the array can be searched by halving. */
  ghost predicate Increasing(s: seq<Entry>) {
    forall i, j :: 0 <= i < j < |s| ==> Compare(s[i].key, s[j].key) < 0
  }

  /** Every entry of `s` is outlived in `u` by one of its label that is no younger. */
  ghost predicate Covers(u: seq<Entry>, s: seq<Entry>) {
    forall e :: e in s ==> exists f :: f in u && f.key == e.key && f.age <= e.age
  }

  lemma {:induction false} FirstsOfSorted(s: seq<Entry>)
    requires Sorted(s)
    ensures Increasing(Firsts(s)) && Covers(Firsts(s), s) && forall f :: f in Firsts(s) ==> f in s
  {
    hide Compare, RefCmp, Sorted, Increasing, Covers;
    if s == [] {
      NothingToCover();
    } else {
      var r, e := s[..|s| - 1], s[|s| - 1];
      assert s == r + [e];
      SortedInit(r, e);
      FirstsOfSorted(r);
      FirstsEnd(r, e);
      if Firsts(r) != [] { assert Firsts(r)[|Firsts(r)| - 1] in Firsts(r); }
      if Firsts(r) != [] && e.key == Firsts(r)[|Firsts(r)| - 1].key {
        CoversRepeat(Firsts(r), r, e);
      } else {
        IncreasingEnd(Firsts(r), r, e);
        CoversEnd(Firsts(r), r, e);
      }
    }
  }

  lemma NothingToCover()
    ensures Increasing([]) && Covers([], [])
  {
  }

  lemma FirstsEnd(r: seq<Entry>, e: Entry)
    ensures var u := Firsts(r);
            Firsts(r + [e]) == if u != [] && e.key == u[|u| - 1].key then u else u + [e]
  {
    hide Compare;
    var u := Firsts(r);
    assert (r + [e])[..|r|] == r;
    if u != [] { CompareOrder(e.key, u[|u| - 1].key, ""); }
  }

  lemma SortedInit(r: seq<Entry>, e: Entry)
    requires Sorted(r + [e])
    ensures Sorted(r) && forall f :: f in r ==> RefCmp(f, e) <= 0
  {
    hide RefCmp;
    assert forall i :: 0 <= i < |r| ==> (r + [e])[i] == r[i];
    assert (r + [e])[|r|] == e;
  }

  lemma IncreasingEnd(u: seq<Entry>, r: seq<Entry>, e: Entry)
    requires Increasing(u) && (forall f :: f in u ==> f in r) && (forall f :: f in r ==> RefCmp(f, e) <= 0)
    requires u == [] || e.key != u[|u| - 1].key
    ensures Increasing(u + [e])
  {
    hide Compare;
    if u != [] {
      var last := u[|u| - 1];
      assert last in u;
      CompareOrder(last.key, e.key, "");
      forall i | 0 <= i < |u| ensures Compare(u[i].key, e.key) < 0 {
        CompareOrder(u[i].key, last.key, e.key);
      }
    }
  }

  lemma CoversEnd(u: seq<Entry>, r: seq<Entry>, e: Entry)
    requires Covers(u, r)
    ensures Covers(u + [e], r + [e])
  {
    forall d | d in r + [e] ensures exists f :: f in u + [e] && f.key == d.key && f.age <= d.age {
      if d in r {
        var f :| f in u && f.key == d.key && f.age <= d.age;
        assert f in u + [e];
      } else {
        assert d in u + [e];
      }
    }
  }

  /** The last entry repeats the label of the last one kept: that one is no younger. */
  lemma CoversRepeat(u: seq<Entry>, r: seq<Entry>, e: Entry)
    requires Covers(u, r) && (forall f :: f in r ==> RefCmp(f, e) <= 0)
    requires u != [] && u[|u| - 1] in r && e.key == u[|u| - 1].key
    ensures Covers(u, r + [e])
  {
    CompareOrder(e.key, e.key, "");
    assert u[|u| - 1] in u;
    forall d | d in r + [e] ensures exists f :: f in u && f.key == d.key && f.age <= d.age {
    }
  }

  // ---------------------------------------------------------------- what a lookup means

  /** The first definition of a label, scanning in order. */
  function Find(defs: seq<Entry>, key: string): (r: Option<Entry>)
    ensures r.Some? ==> r.value in defs && r.value.key == key
    ensures r.None? ==> forall e :: e in defs ==> e.key != key
  {
    if defs == [] then None
    else if defs[0].key == key then Some(defs[0])
    else Find(defs[1..], key)
  }

  /** The definitions carry their places as ages. */
  ghost predicate Aged(defs: seq<Entry>, from: nat) {
    forall i :: 0 <= i < |defs| ==> defs[i].age == from + i
  }

  lemma {:induction false} FindIsOldest(defs: seq<Entry>, from: nat, e: Entry)
    requires Aged(defs, from) && e in defs
    ensures Find(defs, e.key).Some? && Find(defs, e.key).value.age <= e.age
    ensures Find(defs, e.key).value.age == e.age ==> Find(defs, e.key).value == e
  {
    if defs[0].key != e.key {
      assert e in defs[1..];
      FindIsOldest(defs[1..], from + 1, e);
    } else {
      var i :| 0 <= i < |defs| && defs[i] == e;
    }
  }

  /** The searched array answers as the scan does. */
  ghost predicate Answers(u: seq<Entry>, defs: seq<Entry>) {
    forall key: string :: AnswersKey(u, defs, key)
  }

  ghost predicate AnswersKey(u: seq<Entry>, defs: seq<Entry>, key: string) {
    match Find(defs, key)
    case Some(e) => e in u
    case None => forall f :: f in u ==> f.key != key
  }

  /** Sorting by label and age and keeping the first of each label keeps the first definitions. */
  lemma SortedAnswers(defs: seq<Entry>, s: seq<Entry>)
    requires Aged(defs, 0) && Sorted(s) && multiset(s) == multiset(defs)
    ensures Increasing(Firsts(s)) && Answers(Firsts(s), defs)
  {
    FirstsOfSorted(s);
    var u := Firsts(s);
    hide Find, Firsts, Sorted, Increasing, Covers;
    forall key: string ensures AnswersKey(u, defs, key) {
      SortedAnswersKey(defs, s, u, key);
    }
  }

  lemma CoverOf(u: seq<Entry>, s: seq<Entry>, e: Entry) returns (f: Entry)
    requires Covers(u, s) && e in s
    ensures f in u && f.key == e.key && f.age <= e.age
  {
    f :| f in u && f.key == e.key && f.age <= e.age;
  }

  lemma SameElements(s: seq<Entry>, t: seq<Entry>)
    requires multiset(s) == multiset(t)
    ensures forall e :: e in s <==> e in t
  {
    assert forall e :: e in s <==> e in multiset(s);
    assert forall e :: e in t <==> e in multiset(t);
  }

  lemma SortedAnswersKey(defs: seq<Entry>, s: seq<Entry>, u: seq<Entry>, key: string)
    requires Aged(defs, 0) && multiset(s) == multiset(defs) && Covers(u, s) && forall f :: f in u ==> f in s
    ensures AnswersKey(u, defs, key)
  {
    hide Find, Aged, Covers;
    var r := Find(defs, key);
    SameElements(s, defs);
    if r.Some? {
      assert r.value in s;
      var f := CoverOf(u, s, r.value);
      FindIsOldest(defs, 0, f);
    }
  }

  function Reversed(s: seq<Entry>): (r: seq<Entry>)
    ensures |r| == |s| && forall i :: 0 <= i < |s| ==> r[i] == s[|s| - 1 - i]
  {
    seq(|s|, i requires 0 <= i < |s| => s[|s| - 1 - i])
  }

  lemma {:induction false} ReversedSame(s: seq<Entry>)
    ensures multiset(Reversed(s)) == multiset(s)
  {
    if s != [] {
      ReversedSame(s[1..]);
      assert Reversed(s) == Reversed(s[1..]) + [s[0]];
      assert s == [s[0]] + s[1..];
    }
  }

  /** One lookup with `left` of the budget left. */
  function Answer(normalize: string -> string, defs: seq<Entry>, key: string, left: nat): (r: Option<Entry>)
    ensures r.Some? ==> r.value.size <= left && Find(defs, normalize(key)) == r
  {
    if |key| < 1 || |key| > MAX_LABEL_LENGTH || normalize(key) == "" then None
    else
      var r := Find(defs, normalize(key));
      if r.Some? && r.value.size > left then None else r
  }

  /** The first definition of the label is the `i`-th. */
  ghost predicate FirstDefinition(defs: seq<Entry>, key: string, i: nat) {
    i < |defs| && defs[i].key == key && forall j :: 0 <= j < i ==> defs[j].key != key
  }

  lemma {:induction false} FindMeans(defs: seq<Entry>, key: string, i: nat)
    requires FirstDefinition(defs, key, i)
    ensures Find(defs, key) == Some(defs[i])
  {
    if i > 0 {
      assert forall j :: 0 <= j < i - 1 ==> defs[1..][j] == defs[j + 1];
      FindMeans(defs[1..], key, i - 1);
    }
  }

  /** A label of 1 to 1000 bytes that does not normalise to nothing is answered by its first definition, unless that
      is larger than what is left. */
  lemma AnswerMeans(normalize: string -> string, defs: seq<Entry>, key: string, left: nat, i: nat)
    requires FirstDefinition(defs, normalize(key), i)
    ensures Answer(normalize, defs, key, left)
         == if 1 <= |key| <= 1000 && normalize(key) != "" && defs[i].size <= left then Some(defs[i]) else None
  {
    FindMeans(defs, normalize(key), i);
  }

  function SizeOf(r: Option<Entry>): nat {
    if r.Some? then r.value.size else 0
  }

  // ---------------------------------------------------------------- the map

  class Map {
    const normalize: string -> string     // normalize_map_label; the empty string for NULL
    const maxRefSize: nat
    var refs: seq<Entry>                  // linked list, newest first
    var sorted: array?<Entry>
    var size: nat
    var refSize: nat

    ghost function Defs(): seq<Entry>
      reads this
    {
      Reversed(refs)
    }

    ghost predicate Valid()
      reads this, sorted
    {
      && Aged(Defs(), 0) && refSize <= maxRefSize
      && (sorted == null ==> size == |refs|)
      && (sorted != null ==> 1 <= size <= sorted.Length && Increasing(sorted[..size]) && Answers(sorted[..size], Defs()))
    }

    /** `cmark_map_new` */
    constructor (normalize: string -> string, maxRefSize: nat)
      ensures Valid() && Defs() == [] && sorted == null && refSize == 0
      ensures this.normalize == normalize && this.maxRefSize == maxRefSize
    {
      this.normalize, this.maxRefSize := normalize, maxRefSize;
      refs, sorted, size, refSize := [], null, 0, 0;
    }

    /** `cmark_reference_create`: definitions come before the first lookup, as the source asserts. */
    method Create(key: string, entrySize: nat)
      requires Valid() && sorted == null
      modifies this`refs, this`size
      ensures Valid()
      ensures normalize(key) == "" ==> Defs() == old(Defs())
      ensures normalize(key) != "" ==> Defs() == old(Defs()) + [Entry(normalize(key), |old(Defs())|, entrySize)]
    {
      if normalize(key) == "" {
        return;
      }
      refs := [Entry(normalize(key), size, entrySize)] + refs;
      size := size + 1;
      assert Defs() == old(Defs()) + [Entry(normalize(key), |old(Defs())|, entrySize)];
    }

    /** `sort_map` */
    method SortMap()
      requires Valid() && sorted == null && size > 0
      modifies this`sorted, this`size
      ensures Valid() && sorted != null && fresh(sorted)
    {
      hide Answers, Increasing, Aged, Sorted, Firsts;
      var a := new Entry[size](i => Entry("", 0, 0));
      for i := 0 to size
        invariant a[..i] == refs[..i]
      {
        a[i] := refs[i];
        assert a[..i + 1] == a[..i] + [refs[i]];
      }
      assert a[..] == refs[..] == refs;
      QSort(a);
      ghost var s := a[..];
      ReversedSame(refs);
      SortedAnswers(Defs(), s);
      assert |s| == |multiset(s)|;
      size := Dedup(a);
      sorted := a;
    }

    /** `bsearch` with `refsearch` over the first `size` entries. */
    method Search(key: string) returns (at: int)
      requires sorted != null && size <= sorted.Length && Increasing(sorted[..size])
      ensures -1 <= at < size && (at == -1 ==> forall i :: 0 <= i < size ==> sorted[i].key != key)
      ensures at != -1 ==> sorted[at].key == key
    {
      var lo, hi := 0, size;
      while lo < hi
        invariant 0 <= lo <= hi <= size
        invariant forall i :: 0 <= i < lo ==> sorted[i].key != key
        invariant forall i :: hi <= i < size ==> sorted[i].key != key
      {
        var mid := (lo + hi) / 2;
        var c := Compare(key, sorted[mid].key);
        CompareOrder(key, sorted[mid].key, "");
        CompareOrder(sorted[mid].key, key, "");
        if c < 0 {
          forall i | mid <= i < size ensures sorted[i].key != key { Beyond(sorted[..size], mid, i, key); }
          hi := mid;
        } else if c > 0 {
          forall i | 0 <= i <= mid ensures sorted[i].key != key { Beyond(sorted[..size], i, mid, key); }
          lo := mid + 1;
        } else {
          return mid;
        }
      }
      at := -1;
    }

    /** `cmark_map_lookup`: what a scan of the definitions finds, unless the budget is used up. */
    method Lookup(key: string) returns (r: Option<Entry>)
      requires Valid()
      modifies this`sorted, this`size, this`refSize
      ensures Valid() && Defs() == old(Defs())
      ensures r == Answer(normalize, Defs(), key, maxRefSize - old(refSize))
      ensures (r.Some? ==> sorted != null) && (old(sorted) != null ==> sorted == old(sorted) && size == old(size))
      ensures refSize == old(refSize) + SizeOf(r)
    {
      r := None;
      if |key| < 1 || |key| > MAX_LABEL_LENGTH {
        return;
      }
      if size == 0 {
        return;
      }
      var norm := normalize(key);
      if norm == "" {
        return;
      }
      if sorted == null {
        SortMap();
      }
      var at := Search(norm);
      ghost var u := sorted[..size];
      FoundRight(u, Defs(), norm, at);
      if at != -1 {
        var e := sorted[at];
        if e.size > maxRefSize - refSize {
          return;
        }
        refSize := refSize + e.size;
        r := Some(e);
      }
    }

    /** Any run of lookups: each is answered as by a scan with the budget left, and what they return
        adds up to `refSize`, which stays within the limit. */
    method LookupAll(labels: seq<string>) returns (rs: seq<Option<Entry>>)
      requires Valid()
      modifies this`sorted, this`size, this`refSize
      ensures Valid() && Defs() == old(Defs())
      ensures rs == AnswerAll(normalize, Defs(), labels, maxRefSize - old(refSize))
      ensures refSize == old(refSize) + Total(rs) <= maxRefSize
    {
      hide Answers, Increasing, Aged, AnswerAll, Answer;
      rs := [];
      assert labels[0..] == labels;
      for i := 0 to |labels|
        invariant Valid() && Defs() == old(Defs())
        invariant rs + AnswerAll(normalize, Defs(), labels[i..], maxRefSize - refSize) == AnswerAll(normalize, Defs(), labels, maxRefSize - old(refSize))
        invariant refSize == old(refSize) + Total(rs)
      {
        AnswerOne(normalize, Defs(), labels, i, maxRefSize - refSize);
        var r := Lookup(labels[i]);
        TotalEnd(rs, r);
        rs := rs + [r];
      }
      assert labels[|labels|..] == [] && AnswerAll(normalize, Defs(), [], maxRefSize - refSize) == [] by {
        NoLabels(normalize, Defs(), maxRefSize - refSize);
      }
    }
  }

  /** Put in order by `refcmp`, as the C library would. */
  method QSort(a: array<Entry>)
    modifies a
    ensures Sorted(a[..]) && multiset(a[..]) == multiset(old(a[..]))
  {
    var s := SortEntries(a[..]);
    SortEntriesOk(a[..]);
    assert |s| == |multiset(s)| == a.Length;
    forall i | 0 <= i < a.Length {
      a[i] := s[i];
    }
    assert a[..] == s;
  }

  /** The loop of `sort_map` over the sorted array: the first entry of each label moves to the front. */
  method Dedup(a: array<Entry>) returns (size: nat)
    requires a.Length > 0
    modifies a
    ensures 1 <= size <= a.Length && a[..size] == Firsts(old(a[..]))
  {
    hide Compare, Firsts;
    ghost var s := a[..];
    var last := 0;
    OneFirst(s[0]);
    assert s[..1] == [s[0]];
    for i := 1 to a.Length
      invariant last < i && a[..last + 1] == Firsts(s[..i]) && a[i..] == s[i..]
    {
      assert s[..i + 1] == s[..i] + [s[i]] && a[i] == a[i..][0] == s[i];
      assert a[last] == a[..last + 1][last];
      FirstsEnd(s[..i], s[i]);
      CompareOrder(a[i].key, a[last].key, "");
      if Compare(a[i].key, a[last].key) != 0 {
        last := last + 1;
        a[last] := a[i];
        assert a[..last + 1] == a[..last] + [s[i]];
      }
      assert a[i + 1..] == s[i + 1..];
    }
    assert s[..a.Length] == s;
    size := last + 1;
  }

  lemma OneFirst(e: Entry)
    ensures Firsts([e]) == [e]
  {
    assert [e][..0] == [];
  }

  lemma Beyond(u: seq<Entry>, i: nat, j: nat, key: string)
    requires Increasing(u) && i <= j < |u|
    ensures Compare(key, u[i].key) < 0 ==> u[j].key != key
    ensures Compare(key, u[j].key) > 0 ==> u[i].key != key
  {
    CompareOrder(key, u[i].key, "");
    CompareOrder(key, u[j].key, "");
    CompareOrder(u[i].key, key, "");
  }

  lemma FoundRight(u: seq<Entry>, defs: seq<Entry>, key: string, at: int)
    requires Increasing(u) && Answers(u, defs) && -1 <= at < |u|
    requires at == -1 ==> forall i :: 0 <= i < |u| ==> u[i].key != key
    requires at != -1 ==> u[at].key == key
    ensures Find(defs, key) == if at == -1 then None else Some(u[at])
  {
    hide Find, Increasing;
    assert AnswersKey(u, defs, key);
    if at != -1 { assert u[at] in u; }
    var r := Find(defs, key);
    if r.Some? {
      var i :| 0 <= i < |u| && u[i] == r.value;
      if at != -1 { OnlyOne(u, i, at); }
    }
  }

  lemma OnlyOne(u: seq<Entry>, i: nat, j: nat)
    requires Increasing(u) && i < |u| && j < |u| && u[i].key == u[j].key
    ensures i == j
  {
    CompareOrder(u[i].key, u[j].key, "");
    CompareOrder(u[j].key, u[i].key, "");
  }

  // ---------------------------------------------------------------- runs of lookups

  function AnswerAll(normalize: string -> string, defs: seq<Entry>, labels: seq<string>, left: nat): seq<Option<Entry>> {
    if labels == [] then []
    else
      var r := Answer(normalize, defs, labels[0], left);
      [r] + AnswerAll(normalize, defs, labels[1..], left - SizeOf(r))
  }

  lemma AnswerOne(normalize: string -> string, defs: seq<Entry>, labels: seq<string>, i: nat, left: nat)
    requires i < |labels|
    ensures var r := Answer(normalize, defs, labels[i], left);
            AnswerAll(normalize, defs, labels[i..], left) == [r] + AnswerAll(normalize, defs, labels[i + 1..], left - SizeOf(r))
  {
    assert labels[i..][0] == labels[i] && labels[i..][1..] == labels[i + 1..];
  }

  lemma NoLabels(normalize: string -> string, defs: seq<Entry>, left: nat)
    ensures AnswerAll(normalize, defs, [], left) == []
  {
  }

  function Total(rs: seq<Option<Entry>>): nat {
    if rs == [] then 0 else SizeOf(rs[0]) + Total(rs[1..])
  }

  lemma {:induction false} TotalEnd(rs: seq<Option<Entry>>, r: Option<Entry>)
    ensures Total(rs + [r]) == Total(rs) + SizeOf(r)
  {
    if rs != [] {
      assert (rs + [r])[1..] == rs[1..] + [r];
      TotalEnd(rs[1..], r);
    }
  }

  /** What a run returns fits the budget, and if what a scan would return fits, nothing is withheld. */
  lemma {:induction false} BudgetKept(normalize: string -> string, defs: seq<Entry>, labels: seq<string>, left: nat, whole: nat)
    requires left <= whole
    ensures Total(AnswerAll(normalize, defs, labels, left)) <= left
    ensures Total(AnswerAll(normalize, defs, labels, whole)) <= left ==>
              AnswerAll(normalize, defs, labels, left) == AnswerAll(normalize, defs, labels, whole)
  {
    if labels != [] {
      var r, s := Answer(normalize, defs, labels[0], left), Answer(normalize, defs, labels[0], whole);
      BudgetKept(normalize, defs, labels[1..], left - SizeOf(r), left - SizeOf(r));
      if SizeOf(s) <= left {
        assert Answer(normalize, defs, labels[0], left) == s;
        BudgetKept(normalize, defs, labels[1..], left - SizeOf(s), whole - SizeOf(s));
      }
    }
  }
}
