/** The blocks of a document: records in a store, addressed by number; a block is made after its parent. */
module Blocks {
  import opened NodeKinds
  import opened Lists

  /** `finals` counts the calls of `finalize` on the block, `lines` the lines added to it.  `blank` and `checked`
      are the flags LAST_LINE_BLANK and LAST_LINE_CHECKED, `tight` is the field of a list. */
  datatype Block = Block(kind: Kind, fenced: bool, open: bool, freed: bool, parent: int, children: seq<nat>,
                         lines: nat, finals: nat, blank: bool, checked: bool, tight: bool)

  type Store = seq<Block>

  const ROOT: nat := 0

  function NewBlock(kind: Kind, fenced: bool, parent: int): Block {
    Block(kind, fenced, true, false, parent, [], 0, 0, false, false, false)
  }

  predicate AcceptsLines(kind: Kind) {
    kind == Paragraph || kind == Heading || kind == CodeBlock
  }

  /** A list without one of its elements. */
  function Minus(s: seq<nat>, b: nat): (r: seq<nat>)
    ensures forall x :: x in r <==> x in s && x != b
    ensures s != [] && Last(s) != b ==> r != [] && Last(r) == Last(s)
  {
    if s == [] then [] else
      var r := Minus(Init(s), b);
      if Last(s) == b then r else r + [Last(s)]
  }

  lemma {:induction false} MinusAscends(s: seq<nat>, b: nat)
    requires Ascends(s)
    ensures Ascends(Minus(s, b))
  {
    if s != [] {
      MinusAscends(Init(s), b);
      var r := Minus(Init(s), b);
      forall i | 0 <= i < |r| ensures r[i] < Last(s) { assert r[i] in Init(s); }
    }
  }

  ghost predicate Ascends(s: seq<nat>) {
    forall i, j :: 0 <= i < j < |s| ==> s[i] < s[j]
  }

  /** Parents and children agree, parents are older, and every parent may contain its children. */
  ghost predicate Tree(t: Store) {
    && t != [] && t[ROOT].kind == Document && t[ROOT].parent < 0
    && (forall b :: 0 <= b < |t| ==> t[b].parent < b)
    && forall b :: 0 <= b < |t| ==> KidsOk(t, b)
  }

  /** A block's children come in the order in which they were made. */
  ghost predicate KidsOk(t: Store, b: nat)
    requires b < |t|
  {
    && (forall c :: c in t[b].children ==> c < |t| && t[c].parent == b && CanContain(t[b].kind, t[c].kind))
    && Ascends(t[b].children)
  }

  lemma Kid(t: Store, b: nat, i: nat)
    requires Tree(t) && b < |t| && i < |t[b].children|
    ensures var c := t[b].children[i]; b < c < |t| && t[c].parent == b && CanContain(t[b].kind, t[c].kind)
  {
    assert KidsOk(t, b) && t[b].children[i] in t[b].children;
  }

  lemma Kids(t: Store, b: nat)
    requires Tree(t) && b < |t|
    ensures forall i :: 0 <= i < |t[b].children| ==> b < t[b].children[i] < |t| && t[t[b].children[i]].parent == b
    ensures Distinct(t[b].children)
  {
    forall i | 0 <= i < |t[b].children| ensures b < t[b].children[i] < |t| && t[t[b].children[i]].parent == b { Kid(t, b, i); }
    assert KidsOk(t, b);
  }

  /** The same but for the flags and the tightness of lists. */
  ghost predicate SameButBits(t: Store, u: Store) {
    |t| == |u| && forall b :: 0 <= b < |t| ==> u[b] == t[b].(blank := u[b].blank, checked := u[b].checked, tight := u[b].tight)
  }

  lemma BitsKeepTree(t: Store, u: Store)
    requires Tree(t) && SameButBits(t, u)
    ensures Tree(u)
  {
    hide CanContain;
    forall b | 0 <= b < |u| ensures KidsOk(u, b) { assert KidsOk(t, b); }
  }
}
