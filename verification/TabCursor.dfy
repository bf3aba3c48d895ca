/** The cursor of the block parser over one line: byte offset, virtual column with tab stops, a tab
    consumed in part, and the cached position of the next non-space. */
module TabCursor {
  import Feed

  const TAB_STOP: nat := 4

  // ---------------------------------------------------------------- columns of a line

  /** `peek_at`: a line ends in a NUL. */
  function Peek(s: string, i: nat): char {
    if i < |s| then s[i] else '\0'
  }

  predicate IsSpaceOrTab(c: char) { c == ' ' || c == '\t' }

  /** From column `w` to the next tab stop. */
  function CharsToTab(w: nat): (n: nat)
    ensures 1 <= n <= TAB_STOP
  {
    TAB_STOP - w % TAB_STOP
  }

  lemma TabSteps(w: nat, n: nat)
    requires n <= CharsToTab(w)
    ensures CharsToTab(w + n) == if n == CharsToTab(w) then TAB_STOP else CharsToTab(w) - n
  {
  }

  /** The column after a character that starts at column `w`. */
  function After(c: char, w: nat): (a: nat)
    ensures a > w
  {
    if c == '\t' then w + CharsToTab(w) else w + 1
  }

  /** A tab ends at the next multiple of four, any other character one column on. */
  lemma TabEnds(c: char, w: nat)
    ensures var a := After(c, w); if c == '\t' then a % 4 == 0 && w < a <= w + 4 else a == w + 1
  {
  }

  /** The column of byte `k` when byte `base` has column 0. */
  function Width(s: string, base: nat, k: nat): nat
    requires base <= k <= |s|
  {
    if k == base then 0 else After(s[k - 1], Width(s, base, k - 1))
  }

  /** Where the cursor stops: at a NUL or the end. */
  function Stop(s: string, k: nat): (n: nat)
    requires k <= |s|
    ensures k <= n <= |s| && Peek(s, n) == '\0' && forall i :: k <= i < n ==> s[i] != '\0'
    decreases |s| - k
  {
    if k == |s| || s[k] == '\0' then k else Stop(s, k + 1)
  }

  /** The next byte that is no space or tab. */
  function Solid(s: string, k: nat): (n: nat)
    requires k <= |s|
    ensures k <= n <= |s| && !IsSpaceOrTab(Peek(s, n)) && forall i :: k <= i < n ==> IsSpaceOrTab(s[i])
    decreases |s| - k
  {
    if k == |s| || !IsSpaceOrTab(s[k]) then k else Solid(s, k + 1)
  }

  /** A position of the cursor. */
  datatype Place = Place(offset: nat, column: nat, partial: bool)

  /** The only position with column `c` at or after byte `k`, which has column `w`. */
  function PlaceAt(s: string, k: nat, w: nat, stop: nat, c: nat): Place
    requires k <= stop <= |s|
    decreases stop - k
  {
    if k == stop then Place(k, w, false)
    else if c < After(s[k], w) then Place(k, c, c > w)
    else PlaceAt(s, k + 1, After(s[k], w), stop, c)
  }

  /** The column is the width of the bytes consumed, plus the used part of a tab consumed in part. */
  ghost predicate Placed(s: string, base: nat, p: Place) {
    && base <= p.offset <= Stop'(s, base)
    && (if p.partial then p.offset < Stop'(s, base) && s[p.offset] == '\t' && Width(s, base, p.offset) < p.column < Width(s, base, p.offset + 1)
        else p.column == Width(s, base, p.offset))
  }

  function Stop'(s: string, base: nat): (n: nat)
    ensures n <= |s| && (base <= |s| ==> base <= n)
  {
    if base <= |s| then Stop(s, base) else 0
  }

  lemma {:induction false} WidthGrows(s: string, base: nat, i: nat, j: nat)
    requires base <= i <= j <= |s|
    ensures Width(s, base, i) + (j - i) <= Width(s, base, j)
  {
    if i < j { WidthGrows(s, base, i, j - 1); }
  }

  /** The column alone tells where the cursor is. */
  lemma {:induction false} PlacedOnce(s: string, base: nat, p: Place, k: nat)
    requires Placed(s, base, p) && base <= k <= p.offset
    ensures p == PlaceAt(s, k, Width(s, base, k), Stop'(s, base), p.column)
    decreases p.offset - k
  {
    if k < p.offset {
      WidthGrows(s, base, k + 1, p.offset);
      PlacedOnce(s, base, p, k + 1);
    }
  }

  lemma {:induction false} PlaceAtPlaced(s: string, base: nat, k: nat, c: nat)
    requires base <= k <= Stop'(s, base) && base <= |s| && Width(s, base, k) <= c <= Width(s, base, Stop'(s, base))
    ensures Placed(s, base, PlaceAt(s, k, Width(s, base, k), Stop'(s, base), c))
    ensures PlaceAt(s, k, Width(s, base, k), Stop'(s, base), c).column == c
    decreases Stop'(s, base) - k
  {
    if k < Stop'(s, base) && c >= After(s[k], Width(s, base, k)) {
      PlaceAtPlaced(s, base, k + 1, c);
    }
  }

  function Min(a: nat, b: nat): nat { if a <= b then a else b }

  /** `n` columns further on, or at the end of the line. */
  ghost function Further(s: string, base: nat, p: Place, n: nat): (q: Place)
    requires Placed(s, base, p) && base <= |s|
    ensures Placed(s, base, q) && q.column == Min(p.column + n, Width(s, base, Stop'(s, base)))
  {
    EndWide(s, base, p);
    PlaceAtPlaced(s, base, base, Min(p.column + n, Width(s, base, Stop'(s, base))));
    PlaceAt(s, base, 0, Stop'(s, base), Min(p.column + n, Width(s, base, Stop'(s, base))))
  }

  lemma EndWide(s: string, base: nat, p: Place)
    requires Placed(s, base, p) && base <= |s|
    ensures p.column <= Width(s, base, Stop'(s, base))
  {
    WidthGrows(s, base, p.offset, Stop'(s, base));
    if p.partial { WidthGrows(s, base, p.offset + 1, Stop'(s, base)); }
  }

  /** Advancing by columns in parts is advancing at once. */
  lemma AdvanceInParts(s: string, base: nat, p: Place, a: nat, b: nat)
    requires Placed(s, base, p) && base <= |s|
    ensures Further(s, base, Further(s, base, p, a), b) == Further(s, base, p, a + b)
  {
    var q, r := Further(s, base, Further(s, base, p, a), b), Further(s, base, p, a + b);
    EndWide(s, base, p);
    PlacedOnce(s, base, q, base);
    PlacedOnce(s, base, r, base);
  }

  // ---------------------------------------------------------------- the cursor

  class Cursor {
    const input: string
    const base: nat              // 3 after a byte order mark, else 0
    var offset: nat
    var column: nat
    var partiallyConsumedTab: bool
    var firstNonspace: nat
    var firstNonspaceColumn: nat
    var indent: int
    var blank: bool
    var thematicBreakKillPos: nat

    ghost function Here(): Place
      reads this`offset, this`column, this`partiallyConsumedTab
    {
      Place(offset, column, partiallyConsumedTab)
    }

    /** A cache that is not stale holds what a fresh scan would find. */
    ghost predicate Valid()
      reads this`offset, this`column, this`partiallyConsumedTab, this`firstNonspace, this`firstNonspaceColumn
    {
      && base <= |input| && Placed(input, base, Here())
      && (firstNonspace > offset ==> firstNonspace == Solid(input, offset) && firstNonspaceColumn == Width(input, base, firstNonspace))
    }

    /** The start of `S_process_line`. */
    constructor (input: string, bom: bool)
      requires bom ==> |input| >= 3
      ensures Valid() && this.input == input && base == (if bom then 3 else 0)
      ensures Here() == Place(base, 0, false) && firstNonspace == 0 && thematicBreakKillPos == 0
    {
      this.input := input;
      base := if bom then 3 else 0;
      offset := if bom then 3 else 0;
      column, partiallyConsumedTab := 0, false;
      firstNonspace, firstNonspaceColumn, indent, blank, thematicBreakKillPos := 0, 0, 0, false, 0;
    }

    /** `S_find_first_nonspace`: with or without the cache, the answer of a fresh scan. */
    method FindFirstNonspace()
      requires Valid()
      modifies this`firstNonspace, this`firstNonspaceColumn, this`indent, this`blank
      ensures Valid()
      ensures firstNonspace == Solid(input, offset) && firstNonspaceColumn == Width(input, base, firstNonspace)
      ensures indent == Width(input, base, Solid(input, offset)) - column >= 0
      ensures blank == Feed.IsLineEnd(Peek(input, Solid(input, offset)))
    {
      hide Width, Solid, Placed;
      if firstNonspace <= offset {
        ScanNonspace();
      }
      SolidWide(input, base, Here());
      indent := firstNonspaceColumn - column;
      blank := Feed.IsLineEnd(Peek(input, firstNonspace));
    }

    /** The scan, when the cache is stale. */
    method ScanNonspace()
      requires Valid()
      modifies this`firstNonspace, this`firstNonspaceColumn
      ensures Valid() && firstNonspace == Solid(input, offset) && firstNonspaceColumn == Width(input, base, firstNonspace)
    {
      hide CharsToTab, Width, Solid, Placed;
      var charsToTab := CharsToTab(column);
      firstNonspace := offset;
      firstNonspaceColumn := column;
      PlacedInside(input, base, Here());
      var c := Peek(input, firstNonspace);
      while c != '\0'
        invariant offset <= firstNonspace <= |input| && c == Peek(input, firstNonspace)
        invariant Solid(input, offset) == Solid(input, firstNonspace)
        invariant charsToTab == CharsToTab(firstNonspaceColumn)
        invariant firstNonspaceColumn == if firstNonspace == offset then column else Width(input, base, firstNonspace)
        decreases |input| - firstNonspace
      {
        SolidStep(input, firstNonspace);
        TabSteps(firstNonspaceColumn, 1);
        TabSteps(firstNonspaceColumn, charsToTab);
        ColumnStep(input, base, Here(), firstNonspace, firstNonspaceColumn);
        if c == ' ' {
          firstNonspace := firstNonspace + 1;
          firstNonspaceColumn := firstNonspaceColumn + 1;
          charsToTab := charsToTab - 1;
          if charsToTab == 0 {
            charsToTab := TAB_STOP;
          }
        } else if c == '\t' {
          firstNonspace := firstNonspace + 1;
          firstNonspaceColumn := firstNonspaceColumn + charsToTab;
          charsToTab := TAB_STOP;
        } else {
          break;
        }
        c := Peek(input, firstNonspace);
      }
      SolidHere(input, firstNonspace);
      SolidWide(input, base, Here());
    }

    /** `S_advance_offset` */
    method AdvanceOffset(count: int, columns: bool)
      requires Valid()
      modifies this`offset, this`column, this`partiallyConsumedTab
      ensures Valid()
      ensures count <= 0 ==> Here() == old(Here())
      ensures count > 0 && columns ==> Here() == Further(input, base, old(Here()), count)
      ensures count > 0 && !columns ==> offset == Min(old(offset) + count, Stop'(input, base)) && !partiallyConsumedTab
    {
      hide Width, Solid, Placed, Stop', PlaceAt;
      var left := count;
      EndWide(input, base, Here());
      PlaceEnd(input, base, Here(), 0);
      while left > 0 && Peek(input, offset) != '\0'
        invariant Valid() && (left == count ==> Here() == old(Here()))
        invariant count <= 0 ==> left == count
        invariant count > 0 ==> 0 <= left <= count
        invariant columns && count > 0 ==> column + left == old(column) + count
        invariant !columns && count > 0 ==> offset + left == old(offset) + count && (left < count ==> !partiallyConsumedTab)
        decreases left
      {
        left := AdvanceOne(left, columns);
      }
      PlaceEnd(input, base, Here(), left);
      if count > 0 && columns { OnePlace(input, base, Here(), Further(input, base, old(Here()), count)); }
    }

    /** One turn of its loop. */
    method AdvanceOne(count: nat, columns: bool) returns (left: nat)
      requires Valid() && count > 0 && Peek(input, offset) != '\0'
      modifies this`offset, this`column, this`partiallyConsumedTab
      ensures Valid() && left < count
      ensures columns ==> column + left == old(column) + count
      ensures !columns ==> offset + left == old(offset) + count && !partiallyConsumedTab
    {
      hide CharsToTab, Width, Solid, Placed, Stop', PlaceAt;
      PlaceStep(input, base, Here(), count, columns);
      SolidStep(input, offset);
      SolidHere(input, offset);
      var c := Peek(input, offset);
      left := count;
      if c == '\t' {
        var charsToTab := CharsToTab(column);
        if columns {
          partiallyConsumedTab := charsToTab > left;
          var charsToAdvance := if left < charsToTab then left else charsToTab;
          column := column + charsToAdvance;
          offset := offset + if partiallyConsumedTab then 0 else 1;
          left := left - charsToAdvance;
        } else {
          partiallyConsumedTab := false;
          column := column + charsToTab;
          offset := offset + 1;
          left := left - 1;
        }
      } else {
        partiallyConsumedTab := false;
        offset := offset + 1;
        column := column + 1;
        left := left - 1;
      }
    }

    /** The padding of a list item whose marker is `matched` bytes long: one to four columns of white
        space before text belong to it, else just one, and the cursor goes back for the rest. */
    method ListPadding(matched: nat) returns (padding: nat)
      requires Valid() && matched > 0 && firstNonspace == Solid(input, offset) && firstNonspace + matched <= Stop'(input, base)
      modifies this`offset, this`column, this`partiallyConsumedTab
      ensures Valid()
      ensures var m := firstNonspace + matched; var j := Solid(input, m); var k := Width(input, base, j) - Width(input, base, m);
              if 1 <= k <= 4 && !Feed.IsLineEnd(Peek(input, j)) then padding == matched + k && Here() == Place(j, Width(input, base, j), false)
              else padding == matched + 1 && column == Width(input, base, m) + if k > 0 then 1 else 0
    {
      hide Width, Solid, Placed, Stop', PlaceAt;
      SolidWide(input, base, Here());
      AdvanceOffset(firstNonspace + matched - offset, false);
      var savePartiallyConsumedTab, saveOffset, saveColumn := partiallyConsumedTab, offset, column;
      PlacedInside(input, base, Here());
      SolidWide(input, base, Here());
      ghost var m, j := offset, Solid(input, offset);
      while column - saveColumn <= 5 && IsSpaceOrTab(Peek(input, offset))
        invariant Valid() && m <= offset && saveColumn <= column <= Width(input, base, j) && column - saveColumn <= 6
        decreases 6 - (column - saveColumn)
      {
        InSpace(input, base, Here(), m);
        EndWide(input, base, Here());
        OneFurther(input, base, Here(), m);
        AdvanceOffset(1, true);
      }
      InSpace(input, base, Here(), m);
      var i := column - saveColumn;
      if i >= 5 || i < 1 || Feed.IsLineEnd(Peek(input, offset)) {
        padding := matched + 1;
        offset := saveOffset;
        column := saveColumn;
        partiallyConsumedTab := savePartiallyConsumedTab;
        if i > 0 {
          SolidHere(input, offset);
          OneFurther(input, base, Here(), m);
          AdvanceOffset(1, true);
        }
      } else {
        padding := matched + i;
      }
    }

    /** The text `add_line` takes from the line. */
    method AddLine() returns (text: string)
      requires Valid()
      modifies this`offset
      ensures text == Taken(input, old(Here()))
      ensures column <= |Expand(input[base..], 0)| && Expand(text, column) == Expand(input[base..], 0)[column..]
    {
      text := "";
      TakenExpands(input, base, Here());
      PlacedInside(input, base, Here());
      if partiallyConsumedTab {
        offset := offset + 1;
        var charsToTab := CharsToTab(column);
        for i := 0 to charsToTab
          invariant text == Spaces(i)
        {
          text := text + " ";
        }
      }
      text := text + input[offset..];
    }

    // -------------------------------------------------------------- thematic breaks

    /** Between the place scanned last and the kill position no thematic break begins. */
    ghost predicate KillOk(scanned: nat)
      reads this`thematicBreakKillPos
    {
      forall q :: scanned <= q < thematicBreakKillPos ==> !Breaks(input, q)
    }

    /** `S_scan_thematic_break` */
    method ScanThematicBreak(at: nat) returns (matched: nat)
      requires at < |input|
      modifies this`thematicBreakKillPos
      ensures matched > 0 <==> Breaks(input, at)
      ensures matched > 0 ==> at + matched == RunEnd(input, input[at], at + 1) + 1 && thematicBreakKillPos == old(thematicBreakKillPos)
      ensures matched == 0 ==> KillOk(at)
    {
      var i := at;
      var c := input[i];
      if !(c == '*' || c == '_' || c == '-') {
        thematicBreakKillPos := i;
        return 0;
      }
      var count := 1;
      i := i + 1;
      var nextc := Peek(input, i);
      while nextc != '\0'
        invariant at < i <= |input| && nextc == Peek(input, i)
        invariant RunEnd(input, c, at + 1) == RunEnd(input, c, i)
        invariant count + Marks(input, c, i) == 1 + Marks(input, c, at + 1)
        decreases |input| - i
      {
        if nextc == c {
          count := count + 1;
        } else if nextc != ' ' && nextc != '\t' {
          break;
        }
        i := i + 1;
        nextc := Peek(input, i);
      }
      if count >= 3 && (nextc == '\r' || nextc == '\n') {
        matched := (i - at) + 1;
      } else {
        thematicBreakKillPos := i;
        matched := 0;
        forall q | at <= q < i ensures !Breaks(input, q) { KillSound(input, at, q); }
      }
    }

    /** The guarded scan of `open_new_blocks`: the kill position saves scans and loses no break. */
    method TryThematicBreak(at: nat, ghost scanned: nat) returns (matched: nat, ghost scanned': nat)
      requires at < |input| && KillOk(scanned) && scanned <= at
      modifies this`thematicBreakKillPos
      ensures matched > 0 <==> Breaks(input, at)
      ensures KillOk(scanned') && scanned' <= at
    {
      scanned' := scanned;
      if thematicBreakKillPos <= at {
        matched := ScanThematicBreak(at);
        if matched == 0 { scanned' := at; }
      } else {
        matched := 0;
      }
    }
  }

  // ---------------------------------------------------------------- white space after a list marker

  /** Within the white space after byte `m`, the cursor is on a space or tab until its end. */
  lemma InSpace(s: string, base: nat, p: Place, m: nat)
    requires Placed(s, base, p) && base <= m <= p.offset && m <= |s| && p.column <= Width(s, base, Solid(s, m))
    ensures p.offset <= Solid(s, m)
    ensures IsSpaceOrTab(Peek(s, p.offset)) <==> p.column < Width(s, base, Solid(s, m))
    ensures p.column == Width(s, base, Solid(s, m)) ==> p == Place(Solid(s, m), p.column, false)
  {
    var j := Solid(s, m);
    if p.offset > j {
      WidthGrows(s, base, j, p.offset);
      assert false;
    } else if p.offset < j {
      WidthGrows(s, base, p.offset + 1, j);
      WidthGrows(s, base, p.offset, p.offset + 1);
    }
  }

  lemma OneFurther(s: string, base: nat, p: Place, m: nat)
    requires Placed(s, base, p) && base <= m <= p.offset && m <= |s| && p.column < Width(s, base, Solid(s, m))
    ensures Further(s, base, p, 1).column == p.column + 1 && Further(s, base, p, 1).offset >= m
  {
    InSpace(s, base, p, m);
    var j, q := Solid(s, m), Further(s, base, p, 1);
    assert j <= Stop'(s, base) by { SpaceBeforeStop(s, base, m); }
    WidthGrows(s, base, j, Stop'(s, base));
    if q.offset < m {
      WidthGrows(s, base, q.offset + 1, p.offset);
    }
  }

  lemma SpaceBeforeStop(s: string, base: nat, m: nat)
    requires base <= m <= Stop'(s, base) && base <= |s|
    ensures Solid(s, m) <= Stop'(s, base)
  {
    var n := Stop'(s, base);
    assert n == |s| || s[n] == '\0';
  }

  // ---------------------------------------------------------------- the line with its tabs expanded

  function Spaces(n: nat): (r: string)
    ensures |r| == n
  {
    if n == 0 then "" else Spaces(n - 1) + " "
  }

  /** Tabs replaced by spaces, from column `w` on. */
  function Expand(s: string, w: nat): string {
    if s == "" then "" else (if s[0] == '\t' then Spaces(CharsToTab(w)) else [s[0]]) + Expand(s[1..], After(s[0], w))
  }

  function Taken(s: string, p: Place): string {
    if p.partial && p.offset < |s| then Spaces(CharsToTab(p.column)) + s[p.offset + 1..]
    else if p.offset <= |s| then s[p.offset..] else ""
  }

  lemma {:induction false} ExpandConcat(a: string, b: string, w: nat)
    ensures Expand(a + b, w) == Expand(a, w) + Expand(b, w + |Expand(a, w)|)
  {
    if a == "" {
      assert a + b == b;
    } else {
      assert (a + b)[0] == a[0] && (a + b)[1..] == a[1..] + b;
      ExpandConcat(a[1..], b, After(a[0], w));
    }
  }

  lemma {:induction false} ExpandSpaces(n: nat, w: nat)
    ensures Expand(Spaces(n), w) == Spaces(n)
  {
    if n > 0 {
      ExpandSpaces(n - 1, w);
      ExpandConcat(Spaces(n - 1), " ", w);
      assert " "[1..] == "";
      assert Expand(" ", w + (n - 1)) == " ";
    }
  }

  lemma {:induction false} ExpandWidth(s: string, base: nat, k: nat)
    requires base <= k <= |s|
    ensures |Expand(s[base..k], 0)| == Width(s, base, k)
  {
    if base < k {
      ExpandWidth(s, base, k - 1);
      var c := s[k - 1];
      assert s[base..k] == s[base..k - 1] + [c];
      ExpandConcat(s[base..k - 1], [c], 0);
      assert [c][1..] == "";
      assert Expand([c][1..], After(c, Width(s, base, k - 1))) == "";
    } else {
      assert s[base..k] == "";
    }
  }

  lemma SpacesSplit(m: nat, n: nat)
    ensures Spaces(m + n)[m..] == Spaces(n)
  {
    AllSpaces(m + n);
    AllSpaces(n);
  }

  lemma {:induction false} AllSpaces(n: nat)
    ensures forall i :: 0 <= i < n ==> Spaces(n)[i] == ' '
  {
    if n > 0 { AllSpaces(n - 1); }
  }

  /** What is taken from the cursor on is what the expanded line holds from its column on. */
  lemma TakenExpands(s: string, base: nat, p: Place)
    requires Placed(s, base, p) && base <= |s|
    ensures p.column <= |Expand(s[base..], 0)|
    ensures Expand(Taken(s, p), p.column) == Expand(s[base..], 0)[p.column..]
  {
    hide Expand, Spaces, CharsToTab;
    var k, w := p.offset, Width(s, base, p.offset);
    ExpandWidth(s, base, k);
    ExpandConcat(s[base..k], s[k..], 0);
    assert s[base..] == s[base..k] + s[k..];
    if p.partial {
      TabExpands(s, k, w, p.column);
    }
  }

  lemma ExpandTab(s: string, w: nat)
    requires s != "" && s[0] == '\t'
    ensures Expand(s, w) == Spaces(CharsToTab(w)) + Expand(s[1..], w + CharsToTab(w))
  {
  }

  lemma TabExpands(s: string, k: nat, w: nat, c: nat)
    requires k < |s| && s[k] == '\t' && w < c < w + CharsToTab(w)
    ensures c - w <= |Expand(s[k..], w)|
    ensures Expand(Spaces(CharsToTab(c)) + s[k + 1..], c) == Expand(s[k..], w)[c - w..]
  {
    hide Spaces, CharsToTab, Expand;
    ExpandTab(s[k..], w);
    TabSteps(w, c - w);
    assert s[k..][1..] == s[k + 1..];
    var rest := Expand(s[k + 1..], w + CharsToTab(w));
    ExpandConcat(Spaces(CharsToTab(c)), s[k + 1..], c);
    ExpandSpaces(CharsToTab(c), c);
    SpacesSplit(c - w, CharsToTab(c));
    assert Expand(s[k..], w) == Spaces(CharsToTab(w)) + rest;
    assert CharsToTab(w) == (c - w) + CharsToTab(c);
    DropConcat(Spaces(CharsToTab(w)), rest, c - w);
  }

  lemma DropConcat(a: string, b: string, n: nat)
    requires n <= |a|
    ensures (a + b)[n..] == a[n..] + b
  {
  }

  // ---------------------------------------------------------------- where a thematic break may begin

  /** The first byte from `i` on that is no `c`, space or tab. */
  function RunEnd(s: string, c: char, i: nat): (n: nat)
    requires i <= |s|
    ensures i <= n <= |s|
    decreases |s| - i
  {
    if i == |s| || s[i] == '\0' || !(s[i] == c || IsSpaceOrTab(s[i])) then i else RunEnd(s, c, i + 1)
  }

  /** How many `c` there are before that. */
  function Marks(s: string, c: char, i: nat): nat
    requires i <= |s|
    decreases |s| - i
  {
    if i == |s| || s[i] == '\0' || !(s[i] == c || IsSpaceOrTab(s[i])) then 0
    else (if s[i] == c then 1 else 0) + Marks(s, c, i + 1)
  }

  /** Three or more of one of the marks, with spaces and tabs, up to the end of the line. */
  predicate Breaks(s: string, at: nat) {
    && at < |s| && s[at] in "*_-"
    && 1 + Marks(s, s[at], at + 1) >= 3 && Feed.IsLineEnd(Peek(s, RunEnd(s, s[at], at + 1)))
  }

  /** A break told from the line: only marks of one kind, spaces and tabs stand before its end, and three marks. */
  ghost predicate BreakFrom(s: string, at: nat, end: nat) {
    && at < end <= |s| && s[at] in "*_-" && Feed.IsLineEnd(Peek(s, end))
    && (forall k :: at <= k < end ==> s[k] != '\0' && (s[k] == s[at] || IsSpaceOrTab(s[k])))
    && exists i, j :: at < i < j < end && s[i] == s[at] && s[j] == s[at]
  }

  lemma {:induction false} MarksIn(s: string, c: char, i: nat)
    requires i <= |s| && !IsSpaceOrTab(c)
    ensures var e := RunEnd(s, c, i); forall k :: i <= k < e ==> s[k] != '\0' && (s[k] == c || IsSpaceOrTab(s[k]))
    ensures var e := RunEnd(s, c, i); e < |s| ==> s[e] == '\0' || !(s[e] == c || IsSpaceOrTab(s[e]))
    ensures Marks(s, c, i) > 0 <==> exists k :: i <= k < RunEnd(s, c, i) && s[k] == c
    ensures Marks(s, c, i) > 1 <==> exists k, j :: i <= k < j < RunEnd(s, c, i) && s[k] == c && s[j] == c
    decreases |s| - i
  {
    if i < |s| && s[i] != '\0' && (s[i] == c || IsSpaceOrTab(s[i])) {
      MarksIn(s, c, i + 1);
      var e := RunEnd(s, c, i + 1);
      if exists k :: i + 1 <= k < e && s[k] == c {
        var k :| i + 1 <= k < e && s[k] == c;
        assert s[i] == c ==> i < k < e && s[i] == c && s[k] == c;
      }
    }
  }

  lemma BreakMeans(s: string, at: nat)
    ensures Breaks(s, at) <==> exists end :: BreakFrom(s, at, end)
  {
    hide RunEnd, Marks;
    if at < |s| && s[at] in "*_-" {
      MarksIn(s, s[at], at + 1);
      var e := RunEnd(s, s[at], at + 1);
      if Breaks(s, at) { assert BreakFrom(s, at, e); }
      if exists end :: BreakFrom(s, at, end) {
        var end :| BreakFrom(s, at, end);
        assert end == e;
      }
    }
  }

  lemma {:induction false} MarksFall(s: string, c: char, i: nat, j: nat)
    requires i <= |s| && i <= j <= RunEnd(s, c, i)
    ensures j <= |s| && RunEnd(s, c, j) == RunEnd(s, c, i) && Marks(s, c, j) <= Marks(s, c, i)
    ensures i < j ==> s[j - 1] == c || IsSpaceOrTab(s[j - 1])
    decreases j - i
  {
    if i < j { MarksFall(s, c, i + 1, j); }
  }

  /** A scan that fails from `p` fails from everywhere between `p` and where it stopped. */
  lemma KillSound(s: string, p: nat, q: nat)
    requires p < |s| && s[p] in "*_-" && !Breaks(s, p) && p <= q < RunEnd(s, s[p], p + 1)
    ensures !Breaks(s, q)
  {
    if p < q {
      MarksFall(s, s[p], p + 1, q + 1);
    }
  }

  // ---------------------------------------------------------------- steps of the loops

  lemma SolidStep(s: string, k: nat)
    requires k <= |s|
    ensures IsSpaceOrTab(Peek(s, k)) ==> k < |s| && Solid(s, k) == Solid(s, k + 1) > k
  {
  }

  lemma SolidHere(s: string, k: nat)
    requires k <= |s|
    ensures !IsSpaceOrTab(Peek(s, k)) ==> Solid(s, k) == k
  {
  }

  lemma PlacedInside(s: string, base: nat, p: Place)
    requires Placed(s, base, p) && base <= |s|
    ensures base <= p.offset <= |s|
    ensures !p.partial ==> p.column == Width(s, base, p.offset)
  {
  }

  /** The scan's column after one more byte. */
  lemma ColumnStep(s: string, base: nat, p: Place, k: nat, w: nat)
    requires Placed(s, base, p) && base <= |s| && p.offset <= k < |s|
    requires w == if k == p.offset then p.column else Width(s, base, k)
    ensures Width(s, base, k + 1) == After(s[k], w)
  {
  }

  lemma SolidWide(s: string, base: nat, p: Place)
    requires Placed(s, base, p) && base <= |s|
    ensures p.offset <= Solid(s, p.offset) && Width(s, base, Solid(s, p.offset)) >= p.column
    ensures Solid(s, p.offset) == p.offset ==> Width(s, base, p.offset) == p.column
  {
    if p.partial {
      WidthGrows(s, base, p.offset + 1, Solid(s, p.offset));
    } else {
      WidthGrows(s, base, p.offset, Solid(s, p.offset));
    }
  }

  /** One turn of `S_advance_offset` keeps the column right. */
  lemma PlaceStep(s: string, base: nat, p: Place, left: nat, columns: bool)
    requires Placed(s, base, p) && base <= |s| && left > 0 && Peek(s, p.offset) != '\0'
    ensures base <= p.offset < |s|
    ensures s[p.offset] == '\t' && columns ==>
              Placed(s, base, if left < CharsToTab(p.column) then Place(p.offset, p.column + left, true)
                              else Place(p.offset + 1, p.column + CharsToTab(p.column), false))
    ensures s[p.offset] == '\t' && !columns ==> Placed(s, base, Place(p.offset + 1, p.column + CharsToTab(p.column), false))
    ensures s[p.offset] != '\t' ==> Placed(s, base, Place(p.offset + 1, p.column + 1, false))
  {
    assert p.offset < Stop'(s, base);
    if p.partial {
      var w := Width(s, base, p.offset);
      TabSteps(w, p.column - w);
    }
    WidthGrows(s, base, p.offset, p.offset + 1);
  }

  lemma OnePlace(s: string, base: nat, p: Place, q: Place)
    requires Placed(s, base, p) && Placed(s, base, q) && base <= |s| && p.column == q.column
    ensures p == q
  {
    PlacedOnce(s, base, p, base);
    PlacedOnce(s, base, q, base);
  }

  /** Where the loop ends: the count used up, or the end of the line. */
  lemma PlaceEnd(s: string, base: nat, p: Place, left: int)
    requires Placed(s, base, p) && base <= |s| && (left <= 0 || Peek(s, p.offset) == '\0')
    ensures base <= p.offset <= Stop'(s, base) <= |s| && p.column <= Width(s, base, Stop'(s, base))
    ensures left > 0 ==> p.offset == Stop'(s, base) && p.column == Width(s, base, Stop'(s, base)) && !p.partial
  {
    EndWide(s, base, p);
  }
}
