/** Code spans: the printer of commonmark.c against the parser of inlines.c. */
module CodeSpan {

  const MAX_BACKTICKS: nat := 80

  /** How many backticks stand at `i`. */
  function RunAt(s: string, i: nat): (n: nat)
    requires i <= |s|
    ensures i + n <= |s| && (forall k :: i <= k < i + n ==> s[k] == '`') && (i + n < |s| ==> s[i + n] != '`')
    decreases |s| - i
  {
    if i < |s| && s[i] == '`' then 1 + RunAt(s, i + 1) else 0
  }

  /** A whole run of backticks starts at `i`. */
  predicate StartsRun(s: string, i: nat) {
    i < |s| && s[i] == '`' && (i == 0 || s[i - 1] != '`')
  }

  ghost predicate HasRun(s: string, n: nat) {
    exists i :: 0 <= i < |s| && StartsRun(s, i) && RunAt(s, i) == n
  }

  lemma {:induction false} RunIs(s: string, i: nat, n: nat)
    requires i + n <= |s| && (forall k :: i <= k < i + n ==> s[k] == '`') && (i + n < |s| ==> s[i + n] != '`')
    ensures RunAt(s, i) == n
    decreases n
  {
    if n > 0 { RunIs(s, i + 1, n - 1); }
  }

  // ---------------------------------------------------------------- the fence

  /** `shortest_unused_backtick_sequence` */
  method ShortestUnusedBacktickSequence(code: string) returns (n: nat)
    ensures ShortestFence(code, n)
  {
    var used: set<nat> := {0};
    var current, i := 0, 0;
    while i <= |code|
      invariant 0 <= i <= |code| + 1 && 0 <= current <= i && current <= |code| && (i == |code| + 1 ==> current == 0)
      invariant forall k :: i - current <= k < i && k < |code| ==> code[k] == '`'
      invariant i <= |code| && current < i ==> code[i - current - 1] != '`'
      invariant Used(code, if i <= |code| then i - current else |code|, used)
      decreases |code| + 1 - i
    {
      hide Used;
      if i < |code| && code[i] == '`' {
        current := current + 1;
      } else {
        UsedRun(code, i, current, used);
        if current > 0 && current < 32 {
          used := used + {current};
        }
        current := 0;
      }
      i := i + 1;
    }
    n := 0;
    while n < 32 && n in used
      invariant 0 <= n <= 32 && forall m :: 0 <= m < n ==> m in used
    {
      n := n + 1;
    }
  }

  /** The bits set are the lengths of the runs that start before `j`. */
  ghost predicate Used(code: string, j: nat, used: set<nat>) {
    && 0 in used && (forall m :: m in used && m > 0 ==> HasRun(code, m))
    && forall k :: 0 <= k < j && StartsRun(code, k) && RunAt(code, k) < 32 ==> RunAt(code, k) in used
  }

  lemma UsedRun(code: string, i: nat, current: nat, used: set<nat>)
    requires current <= i <= |code| && Used(code, i - current, used)
    requires forall k :: i - current <= k < i ==> code[k] == '`'
    requires current < i ==> code[i - current - 1] != '`'
    requires i < |code| ==> code[i] != '`'
    ensures Used(code, if i < |code| then i + 1 else i, if 0 < current < 32 then used + {current} else used)
  {
    if current > 0 {
      RunIs(code, i - current, current);
      RunInside(code, i - current);
      assert StartsRun(code, i - current);
    }
  }

  lemma RunInside(s: string, i: nat)
    requires StartsRun(s, i)
    ensures forall k :: i < k < i + RunAt(s, i) ==> !StartsRun(s, k)
  {
  }

  // ---------------------------------------------------------------- the printer

  function Ticks(n: nat): (r: string)
    ensures |r| == n && forall i :: 0 <= i < n ==> r[i] == '`'
  {
    if n == 0 then "" else Ticks(n - 1) + "`"
  }

  lemma NoTicks()
    ensures Ticks(0) == ""
  {
  }

  lemma OneTick(n: nat)
    ensures Ticks(n) + "`" == Ticks(n + 1)
  {
  }

  predicate NeedsSpaces(code: string) {
    code == "" || code[0] in "` " || code[|code| - 1] in "` "
  }

  function Padded(code: string): (r: string)
    ensures r != "" && r[0] != '`' && r[|r| - 1] != '`'
  {
    if NeedsSpaces(code) then " " + code + " " else code
  }

  /** The printed span with a fence of `n` ticks. */
  function Rendered(code: string, n: nat): string {
    Ticks(n) + Padded(code) + Ticks(n)
  }

  /** All shorter runs occur in the code; below 32 a run of `n` itself does not. */
  ghost predicate ShortestFence(code: string, n: nat) {
    1 <= n <= 32 && (forall m :: 1 <= m < n ==> HasRun(code, m)) && (n < 32 ==> !HasRun(code, n))
  }

  /** The CODE case of `S_render_node`. */
  method RenderCode(code: string) returns (out: string)
    ensures exists n :: ShortestFence(code, n) && out == Rendered(code, n)
  {
    var numticks := ShortestUnusedBacktickSequence(code);
    ghost var n := numticks;
    var extraSpaces := |code| == 0 || code[0] == '`' || code[|code| - 1] == '`' || code[0] == ' ' || code[|code| - 1] == ' ';
    hide Ticks, HasRun;
    out := "";
    NoTicks();
    for i := 0 to numticks
      invariant out == Ticks(i)
    {
      OneTick(i);
      out := out + "`";
    }
    if extraSpaces {
      out := out + " ";
    }
    out := out + code;
    if extraSpaces {
      out := out + " ";
    }
    ghost var body := out;
    assert body == Ticks(n) + Padded(code);
    for i := 0 to numticks
      invariant out == body + Ticks(i)
    {
      OneTick(i);
      out := out + "`";
    }
  }

  // ---------------------------------------------------------------- the closing backticks

  /** The end of the first run of exactly `n` from `i` on, or 0, and what is remembered of the runs passed. */
  function Scan(s: string, i: nat, n: nat, cache: seq<nat>): (r: (nat, seq<nat>))
    requires i <= |s| && |cache| == MAX_BACKTICKS + 1
    ensures |r.1| == |cache| && (r.0 == 0 || (i <= r.0 - n && r.0 <= |s|))
    decreases |s| - i
  {
    if i == |s| then (0, cache)
    else if s[i] != '`' then Scan(s, i + 1, n, cache)
    else
      var k := RunAt(s, i);
      var cache' := if k <= MAX_BACKTICKS then cache[k := i] else cache;
      if k == n then (i + k, cache') else Scan(s, i + k, n, cache')
  }

  /** The end of the first run of exactly `n` from `i` on, if there is one. */
  ghost predicate Closes(s: string, i: nat, n: nat, end: nat) {
    && n <= end <= |s| && i <= end - n && StartsRun(s, end - n) && RunAt(s, end - n) == n
    && forall x :: i <= x < end - n && StartsRun(s, x) ==> RunAt(s, x) != n
  }

  ghost predicate Unclosed(s: string, i: nat, n: nat) {
    forall x :: i <= x < |s| && StartsRun(s, x) ==> RunAt(s, x) != n
  }

  /** A scan that starts outside the runs finds the closing run, if there is one. */
  lemma {:induction false} ScanFinds(s: string, i: nat, n: nat, cache: seq<nat>)
    requires i <= |s| && |cache| == MAX_BACKTICKS + 1 && n > 0
    requires i < |s| && s[i] == '`' ==> StartsRun(s, i)
    ensures var end := Scan(s, i, n, cache).0; if end == 0 then Unclosed(s, i, n) else Closes(s, i, n, end)
    decreases |s| - i
  {
    hide Closes, Unclosed, RunAt;
    if i == |s| {
      NothingLeft(s, n);
    } else if s[i] != '`' {
      ScanFinds(s, i + 1, n, cache);
      NoneBetween(s, i, i + 1, n, Scan(s, i + 1, n, cache).0);
    } else {
      var k := RunAt(s, i);
      RunInside(s, i);
      if k == n {
        FirstCloses(s, i, n);
      } else {
        var cache' := if k <= MAX_BACKTICKS then cache[k := i] else cache;
        ScanFinds(s, i + k, n, cache');
        NoneBetween(s, i, i + k, n, Scan(s, i + k, n, cache').0);
      }
    }
  }

  lemma NothingLeft(s: string, n: nat)
    ensures Unclosed(s, |s|, n)
  {
  }

  lemma FirstCloses(s: string, i: nat, n: nat)
    requires StartsRun(s, i) && RunAt(s, i) == n
    ensures Closes(s, i, n, i + n)
  {
  }

  lemma NoneBetween(s: string, i: nat, j: nat, n: nat, end: nat)
    requires i <= j <= |s| && forall x :: i <= x < j && StartsRun(s, x) ==> RunAt(s, x) != n
    ensures Unclosed(s, j, n) ==> Unclosed(s, i, n)
    ensures Closes(s, j, n, end) ==> Closes(s, i, n, end)
  {
    hide RunAt;
  }

  // ---------------------------------------------------------------- what calls on one subject find

  /** A call: the position behind the opening run, and its length. */
  datatype Call = Call(start: nat, n: nat)

  /** The lengths of the runs from `start` up to the first run of `n`. */
  ghost function Passed(s: string, start: nat, n: nat): set<nat> {
    set k: nat | k <= MAX_BACKTICKS && Passes(s, start, n, k)
  }

  ghost predicate Passes(s: string, start: nat, n: nat, k: nat) {
    exists x :: start <= x < |s| && StartsRun(s, x) && RunAt(s, x) == k && forall y :: start <= y < x && StartsRun(s, y) ==> RunAt(s, y) != n
  }

  /** Has a scan reached the end, and the runs of which lengths have been passed by scans that succeeded since?
      A call for one of these comes back at once. */
  ghost function Step(s: string, st: (bool, set<nat>), c: Call): (bool, set<nat>) {
    if c.n > MAX_BACKTICKS || c.n in st.1 then st
    else if Unclosed(s, c.start, c.n) then (true, st.1)
    else if st.0 then (true, st.1 + Passed(s, c.start, c.n))
    else st
  }

  ghost function Replay(s: string, calls: seq<Call>): (bool, set<nat>) {
    if calls == [] then (false, {}) else Step(s, Replay(s, calls[..|calls| - 1]), calls[|calls| - 1])
  }

  /** The `i`-th call scans to the end of the text. */
  ghost predicate ReachesEnd(s: string, calls: seq<Call>, i: nat)
    requires i < |calls|
  {
    var c, st := calls[i], Replay(s, calls[..i]);
    c.n <= MAX_BACKTICKS && c.n !in st.1 && Unclosed(s, c.start, c.n)
  }

  /** The `j`-th call succeeds, and passes a run of `k`. */
  ghost predicate SucceedsPast(s: string, calls: seq<Call>, j: nat, k: nat)
    requires j < |calls|
  {
    var c, st := calls[j], Replay(s, calls[..j]);
    c.n <= MAX_BACKTICKS && c.n !in st.1 && !Unclosed(s, c.start, c.n) && k in Passed(s, c.start, c.n)
  }

  /** After these calls the memory misleads about `k`: some call has scanned to the end, and a later one has
      passed a run of `k` on its way to a closing run. */
  ghost predicate Misled(s: string, calls: seq<Call>, k: nat) {
    exists i, j :: 0 <= i < j < |calls| && ReachesEnd(s, calls, i) && SucceedsPast(s, calls, j, k)
  }

  lemma {:induction false} ReplayMeans(s: string, calls: seq<Call>, k: nat)
    ensures Replay(s, calls).0 <==> exists i :: 0 <= i < |calls| && ReachesEnd(s, calls, i)
    ensures k in Replay(s, calls).1 <==> Misled(s, calls, k)
  {
    hide Unclosed, Passed;
    if calls != [] {
      var n := |calls| - 1;
      var r := calls[..n];
      assert calls == r + [calls[n]];
      ReplayMeans(s, r, k);
      forall i | 0 <= i < n
        ensures ReachesEnd(s, calls, i) <==> ReachesEnd(s, r, i)
        ensures SucceedsPast(s, calls, i, k) <==> SucceedsPast(s, r, i, k)
      {
        assert r[..i] == calls[..i];
      }
      MisledEnd(s, r, calls[n], k);
    }
  }

  /** One call more. */
  lemma MisledEnd(s: string, r: seq<Call>, c: Call, k: nat)
    requires forall i :: 0 <= i < |r| ==>
      (ReachesEnd(s, r + [c], i) <==> ReachesEnd(s, r, i)) && (SucceedsPast(s, r + [c], i, k) <==> SucceedsPast(s, r, i, k))
    ensures Misled(s, r + [c], k) <==>
      Misled(s, r, k) || ((exists i :: 0 <= i < |r| && ReachesEnd(s, r, i)) && SucceedsPast(s, r + [c], |r|, k))
    ensures (exists i :: 0 <= i < |r + [c]| && ReachesEnd(s, r + [c], i)) <==>
      (exists i :: 0 <= i < |r| && ReachesEnd(s, r, i)) || ReachesEnd(s, r + [c], |r|)
    ensures (r + [c])[..|r|] == r
  {
    hide ReachesEnd, SucceedsPast;
    if Misled(s, r, k) {
      var i, j :| 0 <= i < j < |r| && ReachesEnd(s, r, i) && SucceedsPast(s, r, j, k);
      assert ReachesEnd(s, r + [c], i) && SucceedsPast(s, r + [c], j, k);
    }
    if i :| 0 <= i < |r| && ReachesEnd(s, r, i) {
      assert ReachesEnd(s, r + [c], i);
    }
  }

  // ---------------------------------------------------------------- the memory

  /** What the memory holds of one length, when its runs have been passed since, or not. */
  ghost predicate Recalls(s: string, pos: nat, cache: seq<nat>, k: nat, passed: bool)
    requires k < |cache|
  {
    if passed then cache[k] <= pos
    else (forall x :: pos <= x < |s| && StartsRun(s, x) && RunAt(s, x) == k ==> x <= cache[k])
         && (cache[k] > pos ==> StartsRun(s, cache[k]) && RunAt(s, cache[k]) == k)
  }

  /** The memory after these calls: before any scan has reached the end it holds places behind the position;
      after that, of each length not passed since, the last run. */
  ghost predicate Memory(s: string, pos: nat, cache: seq<nat>, st: (bool, set<nat>)) {
    && |cache| == MAX_BACKTICKS + 1
    && (st.0 ==> forall k :: 0 <= k <= MAX_BACKTICKS ==> Recalls(s, pos, cache, k, k in st.1))
    && (!st.0 ==> st.1 == {} && forall k :: 0 <= k <= MAX_BACKTICKS ==> cache[k] <= pos)
  }

  lemma MemoryLater(s: string, pos: nat, cache: seq<nat>, st: (bool, set<nat>), later: nat)
    requires Memory(s, pos, cache, st) && pos <= later
    ensures Memory(s, later, cache, st)
  {
  }

  /** What a scan leaves in the memory of one length: the last run it met, if it met one. */
  lemma {:induction false} ScanWrites(s: string, i: nat, n: nat, cache: seq<nat>, k: nat)
    requires i <= |s| && |cache| == MAX_BACKTICKS + 1 && n > 0 && k <= MAX_BACKTICKS
    requires i < |s| && s[i] == '`' ==> StartsRun(s, i)
    ensures var (end, cache') := Scan(s, i, n, cache); Wrote(s, i, if end == 0 then |s| else end - n + 1, cache, cache', k)
    decreases |s| - i
  {
    hide RunAt, Wrote;
    if i == |s| {
      WroteNone(s, i, i, cache, k);
    } else if s[i] != '`' {
      ScanWrites(s, i + 1, n, cache, k);
      var (end, cache') := Scan(s, i + 1, n, cache);
      WroteBefore(s, i, i + 1, if end == 0 then |s| else end - n + 1, cache, cache, cache', k);
    } else {
      var m := RunAt(s, i);
      RunInside(s, i);
      var here := if m <= MAX_BACKTICKS then cache[m := i] else cache;
      if m == n {
        WroteHere(s, i, cache, here, k);
      } else {
        ScanWrites(s, i + m, n, here, k);
        var (end, cache') := Scan(s, i + m, n, here);
        WroteBefore(s, i, i + m, if end == 0 then |s| else end - n + 1, cache, here, cache', k);
      }
    }
  }

  lemma WroteNone(s: string, i: nat, limit: nat, cache: seq<nat>, k: nat)
    requires limit <= i && k < |cache|
    ensures Wrote(s, i, limit, cache, cache, k)
  {
  }

  lemma WroteHere(s: string, i: nat, cache: seq<nat>, here: seq<nat>, k: nat)
    requires StartsRun(s, i) && k < |cache| == |here| && here == if RunAt(s, i) < |cache| then cache[RunAt(s, i) := i] else cache
    ensures Wrote(s, i, i + 1, cache, here, k)
  {
    hide RunAt;
  }

  /** From `i` to `j` there is at most the run at `i`, remembered in `here`; then the scan goes on. */
  lemma WroteBefore(s: string, i: nat, j: nat, limit: nat, cache: seq<nat>, here: seq<nat>, cache': seq<nat>, k: nat)
    requires k < |cache| == |here| == |cache'| && i < j <= limit
    requires Wrote(s, j, limit, here, cache', k) && forall x :: i < x < j ==> !StartsRun(s, x)
    requires if StartsRun(s, i) && RunAt(s, i) == k then here[k] == i else here[k] == cache[k]
    ensures Wrote(s, i, limit, cache, cache', k)
  {
    hide RunAt, StartsRun;
  }

  /** The last run of `k` from `i` to `limit` is remembered, or there is none and nothing has changed. */
  ghost predicate Wrote(s: string, i: nat, limit: nat, cache: seq<nat>, cache': seq<nat>, k: nat)
    requires k < |cache| && k < |cache'|
  {
    if (exists x :: i <= x < limit && StartsRun(s, x) && RunAt(s, x) == k) then
      && i <= cache'[k] < limit && StartsRun(s, cache'[k]) && RunAt(s, cache'[k]) == k
      && forall x :: i <= x < limit && StartsRun(s, x) && RunAt(s, x) == k ==> x <= cache'[k]
    else cache'[k] == cache[k]
  }

  /** The early exit comes for a length that was passed since, or without a run ahead. */
  lemma EarlyExit(s: string, pos: nat, n: nat, cache: seq<nat>, st: (bool, set<nat>))
    requires Memory(s, pos, cache, st) && st.0 && n <= MAX_BACKTICKS && (pos < |s| ==> !StartsRun(s, pos))
    ensures cache[n] <= pos <==> n in st.1 || Unclosed(s, pos, n)
  {
    assert Recalls(s, pos, cache, n, n in st.1);
    if n !in st.1 && cache[n] > pos {
      assert StartsRun(s, cache[n]) && RunAt(s, cache[n]) == n;
    }
  }

  /** A scan to the end makes the memory right. */
  lemma MemoryFailed(s: string, pos: nat, n: nat, cache: seq<nat>, st: (bool, set<nat>))
    requires Memory(s, pos, cache, st) && !st.0 && 0 < n <= MAX_BACKTICKS && pos <= |s| && (pos < |s| ==> s[pos] != '`')
    requires Scan(s, pos, n, cache).0 == 0
    ensures Memory(s, pos, Scan(s, pos, n, cache).1, (true, {}))
  {
    hide Scan, StartsRun, RunAt;
    var cache' := Scan(s, pos, n, cache).1;
    forall k | 0 <= k <= MAX_BACKTICKS ensures Recalls(s, pos, cache', k, false) {
      ScanWrites(s, pos, n, cache, k);
    }
  }

  /** A scan that succeeds moves the memory of what it passes behind the position. */
  lemma MemoryPassed(s: string, pos: nat, n: nat, cache: seq<nat>, st: (bool, set<nat>))
    requires Memory(s, pos, cache, st) && 0 < n <= MAX_BACKTICKS && pos <= |s| && (pos < |s| ==> s[pos] != '`')
    requires Scan(s, pos, n, cache).0 > 0
    ensures var (end, cache') := Scan(s, pos, n, cache);
            Memory(s, end, cache', if st.0 then (true, st.1 + Passed(s, pos, n)) else st)
  {
    var (end, cache') := Scan(s, pos, n, cache);
    ScanFinds(s, pos, n, cache);
    hide Scan, StartsRun, RunAt;
    forall k | 0 <= k <= MAX_BACKTICKS
      ensures st.0 ==> Recalls(s, end, cache', k, k in st.1 + Passed(s, pos, n))
      ensures !st.0 ==> cache'[k] <= end
    {
      ScanWrites(s, pos, n, cache, k);
      PassedUpTo(s, pos, n, end, k);
      if st.0 { assert Recalls(s, pos, cache, k, k in st.1); }
    }
  }

  lemma PassedUpTo(s: string, start: nat, n: nat, end: nat, k: nat)
    requires Closes(s, start, n, end) && k <= MAX_BACKTICKS && n > 0
    ensures k in Passed(s, start, n) <==> exists x :: start <= x < end - n + 1 && StartsRun(s, x) && RunAt(s, x) == k
    ensures forall x :: end - n + 1 <= x < end ==> !StartsRun(s, x)
  {
    hide RunAt;
    RunInside(s, end - n);
    if x :| start <= x < end - n + 1 && StartsRun(s, x) && RunAt(s, x) == k {
      assert Passes(s, start, n, k);
    }
  }

  lemma ClosedIsNotUnclosed(s: string, i: nat, n: nat, end: nat)
    requires Closes(s, i, n, end)
    ensures !Unclosed(s, i, n)
  {
  }

  class Subject {
    const input: string
    var pos: nat
    var backticks: array<nat>
    var scannedForBackticks: bool

    ghost var calls: seq<Call>           // of scan_to_closing_backticks, so far

    ghost predicate Fits()
      reads this`pos, this`backticks
    {
      (forall c :: c in input ==> c != '\0') && pos <= |input| && backticks.Length == MAX_BACKTICKS + 1
    }

    /** Whether a scan has reached the end, and what the memory holds, is determined by the calls so far. */
    ghost predicate Valid()
      reads this, backticks
    {
      Fits() && scannedForBackticks == Replay(input, calls).0 && Memory(input, pos, backticks[..], Replay(input, calls))
    }

    constructor (input: string)
      requires forall c :: c in input ==> c != '\0'
      ensures Valid() && this.input == input && pos == 0 && calls == [] && fresh(backticks)
      ensures backticks[..] == seq(MAX_BACKTICKS + 1, i => 0)
    {
      this.input := input;
      pos := 0;
      backticks := new nat[MAX_BACKTICKS + 1](i => 0);
      scannedForBackticks := false;
      calls := [];
    }

    /** Other inlines move the position on. */
    method MoveTo(to: nat)
      requires Valid() && pos <= to <= |input|
      modifies this`pos
      ensures Valid() && pos == to
    {
      MemoryLater(input, pos, backticks[..], Replay(input, calls), to);
      pos := to;
    }

    function PeekChar(): char
      requires pos <= |input|
      reads this
    {
      if pos < |input| then input[pos] else '\0'
    }

    /** `scan_to_closing_backticks`: finds the closing run unless the memory misleads, after any calls before. */
    method ScanToClosingBackticks(openticklength: nat) returns (end: nat)
      requires Valid() && openticklength > 0 && (pos < |input| ==> input[pos] != '`')
      modifies this`pos, this`scannedForBackticks, this`calls, backticks
      ensures Fits() && pos >= old(pos) && calls == old(calls) + [Call(old(pos), openticklength)]
      ensures end > 0 ==> pos == end && Closes(input, old(pos), openticklength, end)
      ensures end > 0 <==> openticklength <= 80 && !Unclosed(input, old(pos), openticklength)
                           && openticklength !in Replay(input, old(calls)).1
      ensures scannedForBackticks == Replay(input, calls).0
      ensures Memory(input, if end > 0 then end else old(pos), backticks[..], Replay(input, calls))
    {
      ghost var start, cache, st := pos, backticks[..], Replay(input, calls);
      ghost var c := Call(start, openticklength);
      ReplayOne(input, calls, c);
      calls := calls + [c];
      hide Replay, Unclosed, Closes, Memory, Scan, Passed;
      if openticklength > MAX_BACKTICKS {
        return 0;
      }
      MemorySize(input, start, cache, st);
      if st.0 { EarlyExit(input, start, openticklength, cache, st); }
      if scannedForBackticks && backticks[openticklength] <= pos {
        return 0;
      }
      ScanFinds(input, start, openticklength, cache);
      end := ScanOn(openticklength);
      if end == 0 {
        MemoryFailed(input, start, openticklength, cache, st);
      } else {
        MemoryPassed(input, start, openticklength, cache, st);
        ClosedIsNotUnclosed(input, start, openticklength, end);
      }
    }

    /** Its loop. */
    method ScanOn(openticklength: nat) returns (end: nat)
      requires Fits() && 0 < openticklength <= MAX_BACKTICKS && (pos < |input| ==> input[pos] != '`')
      modifies this`pos, this`scannedForBackticks, backticks
      ensures Fits() && pos >= old(pos) && (end > 0 ==> pos == end)
      ensures (end, backticks[..]) == Scan(input, old(pos), openticklength, old(backticks[..]))
      ensures scannedForBackticks == (old(scannedForBackticks) || end == 0)
    {
      hide RunAt, StartsRun;
      ghost var start, cache := pos, backticks[..];
      while true
        invariant Fits() && start <= pos && scannedForBackticks == old(scannedForBackticks)
        invariant pos < |input| && input[pos] == '`' ==> StartsRun(input, pos)
        invariant Scan(input, start, openticklength, cache) == Scan(input, pos, openticklength, backticks[..])
        decreases |input| - pos
      {
        ghost var i := pos;
        SkipText();
        ScanSkips(input, i, pos, openticklength, backticks[..]);
        if pos >= |input| {
          break;
        }
        i := pos;
        var numticks := CountTicks();
        ghost var before := backticks[..];
        if numticks <= MAX_BACKTICKS {
          backticks[numticks] := pos - numticks;
        }
        assert backticks[..] == if numticks <= MAX_BACKTICKS then before[numticks := i] else before;
        ScanRun(input, i, openticklength, before);
        if numticks == openticklength {
          return pos;
        }
      }
      scannedForBackticks := true;
      end := 0;
    }

    /** `handle_backticks`: a code span, or the backticks as they stand.  It is a span exactly when a closing
        run follows and the calls so far have not misled the memory about its length. */
    method HandleBackticks() returns (ok: bool, code: string)
      requires Valid() && pos < |input| && input[pos] == '`'
      modifies this`pos, this`scannedForBackticks, this`calls, backticks
      ensures Valid()
      ensures var n := RunAt(input, old(pos)); var start := old(pos) + n;
              && calls == old(calls) + [Call(start, n)]
              && (ok <==> n <= 80 && !Unclosed(input, start, n) && !Misled(input, old(calls), n))
              && (ok ==> Closes(input, start, n, pos) && code == Normalized(input[start..pos - n]))
              && (!ok ==> pos == start)
    {
      hide RunAt, Closes, Unclosed, Memory, Replay, Misled, Normalized;
      var openticks := CountTicks();
      var startpos := pos;
      MemoryLater(input, old(pos), backticks[..], Replay(input, calls), startpos);
      RunNonempty(input, old(pos));
      ReplayMeans(input, calls, openticks);
      var endpos := ScanToClosingBackticks(openticks);
      if endpos == 0 {
        pos := startpos;
        ok, code := false, "";
      } else {
        ClosesInside(input, startpos, openticks, endpos);
        var size := endpos - startpos - openticks;
        var buf := new char[size + 1](i requires 0 <= i <= size => if i < size then input[startpos + i] else '\0');
        assert buf[..size] == input[startpos..endpos - openticks];
        code := NormalizeCode(buf, size);
        ok := true;
      }
    }

    /** Up to the next backtick. */
    method SkipText()
      requires Fits() && (pos < |input| && input[pos] == '`' ==> StartsRun(input, pos))
      modifies this`pos
      ensures Fits() && old(pos) <= pos && (forall k :: old(pos) <= k < pos ==> input[k] != '`')
      ensures pos < |input| ==> StartsRun(input, pos)
    {
      while PeekChar() != '\0' && PeekChar() != '`'
        invariant Fits() && old(pos) <= pos && (forall k :: old(pos) <= k < pos ==> input[k] != '`')
        invariant pos < |input| && input[pos] == '`' ==> StartsRun(input, pos)
        decreases |input| - pos
      {
        pos := pos + 1;
      }
      assert pos < |input| ==> input[pos] in input;
    }

    /** Over a run of backticks. */
    method CountTicks() returns (numticks: nat)
      requires Fits() && pos < |input|
      modifies this`pos
      ensures Fits() && numticks == RunAt(input, old(pos)) && pos == old(pos) + numticks
    {
      numticks := 0;
      while PeekChar() == '`'
        invariant old(pos) <= pos <= |input| && numticks == pos - old(pos) && (forall k :: old(pos) <= k < pos ==> input[k] == '`')
        decreases |input| - pos
      {
        pos := pos + 1;
        numticks := numticks + 1;
      }
      RunIs(input, old(pos), numticks);
    }
  }

  lemma ReplayOne(s: string, calls: seq<Call>, c: Call)
    ensures Replay(s, calls + [c]) == Step(s, Replay(s, calls), c)
  {
    assert (calls + [c])[..|calls|] == calls;
  }

  lemma MemorySize(s: string, pos: nat, cache: seq<nat>, st: (bool, set<nat>))
    requires Memory(s, pos, cache, st)
    ensures |cache| == MAX_BACKTICKS + 1 && (!st.0 ==> st.1 == {})
  {
  }

  lemma RunNonempty(s: string, i: nat)
    requires i < |s| && s[i] == '`'
    ensures RunAt(s, i) > 0
  {
  }

  lemma ClosesInside(s: string, i: nat, n: nat, end: nat)
    requires Closes(s, i, n, end)
    ensures i <= end - n && end <= |s|
  {
  }

  lemma {:induction false} ScanSkips(s: string, i: nat, j: nat, n: nat, cache: seq<nat>)
    requires i <= j <= |s| && |cache| == MAX_BACKTICKS + 1 && forall k :: i <= k < j ==> s[k] != '`'
    ensures Scan(s, i, n, cache) == Scan(s, j, n, cache)
    ensures j == |s| ==> Scan(s, i, n, cache) == (0, cache)
    decreases j - i
  {
    if i < j { ScanSkips(s, i + 1, j, n, cache); }
  }

  lemma ScanRun(s: string, i: nat, n: nat, cache: seq<nat>)
    requires |cache| == MAX_BACKTICKS + 1 && StartsRun(s, i)
    ensures var k := RunAt(s, i); var cache' := if k <= MAX_BACKTICKS then cache[k := i] else cache;
            && k > 0 && i + k <= |s| && (i + k < |s| ==> s[i + k] != '`')
            && Scan(s, i, n, cache) == if k == n then (i + k, cache') else Scan(s, i + k, n, cache')
  {
  }

  /** Runs of 1, 2, 1, 2 and 2, at 4, 6, 9, 11 and 14. */
  ghost predicate Losing(s: string) {
    && |s| == 16 && (forall k :: 0 <= k < 16 && k in {3, 5, 8, 10, 13} ==> s[k] != '`')
    && StartsRun(s, 4) && StartsRun(s, 6) && StartsRun(s, 9) && StartsRun(s, 11) && StartsRun(s, 14)
    && RunAt(s, 4) == 1 && RunAt(s, 6) == 2 && RunAt(s, 9) == 1 && RunAt(s, 11) == 2 && RunAt(s, 14) == 2
  }

  lemma LosingScans(s: string, zeros: seq<nat>)
    requires Losing(s) && |zeros| == MAX_BACKTICKS + 1
    ensures var first := Scan(s, 3, 3, zeros); var second := Scan(s, 5, 1, first.1);
            && first.0 == 0 && first.1[1] > 5 && second.0 == 10
            && second.1[2] <= 13 && Closes(s, 13, 2, 16)
  {
    hide RunAt, Scan, StartsRun, Closes;
    ScanSkips(s, 3, 4, 3, zeros);
    ScanRun(s, 4, 3, zeros);
    var a := zeros[1 := 4];
    ScanSkips(s, 5, 6, 3, a);
    ScanRun(s, 6, 3, a);
    var b := a[2 := 6];
    ScanSkips(s, 8, 9, 3, b);
    ScanRun(s, 9, 3, b);
    var c := b[1 := 9];
    ScanSkips(s, 10, 11, 3, c);
    ScanRun(s, 11, 3, c);
    var d := c[2 := 11];
    ScanSkips(s, 13, 14, 3, d);
    ScanRun(s, 14, 3, d);
    var e := d[2 := 14];
    ScanSkips(s, 16, 16, 3, e);
    ScanSkips(s, 5, 6, 1, e);
    ScanRun(s, 6, 1, e);
    var f := e[2 := 6];
    ScanSkips(s, 8, 9, 1, f);
    ScanRun(s, 9, 1, f);
    FirstCloses(s, 14, 2);
    NotAtText(s, 13);
    NoneBetween(s, 13, 14, 2, 16);
  }

  lemma NotAtText(s: string, i: nat)
    requires i < |s| && s[i] != '`'
    ensures !StartsRun(s, i)
  {
  }

  /** The memory loses a span: the run of three fails; the one-tick span then passes a run of two, and the
      place remembered for two falls behind; so the two-tick span after it is not found. */
  lemma EarlyExitLosesASpan()
    ensures var s := "``` `a``b` ``c``"; var calls := [Call(3, 3), Call(5, 1)];
            Misled(s, calls, 2) && Closes(s, 13, 2, 16) && !Unclosed(s, 13, 2)
  {
    hide RunAt, Scan, Closes, Misled;
    LosingRuns("``` `a``b` ``c``");
    LosingCalls("``` `a``b` ``c``");
  }

  lemma LosingCalls(s: string)
    requires Losing(s)
    ensures Misled(s, [Call(3, 3), Call(5, 1)], 2) && Closes(s, 13, 2, 16) && !Unclosed(s, 13, 2)
  {
    hide RunAt, Scan, StartsRun, Closes, Unclosed, Passed;
    var zeros := seq(MAX_BACKTICKS + 1, i => 0);
    LosingScans(s, zeros);
    ScanFinds(s, 3, 3, zeros);
    ScanFinds(s, 5, 1, Scan(s, 3, 3, zeros).1);
    ClosedIsNotUnclosed(s, 5, 1, 10);
    ClosedIsNotUnclosed(s, 13, 2, 16);
    PassedUpTo(s, 5, 1, 10, 2);
    var calls := [Call(3, 3), Call(5, 1)];
    assert calls[..0] == [] && calls[..1] == [Call(3, 3)] && [Call(3, 3)][..0] == [];
    assert ReachesEnd(s, calls, 0) && SucceedsPast(s, calls, 1, 2);
  }

  lemma LosingRuns(s: string)
    requires s == "``` `a``b` ``c``"
    ensures Losing(s)
  {
    hide RunAt;
    RunIs(s, 4, 1);
    RunIs(s, 6, 2);
    RunIs(s, 9, 1);
    RunIs(s, 11, 2);
    RunIs(s, 14, 2);
  }

  // ---------------------------------------------------------------- normalising the content

  /** Line endings become spaces. */
  function Joined(s: string): (r: string)
    ensures |r| <= |s| && (s != "" ==> r != "")
  {
    if s == "" then ""
    else if s[0] == '\r' then (if |s| > 1 && s[1] == '\n' then "" else " ") + Joined(s[1..])
    else (if s[0] == '\n' then " " else [s[0]]) + Joined(s[1..])
  }

  predicate Plain(c: char) { c !in " \r\n" }

  predicate CrLfAt(s: string, i: nat) { i + 1 < |s| && s[i] == '\r' && s[i + 1] == '\n' }

  /** What the loop takes for content: anything but spaces and line endings, and also any CRLF. */
  ghost predicate HasContent(s: string) {
    exists i :: 0 <= i < |s| && (Plain(s[i]) || CrLfAt(s, i))
  }

  function Stripped(r: string): string {
    if r != "" && r[0] == ' ' && r[|r| - 1] == ' ' then (if |r| >= 2 then r[1..|r| - 1] else "") else r
  }

  ghost function Normalized(s: string): string {
    if HasContent(s) then Stripped(Joined(s)) else Joined(s)
  }

  /** `S_normalize_code`, in place over the buffer and its final NUL. */
  method NormalizeCode(buf: array<char>, size: nat) returns (result: string)
    requires buf.Length == size + 1 && buf[size] == '\0'
    modifies buf
    ensures result == Normalized(old(buf[..size]))
  {
    var w, containsNonspace := JoinLines(buf, size);
    hide Joined;
    if containsNonspace && buf[0] == ' ' && buf[w - 1] == ' ' {
      result := if w >= 2 then buf[1..w - 1] else "";
      assert w >= 2 ==> buf[..w][1..w - 1] == buf[1..w - 1];
    } else {
      result := buf[..w];
    }
  }

  /** Its loop. */
  method JoinLines(buf: array<char>, size: nat) returns (w: nat, containsNonspace: bool)
    requires buf.Length == size + 1 && buf[size] == '\0'
    modifies buf
    ensures var s := old(buf[..size]); w <= size && buf[..w] == Joined(s) && containsNonspace == HasContent(s)
  {
    hide Joined, CrLfAt, Plain, ContentBefore, HasContent, JoinedOne;
    ghost var z, s := buf[..], buf[..size];
    ContentEnds(s);
    w, containsNonspace := 0, false;
    assert s[0..] == s;
    for r := 0 to size
      invariant w <= r && buf[r..] == z[r..]
      invariant buf[..w] + Joined(s[r..]) == Joined(s)
      invariant containsNonspace == ContentBefore(s, r) && (!containsNonspace ==> w == r)
    {
      JoinedStep(s, r);
      assert buf[r] == buf[r..][0] == z[r] == s[r] && buf[r + 1] == buf[r..][1] == z[r + 1];
      assert r + 1 < size ==> z[r + 1] == s[r + 1];
      assert buf[r + 1..] == buf[r..][1..];
      w := CopyOne(buf, r, w);
      if buf[r] != ' ' {
        containsNonspace := true;
      }
    }
    assert s[size..] == "" && Joined("") == "" by { NothingJoined(); }
    assert buf[..w] + "" == buf[..w];
  }

  /** One byte of the loop. */
  method CopyOne(buf: array<char>, r: nat, w: nat) returns (w': nat)
    requires w <= r && r + 1 < buf.Length
    modifies buf
    ensures var c, crlf := old(buf[r]), old(buf[r]) == '\r' && old(buf[r + 1]) == '\n';
            && w' == (if crlf then w else w + 1)
            && buf[..w'] == old(buf[..w]) + (if crlf then "" else if Plain(c) then [c] else " ")
            && buf[r + 1..] == old(buf[r + 1..])
            && buf[r] == if crlf || w < r || Plain(c) then c else ' '
  {
    w' := w;
    match buf[r]
    case '\r' =>
      if buf[r + 1] != '\n' {
        buf[w'] := ' ';
        w' := w' + 1;
      }
    case '\n' =>
      buf[w'] := ' ';
      w' := w' + 1;
    case _ =>
      buf[w'] := buf[r];
      w' := w' + 1;
  }

  lemma NothingJoined()
    ensures Joined("") == ""
  {
  }

  function JoinedOne(s: string, r: nat): string
    requires r < |s|
  {
    if s[r] == '\r' then (if CrLfAt(s, r) then "" else " ") else if s[r] == '\n' then " " else [s[r]]
  }

  ghost predicate ContentBefore(s: string, r: nat) {
    exists i :: 0 <= i < r && i < |s| && (Plain(s[i]) || CrLfAt(s, i))
  }

  lemma ContentEnds(s: string)
    ensures !ContentBefore(s, 0) && (ContentBefore(s, |s|) <==> HasContent(s))
  {
  }

  lemma JoinedStep(s: string, r: nat)
    requires r < |s|
    ensures Joined(s[r..]) == JoinedOne(s, r) + Joined(s[r + 1..])
    ensures ContentBefore(s, r + 1) <==> ContentBefore(s, r) || Plain(s[r]) || CrLfAt(s, r)
    ensures CrLfAt(s, r) <==> r + 1 < |s| && s[r] == '\r' && s[r + 1] == '\n'
    ensures Plain(s[r]) <==> s[r] != ' ' && s[r] != '\r' && s[r] != '\n'
    ensures JoinedOne(s, r) == if CrLfAt(s, r) then "" else if Plain(s[r]) then [s[r]] else " "
  {
    assert s[r..][0] == s[r] && s[r..][1..] == s[r + 1..];
    assert r + 1 < |s| ==> s[r..][1] == s[r + 1];
  }

  // ---------------------------------------------------------------- what the normalising means

  lemma {:induction false} JoinedChars(s: string)
    ensures forall c :: c in Joined(s) ==> c == ' ' || (Plain(c) && c in s)
    ensures forall c :: c in s && Plain(c) ==> c in Joined(s)
  {
    if s != "" {
      JoinedChars(s[1..]);
      assert s == [s[0]] + s[1..];
    }
  }

  ghost predicate OnlySpaces(r: string) {
    forall c :: c in r ==> c == ' '
  }

  /** The documented rule: one space goes from either end, unless there is nothing but spaces.  The loop
      keeps to it except when all is white space with a CRLF in it. */
  lemma DocumentedRule(s: string)
    ensures Normalized(s) == (if OnlySpaces(Joined(s)) then Joined(s) else Stripped(Joined(s)))
            <==> !(OnlySpaces(Joined(s)) && exists i :: 0 <= i < |s| && CrLfAt(s, i))
  {
    hide Joined;
    JoinedChars(s);
    var r := Joined(s);
    if !OnlySpaces(r) {
      var c :| c in r && c != ' ';
      var i :| 0 <= i < |s| && s[i] == c;
    } else {
      forall i | 0 <= i < |s| ensures !Plain(s[i]) {
        assert s[i] in s;
      }
      if HasContent(s) {
        assert r != "";
        assert r[0] in r && r[|r| - 1] in r;
        assert |Stripped(r)| < |r|;
      }
    }
  }

  /** So it does for every text without CR, such as the lines of a document joined by LF. */
  lemma DocumentedWithoutCr(s: string)
    requires '\r' !in s
    ensures Normalized(s) == if OnlySpaces(Joined(s)) then Joined(s) else Stripped(Joined(s))
  {
    hide Normalized, Joined;
    DocumentedRule(s);
  }

  // ---------------------------------------------------------------- printer and parser

  /** `t` lies in `s` at `d`, and a run at its end ends with it. */
  ghost predicate Embedded(s: string, t: string, d: nat) {
    && d + |t| <= |s| && (forall j :: d <= j < d + |t| ==> s[j] == t[j - d])
    && (t != "" && t[|t| - 1] == '`' ==> d + |t| < |s| && s[d + |t|] != '`')
    && (t != "" && t[0] == '`' ==> d > 0 && s[d - 1] != '`')
  }

  lemma {:induction false} EmbeddedRun(s: string, t: string, d: nat, k: nat)
    requires Embedded(s, t, d) && k < |t|
    ensures RunAt(s, d + k) == RunAt(t, k) && s[d + k] == t[k]
    ensures StartsRun(s, d + k) ==> StartsRun(t, k)
    ensures StartsRun(t, k) ==> StartsRun(s, d + k)
    decreases |t| - k
  {
    if k > 0 { assert s[d + k - 1] == t[k - 1]; }
    if t[k] == '`' && k + 1 < |t| { EmbeddedRun(s, t, d, k + 1); }
  }

  lemma PartsAt(a: string, p: string, b: string)
    ensures var s := a + p + b;
            && |s| == |a| + |p| + |b| && s[|a|..|a| + |p|] == p
            && (forall j :: 0 <= j < |a| ==> s[j] == a[j])
            && (forall j :: |a| <= j < |a| + |p| ==> s[j] == p[j - |a|])
            && forall j :: |a| + |p| <= j < |s| ==> s[j] == b[j - |a| - |p|]
  {
  }

  function Margin(code: string): nat {
    if NeedsSpaces(code) then 1 else 0
  }

  lemma PaddedEmbeds(code: string)
    ensures Embedded(Padded(code), code, Margin(code))
    ensures forall x :: 0 <= x < |Padded(code)| && !(Margin(code) <= x < Margin(code) + |code|) ==> Padded(code)[x] == ' '
    ensures |Padded(code)| == Margin(code) + |code| + Margin(code)
  {
    if NeedsSpaces(code) { PartsAt(" ", code, " "); }
  }

  lemma RenderedEmbeds(code: string, n: nat)
    ensures var s, p := Rendered(code, n), Padded(code);
            && Embedded(s, p, n) && |s| == n + |p| + n && s[n..|s| - n] == p && s[n] != '`' && s[|s| - n - 1] != '`'
            && RunAt(s, 0) == n && RunAt(s, |s| - n) == n && (n > 0 ==> StartsRun(s, |s| - n))
  {
    hide Padded, Ticks, RunAt;
    PartsAt(Ticks(n), Padded(code), Ticks(n));
    RunIs(Rendered(code, n), 0, n);
    RunIs(Rendered(code, n), |Rendered(code, n)| - n, n);
  }

  /** The runs between the fences are the runs of the code. */
  lemma RunsInside(code: string, n: nat, m: nat)
    requires m > 0
    ensures var s := Rendered(code, n);
            HasRun(code, m) <==> exists x :: n <= x < |s| - n && StartsRun(s, x) && RunAt(s, x) == m
  {
    hide Padded, Rendered, RunAt, StartsRun;
    var s := Rendered(code, n);
    if HasRun(code, m) {
      var k :| 0 <= k < |code| && StartsRun(code, k) && RunAt(code, k) == m;
      RunGoesIn(code, n, k);
    }
    if exists x :: n <= x < |s| - n && StartsRun(s, x) && RunAt(s, x) == m {
      var x :| n <= x < |s| - n && StartsRun(s, x) && RunAt(s, x) == m;
      RunComesOut(code, n, x);
    }
  }

  lemma RunGoesIn(code: string, n: nat, k: nat)
    requires StartsRun(code, k)
    ensures var s, x := Rendered(code, n), n + Margin(code) + k;
            k < |code| && x < |s| - n && StartsRun(s, x) && RunAt(s, x) == RunAt(code, k)
  {
    hide Padded, Rendered, RunAt, Embedded;
    RenderedEmbeds(code, n);
    PaddedEmbeds(code);
    EmbeddedRun(Padded(code), code, Margin(code), k);
    EmbeddedRun(Rendered(code, n), Padded(code), n, Margin(code) + k);
  }

  lemma RunComesOut(code: string, n: nat, x: nat)
    requires n <= x && x + n < |Rendered(code, n)| && StartsRun(Rendered(code, n), x)
    ensures exists k :: 0 <= k < |code| && StartsRun(code, k) && RunAt(code, k) == RunAt(Rendered(code, n), x)
  {
    hide Padded, Rendered, RunAt, Embedded, StartsRun, Margin;
    var p, d := Padded(code), Margin(code);
    RenderedEmbeds(code, n);
    PaddedEmbeds(code);
    EmbeddedRun(Rendered(code, n), p, n, x - n);
    TickThere(p, x - n);
    EmbeddedRun(p, code, d, x - n - d);
    assert StartsRun(code, x - n - d);
  }

  lemma TickThere(s: string, i: nat)
    requires StartsRun(s, i)
    ensures i < |s| && s[i] == '`'
  {
  }

  /** The scan after the opening fence ends at the closing one, unless its run occurs in the code. */
  lemma FenceCloses(code: string, n: nat, end: nat)
    requires n > 0
    ensures var s := Rendered(code, n);
            && !Unclosed(s, n, n) && (Closes(s, n, n, end) ==> (end == |s| <==> !HasRun(code, n)))
  {
    hide Padded, Rendered, RunAt, Embedded, StartsRun, HasRun;
    var s := Rendered(code, n);
    RenderedEmbeds(code, n);
    RunsInside(code, n, n);
  }

  ghost predicate HasPlain(code: string) {
    exists i :: 0 <= i < |code| && code[i] !in " \r\n"
  }

  ghost predicate HasLineEnd(code: string) {
    exists i :: 0 <= i < |code| && code[i] in "\r\n"
  }

  lemma {:induction false} JoinedAsIs(s: string)
    requires forall c :: c in s ==> c != '\r' && c != '\n'
    ensures Joined(s) == s
  {
    if s != "" {
      assert s[0] in s && forall c :: c in s[1..] ==> c in s;
      JoinedAsIs(s[1..]);
      assert s == [s[0]] + s[1..];
    }
  }

  /** Normalising takes away the printer's padding: for code on one line that is not all spaces, and only then. */
  lemma NormalizedPadded(code: string)
    ensures Normalized(Padded(code)) == code <==> HasPlain(code) && !HasLineEnd(code)
  {
    var p := Padded(code);
    JoinedChars(p);
    if HasLineEnd(code) {
      var i :| 0 <= i < |code| && code[i] in "\r\n";
      assert code[i] in code;
      assert forall c :: c in Normalized(p) ==> c in Joined(p);
    } else {
      assert forall c :: c in code ==> c !in "\r\n";
      JoinedAsIs(p);
      ContentPadded(code);
    }
  }

  lemma ContentPadded(code: string)
    requires !HasLineEnd(code)
    ensures HasContent(Padded(code)) <==> HasPlain(code)
    ensures HasPlain(code) ==> Stripped(Padded(code)) == code
    ensures !HasPlain(code) ==> Padded(code) != code
  {
    hide Padded, Embedded;
    PaddedEmbeds(code);
    PaddedParts(code);
    var p, d := Padded(code), Margin(code);
    assert Embedded(p, code, d);
    if HasPlain(code) {
      var i :| 0 <= i < |code| && code[i] !in " \r\n";
      EmbeddedRun(p, code, d, i);
      assert Plain(p[d + i]);
    }
    if HasContent(p) {
      var x :| 0 <= x < |p| && (Plain(p[x]) || CrLfAt(p, x));
      if d <= x < d + |code| {
        EmbeddedRun(p, code, d, x - d);
        assert code[x - d] !in "\r\n";
      }
    }
  }

  lemma PaddedParts(code: string)
    ensures HasPlain(code) ==> Stripped(Padded(code)) == code
    ensures !HasPlain(code) && !HasLineEnd(code) ==> Padded(code) != code
  {
    if code != "" && !HasPlain(code) && !HasLineEnd(code) {
      assert code[0] == ' ';
    }
    if NeedsSpaces(code) {
      assert |Padded(code)| == |code| + 2 && Padded(code)[1..|code| + 1] == code;
    }
  }

  /** The printed span, parsed by a fresh subject, is consumed whole and gives the code back: exactly for code
      that has something besides white space, has no line ending, and leaves a fence unused. */
  method RoundTrip(code: string) returns (out: string, ok: bool, whole: bool, back: string)
    requires forall c :: c in code ==> c != '\0'
    ensures ok && (whole && back == code <==> HasPlain(code) && !HasLineEnd(code) && exists n :: 1 <= n <= 32 && !HasRun(code, n))
  {
    hide HasRun, Padded, Closes, Unclosed, RunAt, Ticks, Normalized, HasPlain, HasLineEnd, Misled;
    out := RenderCode(code);
    ghost var n :| ShortestFence(code, n) && out == Rendered(code, n);
    NoNul(code, n);
    RenderedEmbeds(code, n);
    var subj := new Subject(out);
    StartsFence(out, n);
    NotMisled(out, n);
    ok, back := subj.HandleBackticks();
    FenceCloses(code, n, subj.pos);
    NormalizedPadded(code);
    whole := subj.pos == |out|;
  }

  lemma NotMisled(s: string, k: nat)
    ensures !Misled(s, [], k)
  {
  }

  lemma StartsFence(s: string, n: nat)
    requires s != "" && n > 0 && RunAt(s, 0) == n
    ensures s[0] == '`'
  {
  }

  lemma NoNul(code: string, n: nat)
    requires forall c :: c in code ==> c != '\0'
    ensures forall c :: c in Rendered(code, n) ==> c != '\0'
  {
  }
}
