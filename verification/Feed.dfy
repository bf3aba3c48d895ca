/** `S_parser_feed` and the flush of `cmark_parser_finish`: input comes in pieces of any size and
    leaves as lines.  A byte is a `char`; processing a line means appending it to a trace. */
module Feed {

  import Octets

  const REPLACEMENT_TEXT: string := [Octets.REPLACEMENT[0] as char, Octets.REPLACEMENT[1] as char, Octets.REPLACEMENT[2] as char]
  const UINT_MAX := 0xFFFF_FFFF

  /** A call of `S_process_line`: the bytes, and whether a newline is to be added if missing. */
  datatype Line = Line(text: string, ensureNewline: bool)

  predicate IsLineEnd(c: char) { c == '\n' || c == '\r' }

  // ---------------------------------------------------------------- what the lines of an input are

  /** The first line ending, or the length. */
  function EndOfLine(s: string): (i: nat)
    ensures i <= |s|
    ensures forall k :: 0 <= k < i ==> !IsLineEnd(s[k])
    ensures i < |s| ==> IsLineEnd(s[i])
  {
    if s == "" || IsLineEnd(s[0]) then 0 else 1 + EndOfLine(s[1..])
  }

  /** NUL bytes are replaced. */
  function Clean(s: string): string {
    if s == "" then "" else (if s[0] == '\0' then REPLACEMENT_TEXT else [s[0]]) + Clean(s[1..])
  }

  lemma {:induction false} CleanSame(a: string)
    requires '\0' !in a
    ensures Clean(a) == a
  {
    if a != "" {
      assert a == [a[0]] + a[1..];
      assert a[0] in a && forall c :: c in a[1..] ==> c in a;
      CleanSame(a[1..]);
    }
  }

  lemma CleanNul(b: string)
    ensures Clean("\0" + b) == [0xEF as char, 0xBF as char, 0xBD as char] + Clean(b)
  {
    var s := "\0" + b;
    assert s[0] == '\0' && s[1..] == b;
  }

  /** Cleaning turns each NUL into the bytes of U+FFFD and changes nothing else. */
  lemma CleanMeans(a: string, b: string)
    requires '\0' !in a
    ensures Clean(a) == a && Clean(a + ("\0" + b)) == a + ([0xEF as char, 0xBF as char, 0xBD as char] + Clean(b))
  {
    hide Clean;
    CleanSame(a);
    CleanConcat(a, "\0" + b);
    CleanNul(b);
  }

  /** How long the line ending at the front is: two bytes for CR LF, else one. */
  function EndingLength(s: string): nat
    requires s != ""
  {
    if s[0] == '\r' && |s| > 1 && s[1] == '\n' then 2 else 1
  }

  /** The lines of `start` followed by an input: cut at LF, CR and CR LF; the last need not be ended. */
  function LinesFrom(start: string, s: string, preserve: bool): seq<Line>
    decreases |s|
  {
    var i := EndOfLine(s);
    var text := start + Clean(s[..i]);
    if i == |s| then
      if text == "" then [] else [Line(text, !preserve)]
    else
      [Line(text, true)] + LinesFrom("", s[i + EndingLength(s[i..])..], preserve)
  }

  function Lines(s: string, preserve: bool): seq<Line> {
    LinesFrom("", s, preserve)
  }

  ghost predicate NoEnding(s: string) {
    forall c :: c in s ==> !IsLineEnd(c)
  }

  lemma {:induction false} CleanNoEnding(s: string)
    requires NoEnding(s)
    ensures NoEnding(Clean(s))
  {
    if s != "" {
      assert s == [s[0]] + s[1..];
      CleanNoEnding(s[1..]);
    }
  }

  /** No line holds a CR or an LF: what is parsed later knows no line ending but the LF put behind each line. */
  lemma {:induction false} LinesHoldNoEnding(start: string, s: string, preserve: bool)
    requires NoEnding(start)
    ensures forall l :: l in LinesFrom(start, s, preserve) ==> NoEnding(l.text)
    decreases |s|
  {
    hide Clean, NoEnding, LinesFrom;
    var i := EndOfLine(s);
    NoEndingJoin(start, s, i);
    if i < |s| {
      var rest := s[i + EndingLength(s[i..])..];
      LinesHoldNoEnding("", rest, preserve);
      OneFirst(start, s, preserve);
      AllNoEnding(Line(start + Clean(s[..i]), true), LinesFrom("", rest, preserve));
    } else {
      OneLast(start, s, preserve);
    }
  }

  lemma AllNoEnding(x: Line, rest: seq<Line>)
    requires NoEnding(x.text) && forall l :: l in rest ==> NoEnding(l.text)
    ensures forall l :: l in [x] + rest ==> NoEnding(l.text)
  {
    hide NoEnding;
  }

  lemma OneLast(start: string, s: string, preserve: bool)
    requires EndOfLine(s) == |s|
    ensures forall l :: l in LinesFrom(start, s, preserve) ==> l.text == start + Clean(s[..|s|])
  {
    hide Clean;
  }

  lemma OneFirst(start: string, s: string, preserve: bool)
    requires EndOfLine(s) < |s|
    ensures var i := EndOfLine(s);
            LinesFrom(start, s, preserve) == [Line(start + Clean(s[..i]), true)] + LinesFrom("", s[i + EndingLength(s[i..])..], preserve)
  {
    hide Clean;
  }

  lemma NoEndingJoin(start: string, s: string, i: nat)
    requires NoEnding(start) && i == EndOfLine(s)
    ensures NoEnding(start + Clean(s[..i])) && NoEnding("")
  {
    CleanNoEnding(s[..i]);
  }

  // ---------------------------------------------------------------- one byte at a time

  /** The pending line, whether the last byte was a CR, and the lines processed. */
  datatype State = State(buf: string, cr: bool, done: seq<Line>)

  const FRESH := State("", false, [])

  function Byte(s: State, c: char): State {
    if c == '\n' && s.cr then s.(cr := false)
    else if IsLineEnd(c) then State("", c == '\r', s.done + [Line(s.buf, true)])
    else State(s.buf + (if c == '\0' then REPLACEMENT_TEXT else [c]), false, s.done)
  }

  function Bytes(s: State, input: string): State
    decreases |input|
  {
    if input == "" then s else Bytes(Byte(s, input[0]), input[1..])
  }

  /** `cmark_parser_finish`. */
  function Finish(s: State, preserve: bool): seq<Line> {
    s.done + if s.buf == "" then [] else [Line(s.buf, !preserve)]
  }

  lemma {:induction false} BytesConcat(s: State, a: string, b: string)
    ensures Bytes(s, a + b) == Bytes(Bytes(s, a), b)
    decreases |a|
  {
    if a == "" {
      assert a + b == b;
    } else {
      assert (a + b)[1..] == a[1..] + b;
      BytesConcat(Byte(s, a[0]), a[1..], b);
    }
  }

  lemma {:induction false} CleanConcat(a: string, b: string)
    ensures Clean(a + b) == Clean(a) + Clean(b)
  {
    if a == "" {
      assert a + b == b;
    } else {
      assert (a + b)[1..] == a[1..] + b;
      CleanConcat(a[1..], b);
    }
  }

  lemma Assoc(a: string, b: string, c: string)
    ensures (a + b) + c == a + (b + c)
  {
  }

  /** Bytes without a line ending only grow the pending line. */
  lemma {:induction false} BytesOfText(s: State, text: string)
    requires forall k :: 0 <= k < |text| ==> !IsLineEnd(text[k])
    ensures Bytes(s, text) == State(s.buf + Clean(text), if text == "" then s.cr else false, s.done)
    decreases |text|
  {
    if text != "" {
      var t := Byte(s, text[0]);
      BytesOfText(t, text[1..]);
      Assoc(s.buf, if text[0] == '\0' then REPLACEMENT_TEXT else [text[0]], Clean(text[1..]));
    } else {
      assert s.buf + "" == s.buf;
    }
  }

  /** Up to and with a line ending, the machine completes exactly one line. */
  lemma BytesOfLine(s: State, input: string, i: nat)
    requires i == EndOfLine(input) < |input| && !(s.cr && input[0] == '\n')
    ensures Bytes(s, input)
         == Bytes(State("", input[i] == '\r', s.done + [Line(s.buf + Clean(input[..i]), true)]), input[i + 1..])
  {
    BytesOfText(s, input[..i]);
    assert input == input[..i] + input[i..];
    BytesConcat(s, input[..i], input[i..]);
    assert input[i..][1..] == input[i + 1..] && input[i..][0] == input[i];
  }

  /** A pending LF after a CR belongs to the line ending. */
  function AfterCr(cr: bool, input: string): string {
    if cr && input != "" && input[0] == '\n' then input[1..] else input
  }

  /** The byte machine finds the lines of its input. */
  lemma {:induction false} BytesFindLines(s: State, input: string, preserve: bool)
    requires s.cr ==> s.buf == ""
    ensures Finish(Bytes(s, input), preserve) == s.done + LinesFrom(s.buf, AfterCr(s.cr, input), preserve)
    decreases |input|
  {
    if s.cr && input != "" && input[0] == '\n' {
      var t := s.(cr := false);
      assert Bytes(s, input) == Bytes(t, input[1..]);
      BytesFindLines(t, input[1..], preserve);
    } else {
      var i := EndOfLine(input);
      if i == |input| {
        BytesOfText(s, input);
        assert input[..i] == input;
      } else {
        BytesFindLines(AtEnding(s, input, i), input[i + 1..], preserve);
        FindOneLine(s, input, i, preserve);
      }
    }
  }

  /** The machine just after the first line ending, which is at `i`. */
  function AtEnding(s: State, input: string, i: nat): State
    requires i < |input|
  {
    State("", input[i] == '\r', s.done + [Line(s.buf + Clean(input[..i]), true)])
  }

  lemma FindOneLine(s: State, input: string, i: nat, preserve: bool)
    requires i == EndOfLine(input) < |input| && !(s.cr && input[0] == '\n')
    requires var u := AtEnding(s, input, i);
             Finish(Bytes(u, input[i + 1..]), preserve) == u.done + LinesFrom("", AfterCr(u.cr, input[i + 1..]), preserve)
    ensures Finish(Bytes(s, input), preserve) == s.done + LinesFrom(s.buf, input, preserve)
  {
    hide Bytes, Clean, Byte, LinesFrom, Finish;
    BytesOfLine(s, input, i);
    LinesUnfold(s.buf, input, preserve);
    RestAfterEnding(input, i);
    LinesAppend(s.done, Line(s.buf + Clean(input[..i]), true), LinesFrom("", input[i + EndingLength(input[i..])..], preserve));
  }

  lemma LinesUnfold(start: string, s: string, preserve: bool)
    ensures var i := EndOfLine(s); var text := start + Clean(s[..i]);
            LinesFrom(start, s, preserve) ==
              if i == |s| then (if text == "" then [] else [Line(text, !preserve)])
              else [Line(text, true)] + LinesFrom("", s[i + EndingLength(s[i..])..], preserve)
  {
  }

  lemma RestAfterEnding(input: string, i: nat)
    requires i < |input| && IsLineEnd(input[i])
    ensures AfterCr(input[i] == '\r', input[i + 1..]) == input[i + EndingLength(input[i..])..]
  {
  }

  lemma LinesAppend(a: seq<Line>, x: Line, b: seq<Line>)
    ensures (a + [x]) + b == a + ([x] + b)
  {
  }

  // ---------------------------------------------------------------- pieces

  /** `cmark_parser_feed`: an empty piece forgets a pending CR. */
  function FeedOne(s: State, piece: string): State {
    if piece == "" then s.(cr := false) else Bytes(s, piece)
  }

  function FeedAll(s: State, pieces: seq<string>): State
    decreases |pieces|
  {
    if pieces == [] then s else FeedAll(FeedOne(s, pieces[0]), pieces[1..])
  }

  function Joined(pieces: seq<string>): string {
    if pieces == [] then "" else pieces[0] + Joined(pieces[1..])
  }

  /** No CR LF is cut in two with an empty piece in the cut; `cr` says a CR ends what went before,
      `forgotten` that an empty piece came since. */
  predicate CrlfKept(pieces: seq<string>, cr: bool, forgotten: bool) {
    if pieces == [] then true
    else if pieces[0] == "" then CrlfKept(pieces[1..], cr, true)
    else !(cr && forgotten && pieces[0][0] == '\n') && CrlfKept(pieces[1..], pieces[0][|pieces[0]| - 1] == '\r', false)
  }

  lemma {:induction false} CrIsLast(s: State, input: string)
    requires input != ""
    ensures Bytes(s, input).cr == (input[|input| - 1] == '\r')
    decreases |input|
  {
    if |input| > 1 {
      CrIsLast(Byte(s, input[0]), input[1..]);
    } else {
      assert input[1..] == "";
      assert Bytes(s, input) == Bytes(Byte(s, input[0]), "") == Byte(s, input[0]);
    }
  }

  lemma {:induction false} CrMeansEmpty(s: State, input: string)
    requires s.cr ==> s.buf == ""
    ensures Bytes(s, input).cr ==> Bytes(s, input).buf == ""
    decreases |input|
  {
    if input != "" { CrMeansEmpty(Byte(s, input[0]), input[1..]); }
  }

  /** Any pieces, empty ones too: the stream has as many more lines as there are CR LF cut by empty pieces. */
  lemma {:induction false} StreamAgainstBatch(s: State, g: State, pieces: seq<string>, preserve: bool)
    requires s.buf == g.buf && (s.cr ==> g.cr) && (g.cr ==> g.buf == "")
    requires |s.done| >= |g.done| && (|s.done| == |g.done| ==> s.done == g.done)
    ensures var a, b := Finish(FeedAll(s, pieces), preserve), Finish(Bytes(g, Joined(pieces)), preserve);
            && |a| >= |b|
            && (a == b <==> s.done == g.done && CrlfKept(pieces, g.cr, g.cr && !s.cr))
    decreases |pieces|
  {
    hide Byte, Clean;
    if pieces == [] {
    } else if pieces[0] == "" {
      assert Joined(pieces) == Joined(pieces[1..]);
      StreamAgainstBatch(s.(cr := false), g, pieces[1..], preserve);
    } else {
      StreamPiece(s, g, pieces[0]);
      BytesConcat(g, pieces[0], Joined(pieces[1..]));
      StreamAgainstBatch(FeedOne(s, pieces[0]), Bytes(g, pieces[0]), pieces[1..], preserve);
      CrIsLast(s, pieces[0]);
      CrIsLast(g, pieces[0]);
    }
  }

  /** One non-empty piece: the two machines stay together unless a forgotten CR meets its LF. */
  lemma StreamPiece(s: State, g: State, piece: string)
    requires s.buf == g.buf && (s.cr ==> g.cr) && (g.cr ==> g.buf == "") && piece != ""
    requires |s.done| >= |g.done| && (|s.done| == |g.done| ==> s.done == g.done)
    ensures var t, h := Bytes(s, piece), Bytes(g, piece);
            && t.buf == h.buf && t.cr == h.cr && (h.cr ==> h.buf == "")
            && |t.done| >= |h.done| && (|t.done| == |h.done| ==> t.done == h.done)
            && (t.done == h.done <==> s.done == g.done && !(g.cr && !s.cr && piece[0] == '\n'))
  {
    var t, h := Byte(s, piece[0]), Byte(g, piece[0]);
    SameTail(t, h, piece[1..]);
    CrMeansEmpty(g, piece);
  }

  /** Machines that differ only in the lines done go on alike. */
  lemma {:induction false} SameTail(t: State, h: State, input: string)
    requires t.buf == h.buf && t.cr == h.cr
    ensures var u, v := Bytes(t, input), Bytes(h, input);
            && u.buf == v.buf && u.cr == v.cr
            && |u.done| - |t.done| == |v.done| - |h.done|
            && (u.done == v.done <==> t.done == h.done)
    decreases |input|
  {
    if input != "" {
      var t1, h1 := Byte(t, input[0]), Byte(h, input[0]);
      assert t1.done == t.done || (t1.done[..|t.done|] == t.done && h1.done[..|h.done|] == h.done);
      SameTail(t1, h1, input[1..]);
    }
  }

  /** Streaming equals batch, exactly when no empty piece parts the CR and the LF of one line ending. */
  lemma StreamingEqualsBatch(pieces: seq<string>, preserve: bool)
    ensures Finish(FeedAll(FRESH, pieces), preserve) == Lines(Joined(pieces), preserve)
       <==> CrlfKept(pieces, false, false)
  {
    StreamAgainstBatch(FRESH, FRESH, pieces, preserve);
    BytesFindLines(FRESH, Joined(pieces), preserve);
  }

  /** CR, nothing, LF: two lines where the whole input has one. */
  lemma EmptyPieceAddsLine()
    ensures var pieces := ["\r", "", "\n"];
            && !CrlfKept(pieces, false, false) && Lines(Joined(pieces), false) == [Line("", true)]
            && Finish(FeedAll(FRESH, pieces), false) == [Line("", true), Line("", true)]
  {
    EmptyPieceLines("\r", "\n");
  }

  lemma EmptyPieceLines(a: string, b: string)
    requires a == ['\r'] && b == ['\n']
    ensures var pieces := [a, "", b];
            && !CrlfKept(pieces, false, false) && Lines(Joined(pieces), false) == [Line("", true)]
            && Finish(FeedAll(FRESH, pieces), false) == [Line("", true), Line("", true)]
  {
    var pieces := [a, "", b];
    EmptyPieceParts(a, b);
    hide Bytes, Byte, LinesFrom, Joined, FeedAll, CrlfKept;
    assert Finish(State("", false, [Line("", true), Line("", true)]), false) == [Line("", true), Line("", true)];
    BytesFindLines(FRESH, a + b, false);
    assert FRESH.done + LinesFrom("", a + b, false) == LinesFrom("", a + b, false);
  }

  lemma EmptyPieceParts(a: string, b: string)
    requires a == ['\r'] && b == ['\n']
    ensures var pieces := [a, "", b];
            && !CrlfKept(pieces, false, false) && Joined(pieces) == a + b
            && Bytes(FRESH, a + b) == State("", false, [Line("", true)])
            && FeedAll(FRESH, pieces) == State("", false, [Line("", true), Line("", true)])
  {
    var pieces := [a, "", b];
    assert pieces[1..] == ["", b] && pieces[1..][1..] == [b] && [b][1..] == [];
    assert Joined(["", b]) == Joined([b]) == b + Joined([]) == b;
    assert !CrlfKept([b], true, true) && !CrlfKept(["", b], true, false);
    var t := State("", true, [Line("", true)]);
    BytesOne(FRESH, '\r');
    BytesOne(t.(cr := false), '\n');
    assert FeedAll(t, ["", b]) == FeedAll(t.(cr := false), [b]) == FeedAll(Bytes(t.(cr := false), b), []);
    BytesConcat(FRESH, a, b);
    BytesOne(t, '\n');
  }

  /** In particular for every cut into non-empty pieces. */
  lemma {:induction false} NonEmptyPiecesKeepCrlf(pieces: seq<string>, cr: bool)
    requires forall i :: 0 <= i < |pieces| ==> pieces[i] != ""
    ensures CrlfKept(pieces, cr, false)
    decreases |pieces|
  {
    if pieces != [] { NonEmptyPiecesKeepCrlf(pieces[1..], pieces[0][|pieces[0]| - 1] == '\r'); }
  }

  // ---------------------------------------------------------------- the parser's feed loop

  type uint = n: nat | n <= UINT_MAX

  /** `total_size`: saturates, and so does not depend on the cut. */
  function Saturate(n: nat): uint { if n > UINT_MAX then UINT_MAX else n }

  lemma SaturatingSum(a: nat, b: nat)
    ensures Saturate(Saturate(a) + b) == Saturate(a + b)
  {
  }

  lemma {:induction false} CleanPlain(text: string)
    requires forall k :: 0 <= k < |text| ==> text[k] != '\0'
    ensures Clean(text) == text
  {
    if text != "" { CleanPlain(text[1..]); }
  }

  lemma BytesUpTo(s: State, input: string, p: nat, q: nat)
    requires p <= q <= |input|
    ensures Bytes(s, input[..q]) == Bytes(Bytes(s, input[..p]), input[p..q])
  {
    assert input[..q] == input[..p] + input[p..q];
    BytesConcat(s, input[..p], input[p..q]);
  }

  lemma BytesOne(s: State, c: char)
    ensures Bytes(s, [c]) == Byte(s, c)
  {
    assert [c][1..] == "";
    assert Bytes(s, [c]) == Bytes(Byte(s, c), "");
  }

  /** A stretch of text without line endings and NULs. */
  ghost predicate PlainText(input: string, p: nat, q: nat) {
    p <= q <= |input| && forall k :: p <= k < q ==> !IsLineEnd(input[k]) && input[k] != '\0'
  }

  lemma AfterChunk(s: State, input: string, p: nat, q: nat)
    requires PlainText(input, p, q)
    ensures var t := Bytes(s, input[..p]); var chunk := input[p..q];
            Bytes(s, input[..q]) == State(t.buf + chunk, if p == q then t.cr else false, t.done)
  {
    BytesUpTo(s, input, p, q);
    BytesOfText(Bytes(s, input[..p]), input[p..q]);
    CleanPlain(input[p..q]);
  }

  lemma AfterOne(s: State, input: string, p: nat)
    requires p < |input|
    ensures Bytes(s, input[..p + 1]) == Byte(Bytes(s, input[..p]), input[p])
  {
    BytesUpTo(s, input, p, p + 1);
    assert input[p..p + 1] == [input[p]];
    BytesOne(Bytes(s, input[..p]), input[p]);
  }

  class Parser {
    var linebuf: string
    var lastBufferEndedWithCr: bool
    var totalSize: uint
    var done: seq<Line>
    const preserve: bool          // CMARK_OPT_PRESERVE_WHITESPACE

    constructor (preserve: bool)
      ensures View() == FRESH && totalSize == 0 && this.preserve == preserve
    {
      linebuf, lastBufferEndedWithCr, totalSize, done := "", false, 0, [];
      this.preserve := preserve;
    }

    function View(): State
      reads this
    {
      State(linebuf, lastBufferEndedWithCr, done)
    }

    /** The bytes from `start` up to a line ending, a NUL or the end. */
    method ScanChunk(buffer: string, start: nat) returns (eol: nat)
      requires start <= |buffer|
      ensures start <= eol <= |buffer|
      ensures forall k :: start <= k < eol ==> !IsLineEnd(buffer[k]) && buffer[k] != '\0'
      ensures eol < |buffer| ==> IsLineEnd(buffer[eol]) || buffer[eol] == '\0'
    {
      eol := start;
      while eol < |buffer| && !IsLineEnd(buffer[eol]) && buffer[eol] != '\0'
        invariant start <= eol <= |buffer|
        invariant forall k :: start <= k < eol ==> !IsLineEnd(buffer[k]) && buffer[k] != '\0'
      {
        eol := eol + 1;
      }
    }

    /** Completes the pending line with `chunk`. */
    method CompleteLine(chunk: string, ensureNewline: bool)
      modifies this`linebuf, this`done
      ensures linebuf == "" && done == old(done) + [Line(old(linebuf) + chunk, ensureNewline)]
    {
      if |linebuf| > 0 {
        linebuf := linebuf + chunk;
        done := done + [Line(linebuf, ensureNewline)];
        linebuf := "";
      } else {
        assert linebuf + chunk == chunk;
        done := done + [Line(chunk, ensureNewline)];
      }
    }

    /** The machine has read `buffer[..pos]`, and does not stand inside a CR LF. */
    ghost predicate Stands(start: State, buffer: string, pos: nat)
      reads this
    {
      && pos <= |buffer|
      && var t := Bytes(start, buffer[..pos]);
      && t.buf == linebuf && t.done == done
      && (pos < |buffer| ==> !(t.cr && buffer[pos] == '\n') && !lastBufferEndedWithCr)
      && (pos == |buffer| ==> t.cr == lastBufferEndedWithCr)
    }

    /** Skips a NUL, or a line ending of one byte or two, at `pos`. */
    method SkipEnding(buffer: string, pos: nat) returns (next: nat)
      requires pos < |buffer| && !lastBufferEndedWithCr
      modifies this`lastBufferEndedWithCr
      ensures next == pos + (if buffer[pos] == '\r' || buffer[pos] == '\n' then EndingLength(buffer[pos..]) else if buffer[pos] == '\0' then 1 else 0)
      ensures lastBufferEndedWithCr == (next == |buffer| && buffer[pos] == '\r' && next == pos + 1)
    {
      next := pos;
      if buffer[next] == '\0' {
        next := next + 1;
      } else {
        if buffer[next] == '\r' {
          next := next + 1;
          if next == |buffer| {
            lastBufferEndedWithCr := true;
          }
        }
        if next < |buffer| && buffer[next] == '\n' {
          next := next + 1;
        }
      }
    }

    /** One turn of the loop: a chunk, then what ends it.  `flushed` says the end of input cut it off. */
    method Turn(buffer: string, pos: nat, eof: bool, ghost start: State) returns (next: nat, ghost flushed: bool)
      requires pos < |buffer| && Stands(start, buffer, pos)
      modifies this`linebuf, this`done, this`lastBufferEndedWithCr
      ensures pos < next <= |buffer| && flushed == (eof && next == |buffer| && PlainText(buffer, pos, |buffer|))
      ensures !flushed ==> Stands(start, buffer, next)
      ensures flushed ==> Finish(View(), preserve) == Finish(Bytes(start, buffer), preserve)
    {
      hide Bytes, Clean;
      var eol := ScanChunk(buffer, pos);
      var chunk := buffer[pos..eol];
      AfterChunk(start, buffer, pos, eol);
      flushed := false;
      next := eol;
      if eol == |buffer| {
        assert buffer[..eol] == buffer;
        if eof {
          CompleteLine(chunk, !preserve || !eof || eol < |buffer|);
          flushed := true;
        } else {
          linebuf := linebuf + chunk;
        }
      } else {
        AfterOne(start, buffer, eol);
        if IsLineEnd(buffer[eol]) {
          CompleteLine(chunk, !preserve || !eof || eol < |buffer|);
          if eol + 1 < |buffer| { AfterOne(start, buffer, eol + 1); }
        } else {
          Assoc(linebuf, chunk, REPLACEMENT_TEXT);
          linebuf := linebuf + chunk;
          linebuf := linebuf + REPLACEMENT_TEXT;
        }
        next := SkipEnding(buffer, eol);
      }
    }

    /** `S_parser_feed`.  With `eof` a last line without an ending is processed at once. */
    method Feed(buffer: string, eof: bool)
      modifies this
      ensures totalSize == Saturate(old(totalSize) + |buffer|)
      ensures !eof ==> View() == FeedOne(old(View()), buffer)
      ensures Finish(View(), preserve) == Finish(FeedOne(old(View()), buffer), preserve)
    {
      totalSize := if |buffer| > UINT_MAX - totalSize then UINT_MAX else totalSize + |buffer|;
      ghost var start := View();
      var pos: nat := 0;
      if lastBufferEndedWithCr && buffer != "" && buffer[0] == '\n' {
        pos := 1;   // the LF of a CR LF cut in two
        AfterOne(start, buffer, 0);
      }
      lastBufferEndedWithCr := false;
      if buffer != "" {
        assert buffer[..0] == "" && buffer[..|buffer|] == buffer;
        ghost var flushed := false;
        hide Bytes, Finish;
        while pos < |buffer|
          invariant totalSize == Saturate(old(totalSize) + |buffer|)
          invariant !flushed ==> Stands(start, buffer, pos)
          invariant flushed ==> eof && pos == |buffer| && Finish(View(), preserve) == Finish(Bytes(start, buffer), preserve)
        {
          pos, flushed := Turn(buffer, pos, eof, start);
        }
      }
    }

    /** `cmark_parser_finish`: the pending line is a line. */
    method FinishLines()
      modifies this`linebuf, this`done
      ensures done == Finish(old(View()), preserve) && linebuf == ""
    {
      if |linebuf| > 0 {
        done := done + [Line(linebuf, !preserve)];
        linebuf := "";
      }
    }

    /** A stream of pieces, then the end. */
    method Stream(pieces: seq<string>)
      requires View() == FRESH && totalSize == 0
      modifies this
      ensures CrlfKept(pieces, false, false) <==> done == Lines(Joined(pieces), preserve)
      ensures totalSize == (if |Joined(pieces)| > 0xFFFF_FFFF then 0xFFFF_FFFF else |Joined(pieces)|)
    {
      var i := 0;
      while i < |pieces|
        invariant 0 <= i <= |pieces| && FeedAll(View(), pieces[i..]) == FeedAll(FRESH, pieces)
        invariant Saturate(totalSize + |Joined(pieces[i..])|) == Saturate(|Joined(pieces)|)
      {
        assert pieces[i..][1..] == pieces[i + 1..];
        SaturatingSum(totalSize + |pieces[i]|, |Joined(pieces[i + 1..])|);
        Feed(pieces[i], false);
        i := i + 1;
      }
      FinishLines();
      StreamingEqualsBatch(pieces, preserve);
    }

    /** The whole input in one buffer. */
    method Batch(buffer: string)
      requires View() == FRESH
      modifies this
      ensures done == Lines(buffer, preserve)
    {
      Feed(buffer, true);
      FinishLines();
      BytesFindLines(FRESH, buffer, preserve);
    }
  }
}
