/** Email autolinks of the autolink extension: trimming a link's end, and splitting a text at its links. */
module Autolink {

  predicate IsAlpha(c: char) { 'a' <= c <= 'z' || 'A' <= c <= 'Z' }

  predicate IsAlnum(c: char) { IsAlpha(c) || '0' <= c <= '9' }

  // ---------------------------------------------------------------- the end of a link

  function Count(s: string, c: char): nat {
    if s == "" then 0 else Count(s[..|s| - 1], c) + if s[|s| - 1] == c then 1 else 0
  }

  /** Up to the first `<`. */
  function CutAt(s: string, i: nat): (n: nat)
    requires i <= |s|
    ensures i <= n <= |s| && (n < |s| ==> s[n] == '<') && forall k :: i <= k < n ==> s[k] != '<'
    decreases |s| - i
  {
    if i == |s| || s[i] == '<' then i else CutAt(s, i + 1)
  }

  predicate Droppable(c: char) {
    c == '?' || c == '!' || c == '.' || c == ',' || c == ':' || c == '*' || c == '_' || c == '~' || c == '\'' || c == '\"'
  }

  /** Back over letters from `i`. */
  function BackOverLetters(s: string, i: nat): (n: nat)
    requires i < |s|
    ensures n <= i && (n > 0 ==> !IsAlpha(s[n])) && forall k :: n < k <= i ==> IsAlpha(s[k])
  {
    if i > 0 && IsAlpha(s[i]) then BackOverLetters(s, i - 1) else i
  }

  /** The rule for the end of a link, one prefix at a time: punctuation goes, an entity goes whole, and a
      closing parenthesis goes when the prefix has more of them than opening ones. */
  function Trimmed(s: string): (n: nat)
    ensures n <= |s|
    decreases |s|
  {
    if s == "" then 0
    else
      var last := |s| - 1;
      if s[last] == ')' then (if Count(s, ')') <= Count(s, '(') then |s| else Trimmed(s[..last]))
      else if Droppable(s[last]) then Trimmed(s[..last])
      else if s[last] == ';' && last > 0 then
        var newEnd := BackOverLetters(s, last - 1);
        if newEnd < last - 1 && s[newEnd] == '&' then Trimmed(s[..newEnd]) else Trimmed(s[..last])
      else if s[last] == ';' then 0
      else |s|
  }

  lemma {:induction false} CountConcat(a: string, b: string, c: char)
    ensures Count(a + b, c) == Count(a, c) + Count(b, c)
  {
    if b == "" {
      assert a + b == a;
    } else {
      assert (a + b)[..|a + b| - 1] == a + b[..|b| - 1];
      CountConcat(a, b[..|b| - 1], c);
    }
  }

  lemma {:induction false} NoneCounted(s: string, c: char)
    requires c !in s
    ensures Count(s, c) == 0
  {
    if s != "" {
      assert s[|s| - 1] in s && forall d :: d in s[..|s| - 1] ==> d in s;
      NoneCounted(s[..|s| - 1], c);
    }
  }

  /** What goes with an entity or other punctuation holds no parentheses. */
  lemma DropKeepsCounts(s: string, n: nat)
    requires n <= |s| && '(' !in s[n..] && ')' !in s[n..]
    ensures Count(s[..n], '(') == Count(s, '(') && Count(s[..n], ')') == Count(s, ')')
  {
    assert s == s[..n] + s[n..];
    CountConcat(s[..n], s[n..], '(');
    CountConcat(s[..n], s[n..], ')');
    NoneCounted(s[n..], '(');
    NoneCounted(s[n..], ')');
  }

  /** An entity at the end goes whole, and any other semicolon or punctuation alone. */
  lemma TrimsEntity(r: string, name: string)
    requires name != "" && forall k :: 0 <= k < |name| ==> IsAlpha(name[k])
    ensures Trimmed(r + "&" + name + ";") == Trimmed(r)
  {
    var s := r + "&" + name + ";";
    var last := |s| - 1;
    assert s[last] == ';' && s[|r|] == '&' && s[..|r|] == r && forall k :: |r| < k < last ==> s[k] == name[k - |r| - 1];
    assert BackOverLetters(s, last - 1) == |r|;
    TrimStep(s);
  }

  lemma TrimsPunctuation(r: string, c: char)
    requires c in "?!.,:*_~'\""
    ensures Trimmed(r + [c]) == Trimmed(r)
  {
    assert (r + [c])[..|r|] == r;
    TrimStep(r + [c]);
  }

  /** A closing parenthesis stays when the text has as many opening ones; otherwise it goes.  Text that ends with
      anything else is not trimmed. */
  lemma TrimsParenthesis(r: string)
    ensures var s := r + ")"; Trimmed(s) == if Count(s, ')') <= Count(s, '(') then |s| else Trimmed(r)
  {
    assert (r + ")")[..|r|] == r;
    TrimStep(r + ")");
  }

  lemma TrimsNothing(r: string, c: char)
    requires c !in "?!.,:*_~'\");"
    ensures Trimmed(r + [c]) == |r| + 1
  {
    TrimStep(r + [c]);
  }

  /** `autolink_delim`: the counters kept up to date along the way are those of the prefix.  Where the trimming
      comes down to a semicolon at the front the code reads before the text. */
  method AutolinkDelim(data: string, linkEnd: nat) returns (end: nat)
    requires linkEnd <= |data| && (linkEnd > 0 && data[0] == ';' ==> Trimmed(data[..CutAt(data[..linkEnd], 0)]) > 0)
    ensures end <= linkEnd && end == Trimmed(data[..CutAt(data[..linkEnd], 0)])
  {
    var opening, closing;
    end, opening, closing := CountParentheses(data, linkEnd);
    ghost var cut := end;
    while end > 0
      invariant end <= cut <= linkEnd && Trimmed(data[..end]) == Trimmed(data[..cut])
      invariant opening == Count(data[..end], '(') && closing == Count(data[..end], ')')
      decreases end
    {
      hide Count, Trimmed, Droppable, BackOverLetters, CutAt;
      PrefixStep(data, end);
      var last := data[end - 1];
      if last == ')' {
        if closing <= opening {
          return;
        }
        closing := closing - 1;
        end := end - 1;
      } else if Droppable(last) {
        end := end - 1;
      } else if last == ';' {
        var newEnd := EntityStart(data, end);
        if newEnd < end - 2 && data[newEnd] == '&' {
          end := newEnd;
        } else {
          end := end - 1;
        }
      } else {
        return;
      }
    }
  }

  /** Back over the letters before a semicolon. */
  method EntityStart(data: string, end: nat) returns (newEnd: nat)
    requires 2 <= end <= |data|
    ensures newEnd == BackOverLetters(data[..end], end - 2)
  {
    newEnd := end - 2;
    while newEnd > 0 && IsAlpha(data[newEnd])
      invariant newEnd <= end - 2 && BackOverLetters(data[..end], end - 2) == BackOverLetters(data[..end], newEnd)
    {
      newEnd := newEnd - 1;
    }
  }

  /** The first loop: up to a `<`, counting parentheses. */
  method CountParentheses(data: string, linkEnd: nat) returns (end: nat, opening: nat, closing: nat)
    requires linkEnd <= |data|
    ensures end == CutAt(data[..linkEnd], 0)
    ensures opening == Count(data[..end], '(') && closing == Count(data[..end], ')')
  {
    end, opening, closing := linkEnd, 0, 0;
    var i := 0;
    while i < end
      invariant 0 <= i <= end == linkEnd && CutAt(data[..linkEnd], 0) == CutAt(data[..linkEnd], i)
      invariant opening == Count(data[..i], '(') && closing == Count(data[..i], ')')
      decreases end - i
    {
      assert data[..i + 1][..i] == data[..i];
      var c := data[i];
      if c == '<' {
        end := i;
        break;
      } else if c == '(' {
        opening := opening + 1;
      } else if c == ')' {
        closing := closing + 1;
      }
      i := i + 1;
    }
  }

  /** One round of the trimming, in terms of prefixes. */
  lemma PrefixStep(data: string, end: nat)
    requires 0 < end <= |data|
    ensures var p, q, last := data[..end], data[..end - 1], data[end - 1];
            && Count(q, '(') + (if last == '(' then 1 else 0) == Count(p, '(')
            && Count(q, ')') + (if last == ')' then 1 else 0) == Count(p, ')')
            && (last == ')' ==> Trimmed(p) == if Count(p, ')') <= Count(p, '(') then end else Trimmed(q))
            && (Droppable(last) ==> Trimmed(p) == Trimmed(q))
            && (last != ')' && last != ';' && !Droppable(last) ==> Trimmed(p) == end)
            && (last == ';' && end == 1 ==> Trimmed(p) == 0)
    ensures data[end - 1] == ';' && end > 1 ==>
      var p, n := data[..end], BackOverLetters(data[..end], end - 2);
      if n < end - 2 && data[n] == '&' then
        Trimmed(p) == Trimmed(data[..n]) && Count(data[..n], '(') == Count(p, '(') && Count(data[..n], ')') == Count(p, ')')
      else Trimmed(p) == Trimmed(data[..end - 1])
  {
    hide Count, Trimmed, Droppable;
    var p := data[..end];
    TrimStep(p);
    DropLast(p);
    assert p[..end - 1] == data[..end - 1];
    if p[end - 1] == ';' && end > 1 {
      var n := BackOverLetters(p, end - 2);
      assert p[..n] == data[..n];
      DropEntity(p);
    }
  }

  lemma TrimStep(s: string)
    requires s != ""
    ensures var last := |s| - 1;
            && (s[last] == ')' ==> Trimmed(s) == if Count(s, ')') <= Count(s, '(') then |s| else Trimmed(s[..last]))
            && (Droppable(s[last]) ==> Trimmed(s) == Trimmed(s[..last]))
            && (s[last] == ';' && last == 0 ==> Trimmed(s) == 0)
            && (s[last] == ';' && last > 0 ==> var n := BackOverLetters(s, last - 1);
                 Trimmed(s) == if n < last - 1 && s[n] == '&' then Trimmed(s[..n]) else Trimmed(s[..last]))
            && (s[last] != ')' && s[last] != ';' && !Droppable(s[last]) ==> Trimmed(s) == |s|)
    ensures Trimmed("") == 0
  {
    hide Count, BackOverLetters;
  }

  lemma DropLast(s: string)
    requires s != ""
    ensures var r := s[..|s| - 1];
            && Count(s, ')') == Count(r, ')') + (if s[|s| - 1] == ')' then 1 else 0)
            && Count(s, '(') == Count(r, '(') + if s[|s| - 1] == '(' then 1 else 0
  {
  }

  lemma DropEntity(s: string)
    requires |s| >= 2 && s[|s| - 1] == ';'
    ensures var n := BackOverLetters(s, |s| - 2);
            n < |s| - 2 && s[n] == '&' ==> Count(s[..n], '(') == Count(s, '(') && Count(s[..n], ')') == Count(s, ')')
  {
    var n := BackOverLetters(s, |s| - 2);
    if n < |s| - 2 && s[n] == '&' {
      forall c | c in s[n..] ensures c != '(' && c != ')' {
        var k :| 0 <= k < |s| - n && s[n..][k] == c;
      }
      DropKeepsCounts(s, n);
    }
  }

  /** The trimmed link: no more can go, and its parentheses are not closed too often at the end. */
  lemma {:induction false} TrimmedEnd(s: string)
    ensures var n := Trimmed(s);
            && Trimmed(s[..n]) == n
            && (n > 0 ==> !Droppable(s[n - 1]) && s[n - 1] != ';')
            && (n > 0 && s[n - 1] == ')' ==> Count(s[..n], ')') <= Count(s[..n], '('))
    decreases |s|
  {
    if s != "" {
      hide Count;
      TrimStep(s);
      var last, n := |s| - 1, Trimmed(s);
      if n == |s| {
        assert s[..n] == s;
      } else if s[last] == ';' && last == 0 {
        assert s[..0] == "";
      } else if s[last] == ';' && BackOverLetters(s, last - 1) < last - 1 && s[BackOverLetters(s, last - 1)] == '&' {
        var e := BackOverLetters(s, last - 1);
        TrimmedEnd(s[..e]);
        assert s[..e][..n] == s[..n];
      } else {
        TrimmedEnd(s[..last]);
        assert s[..last][..n] == s[..n];
      }
    }
  }

  /** A character that is not trimmed keeps all before it, unless an entity ends behind it. */
  lemma {:induction false} TrimStops(s: string, j: nat)
    requires j < |s| && s[0] != ';' && s[j] != ')' && !Droppable(s[j]) && ';' !in s
    ensures Trimmed(s) > j
    decreases |s|
  {
    hide Count;
    TrimStep(s);
    var last := |s| - 1;
    assert s[last] in s;
    if j < last {
      assert forall c :: c in s[..last] ==> c in s;
      TrimStops(s[..last], j);
    }
  }

  // ---------------------------------------------------------------- what may stand around an at sign

  /** `strchr` finds NUL in every string. */
  predicate LocalChar(c: char) { IsAlnum(c) || c == '.' || c == '+' || c == '-' || c == '_' || c == '\0' || c == ':' }

  predicate DomainChar(c: char) { IsAlnum(c) || c == '.' || c == '/' || c == '-' || c == '_' }

  /** `protocol` ends `k` bytes before the at sign, and no letter or digit stands before it. */
  predicate ProtocolAt(protocol: string, data: string, at: nat, k: nat, max: nat)
    requires k <= max <= at <= |data|
  {
    && |protocol| <= max - k && data[at - k - |protocol|..at - k] == protocol
    && (|protocol| < max - k ==> !IsAlnum(data[at - k - |protocol| - 1]))
  }

  /** The `k`-th byte back from the at sign may belong to an address. */
  predicate BackOk(data: string, at: nat, max: nat, k: nat)
    requires k < max <= at <= |data|
  {
    var c := data[at - k - 1];
    LocalChar(c) && (c == ':' ==> ProtocolAt("mailto:", data, at, k, max) || ProtocolAt("xmpp:", data, at, k, max))
  }

  /** How many bytes back, from the `k`-th, an address may reach. */
  function BackCount(data: string, at: nat, max: nat, k: nat): (n: nat)
    requires k <= max <= at <= |data|
    ensures k <= n <= max && (n < max ==> !BackOk(data, at, max, n)) && forall j :: k <= j < n ==> BackOk(data, at, max, j)
    decreases max - k
  {
    if k == max || !BackOk(data, at, max, k) then k else BackCount(data, at, max, k + 1)
  }

  /** The address names its protocol. */
  predicate SaysItself(data: string, at: nat, n: nat)
    requires n <= at <= |data|
  {
    exists j :: at - n <= j < at && data[j] == ':'
  }

  /** It names one that is not mailto. */
  predicate SaysXmpp(data: string, at: nat, max: nat, n: nat)
    requires n <= max <= at <= |data|
  {
    exists k :: 0 <= k < n && data[at - k - 1] == ':' && !ProtocolAt("mailto:", data, at, k, max)
  }

  /** The `i`-th byte after the at sign, which is the first of `s`, may belong to a domain. */
  predicate AheadOk(s: string, i: nat, isXmpp: bool)
    requires i < |s|
  {
    || IsAlnum(s[i]) || s[i] == '-' || s[i] == '_' || (s[i] == '/' && isXmpp)
    || (s[i] == '.' && i + 1 < |s| && IsAlnum(s[i + 1]))
  }

  function AheadEnd(s: string, i: nat, isXmpp: bool): (n: nat)
    requires i <= |s|
    ensures i <= n <= |s| && (n < |s| ==> !AheadOk(s, n, isXmpp)) && forall j :: i <= j < n ==> AheadOk(s, j, isXmpp)
    decreases |s| - i
  {
    if i == |s| || !AheadOk(s, i, isXmpp) then i else AheadEnd(s, i + 1, isXmpp)
  }

  /** How many dots there are behind the at sign and before `n`. */
  function DotCount(s: string, n: nat): nat
    requires n <= |s|
  {
    if n <= 1 then 0 else DotCount(s, n - 1) + if s[n - 1] == '.' then 1 else 0
  }

  // ---------------------------------------------------------------- which links a text has

  datatype Try =
    | Again(step: nat, autoMailto: bool, isXmpp: bool, np: nat)
    | Miss(skip: nat)
    | Found(rewind: nat, linkEnd: nat, autoMailto: bool)

  /** What an at sign comes to: another one close behind, nothing, or a link, which is then trimmed.  The
      flags and the number of dots are those counted so far, before jumps to this at sign too. */
  function Attempt(data: string, at: nat, max: nat, autoMailto: bool, isXmpp: bool, np: nat): Try
    requires max <= at < |data| && data[at] == '@'
  {
    var r := BackCount(data, at, max, 0);
    if r == 0 then Miss(1)
    else
      var auto, xmpp := autoMailto && !SaysItself(data, at, r), isXmpp || SaysXmpp(data, at, max, r);
      var s := data[at..];
      var e := AheadEnd(s, 1, xmpp);
      var dots := np + DotCount(s, e);
      if e < |s| && s[e] == '@' then Again(e, auto, xmpp, dots)
      else if e < 2 || dots == 0 || (!IsAlpha(s[e - 1]) && s[e - 1] != '.') then Miss(e)
      else Found(r, Trimmed(s[..CutAt(s[..e], 0)]), auto)
  }

  datatype Outcome = Next(from: nat) | Link(left: nat, at: nat, right: nat, autoMailto: bool)

  /** From one at sign on, over those close behind it. */
  function Resolve(data: string, from: nat, at: nat, autoMailto: bool, isXmpp: bool, np: nat): Outcome
    requires from <= at < |data| && data[at] == '@'
    decreases |data| - at
  {
    AttemptOk(data, at, at - from, autoMailto, isXmpp, np);
    match Attempt(data, at, at - from, autoMailto, isXmpp, np)
    case Miss(skip) => Next(at + skip)
    case Again(step, auto, xmpp, dots) => Resolve(data, at + 1, at + step, auto, xmpp, dots)
    case Found(rewind, linkEnd, auto) => Link(at - rewind, at, at + linkEnd, auto)
  }

  /** From the first at sign on, with nothing counted yet. */
  function ResolveFirst(data: string, from: nat, at: nat): Outcome
    requires from <= at < |data| && data[at] == '@'
  {
    Resolve(data, from, at, true, false, 0)
  }

  datatype Piece = TextPiece(literal: string) | LinkPiece(url: string, literal: string)

  /** The pieces of a text from `start` on, when all up to `from` is known to hold no link. */
  function Split(data: string, start: nat, from: nat): seq<Piece>
    requires start <= from <= |data|
    decreases |data| - from
  {
    var at := IndexFrom(data, from);
    if at == |data| then [TextPiece(data[start..])]
    else
      ResolveOk(data, from, at, true, false, 0);
      match ResolveFirst(data, from, at)
      case Next(n) => Split(data, start, n)
      case Link(left, _, right, auto) =>
        [TextPiece(data[start..left]), LinkPiece((if auto then "mailto:" else "") + data[left..right], data[left..right])]
        + Split(data, right, right)
  }

  function IndexFrom(s: string, i: nat): (n: nat)
    requires i <= |s|
    ensures i <= n <= |s| && (n < |s| ==> s[n] == '@') && forall k :: i <= k < n ==> s[k] != '@'
    decreases |s| - i
  {
    if i == |s| || s[i] == '@' then i else IndexFrom(s, i + 1)
  }

  // ---------------------------------------------------------------- what the pieces are

  /** The text of a link: some characters, an at sign at `at`, a domain that ends with a letter and in which
      a letter or digit stands behind every dot. */
  ghost predicate AddressAt(s: string, at: nat) {
    && 1 <= at && at + 1 < |s| && s[at] == '@' && IsAlpha(s[|s| - 1])
    && (forall k :: 0 <= k < at ==> LocalChar(s[k]))
    && (forall k :: at < k < |s| ==> DomainChar(s[k]))
    && forall k :: at < k < |s| - 1 && s[k] == '.' ==> IsAlnum(s[k + 1])
  }

  /** There is a dot in the domain. */
  ghost predicate Dotted(s: string, at: nat) {
    exists k :: at < k < |s| && s[k] == '.'
  }

  ghost predicate AddressText(s: string) {
    exists at: nat :: AddressAt(s, at)
  }

  /** An address with a dotted domain. */
  ghost predicate EmailText(s: string) {
    exists at: nat :: AddressAt(s, at) && Dotted(s, at)
  }

  /** A link to its own text, as an email address unless the text says so itself. */
  ghost predicate AddressPiece(p: Piece) {
    p.LinkPiece? && AddressText(p.literal) && (p.url == p.literal || p.url == "mailto:" + p.literal)
  }

  /** Texts at the even places, links at the odd ones. */
  ghost predicate Alternate(ps: seq<Piece>) {
    forall i :: 0 <= i < |ps| ==> if i % 2 == 0 then ps[i].TextPiece? else AddressPiece(ps[i])
  }

  /** What the pieces read in order. */
  function Spelled(ps: seq<Piece>): string {
    if ps == [] then "" else ps[0].literal + Spelled(ps[1..])
  }

  lemma AttemptOk(data: string, at: nat, max: nat, autoMailto: bool, isXmpp: bool, np: nat)
    requires max <= at < |data| && data[at] == '@'
    ensures var t := Attempt(data, at, max, autoMailto, isXmpp, np);
            && (t.Again? ==> t.step > 0 && at + t.step < |data| && data[at + t.step] == '@'
                             && t.np == np + DotCount(data[at..], t.step) && forall k :: at < k < at + t.step ==> DomainChar(data[k]))
            && (t.Miss? ==> t.skip > 0 && at + t.skip <= |data|)
            && (t.Found? ==> 1 <= t.rewind <= max && 1 < t.linkEnd && at + t.linkEnd <= |data|
                             && AddressAt(data[at - t.rewind..at + t.linkEnd], t.rewind) && np + DotCount(data[at..], t.linkEnd) > 0)
  {
    hide AddressAt, Trimmed, CutAt, BackOk, ProtocolAt, AheadOk, IsAlpha, DomainChar, SaysItself, SaysXmpp, DotCount;
    var t := Attempt(data, at, max, autoMailto, isXmpp, np);
    var r := BackCount(data, at, max, 0);
    var xmpp := isXmpp || SaysXmpp(data, at, max, r);
    var e := AheadEnd(data[at..], 1, xmpp);
    AheadChars(data[at..], e, xmpp);
    if t.Again? {
      forall k | at < k < at + t.step ensures DomainChar(data[k]) { assert data[k] == data[at..][k - at]; }
    }
    if t.Found? {
      BackChars(data, at, max, r);
      TrimmedAddress(data, at, r, e, t.linkEnd);
    }
  }

  lemma BackChars(data: string, at: nat, max: nat, r: nat)
    requires max <= at < |data| && r == BackCount(data, at, max, 0)
    ensures forall k :: at - r <= k < at ==> LocalChar(data[k])
  {
    hide LocalChar, ProtocolAt;
    forall k | at - r <= k < at ensures LocalChar(data[k]) {
      assert BackOk(data, at, max, at - 1 - k);
    }
  }

  /** The bytes of a domain; behind a dot in it there is a letter or digit, so a dot is not the last. */
  lemma AheadChars(s: string, e: nat, isXmpp: bool)
    requires s != "" && e == AheadEnd(s, 1, isXmpp)
    ensures forall k :: 1 <= k < e ==> DomainChar(s[k])
    ensures forall k :: 1 <= k < e && s[k] == '.' ==> k + 1 < e && IsAlnum(s[k + 1])
  {
    forall k | 1 <= k < e ensures DomainChar(s[k]) { assert AheadOk(s, k, isXmpp); }
    forall k | 1 <= k < e && s[k] == '.' ensures k + 1 < e && IsAlnum(s[k + 1]) {
      assert AheadOk(s, k, isXmpp);
      assert k + 1 < |s| && IsAlnum(s[k + 1]) && AheadOk(s, k + 1, isXmpp);
    }
  }

  /** An address ends with a letter, so nothing is trimmed. */
  lemma TrimmedAddress(data: string, at: nat, rewind: nat, reach: nat, end: nat)
    requires 1 <= rewind <= at < |data| && data[at] == '@' && 2 <= reach && at + reach <= |data|
    requires forall k :: at - rewind <= k < at ==> LocalChar(data[k])
    requires forall k :: 1 <= k < reach ==> DomainChar(data[at..][k])
    requires forall k :: 1 <= k < reach && data[at..][k] == '.' ==> k + 1 < reach && IsAlnum(data[at..][k + 1])
    requires IsAlpha(data[at..][reach - 1]) || data[at..][reach - 1] == '.'
    requires end == Trimmed(data[at..][..CutAt(data[at..][..reach], 0)])
    ensures end == reach && AddressAt(data[at - rewind..at + end], rewind)
  {
    hide Trimmed, Count;
    var s := data[at..][..reach];
    assert s[0] == '@' && forall k :: 1 <= k < reach ==> s[k] == data[at..][k];
    NoCut(s);
    assert data[at..][..reach] == s;
    TrimStep(s);
    var t := data[at - rewind..at + end];
    assert forall j :: 0 <= j < |t| ==> t[j] == data[at - rewind + j];
    assert forall j :: rewind <= j < |t| ==> t[j] == data[at..][j - rewind];
  }

  lemma NoCut(s: string)
    requires '<' !in s
    ensures CutAt(s, 0) == |s|
  {
  }

  /** A link starts no earlier than the search, and a dot was counted between the at sign the search began at
      and its end, if none was before. */
  lemma {:induction false} ResolveOk(data: string, from: nat, at: nat, autoMailto: bool, isXmpp: bool, np: nat)
    requires from <= at < |data| && data[at] == '@'
    ensures var o := Resolve(data, from, at, autoMailto, isXmpp, np);
            && (o.Next? ==> from < o.from <= |data|)
            && (o.Link? ==> from <= o.left < o.at && at <= o.at < o.right <= |data| && AddressAt(data[o.left..o.right], o.at - o.left))
            && (o.Link? && np == 0 ==> exists k :: at < k < o.right && data[k] == '.')
    decreases |data| - at
  {
    hide AddressAt, Attempt, DotCount;
    AttemptOk(data, at, at - from, autoMailto, isXmpp, np);
    match Attempt(data, at, at - from, autoMailto, isXmpp, np)
    case Again(step, auto, xmpp, dots) =>
      ResolveOk(data, at + 1, at + step, auto, xmpp, dots);
      DotsCounted(data, at, step);
    case Found(_, linkEnd, _) =>
      DotsCounted(data, at, linkEnd);
    case Miss(_) =>
  }

  lemma {:induction false} DotsCounted(data: string, at: nat, n: nat)
    requires at + n <= |data|
    ensures DotCount(data[at..], n) > 0 <==> exists k :: at < k < at + n && data[k] == '.'
  {
    if n > 1 {
      DotsCounted(data, at, n - 1);
      assert data[at..][n - 1] == data[at + (n - 1)];
    }
  }

  /** The pieces read as the text did; texts and links alternate; each link is an address. */
  lemma {:induction false} SplitReads(data: string, start: nat, from: nat)
    requires start <= from <= |data|
    ensures var ps := Split(data, start, from); Spelled(ps) == data[start..] && |ps| % 2 == 1 && Alternate(ps)
    decreases |data| - from
  {
    hide AddressAt, ResolveFirst, IndexFrom;
    var at := IndexFrom(data, from);
    if at == |data| {
      assert [TextPiece(data[start..])][1..] == [];
    } else {
      FirstOk(data, from, at);
      match ResolveFirst(data, from, at)
      case Next(n) => SplitReads(data, start, n);
      case Link(left, _, right, auto) =>
        SplitReads(data, right, right);
        LinkReads(data, start, left, right, auto, Split(data, right, right));
    }
  }

  lemma FirstOk(data: string, from: nat, at: nat)
    requires from <= at < |data| && data[at] == '@'
    ensures var o := ResolveFirst(data, from, at);
            && (o.Next? ==> from < o.from <= |data|)
            && (o.Link? ==> from <= o.left < o.at && at <= o.at < o.right <= |data| && AddressAt(data[o.left..o.right], o.at - o.left))
            && (o.Link? ==> AddressText(data[o.left..o.right]) && exists k :: at < k < o.right && data[k] == '.')
  {
    hide Resolve, AddressAt;
    ResolveOk(data, from, at, true, false, 0);
    var o := ResolveFirst(data, from, at);
    if o.Link? {
      var a: nat := o.at - o.left;
      assert AddressAt(data[o.left..o.right], a);
    }
  }

  // ---------------------------------------------------------------- which links have a dotted domain

  ghost predicate AllDotted(ps: seq<Piece>) {
    forall i :: 0 <= i < |ps| && ps[i].LinkPiece? ==> EmailText(ps[i].literal)
  }

  /** The last at sign before `p`, or -1. */
  function AtBefore(data: string, p: nat): (q: int)
    requires p <= |data|
    ensures -1 <= q < p && (q >= 0 ==> data[q] == '@') && forall k :: q < k < p ==> data[k] != '@'
  {
    if p == 0 then -1 else if data[p - 1] == '@' then p - 1 else AtBefore(data, p - 1)
  }

  /** What stands before an at sign: how far back an address may reach, and whether an xmpp protocol, which
      lets slashes into a domain, is in force from an at sign before. */
  datatype Context = Context(low: nat, xmpp: bool)

  /** The context of each at sign follows from the one before it. */
  function ContextAt(data: string, p: nat): (c: Context)
    requires p < |data| && data[p] == '@'
    ensures c.low <= p
    decreases p, 0
  {
    var q := AtBefore(data, p);
    if q < 0 then Context(0, false)
    else if !HasLocal(data, q) then Context(q + 1, false)
    else
      DomainBefore(data, q, p);
      if DomainEnd(data, q) == p then Context(q + 1, InXmpp(data, q)) else Context(DomainEnd(data, q), false)
  }

  /** Does the byte before the at sign belong to an address? */
  predicate HasLocal(data: string, p: nat)
    requires p < |data| && data[p] == '@'
    decreases p, 1
  {
    var c := ContextAt(data, p);
    c.low < p && BackOk(data, p, p - c.low, 0)
  }

  predicate InXmpp(data: string, p: nat)
    requires p < |data| && data[p] == '@'
    decreases p, 1
  {
    var c := ContextAt(data, p);
    c.xmpp || SaysXmpp(data, p, p - c.low, BackCount(data, p, p - c.low, 0))
  }

  /** Where the domain behind the at sign ends. */
  function DomainEnd(data: string, p: nat): (e: nat)
    requires p < |data| && data[p] == '@'
    ensures p < e <= |data|
    decreases p, 2
  {
    p + AheadEnd(data[p..], 1, InXmpp(data, p))
  }

  /** A domain ends at the next at sign, or before. */
  lemma DomainBefore(data: string, q: nat, p: nat)
    requires q < p < |data| && data[q] == '@' && data[p] == '@'
    ensures DomainEnd(data, q) <= p
    decreases q, 3
  {
    assert !AheadOk(data[q..], p - q, InXmpp(data, q)) by { assert data[q..][p - q] == '@'; }
  }

  /** Another at sign stands right behind the domain: the search goes on from there. */
  predicate Glues(data: string, p: nat)
    requires p < |data| && data[p] == '@'
  {
    HasLocal(data, p) && DomainEnd(data, p) < |data| && data[DomainEnd(data, p)] == '@'
  }

  /** The search ends at this at sign, with a domain that would do but for its dots. */
  predicate Ends(data: string, p: nat)
    requires p < |data| && data[p] == '@'
  {
    HasLocal(data, p) && !Glues(data, p) && DomainEnd(data, p) >= p + 2 && IsAlpha(data[DomainEnd(data, p) - 1])
  }

  /** The at signs from `first` up to `at` each stand right behind the domain of the one before. */
  ghost predicate Glued(data: string, first: nat, at: nat)
    requires at <= |data|
  {
    forall p :: first <= p < at && data[p] == '@' ==> Glues(data, p)
  }

  ghost predicate DotBetween(data: string, i: nat, j: nat)
    requires j <= |data|
  {
    exists k :: i < k < j && data[k] == '.'
  }

  /** At signs glued together with a dot between them, and behind the last a domain without one. */
  ghost predicate Lends(data: string, first: nat, at: nat) {
    && first < at < |data| && data[first] == '@' && data[at] == '@'
    && Glued(data, first, at) && DotBetween(data, first, at)
    && Ends(data, at) && !DotBetween(data, at, DomainEnd(data, at))
  }

  /** A search may begin at `from`: nothing is in force at the next at sign but what stands behind `from`. */
  ghost predicate Begins(data: string, from: nat)
    requires from <= |data|
  {
    var at := IndexFrom(data, from);
    at < |data| ==> ContextAt(data, at) == Context(from, false)
  }

  /** A search that began at the at sign `first` has come to `z`, and goes on behind it at `next`. */
  ghost predicate CameTo(data: string, first: nat, z: nat, next: nat) {
    && first <= z < next <= |data| && data[first] == '@' && data[z] == '@' && Glued(data, first, z) && !Glues(data, z)
    && (forall k :: z < k < next ==> data[k] != '@') && Begins(data, next)
  }

  /** What an at sign comes to, in terms of the text. */
  lemma AttemptText(data: string, from: nat, at: nat, auto: bool, xmpp: bool, np: nat)
    requires from <= at < |data| && data[at] == '@' && ContextAt(data, at) == Context(from, xmpp)
    ensures var t := Attempt(data, at, at - from, auto, xmpp, np); var e := DomainEnd(data, at);
            && (t.Again? <==> Glues(data, at))
            && (t.Again? ==> at + t.step == e && t.isXmpp == InXmpp(data, at) && t.np == np + DotCount(data[at..], e - at))
            && (t.Miss? ==> at + t.skip == if HasLocal(data, at) then e else at + 1)
            && (t.Found? <==> Ends(data, at) && np + DotCount(data[at..], e - at) > 0)
            && (t.Found? ==> at + t.linkEnd == e)
  {
    hide Trimmed, CutAt, BackOk, ProtocolAt, AheadOk, SaysItself, SaysXmpp, DotCount, ContextAt, Attempt, AddressAt, IsAlpha, IsAlnum;
    var e := DomainEnd(data, at);
    LocalText(data, from, at, xmpp);
    AttemptIs(data, at, at - from, auto, xmpp, np);
    AheadChars(data[at..], e - at, InXmpp(data, at));
    assert e < |data| ==> data[at..][e - at] == data[e];
    assert data[at..][e - at - 1] == data[e - 1];
    if Attempt(data, at, at - from, auto, xmpp, np).Found? { FoundEnd(data, at, at - from, auto, xmpp, np); }
  }

  lemma LocalText(data: string, from: nat, at: nat, xmpp: bool)
    requires from <= at < |data| && data[at] == '@' && ContextAt(data, at) == Context(from, xmpp)
    ensures var r := BackCount(data, at, at - from, 0);
            && (HasLocal(data, at) <==> r > 0) && InXmpp(data, at) == (xmpp || SaysXmpp(data, at, at - from, r))
  {
    hide BackOk, SaysXmpp, ContextAt;
  }

  /** An attempt, unfolded. */
  lemma AttemptIs(data: string, at: nat, max: nat, auto: bool, xmpp: bool, np: nat)
    requires max <= at < |data| && data[at] == '@'
    ensures var t := Attempt(data, at, max, auto, xmpp, np); var r := BackCount(data, at, max, 0);
            var x := xmpp || SaysXmpp(data, at, max, r); var s := data[at..]; var e := AheadEnd(s, 1, x);
            var dots := np + DotCount(s, e);
            if r == 0 then t == Miss(1)
            else if e < |s| && s[e] == '@' then t.Again? && t.step == e && t.isXmpp == x && t.np == dots
            else if e < 2 || dots == 0 || (!IsAlpha(s[e - 1]) && s[e - 1] != '.') then t == Miss(e)
            else t.Found?
  {
    hide Trimmed, CutAt, BackOk, AheadOk, SaysItself, SaysXmpp, DotCount, IsAlpha;
  }

  /** Nothing is trimmed from what is found. */
  lemma FoundEnd(data: string, at: nat, max: nat, auto: bool, xmpp: bool, np: nat)
    requires max <= at < |data| && data[at] == '@' && Attempt(data, at, max, auto, xmpp, np).Found?
    ensures var x := xmpp || SaysXmpp(data, at, max, BackCount(data, at, max, 0));
            Attempt(data, at, max, auto, xmpp, np).linkEnd == AheadEnd(data[at..], 1, x)
  {
    hide AddressAt, Trimmed, CutAt, BackOk, ProtocolAt, AheadOk, IsAlpha, DomainChar, SaysItself, SaysXmpp, DotCount;
    var r := BackCount(data, at, max, 0);
    var x := xmpp || SaysXmpp(data, at, max, r);
    var e := AheadEnd(data[at..], 1, x);
    AheadChars(data[at..], e, x);
    BackChars(data, at, max, r);
    TrimmedAddress(data, at, r, e, Attempt(data, at, max, auto, xmpp, np).linkEnd);
  }

  /** No at sign stands in a domain. */
  lemma NoAtInDomain(data: string, p: nat)
    requires p < |data| && data[p] == '@'
    ensures forall k :: p < k < DomainEnd(data, p) ==> data[k] != '@' && DomainChar(data[k])
  {
    hide AheadOk;
    AheadChars(data[p..], DomainEnd(data, p) - p, InXmpp(data, p));
    forall k | p < k < DomainEnd(data, p) ensures data[k] != '@' && DomainChar(data[k]) { assert data[p..][k - p] == data[k]; }
  }

  lemma AtBeforeIs(data: string, q: nat, p: nat)
    requires q < p <= |data| && data[q] == '@' && forall k :: q < k < p ==> data[k] != '@'
    ensures AtBefore(data, p) == q
  {
  }

  /** Where a search ends, the next one begins. */
  lemma EndBegins(data: string, p: nat)
    requires p < |data| && data[p] == '@' && !Glues(data, p)
    ensures var next := if HasLocal(data, p) then DomainEnd(data, p) else p + 1; CameTo(data, p, p, next)
  {
    NoAtInDomain(data, p);
    var next := if HasLocal(data, p) then DomainEnd(data, p) else p + 1;
    var at := IndexFrom(data, next);
    hide DomainEnd, HasLocal, InXmpp;
    if at < |data| { AtBeforeIs(data, p, at); }
  }

  lemma GlueContext(data: string, p: nat)
    requires p < |data| && data[p] == '@' && Glues(data, p)
    ensures ContextAt(data, DomainEnd(data, p)) == Context(p + 1, InXmpp(data, p))
    ensures forall k :: p < k < DomainEnd(data, p) ==> data[k] != '@'
  {
    NoAtInDomain(data, p);
    hide HasLocal, InXmpp;
    AtBeforeIs(data, p, DomainEnd(data, p));
  }

  /** A search in terms of the text: it comes to the last of the at signs glued together, and there is a link
      there exactly when the domain would do and a dot was seen since the first. */
  lemma {:induction false} ResolveText(data: string, from: nat, at: nat, auto: bool, xmpp: bool, np: nat, first: nat) returns (z: nat)
    requires from <= at < |data| && data[at] == '@' && ContextAt(data, at) == Context(from, xmpp)
    requires first <= at && data[first] == '@' && Glued(data, first, at) && (np > 0 <==> DotBetween(data, first, at))
    ensures var o := Resolve(data, from, at, auto, xmpp, np);
            && CameTo(data, first, z, if o.Next? then o.from else o.right)
            && (o.Link? <==> Ends(data, z) && DotBetween(data, first, DomainEnd(data, z)))
            && (o.Link? ==> o.at == z && o.right == DomainEnd(data, z))
    decreases |data| - at
  {
    hide Attempt, Ends, Glues, HasLocal, DomainEnd, InXmpp, ContextAt, DotCount, Begins;
    AttemptOk(data, at, at - from, auto, xmpp, np);
    AttemptText(data, from, at, auto, xmpp, np);
    var e := DomainEnd(data, at);
    DotsCounted(data, at, e - at);
    match Attempt(data, at, at - from, auto, xmpp, np)
    case Again(step, auto', xmpp', dots) =>
      GlueContext(data, at);
      MoreDots(data, first, at, e);
      z := ResolveText(data, at + 1, at + step, auto', xmpp', dots, first);
    case Miss(_) =>
      z := at;
      EndBegins(data, at);
      MoreDots(data, first, at, e);
    case Found(_, _, _) =>
      z := at;
      EndsLocal(data, at);
      EndBegins(data, at);
      MoreDots(data, first, at, e);
  }

  lemma EndsLocal(data: string, p: nat)
    requires p < |data| && data[p] == '@' && Ends(data, p)
    ensures HasLocal(data, p) && !Glues(data, p)
  {
  }

  lemma MoreDots(data: string, i: nat, at: nat, j: nat)
    requires i <= at < j <= |data| && data[at] == '@'
    ensures DotBetween(data, i, j) <==> DotBetween(data, i, at) || DotBetween(data, at, j)
  {
  }

  /** Which at sign glued to others is the last. */
  lemma LendsAtEnd(data: string, first: nat, z: nat, next: nat)
    requires CameTo(data, first, z, next)
    ensures forall i, at :: first <= i < next && Lends(data, i, at) ==> at == z
    ensures (exists i, at :: first <= i < next && Lends(data, i, at))
       <==> Ends(data, z) && DotBetween(data, first, z) && !DotBetween(data, z, DomainEnd(data, z))
  {
    hide HasLocal, DomainEnd, Begins;
    forall i, at | first <= i < next && Lends(data, i, at) ensures at == z && DotBetween(data, first, z) { }
    if Ends(data, z) && DotBetween(data, first, z) && !DotBetween(data, z, DomainEnd(data, z)) {
      assert Lends(data, first, z);
    }
  }

  lemma LinkDotted(data: string, from: nat, at: nat)
    requires from <= at < |data| && data[at] == '@' && ResolveFirst(data, from, at).Link?
    ensures var o := ResolveFirst(data, from, at);
            o.left <= o.right <= |data| && (EmailText(data[o.left..o.right]) <==> DotBetween(data, o.at, o.right))
  {
    hide ResolveFirst, AddressAt, EmailText;
    FirstOk(data, from, at);
    var o := ResolveFirst(data, from, at);
    var t := data[o.left..o.right];
    DottedOrNot(t, o.at - o.left);
    assert forall j :: 0 <= j < |t| ==> t[j] == data[o.left + j];
    if DotBetween(data, o.at, o.right) {
      var k :| o.at < k < o.right && data[k] == '.';
      assert t[k - o.left] == '.';
    }
  }

  /** An address has one at sign, so its domain is dotted or not. */
  lemma DottedOrNot(s: string, at: nat)
    requires AddressAt(s, at)
    ensures EmailText(s) <==> Dotted(s, at)
  {
    if EmailText(s) {
      var other: nat :| AddressAt(s, other) && Dotted(s, other);
      assert !LocalChar('@') && !DomainChar('@');
      assert s[at] == '@' && s[other] == '@';
    }
  }

  ghost predicate SomeLends(data: string, from: nat) {
    exists first, at :: from <= first && Lends(data, first, at)
  }

  lemma {:induction false} SplitLends(data: string, start: nat, from: nat)
    requires start <= from <= |data| && Begins(data, from)
    ensures AllDotted(Split(data, start, from)) <==> !SomeLends(data, from)
    decreases |data| - from
  {
    var at := IndexFrom(data, from);
    if at < |data| {
      hide ResolveFirst, IndexFrom, EmailText, AddressAt, Lends, Begins, ContextAt, Ends, DomainEnd, DotBetween;
      FirstOk(data, from, at);
      var o := ResolveFirst(data, from, at);
      var next := if o.Next? then o.from else o.right;
      var z := FirstText(data, from, at);
      LendsAtEnd(data, at, z, next);
      LendsSplit(data, from, at, next);
      if o.Next? {
        SplitLends(data, start, next);
      } else {
        SplitLends(data, next, next);
        LinkDotted(data, from, at);
        LinkFirst(data, start, from);
      }
    }
  }

  /** From `from` on the first at sign is `at`; a search for others goes on at `next`. */
  lemma LendsSplit(data: string, from: nat, at: nat, next: nat)
    requires from <= |data| && from <= at == IndexFrom(data, from) < next <= |data|
    ensures SomeLends(data, from) <==> (exists i, j :: at <= i < next && Lends(data, i, j)) || SomeLends(data, next)
  {
    hide DomainEnd, Ends, Glued, DotBetween;
  }

  lemma FirstText(data: string, from: nat, at: nat) returns (z: nat)
    requires from <= at < |data| && data[at] == '@' && ContextAt(data, at) == Context(from, false)
    ensures var o := ResolveFirst(data, from, at); var next := if o.Next? then o.from else o.right;
            && CameTo(data, at, z, next) && (o.Link? ==> o.at == z && o.right == DomainEnd(data, z))
            && (Ends(data, z) && DotBetween(data, at, z) && !DotBetween(data, z, DomainEnd(data, z))
                <==> o.Link? && !DotBetween(data, o.at, o.right))
  {
    hide Resolve, Ends, DomainEnd, ContextAt, Glues;
    z := ResolveText(data, from, at, true, false, 0, at);
    EndAfter(data, z);
    MoreDots(data, at, z, DomainEnd(data, z));
  }

  lemma EndAfter(data: string, p: nat)
    requires p < |data| && data[p] == '@'
    ensures p < DomainEnd(data, p) <= |data|
  {
  }

  /** The pieces when the search finds a link first. */
  lemma LinkFirst(data: string, start: nat, from: nat)
    requires start <= from <= |data| && IndexFrom(data, from) < |data| && ResolveFirst(data, from, IndexFrom(data, from)).Link?
    ensures var o := ResolveFirst(data, from, IndexFrom(data, from));
            && o.left <= o.right <= |data|
            && (AllDotted(Split(data, start, from)) <==> EmailText(data[o.left..o.right]) && AllDotted(Split(data, o.right, o.right)))
  {
    hide ResolveFirst, EmailText, AddressAt;
    FirstOk(data, from, IndexFrom(data, from));
    var o := ResolveFirst(data, from, IndexFrom(data, from));
    var rest, ps := Split(data, o.right, o.right), Split(data, start, from);
    assert ps[1].literal == data[o.left..o.right];
    assert forall i :: 0 <= i < |rest| ==> ps[i + 2] == rest[i];
    assert forall i :: 2 <= i < |ps| ==> ps[i] == rest[i - 2];
  }

  /** All links of a text have a dotted domain, exactly when no at signs in it are glued together with a dot
      between them and a domain without one behind the last. */
  lemma SplitDotted(data: string)
    ensures AllDotted(Split(data, 0, 0)) <==> !exists first, at :: Lends(data, first, at)
  {
    hide Lends, Split;
    SplitLends(data, 0, 0);
  }

  // ---------------------------------------------------------------- the same for texts without a colon

  /** `c` may stand before the at sign of an address. */
  predicate LocalByte(c: char) { LocalChar(c) && c != ':' }

  /** The byte at `k` may stand in a domain. */
  predicate DomainByte(data: string, k: nat)
    requires k < |data|
  {
    IsAlnum(data[k]) || data[k] == '-' || data[k] == '_' || (data[k] == '.' && k + 1 < |data| && IsAlnum(data[k + 1]))
  }

  /** From `first` to `at` there are only at signs, each behind a byte of an address, and bytes of domains, a
      dot among them; behind `at` there is a domain that has no dot and ends with a letter. */
  ghost predicate PlainLends(data: string, first: nat, at: nat) {
    && first < at < |data| && data[first] == '@' && data[at] == '@'
    && (forall k :: first <= k <= at && data[k] == '@' ==> k > 0 && LocalByte(data[k - 1]))
    && (forall k :: first < k < at && data[k] != '@' ==> DomainByte(data, k))
    && (exists k :: first < k < at && data[k] == '.')
    && exists end :: DotlessDomain(data, at, end)
  }

  ghost predicate DotlessDomain(data: string, at: nat, end: nat) {
    && at + 2 <= end <= |data| && (forall k :: at < k < end ==> DomainByte(data, k) && data[k] != '.')
    && IsAlpha(data[end - 1]) && (end < |data| ==> !DomainByte(data, end) && data[end] != '@')
  }

  lemma {:induction false} NoXmpp(data: string, p: nat)
    requires p < |data| && data[p] == '@' && ':' !in data
    ensures !ContextAt(data, p).xmpp && !InXmpp(data, p)
    ensures HasLocal(data, p) <==> p > 0 && LocalByte(data[p - 1])
    decreases p
  {
    var q := AtBefore(data, p);
    if q >= 0 { NoXmpp(data, q); DomainBefore(data, q, p); }
    assert forall k :: 0 <= k < |data| ==> data[k] in data;
    hide DomainEnd;
  }

  lemma PlainDomain(data: string, p: nat)
    requires p < |data| && data[p] == '@' && ':' !in data
    ensures var e := DomainEnd(data, p);
            p < e <= |data| && (forall k :: p < k < e ==> DomainByte(data, k)) && (e < |data| ==> !DomainByte(data, e))
  {
    NoXmpp(data, p);
    var s, e := data[p..], DomainEnd(data, p);
    hide DomainEnd, InXmpp, HasLocal;
    forall k | p < k < |data| ensures AheadOk(s, k - p, false) <==> DomainByte(data, k) {
      assert s[k - p] == data[k] && (k + 1 < |data| ==> s[k - p + 1] == data[k + 1]);
    }
  }

  /** Without a colon in the text the condition is one on its bytes alone. */
  lemma PlainDotted(data: string)
    requires ':' !in data
    ensures AllDotted(Split(data, 0, 0)) <==> !exists first, at :: PlainLends(data, first, at)
  {
    hide Lends, PlainLends, Split, AllDotted;
    SplitDotted(data);
    forall first: nat, at: nat ensures Lends(data, first, at) <==> PlainLends(data, first, at) { PlainIs(data, first, at); }
  }

  lemma PlainIs(data: string, first: nat, at: nat)
    requires ':' !in data
    ensures Lends(data, first, at) <==> PlainLends(data, first, at)
  {
    if first < at < |data| && data[first] == '@' && data[at] == '@' {
      GluedIs(data, first, at);
      EndsIs(data, at);
    }
  }

  lemma EndsIs(data: string, at: nat)
    requires at < |data| && data[at] == '@' && ':' !in data
    ensures Ends(data, at) && !DotBetween(data, at, DomainEnd(data, at))
       <==> at > 0 && LocalByte(data[at - 1]) && exists end :: DotlessDomain(data, at, end)
  {
    NoXmpp(data, at);
    PlainDomain(data, at);
    hide HasLocal, DomainEnd, LocalByte;
    var e := DomainEnd(data, at);
    if end :| DotlessDomain(data, at, end) {
      assert end == e;
    }
    if Ends(data, at) && !DotBetween(data, at, e) {
      assert DotlessDomain(data, at, e);
    }
  }

  lemma GluesIs(data: string, p: nat, at: nat)
    requires p < at < |data| && data[p] == '@' && data[at] == '@' && ':' !in data
    ensures p < DomainEnd(data, p) <= at && forall k :: p < k < DomainEnd(data, p) ==> DomainByte(data, k)
    ensures Glues(data, p) ==> p > 0 && LocalByte(data[p - 1]) && data[DomainEnd(data, p)] == '@'
    ensures !Glues(data, p) && p > 0 && LocalByte(data[p - 1]) ==>
      var e := DomainEnd(data, p); e < at && data[e] != '@' && !DomainByte(data, e)
  {
    hide HasLocal, DomainEnd, LocalByte, DomainByte;
    NoXmpp(data, p);
    PlainDomain(data, p);
    DomainBefore(data, p, at);
  }

  lemma GluedIs(data: string, first: nat, at: nat)
    requires first < at < |data| && data[first] == '@' && data[at] == '@' && ':' !in data
    ensures Glued(data, first, at) <==>
      && (forall k :: first <= k < at && data[k] == '@' ==> k > 0 && LocalByte(data[k - 1]))
      && forall k :: first < k < at && data[k] != '@' ==> DomainByte(data, k)
  {
    hide Glues, DomainEnd, LocalByte, DomainByte;
    if Glued(data, first, at) {
      forall k | first < k < at && data[k] != '@' ensures DomainByte(data, k) {
        var p := AtBefore(data, k);
        assert first <= p && Glues(data, p);
        GluesIs(data, p, at);
      }
      forall k: nat | first <= k < at && data[k] == '@' ensures k > 0 && LocalByte(data[k - 1]) { GluesIs(data, k, at); }
    } else {
      var p: nat :| first <= p < at && data[p] == '@' && !Glues(data, p);
      GluesIs(data, p, at);
    }
  }

  /** No two at signs have only a domain between them with a dot in it. */
  ghost predicate NoLoans(data: string) {
    forall i, j :: 0 <= i < j < |data| && data[i] == '@' && data[j] == '@' && (exists k :: i < k < j && data[k] == '.')
      ==> exists k :: i < k < j && !DomainChar(data[k])
  }

  /** In such a text every link has a dotted domain. */
  lemma NoLoansAllDotted(data: string)
    requires NoLoans(data)
    ensures AllDotted(Split(data, 0, 0))
  {
    hide Split, AllDotted;
    SplitDotted(data);
    forall first: nat, at: nat ensures !Lends(data, first, at) { NoneLends(data, first, at); }
  }

  lemma NoneLends(data: string, first: nat, at: nat)
    requires NoLoans(data)
    ensures !Lends(data, first, at)
  {
    if first < at < |data| && data[first] == '@' && data[at] == '@' && Glued(data, first, at) {
      forall k | first < k < at ensures data[k] != '.' { NoDotBefore(data, first, at, k); }
    }
  }

  lemma NoDotBefore(data: string, first: nat, at: nat, k: nat)
    requires NoLoans(data) && first < k < at < |data| && data[first] == '@' && data[at] == '@' && Glued(data, first, at)
    ensures data[k] != '.'
  {
    hide HasLocal, DomainEnd, NoLoans, DomainChar;
    var p := AtBefore(data, k);
    if data[k] == '.' {
      assert Glues(data, p);
      NoAtInDomain(data, p);
      NoLoan(data, p, DomainEnd(data, p));
    }
  }

  lemma NoLoan(data: string, i: nat, j: nat)
    requires NoLoans(data) && i < j < |data| && data[i] == '@' && data[j] == '@'
    requires forall k :: i < k < j ==> DomainChar(data[k])
    ensures !exists k :: i < k < j && data[k] == '.'
  {
  }

  /** The text `a@b.c@d`: the dot of `b.c` lets `d` pass for a domain. */
  lemma UndottedLink()
    ensures Split("a@b.c@d", 0, 0) == [TextPiece("a@"), LinkPiece("mailto:b.c@d", "b.c@d"), TextPiece("")]
    ensures !EmailText("b.c@d")
  {
    var data := "a@b.c@d";
    hide Resolve, Split, Attempt, EmailText, AddressAt, Trimmed;
    UndottedAttempts(data);
    ResolveStep(data, 0, 1, true, false, 0);
    ResolveStep(data, 2, 5, true, false, 1);
    UndottedSplit(data);
    UndottedDomain("b.c@d");
  }

  lemma LinkReads(data: string, start: nat, left: nat, right: nat, auto: bool, rest: seq<Piece>)
    requires start <= left <= right <= |data| && AddressText(data[left..right])
    requires Spelled(rest) == data[right..] && |rest| % 2 == 1 && Alternate(rest)
    ensures var ps := [TextPiece(data[start..left]), LinkPiece((if auto then "mailto:" else "") + data[left..right], data[left..right])] + rest;
            Spelled(ps) == data[start..] && |ps| % 2 == 1 && Alternate(ps)
  {
    hide AddressText, AddressPiece, Alternate;
    var text, link := TextPiece(data[start..left]), LinkPiece((if auto then "mailto:" else "") + data[left..right], data[left..right]);
    TwoMore(text, link, rest);
    assert AddressPiece(link) by { LinksItself(link, auto); }
    assert data[start..] == data[start..left] + (data[left..right] + data[right..]);
  }

  lemma LinksItself(link: Piece, auto: bool)
    requires link.LinkPiece? && AddressText(link.literal) && link.url == (if auto then "mailto:" else "") + link.literal
    ensures AddressPiece(link)
  {
    hide AddressText;
    assert "" + link.literal == link.literal;
  }

  lemma TwoMore(text: Piece, link: Piece, rest: seq<Piece>)
    ensures var ps := [text, link] + rest;
            && Spelled(ps) == text.literal + (link.literal + Spelled(rest)) && |ps| == |rest| + 2
            && (text.TextPiece? && AddressPiece(link) && Alternate(rest) ==> Alternate(ps))
  {
    hide AddressPiece;
    var ps := [text, link] + rest;
    assert ps[1..] == [link] + rest && ps[1..][1..] == rest;
    assert forall i :: 2 <= i < |ps| ==> ps[i] == rest[i - 2];
  }

  // ---------------------------------------------------------------- the loops

  /** `validate_protocol`, with `at` the place of the at sign. */
  method ValidateProtocol(protocol: string, data: string, at: nat, rewind: nat, maxRewind: nat) returns (ok: bool)
    requires rewind <= maxRewind <= at <= |data|
    ensures ok == ProtocolAt(protocol, data, at, rewind, maxRewind)
  {
    var len := |protocol|;
    if len > maxRewind - rewind {
      return false;
    }
    if data[at - rewind - len..at - rewind] != protocol {
      return false;
    }
    if len == maxRewind - rewind {
      return true;
    }
    ok := !IsAlnum(data[at - rewind - len - 1]);
  }

  /** Back from the at sign over what may stand before it. */
  method Rewind(data: string, at: nat, maxRewind: nat, autoMailto: bool, isXmpp: bool)
    returns (rewind: nat, autoMailto': bool, isXmpp': bool)
    requires maxRewind <= at <= |data|
    ensures rewind == BackCount(data, at, maxRewind, 0)
    ensures autoMailto' == (autoMailto && !SaysItself(data, at, rewind))
    ensures isXmpp' == (isXmpp || SaysXmpp(data, at, maxRewind, rewind))
  {
    hide BackOk, SaysItself, SaysXmpp;
    autoMailto', isXmpp' := autoMailto, isXmpp;
    rewind := 0;
    SaysNothing(data, at, maxRewind);
    while rewind < maxRewind
      invariant rewind <= maxRewind && BackCount(data, at, maxRewind, 0) == BackCount(data, at, maxRewind, rewind)
      invariant autoMailto' == (autoMailto && !SaysItself(data, at, rewind))
      invariant isXmpp' == (isXmpp || SaysXmpp(data, at, maxRewind, rewind))
    {
      SaysMore(data, at, maxRewind, rewind);
      var ok;
      ok, autoMailto', isXmpp' := BackOne(data, at, rewind, maxRewind, autoMailto', isXmpp');
      if !ok {
        break;
      }
      rewind := rewind + 1;
    }
  }

  /** One byte further back. */
  method BackOne(data: string, at: nat, rewind: nat, maxRewind: nat, autoMailto: bool, isXmpp: bool)
    returns (ok: bool, autoMailto': bool, isXmpp': bool)
    requires rewind < maxRewind <= at <= |data|
    ensures ok == BackOk(data, at, maxRewind, rewind)
    ensures autoMailto' == (autoMailto && !(ok && data[at - rewind - 1] == ':'))
    ensures isXmpp' == (isXmpp || (ok && data[at - rewind - 1] == ':' && !ProtocolAt("mailto:", data, at, rewind, maxRewind)))
  {
    hide ProtocolAt;
    ok, autoMailto', isXmpp' := true, autoMailto, isXmpp;
    var c := data[at - rewind - 1];
    if IsAlnum(c) {
      return;
    }
    if c == '\0' || c == '.' || c == '+' || c == '-' || c == '_' {
      return;
    }
    if c == ':' {
      var mailto := ValidateProtocol("mailto:", data, at, rewind, maxRewind);
      if mailto {
        autoMailto' := false;
        return;
      }
      var xmpp := ValidateProtocol("xmpp:", data, at, rewind, maxRewind);
      if xmpp {
        autoMailto', isXmpp' := false, true;
        return;
      }
    }
    ok := false;
  }

  lemma SaysNothing(data: string, at: nat, max: nat)
    requires max <= at <= |data|
    ensures !SaysItself(data, at, 0) && !SaysXmpp(data, at, max, 0)
  {
  }

  lemma SaysMore(data: string, at: nat, max: nat, n: nat)
    requires n < max <= at <= |data|
    ensures SaysItself(data, at, n + 1) <==> SaysItself(data, at, n) || data[at - n - 1] == ':'
    ensures SaysXmpp(data, at, max, n + 1) <==>
              SaysXmpp(data, at, max, n) || (data[at - n - 1] == ':' && !ProtocolAt("mailto:", data, at, n, max))
  {
    hide ProtocolAt;
  }

  /** Forward from the at sign, at the front of `data`, over a domain; another at sign starts over.  The dots
      are counted on from `np`. */
  method Forward(data: string, isXmpp: bool, np: nat) returns (linkEnd: nat, np': nat, again: bool)
    requires data != ""
    ensures linkEnd == AheadEnd(data, 1, isXmpp) && again == (linkEnd < |data| && data[linkEnd] == '@')
    ensures np' == np + DotCount(data, linkEnd)
  {
    linkEnd, np', again := 1, np, false;
    while linkEnd < |data|
      invariant 1 <= linkEnd <= |data| && AheadEnd(data, 1, isXmpp) == AheadEnd(data, linkEnd, isXmpp)
      invariant np' == np + DotCount(data, linkEnd)
    {
      var c := data[linkEnd];
      if IsAlnum(c) {
      } else if c == '@' {
        again := true;
        return;
      } else if c == '.' && linkEnd < |data| - 1 && IsAlnum(data[linkEnd + 1]) {
        np' := np' + 1;
      } else if c == '/' && isXmpp {
      } else if c != '-' && c != '_' {
        break;
      }
      linkEnd := linkEnd + 1;
    }
  }

  /** From one at sign, which is the body of the loop after `found_at`.  The trimmed link is never empty. */
  method TryAt(data: string, at: nat, maxRewind: nat, autoMailto: bool, isXmpp: bool, np: nat) returns (t: Try)
    requires maxRewind <= at < |data| && data[at] == '@'
    ensures t == Attempt(data, at, maxRewind, autoMailto, isXmpp, np)
  {
    hide Trimmed, CutAt, IsAlpha, BackCount, AheadEnd, SaysItself, SaysXmpp, DotCount;
    var rewind, autoMailto', isXmpp' := Rewind(data, at, maxRewind, autoMailto, isXmpp);
    if rewind == 0 {
      return Miss(1);
    }
    var linkEnd, np', again := Forward(data[at..], isXmpp', np);
    if again {
      return Again(linkEnd, autoMailto', isXmpp', np');
    }
    var last := data[at + linkEnd - 1];
    if linkEnd < 2 || np' == 0 || (!IsAlpha(last) && last != '.') {
      return Miss(linkEnd);
    }
    linkEnd := AutolinkDelim(data[at..], linkEnd);
    t := Found(rewind, linkEnd, autoMailto');
  }

  /** The loop after `found_at`: from an at sign to a link, or past it. */
  method FindLink(data: string, start: nat, offset: nat, maxRewind: nat)
    returns (found: bool, offset': nat, maxRewind': nat, rewind: nat, linkEnd: nat, autoMailto: bool)
    requires start + offset + maxRewind < |data| && data[start + offset + maxRewind] == '@'
    ensures found ==> rewind <= maxRewind' && linkEnd > 0
    ensures var at := start + offset' + maxRewind';
            ResolveFirst(data, start + offset, start + offset + maxRewind)
            == if found then Link(at - rewind, at, at + linkEnd, autoMailto) else Next(start + offset')
  {
    hide AddressAt, Attempt;
    var isXmpp, np := false, 0;
    autoMailto := true;
    offset', maxRewind', found, rewind, linkEnd := offset, maxRewind, false, 0, 0;
    while true
      invariant start + offset' + maxRewind' < |data| && data[start + offset' + maxRewind'] == '@'
      invariant ResolveFirst(data, start + offset, start + offset + maxRewind)
             == Resolve(data, start + offset', start + offset' + maxRewind', autoMailto, isXmpp, np)
      decreases |data| - (start + offset' + maxRewind')
    {
      AttemptOk(data, start + offset' + maxRewind', maxRewind', autoMailto, isXmpp, np);
      var t := TryAt(data, start + offset' + maxRewind', maxRewind', autoMailto, isXmpp, np);
      match t
      case Miss(skip) =>
        offset' := offset' + maxRewind' + skip;
        return;
      case Again(step, mailto, xmpp, dots) =>
        offset', maxRewind' := offset' + maxRewind' + 1, step - 1;
        autoMailto, isXmpp, np := mailto, xmpp, dots;
      case Found(r, e, mailto) =>
        found, rewind, linkEnd, autoMailto := true, r, e, mailto;
        return;
    }
  }

  /** `postprocess_text`: exactly the links of the text, and what is left between them. */
  method PostprocessText(literal: string) returns (pieces: seq<Piece>)
    ensures pieces == Split(literal, 0, 0)
  {
    hide AddressAt, IndexFrom, ResolveFirst, Split;
    var start: nat, offset: nat := 0, 0;
    var data := literal;
    var remaining: nat := |literal|;
    pieces := [];
    while true
      invariant start + remaining == |data| && offset <= remaining && data == literal
      invariant pieces + Split(data, start, start + offset) == Split(data, 0, 0)
      decreases remaining, remaining - offset
    {
      if offset >= remaining {
        break;
      }
      var at := IndexFrom(data, start + offset);
      if at == |data| {
        break;
      }
      var maxRewind := at - (start + offset);
      FirstOk(data, start + offset, at);
      SplitStep(data, start, start + offset);
      ghost var before := pieces;
      var found, rewind, linkEnd, autoMailto;
      found, offset, maxRewind, rewind, linkEnd, autoMailto := FindLink(data, start, offset, maxRewind);
      if !found {
        continue;
      }
      at := start + offset + maxRewind;
      var email := data[at - rewind..at + linkEnd];
      var url := (if autoMailto then "mailto:" else "") + email;
      pieces := pieces + [TextPiece(data[start..at - rewind]), LinkPiece(url, email)];
      JoinPieces(before, [TextPiece(data[start..at - rewind]), LinkPiece(url, email)], Split(data, at + linkEnd, at + linkEnd));
      start := at + linkEnd;
      remaining := remaining - (offset + maxRewind + linkEnd);
      offset := 0;
    }
    SplitStep(data, start, start + offset);
    NoneFrom(data, start + offset);
    pieces := pieces + [TextPiece(data[start..])];
  }

  /** How the outcome at an at sign splits the text. */
  ghost predicate SplitsBy(data: string, start: nat, from: nat, o: Outcome)
    requires start <= from <= |data|
  {
    if o.Next? then from < o.from <= |data| && Split(data, start, from) == Split(data, start, o.from)
    else
      from <= o.left < o.right <= |data| && Split(data, start, from) ==
        [TextPiece(data[start..o.left]), LinkPiece((if o.autoMailto then "mailto:" else "") + data[o.left..o.right], data[o.left..o.right])]
        + Split(data, o.right, o.right)
  }

  lemma SplitStep(data: string, start: nat, from: nat)
    requires start <= from <= |data|
    ensures var at := IndexFrom(data, from);
            if at == |data| then Split(data, start, from) == [TextPiece(data[start..])]
            else SplitsBy(data, start, from, ResolveFirst(data, from, at))
  {
    hide ResolveFirst, IndexFrom, AddressAt;
    var at := IndexFrom(data, from);
    if at < |data| { FirstOk(data, from, at); }
  }

  lemma JoinPieces(a: seq<Piece>, b: seq<Piece>, c: seq<Piece>)
    ensures (a + b) + c == a + (b + c)
  {
  }

  lemma NoneFrom(data: string, from: nat)
    requires from <= |data|
    ensures from == |data| ==> IndexFrom(data, from) == |data|
  {
  }

  // ---------------------------------------------------------------- the text with the undotted link

  lemma ResolveStep(data: string, from: nat, at: nat, autoMailto: bool, isXmpp: bool, np: nat)
    requires from <= at < |data| && data[at] == '@'
    ensures var t := Attempt(data, at, at - from, autoMailto, isXmpp, np);
            && (t.Again? ==> t.step > 0 && at + t.step < |data| && data[at + t.step] == '@')
            && (t.Again? ==> Resolve(data, from, at, autoMailto, isXmpp, np) == Resolve(data, at + 1, at + t.step, t.autoMailto, t.isXmpp, t.np))
            && (t.Found? ==> t.rewind <= at && Resolve(data, from, at, autoMailto, isXmpp, np) == Link(at - t.rewind, at, at + t.linkEnd, t.autoMailto))
  {
    hide AddressAt, Attempt, DotCount;
    AttemptOk(data, at, at - from, autoMailto, isXmpp, np);
  }

  lemma UndottedAttempts(data: string)
    requires data == "a@b.c@d"
    ensures Attempt(data, 1, 1, true, false, 0) == Again(4, true, false, 1)
    ensures Attempt(data, 5, 3, true, false, 1) == Found(3, 2, true)
  {
    var s, t := data[1..], data[5..];
    assert s == "@b.c@d" && t == "@d";
    assert DotCount(s, 1) == 0 && DotCount(s, 2) == 0 && DotCount(s, 3) == 1 && DotCount(s, 4) == 1;
    assert AheadEnd(s, 4, false) == 4 == AheadEnd(s, 3, false) == AheadEnd(s, 2, false) == AheadEnd(s, 1, false);
    assert AheadEnd(t, 2, false) == 2 == AheadEnd(t, 1, false);
    assert BackCount(data, 1, 1, 0) == 1;
    assert BackCount(data, 5, 3, 3) == 3 == BackCount(data, 5, 3, 2) == BackCount(data, 5, 3, 1) == BackCount(data, 5, 3, 0);
    NoCut(t);
    TrimStep(t);
  }

  lemma UndottedSplit(data: string)
    requires data == "a@b.c@d" && Resolve(data, 0, 1, true, false, 0) == Link(2, 5, 7, true)
    ensures Split(data, 0, 0) == [TextPiece("a@"), LinkPiece("mailto:b.c@d", "b.c@d"), TextPiece("")]
  {
    hide Resolve;
    assert IndexFrom(data, 0) == 1;
    FirstOk(data, 0, 1);
    assert data[0..2] == "a@" && data[2..7] == "b.c@d" && "mailto:" + "b.c@d" == "mailto:b.c@d" && data[7..] == "";
    assert Split(data, 7, 7) == [TextPiece("")];
  }

  lemma UndottedDomain(s: string)
    requires s == "b.c@d"
    ensures !EmailText(s)
  {
    assert s[3] == '@' && !LocalChar('@') && !DomainChar('@');
  }
}
