/** Which URL an email link gets: its own text, where a protocol was read in front of its at sign or of one glued to
    it, and otherwise `mailto:` and its text. */
module AutolinkUrl {
  import opened Autolink

  // ---------------------------------------------------------------- told from the text

  /** Where the text accepted before an at sign begins. */
  function LocalStart(data: string, p: nat): (n: nat)
    requires p < |data| && data[p] == '@'
    ensures n <= p
  {
    var c := ContextAt(data, p);
    p - BackCount(data, p, p - c.low, 0)
  }

  /** A colon is accepted before the at sign, and so ends a protocol. */
  ghost predicate ColonBefore(data: string, p: nat)
    requires p < |data| && data[p] == '@'
  {
    exists k :: LocalStart(data, p) <= k < p && data[k] == ':'
  }

  /** One is accepted before it, or before an at sign glued in front of it. */
  ghost predicate NamesProtocol(data: string, p: nat)
    requires p < |data| && data[p] == '@'
  {
    ColonBefore(data, p) || (var q := AtBefore(data, p); q >= 0 && Glues(data, q) && NamesProtocol(data, q))
  }

  // ---------------------------------------------------------------- the flag of a search

  /** The flag and the reach of an attempt. */
  lemma FoundParts(data: string, at: nat, max: nat, auto: bool, xmpp: bool, np: nat)
    requires max <= at < |data| && data[at] == '@'
    ensures var t := Attempt(data, at, max, auto, xmpp, np); var r := BackCount(data, at, max, 0);
            && (t.Again? ==> t.autoMailto == (auto && !SaysItself(data, at, r)))
            && (t.Found? ==> t.rewind == r && t.autoMailto == (auto && !SaysItself(data, at, r)))
  {
    hide Trimmed, CutAt, BackOk, ProtocolAt, AheadOk, SaysItself, SaysXmpp, DotCount, IsAlpha, AheadEnd, BackCount;
  }

  lemma AttemptFlag(data: string, from: nat, at: nat, auto: bool, xmpp: bool, np: nat)
    requires from <= at < |data| && data[at] == '@' && ContextAt(data, at) == Context(from, xmpp)
    ensures var t := Attempt(data, at, at - from, auto, xmpp, np);
            && (t.Again? ==> t.autoMailto == (auto && !ColonBefore(data, at)))
            && (t.Found? ==> t.autoMailto == (auto && !ColonBefore(data, at)) && t.rewind <= at && at - t.rewind == LocalStart(data, at))
  {
    hide Attempt, ContextAt, BackCount;
    FoundParts(data, at, at - from, auto, xmpp, np);
  }

  /** The at sign that another is glued to. */
  lemma GluedBehind(data: string, p: nat)
    requires p < |data| && data[p] == '@' && Glues(data, p)
    ensures var e := DomainEnd(data, p); e < |data| && data[e] == '@' && (NamesProtocol(data, e) <==> ColonBefore(data, e) || NamesProtocol(data, p))
  {
    hide HasLocal, InXmpp, ContextAt, ColonBefore;
    NoAtInDomain(data, p);
    AtBeforeIs(data, p, DomainEnd(data, p));
  }

  /** A search with the flag that the at signs so far call for ends with the flag that the text calls for. */
  lemma {:induction false} ResolveFlag(data: string, from: nat, at: nat, auto: bool, xmpp: bool, np: nat)
    requires from <= at < |data| && data[at] == '@' && ContextAt(data, at) == Context(from, xmpp)
    requires auto && !ColonBefore(data, at) <==> !NamesProtocol(data, at)
    ensures var o := Resolve(data, from, at, auto, xmpp, np);
            o.Link? ==> o.at < |data| && data[o.at] == '@' && o.left == LocalStart(data, o.at) && (o.autoMailto <==> !NamesProtocol(data, o.at))
    decreases |data| - at
  {
    hide Attempt, Ends, Glues, HasLocal, DomainEnd, InXmpp, ContextAt, DotCount, Begins, ColonBefore, NamesProtocol, LocalStart;
    AttemptOk(data, at, at - from, auto, xmpp, np);
    AttemptText(data, from, at, auto, xmpp, np);
    AttemptFlag(data, from, at, auto, xmpp, np);
    match Attempt(data, at, at - from, auto, xmpp, np)
    case Again(step, auto', xmpp', dots) =>
      GlueContext(data, at);
      GluedBehind(data, at);
      ResolveFlag(data, at + 1, at + step, auto', xmpp', dots);
    case _ =>
  }

  /** A search begins where no at sign is glued in front. */
  lemma FreshFlag(data: string, from: nat, at: nat)
    requires from <= at < |data| && data[at] == '@' && ContextAt(data, at) == Context(from, false) && Begun(data, at)
    ensures var o := ResolveFirst(data, from, at);
            o.Link? ==> o.at < |data| && data[o.at] == '@' && o.left == LocalStart(data, o.at) && (o.autoMailto <==> !NamesProtocol(data, o.at))
  {
    hide Resolve, ContextAt, ColonBefore;
    ResolveFlag(data, from, at, true, false, 0);
  }

  /** No at sign is glued in front of it. */
  predicate Begun(data: string, at: nat)
    requires at < |data| && data[at] == '@'
  {
    var q := AtBefore(data, at);
    q >= 0 ==> !Glues(data, q)
  }

  // ---------------------------------------------------------------- all links of a text

  /** A link at `n` around an at sign has the URL that the text calls for. */
  ghost predicate LinkRight(data: string, n: nat, link: Piece) {
    && n + |link.literal| <= |data| && data[n..n + |link.literal|] == link.literal
    && exists z :: n <= z < n + |link.literal| && UrlAt(data, n, z, link)
  }

  ghost predicate UrlAt(data: string, n: nat, z: nat, link: Piece) {
    && z < |data| && data[z] == '@' && LocalStart(data, z) == n && link.LinkPiece?
    && link.url == if NamesProtocol(data, z) then link.literal else "mailto:" + link.literal
  }

  /** The pieces of a text from `start` on. */
  ghost predicate UrlsRight(data: string, start: nat, ps: seq<Piece>) {
    forall i :: 0 <= i < |ps| && ps[i].LinkPiece? ==> LinkRight(data, start + |Spelled(ps[..i])|, ps[i])
  }

  ghost predicate SearchBegins(data: string, from: nat)
    requires from <= |data|
  {
    Begins(data, from) && var at := IndexFrom(data, from); at < |data| ==> Begun(data, at)
  }

  lemma NextBegins(data: string, first: nat, z: nat, next: nat)
    requires CameTo(data, first, z, next)
    ensures SearchBegins(data, next)
  {
    hide Glues, Begins, ContextAt;
    var at := IndexFrom(data, next);
    if at < |data| { AtBeforeIs(data, z, at); }
  }

  /** Each link of the text has the URL that the colons accepted before its at sign and those glued to it call for. */
  lemma {:induction false} SplitUrls(data: string, start: nat, from: nat)
    requires start <= from <= |data| && SearchBegins(data, from)
    ensures UrlsRight(data, start, Split(data, start, from))
    decreases |data| - from
  {
    var at := IndexFrom(data, from);
    if at < |data| {
      hide ResolveFirst, IndexFrom, AddressAt, Begins, ContextAt, Ends, DomainEnd, DotBetween, LinkRight, UrlsRight, Begun, AddressText, NamesProtocol;
      FirstOk(data, from, at);
      BeginsAt(data, from);
      var o := ResolveFirst(data, from, at);
      var z := FirstText(data, from, at);
      FreshFlag(data, from, at);
      NextBegins(data, at, z, if o.Next? then o.from else o.right);
      if o.Next? {
        SplitUrls(data, start, o.from);
      } else {
        SplitUrls(data, o.right, o.right);
        var lit := data[o.left..o.right];
        var link := LinkPiece((if o.autoMailto then "mailto:" else "") + lit, lit);
        FoundRight(data, o, link);
        OneMoreLink(data, start, o.left, o.right, link, Split(data, o.right, o.right));
      }
    } else {
      NoLinks(data, start);
    }
  }

  lemma NoLinks(data: string, start: nat)
    requires start <= |data|
    ensures UrlsRight(data, start, [TextPiece(data[start..])])
  {
  }

  lemma BeginsAt(data: string, from: nat)
    requires from <= |data| && IndexFrom(data, from) < |data| && SearchBegins(data, from)
    ensures var at := IndexFrom(data, from); data[at] == '@' && ContextAt(data, at) == Context(from, false) && Begun(data, at)
  {
  }

  lemma FoundRight(data: string, o: Outcome, link: Piece)
    requires o.Link? && o.left < o.at < o.right <= |data| && data[o.at] == '@' && o.left == LocalStart(data, o.at)
    requires o.autoMailto <==> !NamesProtocol(data, o.at)
    requires link == LinkPiece((if o.autoMailto then "mailto:" else "") + data[o.left..o.right], data[o.left..o.right])
    ensures LinkRight(data, o.left, link)
  {
    hide LocalStart, NamesProtocol, ContextAt, UrlAt;
    NothingAdded(link.literal);
    FoundUrl(data, o.left, o.at, link, o.autoMailto);
    SliceSize(data, o.left, o.right);
  }

  lemma NothingAdded(s: string)
    ensures "" + s == s
  {
  }

  lemma SliceSize(data: string, a: nat, b: nat)
    requires a <= b <= |data|
    ensures a + |data[a..b]| == b
  {
  }

  lemma FoundUrl(data: string, n: nat, z: nat, link: Piece, auto: bool)
    requires z < |data| && data[z] == '@' && n == LocalStart(data, z) && (auto <==> !NamesProtocol(data, z))
    requires link.LinkPiece? && link.url == if auto then "mailto:" + link.literal else link.literal
    ensures UrlAt(data, n, z, link)
  {
    hide LocalStart, NamesProtocol;
  }

  lemma OneMoreLink(data: string, start: nat, left: nat, right: nat, link: Piece, rest: seq<Piece>)
    requires start <= left <= right <= |data| && link.literal == data[left..right] && LinkRight(data, left, link) && UrlsRight(data, right, rest)
    ensures UrlsRight(data, start, [TextPiece(data[start..left]), link] + rest)
  {
    hide LinkRight;
    var text := TextPiece(data[start..left]);
    var ps := [text, link] + rest;
    assert Spelled(ps[..1]) == text.literal by { assert ps[..1] == [text]; assert [text][1..] == []; }
    forall i | 2 <= i < |ps| && ps[i].LinkPiece? ensures LinkRight(data, start + |Spelled(ps[..i])|, ps[i]) {
      assert ps[..i] == [text, link] + rest[..i - 2];
      assert ([text, link] + rest[..i - 2])[1..] == [link] + rest[..i - 2] && ([link] + rest[..i - 2])[1..] == rest[..i - 2];
      assert ps[i] == rest[i - 2];
    }
  }

  lemma TextUrls(data: string)
    ensures UrlsRight(data, 0, Split(data, 0, 0))
  {
    hide UrlsRight, Split;
    AtFront(data);
    SplitUrls(data, 0, 0);
  }

  lemma AtFront(data: string)
    ensures SearchBegins(data, 0)
  {
    hide BackOk, HasLocal, DomainEnd, InXmpp;
    var at := IndexFrom(data, 0);
    if at < |data| { NoneBefore(data, at); }
  }

  lemma {:induction false} NoneBefore(data: string, p: nat)
    requires p <= |data| && forall k :: 0 <= k < p ==> data[k] != '@'
    ensures AtBefore(data, p) == -1
  {
    if p > 0 { NoneBefore(data, p - 1); }
  }

  // ---------------------------------------------------------------- texts without at signs glued together

  /** Then a link's URL is its own text exactly when it has a colon. */
  lemma PlainUrls(data: string, i: nat)
    requires forall p :: 0 <= p < |data| && data[p] == '@' ==> !Glues(data, p)
    requires var ps := Split(data, 0, 0); i < |ps| && ps[i].LinkPiece?
    ensures var link := Split(data, 0, 0)[i]; link.url == (if ':' in link.literal then link.literal else "mailto:" + link.literal)
  {
    hide Split, LocalStart, Glues, NamesProtocol, LinkRight, AddressText, ColonBefore;
    var ps := Split(data, 0, 0);
    TextUrls(data);
    SplitReads(data, 0, 0);
    assert AddressText(ps[i].literal);
    var z := LinkAt(data, |Spelled(ps[..i])|, ps[i]);
    PlainProtocol(data, z);
    ColonIn(data, |Spelled(ps[..i])|, z, ps[i].literal);
  }

  lemma LinkAt(data: string, n: nat, link: Piece) returns (z: nat)
    requires LinkRight(data, n, link)
    ensures n <= z < n + |link.literal| <= |data| && data[n..n + |link.literal|] == link.literal && UrlAt(data, n, z, link)
  {
    hide UrlAt;
    z :| n <= z < n + |link.literal| && UrlAt(data, n, z, link);
  }

  lemma PlainProtocol(data: string, z: nat)
    requires z < |data| && data[z] == '@' && forall p :: 0 <= p < |data| && data[p] == '@' ==> !Glues(data, p)
    ensures NamesProtocol(data, z) <==> ColonBefore(data, z)
  {
    hide Glues, ColonBefore;
  }

  /** The colons of an address are before its at sign. */
  lemma ColonIn(data: string, n: nat, z: nat, lit: string)
    requires n <= z < n + |lit| <= |data| && data[n..n + |lit|] == lit && data[z] == '@' && LocalStart(data, z) == n && AddressText(lit)
    ensures ColonBefore(data, z) <==> ':' in lit
  {
    hide LocalStart;
    var at: nat :| AddressAt(lit, at);
    assert !LocalChar('@') && !DomainChar('@') && !DomainChar(':');
    assert forall k :: 0 <= k < |lit| ==> lit[k] == data[n + k];
    assert lit[z - n] == '@';
    assert at == z - n;
    if ':' in lit {
      var k :| 0 <= k < |lit| && lit[k] == ':';
      assert k < at && data[n + k] == ':';
    }
    if ColonBefore(data, z) {
      var k :| n <= k < z && data[k] == ':';
      assert lit[k - n] == ':';
    }
  }

  /** The text `mailto:a@b.c` links to itself. */
  lemma MailtoLink()
    ensures Split("mailto:a@b.c", 0, 0) == [TextPiece(""), LinkPiece("mailto:a@b.c", "mailto:a@b.c"), TextPiece("")]
  {
    hide Split;
    AddressLinks("", "mailto:", "a", "b.c");
    assert "" + "mailto:" + "a" + "@" + "b.c" == "mailto:" + "a" + "@" + "b.c" == "mailto:a@b.c";
  }

  lemma AtTheEnd(data: string)
    ensures Split(data, |data|, |data|) == [TextPiece("")]
  {
    assert IndexFrom(data, |data|) == |data| && data[|data|..] == "";
  }

  /** The pieces when the search finds a link first. */
  lemma FirstLink(data: string, start: nat, from: nat)
    requires start <= from <= |data| && IndexFrom(data, from) < |data| && ResolveFirst(data, from, IndexFrom(data, from)).Link?
    ensures var o := ResolveFirst(data, from, IndexFrom(data, from));
            && from <= o.left <= o.right <= |data|
            && Split(data, start, from) == [TextPiece(data[start..o.left]), LinkPiece((if o.autoMailto then "mailto:" else "") + data[o.left..o.right], data[o.left..o.right])]
                                           + Split(data, o.right, o.right)
  {
    hide ResolveFirst, AddressAt, AddressText;
    FirstOk(data, from, IndexFrom(data, from));
  }

  // ---------------------------------------------------------------- which addresses are linked

  /** Letters, digits and a few marks before the at sign; behind it a dotted domain that ends with a letter, and that
      may have slashes under `xmpp:`. */
  ghost predicate Address(scheme: string, local: string, domain: string) {
    && scheme in {"", "mailto:", "xmpp:"}
    && local != "" && (forall i :: 0 <= i < |local| ==> IsAlnum(local[i]) || local[i] in ".+-_")
    && (forall i :: 0 <= i < |domain| ==> IsAlnum(domain[i]) || domain[i] in "-_." || (domain[i] == '/' && scheme == "xmpp:"))
    && (forall i :: 0 <= i < |domain| && domain[i] == '.' ==> i + 1 < |domain| && IsAlnum(domain[i + 1]))
    && '.' in domain && IsAlpha(domain[|domain| - 1])
  }

  /** The text ends with a protocol that no letter or digit runs into. */
  predicate EndsWithProtocol(pre: string, protocol: string) {
    var n := |pre| - |protocol|;
    n >= 0 && pre[n..] == protocol && (n > 0 ==> !IsAlnum(pre[n - 1]))
  }

  /** No address goes on back into the text. */
  predicate Stops(pre: string) {
    pre == "" || (var c := pre[|pre| - 1];
      !(IsAlnum(c) || c in ".+-_\0") && (c == ':' ==> !EndsWithProtocol(pre, "mailto:") && !EndsWithProtocol(pre, "xmpp:")))
  }

  /** Where the parts stand. */
  ghost predicate Parts(pre: string, scheme: string, local: string, domain: string, data: string, from: nat, at: nat) {
    && Address(scheme, local, domain) && Stops(pre) && '@' !in pre
    && data == pre + scheme + local + "@" + domain && from == |pre| + |scheme| && at == from + |local|
  }

  lemma PartsAt(pre: string, scheme: string, local: string, domain: string, data: string, from: nat, at: nat)
    requires Parts(pre, scheme, local, domain, data, from, at)
    ensures scheme in {"", "mailto:", "xmpp:"} && |data| == at + 1 + |domain| && from < at && data[at] == '@' && data[..|pre|] == pre && data[|pre|..from] == scheme
    ensures (forall k :: from <= k < at ==> data[k] == local[k - from]) && (forall k :: 0 <= k < |pre| ==> data[k] == pre[k])
    ensures data[at..] == "@" + domain && |domain| > 1 && data[|pre|..] == scheme + local + "@" + domain
  {
    hide Stops;
  }

  lemma NoColon(c: char)
    requires IsAlnum(c) || c in ".+-_"
    ensures c != ':' && c != '@' && LocalChar(c)
  {
  }

  lemma LocalBack(pre: string, scheme: string, local: string, domain: string, data: string, from: nat, at: nat)
    requires Parts(pre, scheme, local, domain, data, from, at)
    ensures at < |data| && forall k :: from <= k < at ==> data[k] != ':' && data[k] != '@' && LocalChar(data[k])
    ensures forall k: nat :: k < |local| ==> BackOk(data, at, at, k)
  {
    hide ProtocolAt, IsAlnum, LocalChar, Stops;
    PartsAt(pre, scheme, local, domain, data, from, at);
    forall k | from <= k < at ensures data[k] != ':' && data[k] != '@' && LocalChar(data[k]) { NoColon(local[k - from]); }
    forall k: nat | k < |local| ensures BackOk(data, at, at, k) { assert LocalChar(data[at - k - 1]); }
  }

  lemma SchemeLetters(scheme: string)
    requires scheme in {"mailto:", "xmpp:"}
    ensures scheme[|scheme| - 1] == ':' && forall i :: 0 <= i < |scheme| - 1 ==> IsAlpha(scheme[i]) && scheme[i] != ':' && scheme[i] != '@'
  {
  }

  lemma SchemeProtocol(pre: string, scheme: string, data: string, at: nat, k: nat)
    requires k <= at <= |data| && at - k == |pre| + |scheme| && data[..|pre|] == pre && data[|pre|..|pre| + |scheme|] == scheme
    requires |pre| > 0 ==> !IsAlnum(pre[|pre| - 1])
    ensures ProtocolAt(scheme, data, at, k, at)
  {
    if |pre| > 0 { assert data[|pre| - 1] == pre[|pre| - 1]; }
  }

  /** Over the scheme, if there is one. */
  lemma SchemeBack(pre: string, scheme: string, local: string, domain: string, data: string, from: nat, at: nat)
    requires Parts(pre, scheme, local, domain, data, from, at)
    ensures at < |data| && forall k: nat :: |local| <= k < |local| + |scheme| ==> BackOk(data, at, at, k)
    ensures scheme != "" ==> data[from - 1] == ':' && ProtocolAt(scheme, data, at, |local|, at)
    ensures forall k :: |pre| <= k < from - 1 ==> data[k] != ':' && data[k] != '@'
  {
    hide ProtocolAt, Address, IsAlpha;
    PartsAt(pre, scheme, local, domain, data, from, at);
    assert forall k :: |pre| <= k < from ==> data[k] == scheme[k - |pre|];
    if scheme != "" {
      SchemeLetters(scheme);
      SchemeProtocol(pre, scheme, data, at, |local|);
      forall k: nat | |local| <= k < |local| + |scheme| ensures BackOk(data, at, at, k) {
        assert data[at - k - 1] == scheme[at - k - 1 - |pre|];
        SchemeByte(scheme[at - k - 1 - |pre|]);
      }
    }
  }

  lemma SchemeByte(c: char)
    requires IsAlpha(c) || c == ':'
    ensures LocalChar(c)
  {
  }

  /** And no further. */
  lemma PreBack(pre: string, scheme: string, local: string, domain: string, data: string, from: nat, at: nat)
    requires Parts(pre, scheme, local, domain, data, from, at)
    ensures at < |data| && (|pre| > 0 ==> !BackOk(data, at, at, |local| + |scheme|))
  {
    PartsAt(pre, scheme, local, domain, data, from, at);
    if |pre| > 0 {
      var c, k := pre[|pre| - 1], |local| + |scheme|;
      assert data[at - k - 1] == c;
      if c == ':' {
        NoProtocol(pre, data, at, k, "mailto:");
        NoProtocol(pre, data, at, k, "xmpp:");
      }
    }
  }

  lemma NoProtocol(pre: string, data: string, at: nat, k: nat, protocol: string)
    requires k <= at <= |data| && at - k == |pre| && data[..|pre|] == pre && !EndsWithProtocol(pre, protocol)
    ensures !ProtocolAt(protocol, data, at, k, at)
  {
    var n := |pre| - |protocol|;
    if n >= 0 {
      assert data[n..|pre|] == pre[n..];
      assert n > 0 ==> data[n - 1] == pre[n - 1];
    }
  }

  lemma CountIs(data: string, at: nat, n: nat)
    requires n <= at <= |data| && (forall k: nat :: k < n ==> BackOk(data, at, at, k)) && (n < at ==> !BackOk(data, at, at, n))
    ensures BackCount(data, at, at, 0) == n
  {
    hide BackOk;
  }

  /** Back over the local part and the scheme, and a colon is met exactly when there is a scheme. */
  lemma PartsBack(pre: string, scheme: string, local: string, domain: string, data: string, from: nat, at: nat)
    requires Parts(pre, scheme, local, domain, data, from, at)
    ensures at < |data| && BackCount(data, at, at, 0) == |local| + |scheme| <= at
    ensures SaysItself(data, at, |local| + |scheme|) <==> scheme != ""
    ensures SaysXmpp(data, at, at, |local| + |scheme|) <==> scheme == "xmpp:"
  {
    hide BackOk, LocalChar, Stops, Address, ProtocolAt;
    PartsAt(pre, scheme, local, domain, data, from, at);
    LocalBack(pre, scheme, local, domain, data, from, at);
    SchemeBack(pre, scheme, local, domain, data, from, at);
    PreBack(pre, scheme, local, domain, data, from, at);
    CountIs(data, at, |local| + |scheme|);
    SchemeNamed(scheme, local, data, from, at);
  }

  lemma SchemeNamed(scheme: string, local: string, data: string, from: nat, at: nat)
    requires |scheme| <= from <= at <= |data| && at == from + |local| && scheme in {"", "mailto:", "xmpp:"}
    requires forall k :: from <= k < at ==> data[k] != ':'
    requires scheme != "" ==> data[from - 1] == ':' && ProtocolAt(scheme, data, at, |local|, at)
    requires forall k :: from - |scheme| <= k < from - 1 ==> data[k] != ':'
    ensures SaysItself(data, at, |local| + |scheme|) <==> scheme != ""
    ensures SaysXmpp(data, at, at, |local| + |scheme|) <==> scheme == "xmpp:"
  {
    if scheme != "" {
      assert data[at - |local| - 1] == ':';
      if scheme == "xmpp:" { NotBoth(data, at, |local|); }
    }
  }

  lemma NotBoth(data: string, at: nat, k: nat)
    requires k <= at <= |data| && ProtocolAt("xmpp:", data, at, k, at)
    ensures !ProtocolAt("mailto:", data, at, k, at)
  {
    assert data[at - k - 5..at - k][3] == 'p' && data[at - k - 2] == 'p';
    if 7 <= at - k { assert data[at - k - 7..at - k][5] == data[at - k - 2]; }
  }

  lemma {:induction false} SomeDots(s: string, n: nat, k: nat)
    requires 1 <= k < n <= |s| && s[k] == '.'
    ensures DotCount(s, n) > 0
  {
    if k < n - 1 { SomeDots(s, n - 1, k); }
  }

  lemma DomainAhead(s: string, domain: string, xmpp: bool)
    requires s == "@" + domain && (forall i :: 0 <= i < |domain| ==> IsAlnum(domain[i]) || domain[i] in "-_." || (domain[i] == '/' && xmpp))
    requires (forall i :: 0 <= i < |domain| && domain[i] == '.' ==> i + 1 < |domain| && IsAlnum(domain[i + 1])) && '.' in domain
    requires IsAlpha(domain[|domain| - 1])
    ensures AheadEnd(s, 1, xmpp) == |s| && DotCount(s, |s|) > 0 && IsAlpha(s[|s| - 1])
  {
    hide DotCount, IsAlnum, IsAlpha;
    forall i: nat | 1 <= i < |s| ensures AheadOk(s, i, xmpp) { assert s[i] == domain[i - 1] && (i < |domain| ==> s[i + 1] == domain[i]); }
    var k :| 0 <= k < |domain| && domain[k] == '.';
    SomeDots(s, |s|, k + 1);
  }

  /** An address becomes one link, with its scheme if one stands before it, and without the text before: the URL is the
      text of the link when it has a scheme, and otherwise `mailto:` and the text. */
  lemma AddressLinks(pre: string, scheme: string, local: string, domain: string)
    requires Address(scheme, local, domain) && Stops(pre) && '@' !in pre
    ensures var lit := scheme + local + "@" + domain;
            Split(pre + scheme + local + "@" + domain, 0, 0)
            == [TextPiece(pre), LinkPiece(if scheme == "" then "mailto:" + lit else lit, lit), TextPiece("")]
  {
    hide Resolve, Split, Attempt, AddressAt, Trimmed, Stops, Address;
    var data, from := pre + scheme + local + "@" + domain, |pre| + |scheme|;
    var at := from + |local|;
    assert Parts(pre, scheme, local, domain, data, from, at);
    PartsAt(pre, scheme, local, domain, data, from, at);
    PartsAttempt(pre, scheme, local, domain, data, from, at);
    ResolveStep(data, 0, at, true, false, 0);
    FirstAt(pre, scheme, local, domain, data, from, at);
    PartsSplit(pre, scheme, local, domain, data, at);
  }

  lemma PartsAttempt(pre: string, scheme: string, local: string, domain: string, data: string, from: nat, at: nat)
    requires Parts(pre, scheme, local, domain, data, from, at)
    ensures at < |data| && data[at] == '@' && Attempt(data, at, at, true, false, 0) == Found(|local| + |scheme|, 1 + |domain|, scheme == "")
  {
    hide Stops, IsAlnum, IsAlpha, BackCount, SaysItself, SaysXmpp, AheadEnd, Trimmed, CutAt, DotCount, Attempt;
    PartsAt(pre, scheme, local, domain, data, from, at);
    PartsBack(pre, scheme, local, domain, data, from, at);
    DomainAhead(data[at..], domain, scheme == "xmpp:");
    AttemptIs(data, at, at, true, false, 0);
    FoundParts(data, at, at, true, false, 0);
    FoundEnd(data, at, at, true, false, 0);
  }

  lemma FirstAt(pre: string, scheme: string, local: string, domain: string, data: string, from: nat, at: nat)
    requires Parts(pre, scheme, local, domain, data, from, at)
    ensures IndexFrom(data, 0) == at
  {
    hide Stops, Address, BackOk, LocalChar, ProtocolAt, IndexFrom;
    PartsAt(pre, scheme, local, domain, data, from, at);
    LocalBack(pre, scheme, local, domain, data, from, at);
    SchemeBack(pre, scheme, local, domain, data, from, at);
    assert forall k :: 0 <= k < |pre| ==> data[k] in pre;
  }

  lemma PartsSplit(pre: string, scheme: string, local: string, domain: string, data: string, at: nat)
    requires at < |data| && data[at] == '@' && IndexFrom(data, 0) == at && |pre| <= |data|
    requires Resolve(data, 0, at, true, false, 0) == Link(|pre|, at, |data|, scheme == "")
    requires data[..|pre|] == pre && data[|pre|..] == scheme + local + "@" + domain
    ensures var lit := scheme + local + "@" + domain;
            Split(data, 0, 0) == [TextPiece(pre), LinkPiece(if scheme == "" then "mailto:" + lit else lit, lit), TextPiece("")]
  {
    hide Resolve, IndexFrom, Split;
    var lit := scheme + local + "@" + domain;
    FirstLink(data, 0, 0);
    NothingAdded(lit);
    assert data[0..|pre|] == pre && data[|pre|..|data|] == lit;
    AtTheEnd(data);
  }
}
