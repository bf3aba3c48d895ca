/** UTF-8 of utf8.c against the syntax of RFC 3629, section 4. */
module Utf8 {

  import opened Octets

  // ---------------------------------------------------------------- the syntax

  predicate Tail(b: Byte) { 0x80 <= b <= 0xBF }

  /** One character, by the grammar. */
  predicate Char(c: seq<Byte>) {
    match |c|
    case 1 => c[0] <= 0x7F
    case 2 => 0xC2 <= c[0] <= 0xDF && Tail(c[1])
    case 3 =>
      && Tail(c[2])
      && (|| (c[0] == 0xE0 && 0xA0 <= c[1] <= 0xBF)
          || (0xE1 <= c[0] <= 0xEC && Tail(c[1]))
          || (c[0] == 0xED && 0x80 <= c[1] <= 0x9F)
          || (0xEE <= c[0] <= 0xEF && Tail(c[1])))
    case 4 =>
      && Tail(c[2]) && Tail(c[3])
      && (|| (c[0] == 0xF0 && 0x90 <= c[1] <= 0xBF)
          || (0xF1 <= c[0] <= 0xF3 && Tail(c[1]))
          || (c[0] == 0xF4 && 0x80 <= c[1] <= 0x8F))
    case _ => false
  }

  /** How long a character is that begins with this byte, if one does. */
  function Length(b: Byte): nat {
    if b <= 0x7F then 1 else if b < 0xC0 then 0 else if b < 0xE0 then 2 else if b < 0xF0 then 3 else if b < 0xF8 then 4 else 0
  }

  /** A character stands at the front. */
  predicate Starts(s: seq<Byte>) {
    s != [] && 0 < Length(s[0]) <= |s| && Char(s[..Length(s[0])])
  }

  lemma FrontUnique(s: seq<Byte>, k: nat)
    requires k <= |s| && Char(s[..k])
    ensures Starts(s) && k == Length(s[0])
  {
    assert s[..k][0] == s[0];
  }

  /** A sequence of characters. */
  predicate WellFormed(s: seq<Byte>)
    decreases |s|
  {
    s == [] || (Starts(s) && WellFormed(s[Length(s[0])..]))
  }

  /** The scalar value of a character. */
  function Value(c: seq<Byte>): (v: int)
    requires Char(c)
    ensures Scalar(v)
  {
    var lead: int := c[0];
    match |c|
    case 1 => lead
    case 2 => Shift(lead - 0xC0, c[1])
    case 3 => Shift(Shift(lead - 0xE0, c[1]), c[2])
    case _ => Shift(Shift(Shift(lead - 0xF0, c[1]), c[2]), c[3])
  }

  /** Six more bits from a tail byte. */
  function Shift(high: int, tail: Byte): int {
    high * 0x40 + (tail as int - 0x80)
  }

  lemma ShiftInjective(a: int, b: Byte, c: int, d: Byte)
    requires Tail(b) && Tail(d) && Shift(a, b) == Shift(c, d)
    ensures a == c && b == d
  {
  }

  predicate Scalar(v: int) { 0 <= v < 0xD800 || 0xE000 <= v < 0x110000 }

  /** No two characters have one value. */
  lemma ValueInjective(c: seq<Byte>, d: seq<Byte>)
    requires Char(c) && Char(d) && Value(c) == Value(d)
    ensures c == d
  {
    ValueLength(c);
    ValueLength(d);
    assert |c| == |d|;
    var a: int, b: int := c[0], d[0];
    hide Shift;
    match |c|
    case 1 =>
    case 2 =>
      ShiftInjective(a - 0xC0, c[1], b - 0xC0, d[1]);
    case 3 =>
      ShiftInjective(Shift(a - 0xE0, c[1]), c[2], Shift(b - 0xE0, d[1]), d[2]);
      ShiftInjective(a - 0xE0, c[1], b - 0xE0, d[1]);
    case _ =>
      ShiftInjective(Shift(Shift(a - 0xF0, c[1]), c[2]), c[3], Shift(Shift(b - 0xF0, d[1]), d[2]), d[3]);
      ShiftInjective(Shift(a - 0xF0, c[1]), c[2], Shift(b - 0xF0, d[1]), d[2]);
      ShiftInjective(a - 0xF0, c[1], b - 0xF0, d[1]);
  }

  lemma ValueLength(c: seq<Byte>)
    requires Char(c)
    ensures |c| == if Value(c) < 0x80 then 1 else if Value(c) < 0x800 then 2 else if Value(c) < 0x10000 then 3 else 4
  {
  }

  // ---------------------------------------------------------------- validating

  /** `(b & 0xC0) == 0x80` */
  predicate Continues(b: Byte) { b / 0x40 == 2 }

  /** `utf8proc_valid`: the length of the character, or minus the bytes to skip. */
  function Valid(str: seq<Byte>): (r: int)
    requires str != []
    ensures r != 0 && -|str| <= r <= |str|
    ensures r > 0 <==> Starts(str)
    ensures r > 0 ==> r == Length(str[0])
  {
    var length: int := Length(str[0]);
    if length == 0 then -1
    else if length > |str| then -|str|
    else if length == 2 then
      if !Continues(str[1]) then -1
      else if str[0] < 0xC2 then -length
      else length
    else if length == 3 then
      if !Continues(str[1]) then -1
      else if !Continues(str[2]) then -2
      else if str[0] == 0xE0 then (if str[1] < 0xA0 then -length else length)
      else if str[0] == 0xED then (if str[1] >= 0xA0 then -length else length)
      else length
    else if length == 4 then
      if !Continues(str[1]) then -1
      else if !Continues(str[2]) then -2
      else if !Continues(str[3]) then -3
      else if str[0] == 0xF0 then (if str[1] < 0x90 then -length else length)
      else if str[0] >= 0xF4 then (if str[0] > 0xF4 || str[1] >= 0x90 then -length else length)
      else length
    else length
  }

  // ---------------------------------------------------------------- sanitising

  /** Bad pieces and NUL replaced, one U+FFFD each. */
  function Sanitized(s: seq<Byte>): seq<Byte>
    decreases |s|
  {
    if s == [] then []
    else if s[0] == 0 then REPLACEMENT + Sanitized(s[1..])
    else
      var v := Valid(s);
      if v > 0 then s[..v] + Sanitized(s[v..]) else REPLACEMENT + Sanitized(s[-v..])
  }

  /** A character at the front is kept, but NUL. */
  lemma GoodPiece(s: seq<Byte>)
    requires Starts(s)
    ensures var n := Length(s[0]);
            Sanitized(s) == (if s[0] == 0 then REPLACEMENT else s[..n]) + Sanitized(s[n..])
  {
  }

  /** Otherwise one U+FFFD stands for the first byte and the tail bytes right behind it, as many as its length calls
      for; or for all that is left, when that is shorter than its length. */
  lemma BadPiece(s: seq<Byte>) returns (p: nat)
    requires s != [] && !Starts(s)
    ensures 1 <= p <= |s| && Sanitized(s) == REPLACEMENT + Sanitized(s[p..])
    ensures Length(s[0]) > |s| ==> p == |s|
    ensures Length(s[0]) <= |s| ==>
      && (forall k :: 1 <= k < p ==> Tail(s[k]) && Length(s[k]) == 0)
      && (p == 1 || p <= Length(s[0])) && (p < Length(s[0]) ==> !Tail(s[p]))
  {
    p := -Valid(s);
  }

  /** `cmark_utf8proc_check`: good stretches are copied whole. */
  method Check(line: seq<Byte>) returns (ob: seq<Byte>)
    ensures ob == Sanitized(line)
  {
    ob := [];
    var i, size := 0, |line|;
    assert line[0..] == line;
    while i < size
      invariant 0 <= i <= size && Sanitized(line) == ob + Sanitized(line[i..])
      decreases size - i
    {
      hide Sanitized;
      var org, charlen := i, 0;
      i, charlen := GoodStretch(line, org);
      Append(ob, line[org..i], REPLACEMENT, Sanitized(line[if i < size then i + charlen else size..]));
      ob := ob + line[org..i];
      if i >= size {
        break;
      }
      ob := ob + REPLACEMENT;
      i := i + charlen;
    }
    assert line[|line|..] == [] && Sanitized([]) == [] by { NothingSanitized(); }
  }

  /** The inner loop: over good bytes, to the end or to a bad piece of `charlen` bytes. */
  method GoodStretch(line: seq<Byte>, org: nat) returns (i: nat, charlen: nat)
    requires org < |line|
    ensures org <= i <= |line| && i + charlen <= |line| && (i < |line| ==> charlen > 0)
    ensures Sanitized(line[org..]) == line[org..i] + if i < |line| then REPLACEMENT + Sanitized(line[i + charlen..]) else []
  {
    hide Sanitized, Valid;
    i, charlen := org, 0;
    var size := |line|;
    while i < size
      invariant org <= i <= size && charlen == 0
      invariant Sanitized(line[org..]) == line[org..i] + Sanitized(line[i..])
      decreases size - i
    {
      AsciiValid(line[i..]);
      if line[i] < 0x80 && line[i] != 0 {
        SanitizedGood(line, org, i, 1);
        i := i + 1;
      } else if line[i] >= 0x80 {
        var v := Valid(line[i..]);
        if v < 0 {
          charlen := -v;
          SanitizedBad(line, i, charlen);
          return;
        }
        SanitizedGood(line, org, i, v);
        i := i + v;
      } else {
        charlen := 1;
        SanitizedBad(line, i, charlen);
        return;
      }
    }
    assert line[size..] == [] && Sanitized([]) == [] by { NothingSanitized(); }
  }

  lemma Append(a: seq<Byte>, b: seq<Byte>, c: seq<Byte>, d: seq<Byte>)
    ensures a + b + c + d == a + (b + (c + d)) && a + (b + []) == a + b + [] == a + b
  {
    Regroup(a, b, c + d);
    Regroup(a + b, c, d);
  }

  lemma NothingSanitized()
    ensures Sanitized([]) == []
  {
  }

  lemma AsciiValid(s: seq<Byte>)
    requires s != []
    ensures s[0] < 0x80 ==> Valid(s) == 1
  {
  }

  /** One good character more. */
  lemma SanitizedGood(line: seq<Byte>, org: nat, i: nat, v: nat)
    requires org <= i < |line| && line[i] != 0 && v > 0 && Valid(line[i..]) == v
    ensures i + v <= |line| && line[org..i] + Sanitized(line[i..]) == line[org..i + v] + Sanitized(line[i + v..])
  {
    hide Valid;
    var s := line[i..];
    assert s[v..] == line[i + v..] && line[org..i + v] == line[org..i] + s[..v];
    Regroup(line[org..i], s[..v], Sanitized(s[v..]));
  }

  lemma Regroup(a: seq<Byte>, b: seq<Byte>, c: seq<Byte>)
    ensures (a + b) + c == a + (b + c)
  {
  }

  /** One bad piece. */
  lemma SanitizedBad(line: seq<Byte>, i: nat, v: nat)
    requires i < |line| && v == if line[i] == 0 then 1 else -Valid(line[i..])
    ensures i + v <= |line| && (v > 0 ==> Sanitized(line[i..]) == REPLACEMENT + Sanitized(line[i + v..]))
  {
    hide Valid;
    var s := line[i..];
    assert s[0] == line[i];
    if v > 0 { assert s[v..] == line[i + v..]; }
  }

  /** Characters in front of characters. */
  lemma {:induction false} WellFormedConcat(c: seq<Byte>, s: seq<Byte>)
    requires Char(c) && WellFormed(s)
    ensures WellFormed(c + s)
  {
    assert (c + s)[..|c|] == c && (c + s)[|c|..] == s;
    FrontUnique(c + s, |c|);
  }

  /** What comes out is well formed and free of NUL. */
  lemma {:induction false} SanitizedWellFormed(s: seq<Byte>)
    ensures WellFormed(Sanitized(s)) && 0 !in Sanitized(s)
    decreases |s|
  {
    if s != [] {
      var v := if s[0] == 0 then -1 else Valid(s);
      var rest := if v > 0 then s[v..] else s[-v..];
      SanitizedWellFormed(rest);
      if v > 0 {
        CharWithoutNul(s[..v]);
        WellFormedConcat(s[..v], Sanitized(rest));
      } else {
        WellFormedConcat(REPLACEMENT, Sanitized(rest));
      }
    }
  }

  lemma CharWithoutNul(c: seq<Byte>)
    requires Char(c) && c[0] != 0
    ensures 0 !in c
  {
  }

  /** What is well formed and free of NUL comes out as it is. */
  lemma {:induction false} SanitizedSame(s: seq<Byte>)
    requires WellFormed(s) && 0 !in s
    ensures Sanitized(s) == s
    decreases |s|
  {
    if s != [] {
      var v := Valid(s);
      assert s[0] in s && forall b :: b in s[v..] ==> b in s;
      SanitizedSame(s[v..]);
      assert s[..v] + s[v..] == s;
    }
  }

  /** Sanitising changes exactly what is not well formed or holds a NUL, and once is enough. */
  lemma SanitizedExactly(s: seq<Byte>)
    ensures Sanitized(s) == s <==> WellFormed(s) && 0 !in s
    ensures Sanitized(Sanitized(s)) == Sanitized(s)
  {
    SanitizedWellFormed(s);
    SanitizedSame(Sanitized(s));
    if WellFormed(s) && 0 !in s { SanitizedSame(s); }
  }

  // ---------------------------------------------------------------- decoding

  /** `utf8proc_charlen` */
  method CharLen(str: seq<Byte>) returns (r: int)
    ensures str == [] ==> r == 0
    ensures r > 0 <==> str != [] && 0 < Length(str[0]) <= |str| && forall k :: 1 <= k < Length(str[0]) ==> Tail(str[k])
    ensures r > 0 ==> r == Length(str[0])
    ensures str != [] ==> r != 0
  {
    if |str| == 0 {
      return 0;
    }
    var length := Length(str[0]);
    if length == 0 {
      return -1;
    }
    if length > |str| {
      return -|str|;
    }
    for i := 1 to length
      invariant forall k :: 1 <= k < i ==> Tail(str[k])
    {
      if !Continues(str[i]) {
        return -i;
      }
    }
    r := length;
  }

  /** `(str[0] & 0x1F) << 6` and so on. */
  function Decoded(str: seq<Byte>): int
    requires str != [] && 0 < Length(str[0]) <= |str|
  {
    var lead: int := str[0];
    match Length(str[0])
    case 1 => lead
    case 2 => lead % 0x20 * 0x40 + str[1] as int % 0x40
    case 3 => lead % 0x10 * 0x1000 + str[1] as int % 0x40 * 0x40 + str[2] as int % 0x40
    case _ => lead % 0x08 * 0x40000 + str[1] as int % 0x40 * 0x1000 + str[2] as int % 0x40 * 0x40 + str[3] as int % 0x40
  }

  /** The tests on the value alone find overlong forms, surrogates and what is beyond U+10FFFF. */
  lemma DecodedValue(str: seq<Byte>)
    requires str != [] && 0 < Length(str[0]) <= |str| && forall k :: 1 <= k < Length(str[0]) ==> Tail(str[k])
    ensures var uc, n := Decoded(str), Length(str[0]);
            && (Starts(str) <==> Scalar(uc) && uc >= (if n == 1 then 0 else if n == 2 then 0x80 else if n == 3 then 0x800 else 0x10000))
            && (Starts(str) ==> uc == Value(str[..n]))
  {
    if Length(str[0]) >= 2 { LowBits(str[1]); }
    if Length(str[0]) >= 3 { LowBits(str[2]); }
    if Length(str[0]) >= 4 { LowBits(str[3]); }
    LeadBits(str[0]);
  }

  lemma LowBits(b: Byte)
    requires Tail(b)
    ensures b as int % 0x40 == b as int - 0x80
  {
  }

  lemma LeadBits(b: Byte)
    ensures Length(b) == 2 ==> b as int % 0x20 == b as int - 0xC0
    ensures Length(b) == 3 ==> b as int % 0x10 == b as int - 0xE0
    ensures Length(b) == 4 ==> b as int % 0x08 == b as int - 0xF0
  {
  }

  lemma StartsTails(str: seq<Byte>)
    requires Starts(str)
    ensures forall k :: 1 <= k < Length(str[0]) ==> Tail(str[k])
  {
    var c := str[..Length(str[0])];
    forall k | 1 <= k < Length(str[0]) ensures Tail(str[k]) { assert str[k] == c[k]; }
  }

  /** `cmark_utf8proc_iterate`: the character at the front and its value, or -1 twice. */
  method Iterate(str: seq<Byte>) returns (r: int, dst: int)
    ensures if Starts(str) then r == Length(str[0]) && dst == Value(str[..r]) else r == -1 && dst == -1
  {
    var uc: int := -1;
    dst := -1;
    var length := CharLen(str);
    if length > 0 { DecodedValue(str); }
    if Starts(str) { StartsTails(str); }
    hide Value, Char, Starts;
    if length < 0 {
      return -1, dst;
    }
    var lead: int := if length > 0 then str[0] else 0;
    match length {
    case 1 =>
      uc := lead;
    case 2 =>
      uc := lead % 0x20 * 0x40 + str[1] as int % 0x40;
      if uc < 0x80 {
        uc := -1;
      }
    case 3 =>
      uc := lead % 0x10 * 0x1000 + str[1] as int % 0x40 * 0x40 + str[2] as int % 0x40;
      if uc < 0x800 || (uc >= 0xD800 && uc < 0xE000) {
        uc := -1;
      }
    case 4 =>
      uc := lead % 0x08 * 0x40000 + str[1] as int % 0x40 * 0x1000 + str[2] as int % 0x40 * 0x40 + str[3] as int % 0x40;
      if uc < 0x10000 || uc >= 0x110000 {
        uc := -1;
      }
    case _ =>
    }
    if uc < 0 {
      return -1, dst;
    }
    r, dst := length, uc;
  }

  // ---------------------------------------------------------------- encoding

  /** `cmark_utf8proc_encode_char` */
  method EncodeChar(uc: nat) returns (out: seq<Byte>)
    ensures Scalar(uc) && uc != 0xFFFE && uc != 0xFFFF ==> Char(out) && Value(out) == uc
    ensures uc == 0xFFFE ==> out == [0xFE]
    ensures uc == 0xFFFF ==> out == [0xFF]
    ensures uc >= 0x110000 ==> out == REPLACEMENT
    ensures 0xD800 <= uc < 0xE000 ==> |out| == 3 && out[0] == 0xED && out[1] >= 0xA0
  {
    if uc < 0x80 {
      out := [uc];
    } else if uc < 0x800 {
      EncodeTwo(uc);
      out := [0xC0 + uc / 0x40, 0x80 + uc % 0x40];
    } else if uc == 0xFFFF {
      out := [0xFF];
    } else if uc == 0xFFFE {
      out := [0xFE];
    } else if uc < 0x10000 {
      EncodeThree(uc);
      out := [0xE0 + uc / 0x1000, 0x80 + (uc / 0x40) % 0x40, 0x80 + uc % 0x40];
    } else if uc < 0x110000 {
      EncodeFour(uc);
      out := [0xF0 + uc / 0x40000, 0x80 + (uc / 0x1000) % 0x40, 0x80 + (uc / 0x40) % 0x40, 0x80 + uc % 0x40];
    } else {
      out := REPLACEMENT;
    }
  }

  lemma EncodeTwo(uc: nat)
    requires 0x80 <= uc < 0x800
    ensures 0xC2 <= 0xC0 + uc / 0x40 <= 0xDF && uc == (uc / 0x40) * 0x40 + uc % 0x40
  {
  }

  lemma EncodeThree(uc: nat)
    requires 0x800 <= uc < 0x10000
    ensures var a, b, c := uc / 0x1000, (uc / 0x40) % 0x40, uc % 0x40;
            && 0 <= a < 0x10 && 0 <= b < 0x40 && 0 <= c < 0x40 && uc == (a * 0x40 + b) * 0x40 + c
            && (a == 0 ==> b >= 0x20) && (a == 0xD ==> (b < 0x20 <==> uc < 0xD800)) && (0xD800 <= uc < 0xE000 ==> a == 0xD)
  {
    Digits(uc);
  }

  lemma EncodeFour(uc: nat)
    requires 0x10000 <= uc < 0x110000
    ensures var a, b, c, d := uc / 0x40000, (uc / 0x1000) % 0x40, (uc / 0x40) % 0x40, uc % 0x40;
            && 0 <= a <= 4 && 0 <= b < 0x40 && 0 <= c < 0x40 && 0 <= d < 0x40 && uc == ((a * 0x40 + b) * 0x40 + c) * 0x40 + d
            && (a == 0 ==> b >= 0x10) && (a == 4 ==> b < 0x10)
  {
    Digits(uc);
    Digits(uc / 0x40);
  }

  lemma Digits(n: nat)
    ensures n / 0x1000 == (n / 0x40) / 0x40 && n == (n / 0x40) * 0x40 + n % 0x40
    ensures n / 0x40 == (n / 0x1000) * 0x40 + (n / 0x40) % 0x40
    ensures n / 0x40000 == (n / 0x1000) / 0x40
  {
  }

  /** Decoding gives back what was encoded for the scalar values but two, and for nothing else. */
  method EncodeThenIterate(uc: nat, rest: seq<Byte>) returns (out: seq<Byte>, r: int, dst: int)
    ensures r == |out| && dst == uc <==> Scalar(uc) && uc != 0xFFFE && uc != 0xFFFF
  {
    out := EncodeChar(uc);
    r, dst := Iterate(out + rest);
    if Scalar(uc) && uc != 0xFFFE && uc != 0xFFFF {
      assert (out + rest)[..|out|] == out;
      FrontUnique(out + rest, |out|);
    }
  }

  /** Encoding gives back the bytes that were decoded, but for the same two. */
  method IterateThenEncode(str: seq<Byte>) returns (r: int, dst: int, out: seq<Byte>)
    ensures r > 0 <==> str != [] && Valid(str) > 0
    ensures r > 0 ==> r == Valid(str) && (out == str[..r] <==> dst != 0xFFFE && dst != 0xFFFF)
  {
    out := [];
    r, dst := Iterate(str);
    if r > 0 {
      out := EncodeChar(dst);
      if dst != 0xFFFE && dst != 0xFFFF { ValueInjective(out, str[..r]); }
    }
  }
}
