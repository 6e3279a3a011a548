// The HTTP upgrade (src/ff-ws-conn.c, ff_ws_handshake_check; src/ff-net.c, the read loop of
// ff_net_ws_open): judging a response that is still arriving, and handing the framer exactly the
// bytes that came after it.
module Handshake {
  import opened Bytes
  import opened WsFrame
  import WsConn
  import Sha1

  const LF: Byte := 10
  const CR: Byte := 13
  const SPACE: Byte := 32
  const TAB: Byte := 9
  const COMMA: Byte := 44
  const COLON: Byte := 58

  const HEADER_LIMIT := 8192

  function Lower(c: Byte): Byte { if 65 <= c <= 90 then c + 32 else c }

  // Equality without regard to ASCII case.
  predicate SameName(a: seq<Byte>, b: seq<Byte>) {
    |a| == |b| && forall i :: 0 <= i < |a| ==> Lower(a[i]) == Lower(b[i])
  }

  // Two octets are the same letter exactly if they are equal or an upper-case letter and its lower case,
  // 32 above it.
  lemma CaseIsIgnored(a: Byte, b: Byte)
    ensures Lower(a) == Lower(b) <==> a == b || (65 <= a <= 90 && b == a + 32) || (65 <= b <= 90 && a == b + 32)
  {
  }

  // ------------------------------------------------------------------ where the headers end

  predicate BlankLineAt(s: seq<Byte>, i: nat) {
    i + 3 < |s| && s[i] == CR && s[i + 1] == LF && s[i + 2] == CR && s[i + 3] == LF
  }

  // The length of the header block, or 0 while no blank line is in.
  function HeadersEnd(s: seq<Byte>, i: nat): (h: nat)
    decreases |s| - i
    ensures h > 0 ==> i + 4 <= h <= |s| && BlankLineAt(s, h - 4)
    ensures h > 0 ==> forall k: nat :: i <= k < h - 4 ==> !BlankLineAt(s, k)
    ensures h == 0 ==> forall k: nat :: i <= k ==> !BlankLineAt(s, k)
  {
    if i >= |s| then 0
    else if BlankLineAt(s, i) then i + 4
    else HeadersEnd(s, i + 1)
  }

  // ------------------------------------------------------------------------- header fields

  function LineEnd(h: seq<Byte>, i: nat): (e: nat)
    requires i <= |h|
    decreases |h| - i
    ensures i <= e <= |h| && (e < |h| ==> h[e] == LF) && forall k :: i <= k < e ==> h[k] != LF
  {
    if i == |h| || h[i] == LF then i else LineEnd(h, i + 1)
  }

  // A line's end without the carriage return.
  function ContentEnd(h: seq<Byte>, i: nat): (e: nat)
    requires i <= |h|
    ensures i <= e <= |h|
  {
    var e := LineEnd(h, i);
    if e > i && h[e - 1] == CR then e - 1 else e
  }

  function AfterLine(h: seq<Byte>, i: nat): (j: nat)
    requires i <= |h|
    ensures i <= j <= |h| && (i < |h| ==> i < j)
  {
    var e := LineEnd(h, i);
    if e < |h| then e + 1 else e
  }

  function SkipBlanks(h: seq<Byte>, i: nat, e: nat): (j: nat)
    requires i <= e <= |h|
    decreases e - i
    ensures i <= j <= e && (j < e ==> h[j] != SPACE && h[j] != TAB)
    ensures forall k :: i <= k < j ==> h[k] == SPACE || h[k] == TAB
  {
    if i < e && (h[i] == SPACE || h[i] == TAB) then SkipBlanks(h, i + 1, e) else i
  }

  predicate NamesField(h: seq<Byte>, i: nat, name: seq<Byte>)
    requires i <= |h|
  {
    && ContentEnd(h, i) - i > |name|
    && h[i + |name|] == COLON
    && SameName(h[i..i + |name|], name)
  }

  datatype Field = NoField | Field(at: nat, end: nat)

  // The first line from i on, before a blank one, that carries the named field.
  function Lookup(h: seq<Byte>, i: nat, name: seq<Byte>): (f: Field)
    requires i <= |h|
    decreases |h| - i
    ensures f.Field? ==> i < f.at <= f.end <= |h|
  {
    if i == |h| || ContentEnd(h, i) == i then NoField
    else if NamesField(h, i, name) then
      Field(SkipBlanks(h, i + |name| + 1, ContentEnd(h, i)), ContentEnd(h, i))
    else Lookup(h, AfterLine(h, i), name)
  }

  // header_value: the status line is passed over.
  function HeaderField(h: seq<Byte>, name: seq<Byte>): Field { Lookup(h, AfterLine(h, 0), name) }

  method HeaderValue(resp: array<Byte>, len: nat, name: seq<Byte>) returns (f: Field)
    requires len <= resp.Length
    ensures f == HeaderField(resp[..len], name)
  {
    hide LineEnd, SkipBlanks, SameName, NamesField, Lookup;
    ghost var h := resp[..len];
    var i := ScanLine(resp, len, 0);
    if i < len { i := i + 1; }
    while i < len
      invariant i <= len && HeaderField(h, name) == Lookup(h, i, name)
    {
      var start := i;
      i := ScanLine(resp, len, i);
      var end := i;
      if end > start && resp[end - 1] == CR { end := end - 1; }
      LookupStep(h, start, name);
      if end == start { return NoField; }
      f := FieldOnLine(resp, len, start, end, name);
      if f != NoField { return; }
      if i < len { i := i + 1; }
      assert i == AfterLine(h, start);
    }
    LookupAtEnd(h, name);
    return NoField;
  }

  lemma LookupStep(h: seq<Byte>, i: nat, name: seq<Byte>)
    requires i < |h|
    ensures Lookup(h, i, name) ==
            if ContentEnd(h, i) == i then NoField
            else if NamesField(h, i, name) then
              Field(SkipBlanks(h, i + |name| + 1, ContentEnd(h, i)), ContentEnd(h, i))
            else Lookup(h, AfterLine(h, i), name)
  {
    hide SkipBlanks, NamesField, ContentEnd, AfterLine;
  }

  lemma LookupAtEnd(h: seq<Byte>, name: seq<Byte>)
    ensures Lookup(h, |h|, name) == NoField
  {
  }

  method FieldOnLine(resp: array<Byte>, len: nat, start: nat, end: nat, name: seq<Byte>) returns (f: Field)
    requires start < end <= len <= resp.Length && end == ContentEnd(resp[..len], start)
    ensures f == if NamesField(resp[..len], start, name)
                 then Field(SkipBlanks(resp[..len], start + |name| + 1, end), end)
                 else NoField
  {
    hide ContentEnd, SkipBlanks, SameName;
    if end - start > |name| && resp[start + |name|] == COLON {
      var same := MatchName(resp, len, start, name);
      if same {
        var v := PassBlanks(resp, len, start + |name| + 1, end);
        return Field(v, end);
      }
    }
    return NoField;
  }

  method ScanLine(resp: array<Byte>, len: nat, from: nat) returns (i: nat)
    requires from <= len <= resp.Length
    ensures i == LineEnd(resp[..len], from)
  {
    i := from;
    while i < len && resp[i] != LF
      invariant from <= i <= len && LineEnd(resp[..len], from) == LineEnd(resp[..len], i)
    {
      i := i + 1;
    }
  }

  method MatchName(resp: array<Byte>, len: nat, start: nat, name: seq<Byte>) returns (same: bool)
    requires start + |name| <= len <= resp.Length
    ensures same == SameName(resp[..len][start..start + |name|], name)
  {
    ghost var line := resp[..len][start..start + |name|];
    var k := 0;
    while k < |name|
      invariant k <= |name| && forall j :: 0 <= j < k ==> Lower(line[j]) == Lower(name[j])
    {
      assert line[k] == resp[start + k];
      if Lower(resp[start + k]) != Lower(name[k]) { break; }
      k := k + 1;
    }
    return k == |name|;
  }

  method PassBlanks(resp: array<Byte>, len: nat, from: nat, end: nat) returns (v: nat)
    requires from <= end <= len <= resp.Length
    ensures v == SkipBlanks(resp[..len], from, end)
  {
    v := from;
    while v < end && (resp[v] == SPACE || resp[v] == TAB)
      invariant from <= v <= end && SkipBlanks(resp[..len], from, end) == SkipBlanks(resp[..len], v, end)
    {
      v := v + 1;
    }
  }

  // A line of its own: it starts behind a line feed, names the field in any case, and has this value
  // between blanks behind the colon and the end of the line.
  ghost predicate LineCarries(h: seq<Byte>, i: nat, name: seq<Byte>, v: nat, e: nat) {
    && 0 < i && i + |name| + 1 <= v <= e <= |h| && h[i - 1] == LF
    && SameName(h[i..i + |name|], name) && h[i + |name|] == COLON
    && (forall k :: i + |name| < k < v ==> Blank(h[k]))
    && (v < e ==> !Blank(h[v])) && (forall k :: i <= k < e ==> h[k] != LF)
    && (if e < |h| && h[e] == CR then e + 1 == |h| || h[e + 1] == LF else (e == |h| || h[e] == LF) && h[e - 1] != CR)
  }

  // What is found is the value of such a line.
  lemma FieldStandsOnLine(h: seq<Byte>, name: seq<Byte>)
    requires LF !in name
    ensures var f := HeaderField(h, name); f.Field? ==> exists i: nat :: LineCarries(h, i, name, f.at, f.end)
  {
    hide Lookup, SameName, LineEnd;
    if |h| > 0 && AfterLine(h, 0) < |h| { LookupLine(h, AfterLine(h, 0), name); } else { LookupAtEnd(h, name); }
  }

  lemma {:induction false} LookupLine(h: seq<Byte>, i: nat, name: seq<Byte>)
    requires 0 < i <= |h| && (i < |h| ==> h[i - 1] == LF)
    ensures var f := Lookup(h, i, name); f.Field? ==> exists j: nat :: LineCarries(h, j, name, f.at, f.end)
    decreases |h| - i
  {
    hide Lookup, SameName, LineEnd;
    if i == |h| {
      LookupAtEnd(h, name);
    } else {
      LookupStep(h, i, name);
      if ContentEnd(h, i) != i {
        if NamesField(h, i, name) {
          var e := ContentEnd(h, i);
          assert LineCarries(h, i, name, SkipBlanks(h, i + |name| + 1, e), e);
        } else {
          LookupLine(h, AfterLine(h, i), name);
        }
      }
    }
  }

  // --------------------------------------------------------------- comma-separated values

  predicate Blank(c: Byte) { c == SPACE || c == TAB }

  function CommaFrom(v: seq<Byte>, i: nat): (e: nat)
    requires i <= |v|
    decreases |v| - i
    ensures i <= e <= |v| && (e < |v| ==> v[e] == COMMA) && forall k :: i <= k < e ==> v[k] != COMMA
  {
    if i == |v| || v[i] == COMMA then i else CommaFrom(v, i + 1)
  }

  function Trim(t: seq<Byte>): seq<Byte> {
    if t != [] && Blank(t[0]) then Trim(t[1..])
    else if t != [] && Blank(t[|t| - 1]) then Trim(t[..|t| - 1])
    else t
  }

  // Between a and b: nothing blank at either end, and only blanks outside.
  ghost predicate Between(t: seq<Byte>, a: nat, b: nat) {
    && a <= b <= |t| && (forall k :: 0 <= k < a || b <= k < |t| ==> Blank(t[k]))
    && (a < b ==> !Blank(t[a]) && !Blank(t[b - 1]))
  }

  // Only blanks go, and none is left at an end.
  lemma {:induction false} TrimExactly(t: seq<Byte>)
    ensures exists a: nat, b: nat :: a <= b <= |t| && Between(t, a, b) && Trim(t) == t[a..b]
    decreases |t|
  {
    hide Between;
    if t != [] && Blank(t[0]) {
      TrimExactly(t[1..]);
      var a: nat, b: nat :| a <= b <= |t| - 1 && Between(t[1..], a, b) && Trim(t[1..]) == t[1..][a..b];
      BlankInFront(t, a, b);
    } else if t != [] && Blank(t[|t| - 1]) {
      var u := t[..|t| - 1];
      TrimExactly(u);
      var a: nat, b: nat :| a <= b <= |u| && Between(u, a, b) && Trim(u) == u[a..b];
      BlankBehind(t, a, b);
    } else {
      assert Trim(t) == t[0..|t|] && Between(t, 0, |t|) by { NoBlankAtEnds(t); }
    }
  }

  lemma NoBlankAtEnds(t: seq<Byte>)
    requires t != [] ==> !Blank(t[0]) && !Blank(t[|t| - 1])
    ensures Between(t, 0, |t|)
  {
  }

  lemma BlankInFront(t: seq<Byte>, a: nat, b: nat)
    requires t != [] && Blank(t[0]) && Between(t[1..], a, b)
    ensures Between(t, a + 1, b + 1) && t[a + 1..b + 1] == t[1..][a..b]
  {
    assert forall k :: 1 <= k < |t| ==> t[k] == t[1..][k - 1];
  }

  lemma BlankBehind(t: seq<Byte>, a: nat, b: nat)
    requires t != [] && Blank(t[|t| - 1]) && Between(t[..|t| - 1], a, b)
    ensures Between(t, a, b) && t[a..b] == t[..|t| - 1][a..b]
  {
    assert forall k :: 0 <= k < |t| - 1 ==> t[k] == t[..|t| - 1][k];
  }

  // Is `want` an element of the comma-separated list, blanks around it aside?
  predicate ListHas(v: seq<Byte>, i: nat, want: seq<Byte>)
    requires i <= |v|
    decreases |v| - i
  {
    var e := CommaFrom(v, i);
    SameName(Trim(v[i..e]), want) || (e < |v| && ListHas(v, e + 1, want))
  }

  // A comma, octet 44, ends an element: the list has what its first element is or what the rest has.
  lemma ListSplits(a: seq<Byte>, b: seq<Byte>, want: seq<Byte>)
    requires 44 !in a
    ensures ListHas(a + [44] + b, 0, want) <==> SameName(Trim(a), want) || ListHas(b, 0, want)
    ensures ListHas(a, 0, want) <==> SameName(Trim(a), want)
  {
    hide Trim, SameName, CommaFrom;
    var v := a + [44] + b;
    assert forall k :: 0 <= k < |a| ==> v[k] == a[k] && a[k] in a;
    assert v[|a|] == 44 && v[0..|a|] == a && a[0..|a|] == a;
    assert CommaFrom(v, 0) == |a| && CommaFrom(a, 0) == |a|;
    ListShifted(a + [44], b, 0, want);
  }

  lemma {:induction false} ListShifted(pre: seq<Byte>, b: seq<Byte>, i: nat, want: seq<Byte>)
    requires i <= |b|
    ensures ListHas(pre + b, |pre| + i, want) == ListHas(b, i, want)
    decreases |b| - i
  {
    hide Trim, SameName;
    CommaShifted(pre, b, i);
    var e := CommaFrom(b, i);
    assert (pre + b)[|pre| + i..|pre| + e] == b[i..e];
    if e < |b| { ListShifted(pre, b, e + 1, want); }
  }

  lemma {:induction false} CommaShifted(pre: seq<Byte>, b: seq<Byte>, i: nat)
    requires i <= |b|
    ensures CommaFrom(pre + b, |pre| + i) == |pre| + CommaFrom(b, i)
    decreases |b| - i
  {
    if i < |b| && b[i] != COMMA { CommaShifted(pre, b, i + 1); }
  }

  // A separator in front of an element changes nothing.
  lemma SkipSeparator(v: seq<Byte>, i: nat, want: seq<Byte>)
    requires i < |v| && (Blank(v[i]) || v[i] == COMMA) && want != []
    ensures ListHas(v, i, want) == ListHas(v, i + 1, want)
  {
    if v[i] == COMMA {
      assert v[i..i] == [] && Trim([]) == [];
    } else {
      var e := CommaFrom(v, i);
      assert e == CommaFrom(v, i + 1);
      assert v[i..e][1..] == v[i + 1..e];
    }
  }

  lemma EndOfList(v: seq<Byte>, want: seq<Byte>)
    requires want != []
    ensures !ListHas(v, |v|, want)
  {
    assert v[|v|..|v|] == [] && Trim([]) == [];
  }

  // value_has.
  method ValueHas(v: seq<Byte>, want: seq<Byte>) returns (has: bool)
    requires want != []
    ensures has == ListHas(v, 0, want)
  {
    hide ListHas, Trim;
    var i := 0;
    while i < |v|
      invariant i <= |v| && ListHas(v, 0, want) == ListHas(v, i, want)
    {
      while i < |v| && (Blank(v[i]) || v[i] == COMMA)
        invariant i <= |v| && ListHas(v, 0, want) == ListHas(v, i, want)
      {
        SkipSeparator(v, i, want);
        i := i + 1;
      }
      if i == |v| { break; }
      var start := i;
      while i < |v| && v[i] != COMMA
        invariant start <= i <= |v| && CommaFrom(v, start) == CommaFrom(v, i)
      {
        i := i + 1;
      }
      var end := TrimRight(v, start, i);
      ListStep(v, start, want);
      if |v[start..end]| == |want| && SameName(v[start..end], want) { return true; }
      if i == |v| { EndOfList(v, want); }
    }
    EndOfList(v, want);
    return false;
  }

  lemma ListStep(v: seq<Byte>, i: nat, want: seq<Byte>)
    requires i < |v| && want != []
    ensures var e := CommaFrom(v, i);
            ListHas(v, i, want) == (SameName(Trim(v[i..e]), want) || ListHas(v, e, want))
  {
    var e := CommaFrom(v, i);
    if e < |v| { SkipSeparator(v, e, want); } else { EndOfList(v, want); }
  }

  method TrimRight(v: seq<Byte>, start: nat, e: nat) returns (end: nat)
    requires start < e <= |v| && !Blank(v[start])
    ensures start <= end <= e && v[start..end] == Trim(v[start..e])
  {
    end := e;
    while end > start && Blank(v[end - 1])
      invariant start < end <= e && Trim(v[start..end]) == Trim(v[start..e])
    {
      assert v[start..end][..end - start - 1] == v[start..end - 1];
      end := end - 1;
    }
  }

  // ---------------------------------------------------------------------- the status code

  predicate CSpace(c: Byte) { c == SPACE || 9 <= c <= 13 }
  predicate CDigit(c: Byte) { 48 <= c <= 57 }

  function PassSpace(s: seq<Byte>, i: nat): (j: nat)
    requires i <= |s|
    decreases |s| - i
    ensures i <= j <= |s| && (j < |s| ==> !CSpace(s[j])) && forall k :: i <= k < j ==> CSpace(s[k])
  {
    if i < |s| && CSpace(s[i]) then PassSpace(s, i + 1) else i
  }

  function DigitsFrom(s: seq<Byte>, i: nat, acc: nat): nat
    requires i <= |s|
    decreases |s| - i
  {
    if i < |s| && CDigit(s[i]) then DigitsFrom(s, i + 1, 10 * acc + (s[i] as int - 48)) else acc
  }

  // atoi(resp + i): nothing tells it where the headers, or the bytes received, stop.
  function Atoi(s: seq<Byte>, i: nat): int
    requires i <= |s|
  {
    var j := PassSpace(s, i);
    if j < |s| && s[j] == 45 then -(DigitsFrom(s, j + 1, 0) as int)
    else if j < |s| && s[j] == 43 then DigitsFrom(s, j + 1, 0)
    else DigitsFrom(s, j, 0)
  }

  // White space in front changes nothing, a sign in front of a digit is the number's, and each digit is
  // worth its place.
  lemma AtoiReads(s: seq<Byte>, i: nat)
    requires i < |s|
    ensures CSpace(s[i]) ==> Atoi(s, i) == Atoi(s, i + 1)
    ensures i + 1 < |s| && CDigit(s[i + 1]) ==>
              (s[i] == 45 ==> Atoi(s, i) == -Atoi(s, i + 1)) && (s[i] == 43 ==> Atoi(s, i) == Atoi(s, i + 1))
    ensures !CSpace(s[i]) && !CDigit(s[i]) && !(s[i] in {43, 45} && i + 1 < |s| && CDigit(s[i + 1])) ==> Atoi(s, i) == 0
    ensures CDigit(s[i]) ==> Atoi(s, i) == Value(s, i, DigitsEnd(s, i)) >= 0
  {
    hide DigitsFrom;
    NoDigits(s);
    if i + 1 < |s| && CDigit(s[i + 1]) { DigitsValue(s, i + 1, i + 1, 0); }
    if CDigit(s[i]) { DigitsValue(s, i, i, 0); }
  }

  lemma NoDigits(s: seq<Byte>)
    ensures forall j: nat :: j <= |s| && (j == |s| || !CDigit(s[j])) ==> DigitsFrom(s, j, 0) == 0
  {
  }

  function DigitsEnd(s: seq<Byte>, i: nat): (j: nat)
    requires i <= |s|
    decreases |s| - i
    ensures i <= j <= |s| && (j < |s| ==> !CDigit(s[j])) && forall k :: i <= k < j ==> CDigit(s[k])
  {
    if i < |s| && CDigit(s[i]) then DigitsEnd(s, i + 1) else i
  }

  // What the digits from i to j spell, the last one worth itself and each before it ten times more.
  function Value(s: seq<Byte>, i: nat, j: nat): int
    requires i <= j <= |s|
  {
    if i == j then 0 else 10 * Value(s, i, j - 1) + (s[j - 1] as int - 48)
  }

  lemma {:induction false} DigitsValue(s: seq<Byte>, i: nat, k: nat, acc: nat)
    requires i <= |s| && i <= k <= DigitsEnd(s, i) && acc == Value(s, i, k)
    ensures DigitsFrom(s, k, acc) == Value(s, i, DigitsEnd(s, i))
    decreases |s| - k
  {
    if k < DigitsEnd(s, i) {
      assert CDigit(s[k]);
      DigitsValue(s, i, k + 1, 10 * acc + (s[k] as int - 48));
    }
  }

  method ReadAtoi(s: array<Byte>, from: nat) returns (v: int)
    requires from <= s.Length
    ensures v == Atoi(s[..], from)
  {
    var i := from;
    while i < s.Length && CSpace(s[i])
      invariant from <= i <= s.Length && PassSpace(s[..], from) == PassSpace(s[..], i)
    {
      i := i + 1;
    }
    assert i == PassSpace(s[..], from);
    var negative := i < s.Length && s[i] == 45;
    if i < s.Length && (s[i] == 45 || s[i] == 43) { i := i + 1; }
    ghost var j := i;
    var acc: nat := 0;
    while i < s.Length && CDigit(s[i])
      invariant j <= i <= s.Length && DigitsFrom(s[..], j, 0) == DigitsFrom(s[..], i, acc)
    {
      acc := 10 * acc + (s[i] as int - 48);
      i := i + 1;
    }
    return if negative then -(acc as int) else acc;
  }

  // ------------------------------------------------------------------------- the verdict

  const HTTP: Text := "HTTP/1."
  const UPGRADE: Text := "Upgrade"
  const CONNECTION: Text := "Connection"
  const ACCEPT: Text := "Sec-WebSocket-Accept"
  const WEBSOCKET: Text := "websocket"

  datatype Verdict = Incomplete | Refused | Upgraded(hlen: nat)

  function ValueAt(h: seq<Byte>, f: Field): seq<Byte>
    requires f.Field? && f.at <= f.end <= |h|
  {
    h[f.at..f.end]
  }

  // What the headers themselves must say, the status code aside.
  predicate HeadersAgree(h: seq<Byte>, key: Text) {
    var u, c, a := HeaderField(h, OfText(UPGRADE)), HeaderField(h, OfText(CONNECTION)), HeaderField(h, OfText(ACCEPT));
    && u.Field? && SameName(ValueAt(h, u), OfText(WEBSOCKET))
    && c.Field? && ListHas(ValueAt(h, c), 0, OfText(UPGRADE))
    && a.Field? && ValueAt(h, a) == OfText(Sha1.AcceptValue(key))
  }

  // ff_ws_handshake_check on the first `len` bytes of a buffer. The bytes after them are whatever
  // the buffer held before.
  function Judge(buf: seq<Byte>, len: nat, key: Text): Verdict
    requires len <= |buf|
  {
    var hlen := HeadersEnd(buf[..len], 0);
    if hlen == 0 then if len > HEADER_LIMIT then Refused else Incomplete
    else if hlen < 12 || buf[..7] != OfText(HTTP) then Refused
    else if Atoi(buf, 9) != 101 then Refused
    else if !HeadersAgree(buf[..hlen], key) then Refused
    else Upgraded(hlen)
  }

  // A response is accepted only if it says "HTTP/1." first, 101 as atoi reads it behind that, and lines of
  // its own say websocket in any case and carry the accept value exactly, and a list element says upgrade.
  lemma AcceptedSays(h: seq<Byte>, key: Text)
    requires HeadersAgree(h, key)
    ensures exists i: nat, v: nat, e: nat ::
              LineCarries(h, i, OfText(ACCEPT), v, e) && h[v..e] == OfText(Sha1.AcceptValue(key))
    ensures exists i: nat, v: nat, e: nat ::
              LineCarries(h, i, OfText(UPGRADE), v, e) && SameName(h[v..e], OfText(WEBSOCKET))
    ensures exists i: nat, v: nat, e: nat ::
              LineCarries(h, i, OfText(CONNECTION), v, e) && ListHas(h[v..e], 0, OfText(UPGRADE))
  {
    hide HeaderField, LineCarries, SameName, ListHas, Sha1.AcceptValue;
    NoLineFeed(ACCEPT);
    NoLineFeed(UPGRADE);
    NoLineFeed(CONNECTION);
    FieldStandsOnLine(h, OfText(ACCEPT));
    FieldStandsOnLine(h, OfText(UPGRADE));
    FieldStandsOnLine(h, OfText(CONNECTION));
  }

  lemma NoLineFeed(name: Text)
    requires name in [ACCEPT, UPGRADE, CONNECTION]
    ensures LF !in OfText(name)
  {
    assert forall i :: 0 <= i < |name| ==> name[i] != '\n';
  }

  // The status line of a response that switches protocols.
  lemma StatusReads(s: seq<Byte>, i: nat)
    requires i + 3 < |s| && s[i] == 49 && s[i + 1] == 48 && s[i + 2] == 49 && !CDigit(s[i + 3])
    ensures Atoi(s, i) == 101
  {
    assert DigitsFrom(s, i + 3, 101) == 101;
    assert DigitsFrom(s, i + 2, 10) == 101;
    assert DigitsFrom(s, i + 1, 1) == 101;
  }

  method Check(resp: array<Byte>, len: nat, key: Text) returns (v: Verdict)
    requires len <= resp.Length
    ensures v == Judge(resp[..], len, key)
  {
    hide HeaderField, ListHas, SameName, Atoi, Sha1.AcceptValue, OfText;
    ghost var s := resp[..len];
    assert s == resp[..][..len];
    var hlen := FindEnd(resp, len);
    if hlen == 0 { return if len > HEADER_LIMIT then Refused else Incomplete; }
    if hlen < 12 || resp[..7] != OfText(HTTP) { return Refused; }
    var status := ReadAtoi(resp, 9);
    if status != 101 { return Refused; }
    ghost var h := resp[..hlen];
    assert h == resp[..][..hlen];
    var agree := CheckFields(resp, hlen, key);
    return if agree then Upgraded(hlen) else Refused;
  }

  method FindEnd(resp: array<Byte>, len: nat) returns (hlen: nat)
    requires len <= resp.Length
    ensures hlen == HeadersEnd(resp[..len], 0)
  {
    var i := 0;
    while i + 3 < len
      invariant i <= len && HeadersEnd(resp[..len], 0) == HeadersEnd(resp[..len], i)
    {
      if resp[i] == CR && resp[i + 1] == LF && resp[i + 2] == CR && resp[i + 3] == LF { return i + 4; }
      i := i + 1;
    }
    return 0;
  }

  lemma UpgradeIsNotEmpty()
    ensures OfText(UPGRADE) != []
  {
    assert |UPGRADE| == 7;
    assert |OfText(UPGRADE)| == |UPGRADE|;
  }

  method CheckFields(resp: array<Byte>, hlen: nat, key: Text) returns (agree: bool)
    requires hlen <= resp.Length
    ensures agree == HeadersAgree(resp[..hlen], key)
  {
    hide ListHas, SameName, Sha1.AcceptValue, Lookup;
    ghost var h := resp[..hlen];
    var f := HeaderValue(resp, hlen, OfText(UPGRADE));
    if f == NoField { return false; }
    SliceOfPrefix(resp, hlen, f.at, f.end);
    if !SameName(resp[f.at..f.end], OfText(WEBSOCKET)) { return false; }
    f := HeaderValue(resp, hlen, OfText(CONNECTION));
    if f == NoField { return false; }
    SliceOfPrefix(resp, hlen, f.at, f.end);
    UpgradeIsNotEmpty();
    var has := ValueHas(resp[f.at..f.end], OfText(UPGRADE));
    if !has { return false; }
    f := HeaderValue(resp, hlen, OfText(ACCEPT));
    if f == NoField { return false; }
    SliceOfPrefix(resp, hlen, f.at, f.end);
    var want := new char[64];
    var ok := Sha1.AcceptFor(key, want);
    return resp[f.at..f.end] == OfText(want[..28]);
  }

  // ------------------------------------------------------- the verdict does not change its mind

  lemma HeadersEndStable(s: seq<Byte>, t: seq<Byte>)
    requires s <= t && HeadersEnd(s, 0) > 0
    ensures HeadersEnd(t, 0) == HeadersEnd(s, 0)
  {
    var a, b := HeadersEnd(s, 0), HeadersEnd(t, 0);
    assert BlankLineAt(t, a - 4);
    if b < a {
      assert BlankLineAt(s, b - 4);
    }
  }

  // Headers that hold nothing but white space after the version name no field.
  lemma WhiteSpaceNamesNothing(h: seq<Byte>, i: nat, name: seq<Byte>)
    requires i <= |h| && i >= 8 && |name| >= 2 && (forall c :: c in name ==> !CSpace(Lower(c)))
    requires forall k :: 9 <= k < |h| ==> CSpace(h[k])
    ensures Lookup(h, i, name) == NoField
    decreases |h| - i
  {
    if i < |h| && ContentEnd(h, i) != i {
      assert name[1] in name;
      if i + |name| <= |h| {
        assert h[i..i + |name|][1] == h[i + 1];
      }
      WhiteSpaceNamesNothing(h, AfterLine(h, i), name);
    }
  }

  lemma StatusLineStays(h: seq<Byte>)
    requires |h| >= 12 && h[..7] == OfText(HTTP)
    ensures 8 <= AfterLine(h, 0)
  {
    assert HTTP == ['H', 'T', 'T', 'P', '/', '1', '.'];
    forall k | 0 <= k < 7 ensures h[k] != LF {
      assert h[..7][k] == h[k] == OfText(HTTP)[k];
    }
  }

  // The status code is decided within the headers, or they could not have agreed anyway.
  lemma StatusIsLocal(b: seq<Byte>, c: seq<Byte>, hlen: nat, key: Text)
    requires 12 <= hlen <= |b| && hlen <= |c| && b[..hlen] == c[..hlen] && b[..7] == OfText(HTTP)
    requires HeadersEnd(b[..hlen], 0) == hlen && HeadersAgree(b[..hlen], key)
    ensures Atoi(b, 9) == Atoi(c, 9)
  {
    hide HeadersAgree, OfText, HeadersEnd, PassSpace, DigitsFrom;
    var h := b[..hlen];
    var j := PassSpace(b, 9);
    NotAllSpace(b, hlen, j, key);
    assert BlankLineAt(h, hlen - 4) && b[hlen - 1] == h[hlen - 1] == LF;
    PassSpaceLocal(b, c, 9, hlen);
    assert j < hlen && b[j] == h[j] == c[..hlen][j] == c[j];
    DigitsLocal(b, c, j, 0, hlen);
    if j + 1 < hlen { DigitsLocal(b, c, j + 1, 0, hlen); }
  }

  lemma NotAllSpace(b: seq<Byte>, hlen: nat, j: nat, key: Text)
    requires 12 <= hlen <= |b| && b[..7] == OfText(HTTP) && HeadersAgree(b[..hlen], key)
    requires j == PassSpace(b, 9)
    ensures j < hlen
  {
    hide PassSpace, HeaderField, OfText, CSpace, HeadersAgree;
    var h := b[..hlen];
    assert h[..7] == b[..7];
    if j >= hlen {
      forall k | 9 <= k < |h| ensures CSpace(h[k]) {
        assert h[k] == b[k];
      }
      NoUpgradeInSpace(h);
      NamesUpgrade(h, key);
    }
  }

  lemma NamesUpgrade(h: seq<Byte>, key: Text)
    requires HeadersAgree(h, key)
    ensures HeaderField(h, OfText(UPGRADE)) != NoField
  {
    hide HeaderField;
  }

  lemma NoUpgradeInSpace(h: seq<Byte>)
    requires |h| >= 12 && h[..7] == OfText(HTTP) && forall k :: 9 <= k < |h| ==> CSpace(h[k])
    ensures HeaderField(h, OfText(UPGRADE)) == NoField
  {
    hide Lookup;
    StatusLineStays(h);
    assert UPGRADE == ['U', 'p', 'g', 'r', 'a', 'd', 'e'];
    forall x | x in OfText(UPGRADE) ensures !CSpace(Lower(x)) {
    }
    WhiteSpaceNamesNothing(h, AfterLine(h, 0), OfText(UPGRADE));
  }

  lemma {:induction false} PassSpaceLocal(b: seq<Byte>, c: seq<Byte>, i: nat, n: nat)
    requires i <= n <= |b| && n <= |c| && b[..n] == c[..n] && PassSpace(b, i) < n
    ensures PassSpace(c, i) == PassSpace(b, i)
    decreases n - i
  {
    assert i < n && b[i] == b[..n][i] == c[i];
    if CSpace(b[i]) {
      PassSpaceLocal(b, c, i + 1, n);
    }
  }

  lemma {:induction false} DigitsLocal(b: seq<Byte>, c: seq<Byte>, i: nat, acc: nat, n: nat)
    requires i < n <= |b| && n <= |c| && b[..n] == c[..n] && !CDigit(b[n - 1])
    ensures DigitsFrom(c, i, acc) == DigitsFrom(b, i, acc)
    decreases n - i
  {
    assert b[i] == b[..n][i] == c[i];
    if CDigit(b[i]) {
      DigitsLocal(b, c, i + 1, 10 * acc + (b[i] as int - 48), n);
    }
  }

  // Up to 8192 bytes, a verdict is final: neither more bytes nor what the buffer held before can
  // change it.
  lemma VerdictIsFinal(b: seq<Byte>, m: nat, c: seq<Byte>, n: nat, key: Text)
    requires m <= n && m <= |b| && n <= |c| && b[..m] == c[..m] && m <= HEADER_LIMIT
    requires Judge(b, m, key) != Incomplete
    ensures Judge(c, n, key) == Judge(b, m, key)
  {
    hide HeadersAgree, Atoi, OfText;
    var hlen := HeadersEnd(b[..m], 0);
    assert b[..m] == c[..n][..m];
    HeadersEndStable(b[..m], c[..n]);
    if hlen >= 12 {
      assert b[..7] == b[..m][..7] == c[..7];
      assert b[..hlen] == b[..m][..hlen] == c[..m][..hlen] == c[..hlen];
      if b[..7] == OfText(HTTP) && HeadersAgree(b[..hlen], key) {
        HeadersEndCut(b[..m], hlen);
        assert b[..m][..hlen] == b[..hlen];
        StatusIsLocal(b, c, hlen, key);
      }
    }
  }

  lemma HeadersEndCut(s: seq<Byte>, hlen: nat)
    requires hlen == HeadersEnd(s, 0) > 0
    ensures HeadersEnd(s[..hlen], 0) == hlen
  {
    var t := s[..hlen];
    assert BlankLineAt(t, hlen - 4);
    var e := HeadersEnd(t, 0);
    if e < hlen { assert BlankLineAt(s, e - 4); }
  }

  // --------------------------------------------------------------- joining on to the framer

  // These bytes are a whole response and nothing more.
  ghost predicate WholeResponse(head: seq<Byte>, key: Text) {
    HeadersEnd(head, 0) == |head| && HeadersAgree(head, key) && |head| >= 12 && head[..7] == OfText(HTTP) &&
        Atoi(head, 9) == 101
  }

  // The read loop of ff_net_ws_open. Whatever arrived behind the headers is where the framer starts.
  // It succeeds exactly when the bytes that arrived hold an accepted response, recv never found the
  // connection dead, and that took fewer than 300 reads; short of those it gives up only on a response
  // that is refused or that fills the buffer.
  method Upgrade(io: WsConn.Transport, key: Text) returns (c: WsConn.Conn?, ghost head: seq<Byte>)
    modifies io`arrived, io`recvs
    ensures old(io.arrived) <= io.arrived && old(io.recvs) <= io.recvs
    ensures var read := |io.recvs| - |old(io.recvs)|;
            var v := Whole(io.arrived[|old(io.arrived)|..], key);
            var alive := read < 300 && WsConn.NoneDead(io.recvs, |old(io.recvs)|);
            && read <= 300 && (c != null <==> alive && v.Upgraded?)
            && (c == null && alive ==> v == Refused || |io.arrived| == |old(io.arrived)| + HEADER_LIMIT)
    ensures c != null ==> c.Valid() && c.io == io && c.open && !c.late && fresh(c) && c.frames == []
    ensures c != null ==> io.arrived == old(io.arrived) + head + c.stream
    ensures c != null ==> WholeResponse(head, key)
  {
    hide HeadersAgree, Atoi, OfText, HeadersEnd, Judge, Whole, WholeResponse, WsConn.Conn.Valid;
    var buf := new Byte[HEADER_LIMIT];
    var have := 0;
    head := [];
    for spins := 0 to 300
      invariant have <= buf.Length && io.arrived == old(io.arrived) + buf[..have]
      invariant old(io.recvs) <= io.recvs && |io.recvs| == |old(io.recvs)| + spins
      invariant WsConn.NoneDead(io.recvs, |old(io.recvs)|)
    {
      var v := Check(buf, have, key);
      assert io.arrived[|old(io.arrived)|..] == buf[..have];
      SameVerdict(buf[..], have, key);
      if v == Refused { return null, []; }
      if v.Upgraded? {
        HeadIsWhole(buf[..], have, v.hlen, key);
        head := buf[..v.hlen];
        assert buf[..][..v.hlen] == head;
        assert buf[..have] == head + buf[v.hlen..have];
        var extra := have - v.hlen;
        if extra > CONN_BUF { return null, []; }
        c := new WsConn.Conn(io, buf[v.hlen..have]);
        return;
      }
      if have >= buf.Length { return null, []; }
      var r := io.Recv(buf, have, buf.Length - have);
      assert io.recvs[|old(io.recvs)| + spins] == r;
      if r < 0 { return null, []; }
      assert buf[..have + r] == buf[..have] + buf[have..have + r];
      have := have + r;
    }
    return null, [];
  }

  // The verdict on bytes that are all there is.
  function Whole(b: seq<Byte>, key: Text): Verdict { Judge(b, |b|, key) }

  lemma SameVerdict(b: seq<Byte>, n: nat, key: Text)
    requires n <= |b| && n <= HEADER_LIMIT
    ensures Judge(b, n, key) == Whole(b[..n], key)
  {
    hide Judge;
    assert b[..n][..n] == b[..n];
    if Judge(b, n, key) != Incomplete {
      VerdictIsFinal(b, n, b[..n], n, key);
    } else if Whole(b[..n], key) != Incomplete {
      VerdictIsFinal(b[..n], n, b, n, key);
    }
  }

  lemma HeadIsWhole(b: seq<Byte>, n: nat, hlen: nat, key: Text)
    requires n <= |b| && Judge(b, n, key) == Upgraded(hlen)
    ensures hlen <= n && WholeResponse(b[..hlen], key)
  {
    hide HeadersAgree, Atoi, OfText, HeadersEnd;
    var h := b[..hlen];
    assert b[..n][..hlen] == h && h[..hlen] == h && h[..7] == b[..7];
    HeadersEndCut(b[..n], hlen);
    StatusIsLocal(b, h, hlen, key);
  }

  // However the reads were cut, the response ends and the framer's stream begins at the same byte.
  lemma JoinIsUnique(head: seq<Byte>, stream: seq<Byte>, head': seq<Byte>, stream': seq<Byte>, key: Text)
    requires WholeResponse(head, key) && WholeResponse(head', key)
    requires head + stream <= head' + stream' || head' + stream' <= head + stream
    ensures head == head' && (stream <= stream' || stream' <= stream)
  {
    hide HeadersAgree, Atoi, OfText, HeadersEnd;
    var t := if |head + stream| >= |head' + stream'| then head + stream else head' + stream';
    HeadersEndStable(head, t);
    HeadersEndStable(head', t);
    assert head == t[..|head|] && head' == t[..|head'|];
    assert (head + stream)[|head|..] == stream && (head' + stream')[|head'|..] == stream';
  }
}
