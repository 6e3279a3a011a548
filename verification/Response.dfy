// Upgrade responses as a server prints them (RFC 7230 section 3): a status line, header fields on lines
// of their own, and a blank line. The scanner finds each field's value, and the verdict on the whole is
// decided by the fields alone.
module Response {
  import opened Bytes
  import opened Handshake
  import Sha1

  const CRLF: seq<Byte> := [CR, LF]

  datatype Header = Header(name: seq<Byte>, value: seq<Byte>)

  function Line(f: Header): seq<Byte> { f.name + [COLON, SPACE] + f.value + CRLF }

  function Lines(fs: seq<Header>): seq<Byte> { if fs == [] then [] else Line(fs[0]) + Lines(fs[1..]) }

  function Printed(status: seq<Byte>, fs: seq<Header>): seq<Byte> { status + CRLF + Lines(fs) + CRLF }

  predicate OneLine(s: seq<Byte>) { CR !in s && LF !in s }

  // A name has no colon, and a value begins with no blank.
  predicate Plain(f: Header) {
    && f.name != [] && OneLine(f.name) && OneLine(f.value) && COLON !in f.name
    && (f.value != [] ==> !Blank(f.value[0]))
  }

  ghost predicate AllPlain(fs: seq<Header>) { forall f :: f in fs ==> Plain(f) }

  datatype Found = Nothing | Found(value: seq<Byte>)

  // The value of the first field of this name, in any case.
  function First(fs: seq<Header>, name: seq<Byte>): Found {
    if fs == [] then Nothing
    else if SameName(fs[0].name, name) then Found(fs[0].value)
    else First(fs[1..], name)
  }

  // ------------------------------------------------------------------------- one line

  lemma LineEndAt(h: seq<Byte>, i: nat, e: nat)
    requires i <= e < |h| && h[e] == LF && forall k :: i <= k < e ==> h[k] != LF
    ensures LineEnd(h, i) == e && AfterLine(h, i) == e + 1
    ensures ContentEnd(h, i) == if e > i && h[e - 1] == CR then e - 1 else e
  {
    hide LineEnd;
  }

  lemma SkipBlanksAt(h: seq<Byte>, i: nat, j: nat, e: nat)
    requires i <= j <= e <= |h| && (forall k :: i <= k < j ==> Blank(h[k])) && (j < e ==> !Blank(h[j]))
    ensures SkipBlanks(h, i, e) == j
  {
    hide SkipBlanks;
  }

  // Where the parts of a line stand when something is in front of it.
  lemma PartsOfLine(pre: seq<Byte>, f: Header, post: seq<Byte>)
    ensures var h, n, v := pre + Line(f) + post, |pre| + |f.name|, |f.value|;
            && |pre + Line(f)| == n + v + 4 && h[|pre|..n] == f.name && h[n] == COLON && h[n + 1] == SPACE
            && h[n + 2..n + 2 + v] == f.value && h[n + 2 + v] == CR && h[n + 3 + v] == LF
  {
    var h := pre + Line(f) + post;
    assert h == pre + (f.name + ([COLON, SPACE] + (f.value + (CRLF + post))));
  }

  // What one line is to the scanner.
  lemma LineScanned(pre: seq<Byte>, f: Header, post: seq<Byte>, name: seq<Byte>)
    requires Plain(f) && COLON !in name
    ensures var h, i, e := pre + Line(f) + post, |pre|, |pre| + |f.name| + 2 + |f.value|;
            && ContentEnd(h, i) == e && AfterLine(h, i) == |pre + Line(f)|
            && (NamesField(h, i, name) <==> SameName(f.name, name))
            && SkipBlanks(h, i + |f.name| + 1, e) == e - |f.value| && h[e - |f.value|..e] == f.value
  {
    hide LineEnd, SkipBlanks, Line, SameName, NamesField, Plain, ContentEnd, AfterLine;
    PartsOfLine(pre, f, post);
    var h, i, n := pre + Line(f) + post, |pre|, |pre| + |f.name|;
    var e := n + 2 + |f.value|;
    PlainParts(f);
    NoLineFeedWithin(h, i, f);
    LineEndAt(h, i, e + 1);
    NamesExactly(h, i, f, name);
    ValueBehind(h, n, f.value);
  }

  lemma PlainParts(f: Header)
    requires Plain(f)
    ensures COLON !in f.name && (f.value != [] ==> !Blank(f.value[0]))
  {
  }

  // A space, and the value up to the end.
  lemma ValueBehind(h: seq<Byte>, n: nat, v: seq<Byte>)
    requires n + 2 + |v| <= |h| && h[n + 1] == SPACE && h[n + 2..n + 2 + |v|] == v && (v != [] ==> !Blank(v[0]))
    ensures SkipBlanks(h, n + 1, n + 2 + |v|) == n + 2
  {
    hide SkipBlanks;
    assert v != [] ==> h[n + 2] == v[0];
    SkipBlanksAt(h, n + 1, n + 2, n + 2 + |v|);
  }

  lemma SameLength(a: seq<Byte>, b: seq<Byte>)
    requires SameName(a, b)
    ensures |a| == |b|
  {
  }

  lemma NoLineFeedWithin(h: seq<Byte>, i: nat, f: Header)
    requires Plain(f)
    requires var n := i + |f.name|;
             && n + |f.value| + 4 <= |h| && h[i..n] == f.name && h[n] == COLON && h[n + 1] == SPACE
             && h[n + 2..n + 2 + |f.value|] == f.value && h[n + 2 + |f.value|] == CR
    ensures forall k :: i <= k < i + |f.name| + |f.value| + 3 ==> h[k] != LF
    ensures forall k :: i <= k < i + |f.name| + |f.value| + 2 ==> h[k] != CR
  {
    var n := i + |f.name|;
    assert forall k :: i <= k < n ==> h[k] == f.name[k - i] && f.name[k - i] in f.name;
    assert forall k :: n + 2 <= k < n + 2 + |f.value| ==> h[k] == f.value[k - n - 2] && f.value[k - n - 2] in f.value;
  }

  // A line names exactly the field it was printed for: the colon stands behind the name, and in it none.
  lemma NamesExactly(h: seq<Byte>, i: nat, f: Header, name: seq<Byte>)
    requires COLON !in f.name && COLON !in name
    requires i + |f.name| + |f.value| + 2 <= |h| && i + |f.name| + |f.value| + 2 == ContentEnd(h, i)
    requires h[i..i + |f.name|] == f.name && h[i + |f.name|] == COLON
    ensures NamesField(h, i, name) <==> SameName(f.name, name)
  {
    hide ContentEnd;
    var n := i + |f.name|;
    if |name| < |f.name| && i + |name| < |h| {
      assert h[i + |name|] == f.name[|name|] && f.name[|name|] in f.name;
    }
    if |name| > |f.name| && i + |name| <= |h| {
      assert h[i..i + |name|][|f.name|] == COLON && name[|f.name|] in name;
      assert Lower(COLON) != Lower(name[|f.name|]);
    }
  }

  // -------------------------------------------------------------------------- all lines

  // The scanner finds the first field of a name, and its value.
  lemma {:induction false} LookupPrinted(pre: seq<Byte>, fs: seq<Header>, name: seq<Byte>)
    requires AllPlain(fs) && COLON !in name
    ensures var h := pre + Lines(fs) + CRLF;
            var f := Lookup(h, |pre|, name);
            match First(fs, name)
            case Nothing => f == NoField
            case Found(v) => f.Field? && ValueAt(h, f) == v
    decreases |fs|
  {
    hide Lookup, Line, ContentEnd, AfterLine, NamesField, SkipBlanks, SameName, Plain;
    var h := pre + Lines(fs) + CRLF;
    if fs == [] {
      assert h == pre + CRLF;
      BlankLine(pre, name);
    } else {
      var post := Lines(fs[1..]) + CRLF;
      assert fs[0] in fs && forall f :: f in fs[1..] ==> f in fs;
      assert h == pre + Line(fs[0]) + post == (pre + Line(fs[0])) + Lines(fs[1..]) + CRLF;
      PastOneLine(pre, fs[0], post, name);
      LookupPrinted(pre + Line(fs[0]), fs[1..], name);
    }
  }

  lemma PastOneLine(pre: seq<Byte>, f: Header, post: seq<Byte>, name: seq<Byte>)
    requires Plain(f) && COLON !in name
    ensures var h := pre + Line(f) + post;
            var r := Lookup(h, |pre|, name);
            if SameName(f.name, name) then r.Field? && ValueAt(h, r) == f.value
            else r == Lookup(h, |pre + Line(f)|, name)
  {
    hide Lookup, Line, ContentEnd, AfterLine, NamesField, SkipBlanks, SameName, Plain;
    PartsOfLine(pre, f, post);
    LineScanned(pre, f, post, name);
    if SameName(f.name, name) { SameLength(f.name, name); }
    LookupStep(pre + Line(f) + post, |pre|, name);
  }

  lemma BlankLine(pre: seq<Byte>, name: seq<Byte>)
    ensures Lookup(pre + CRLF, |pre|, name) == NoField
  {
    hide LineEnd;
    var h := pre + CRLF;
    assert h[|pre|] == CR && h[|pre| + 1] == LF;
    LineEndAt(h, |pre|, |pre| + 1);
  }

  // The first blank line is the one at the end.
  lemma {:induction false} BlankAtEnd(pre: seq<Byte>, fs: seq<Header>, k: nat)
    requires AllPlain(fs) && |pre| >= 2 && pre[|pre| - 2..] == CRLF && |pre| - 2 <= k
    ensures var h := pre + Lines(fs) + CRLF; BlankLineAt(h, k) <==> k == |h| - 4
    decreases |fs|
  {
    hide Line, Plain;
    var h := pre + Lines(fs) + CRLF;
    if fs == [] {
      assert h == pre[..|pre| - 2] + CRLF + CRLF;
    } else {
      var post := Lines(fs[1..]) + CRLF;
      var next := pre + Line(fs[0]);
      assert fs[0] in fs && forall f :: f in fs[1..] ==> f in fs;
      assert h == pre + Line(fs[0]) + post == next + Lines(fs[1..]) + CRLF;
      PartsOfLine(pre, fs[0], post);
      NoLineFeedWithin(h, |pre|, fs[0]);
      NameNotEmpty(fs[0]);
      if k >= |next| - 2 {
        assert next[|next| - 2..] == CRLF by { assert h[|next| - 2] == CR && h[|next| - 1] == LF; }
        BlankAtEnd(next, fs[1..], k);
      } else {
        assert h[|pre| - 2] == CR && h[|pre| - 1] == LF;
        assert h[|pre|] == fs[0].name[0];
      }
    }
  }

  lemma NameNotEmpty(f: Header)
    requires Plain(f)
    ensures f.name != [] && f.name[0] != CR
  {
    assert f.name[0] in f.name;
  }

  lemma PrintedEnds(status: seq<Byte>, fs: seq<Header>)
    requires OneLine(status) && AllPlain(fs)
    ensures HeadersEnd(Printed(status, fs), 0) == |Printed(status, fs)|
  {
    hide Lines;
    var h, pre := Printed(status, fs), status + CRLF;
    assert h == pre + Lines(fs) + CRLF && pre[|pre| - 2..] == CRLF;
    BlankAtEnd(pre, fs, |h| - 4);
    var e := HeadersEnd(h, 0);
    assert forall k :: 0 <= k < |status| ==> h[k] == status[k] && status[k] in status;
    if e >= |status| + 4 { BlankAtEnd(pre, fs, e - 4); }
  }

  // ------------------------------------------------------------------------ the verdict

  // What the fields of a response must say (RFC 6455 section 4.1).
  predicate FieldsAgree(fs: seq<Header>, key: Text) {
    var u, c, a := First(fs, OfText(UPGRADE)), First(fs, OfText(CONNECTION)), First(fs, OfText(ACCEPT));
    && u.Found? && SameName(u.value, OfText(WEBSOCKET))
    && c.Found? && ListHas(c.value, 0, OfText(UPGRADE))
    && a.Found? && a.value == OfText(Sha1.AcceptValue(key))
  }

  // The fields found in a printed block are the fields printed.
  lemma PrintedFieldsAgree(status: seq<Byte>, fs: seq<Header>, key: Text)
    requires OneLine(status) && AllPlain(fs)
    ensures HeadersAgree(Printed(status, fs), key) <==> FieldsAgree(fs, key)
  {
    hide Lookup, First, SameName, ListHas, OfText, Sha1.AcceptValue, Lines;
    FieldFound(status, fs, UPGRADE);
    FieldFound(status, fs, CONNECTION);
    FieldFound(status, fs, ACCEPT);
  }

  lemma FieldFound(status: seq<Byte>, fs: seq<Header>, name: Text)
    requires OneLine(status) && AllPlain(fs) && name in [UPGRADE, CONNECTION, ACCEPT]
    ensures var f := HeaderField(Printed(status, fs), OfText(name));
            match First(fs, OfText(name))
            case Nothing => f == NoField
            case Found(v) => f.Field? && ValueAt(Printed(status, fs), f) == v
  {
    hide Lookup, First, Lines, LineEnd;
    NoColon(name);
    var h, pre := Printed(status, fs), status + CRLF;
    assert h == pre + Lines(fs) + CRLF;
    assert forall k :: 0 <= k < |status| ==> h[k] == status[k] && status[k] in status;
    assert h[|status|] == CR && h[|status| + 1] == LF;
    LineEndAt(h, 0, |status| + 1);
    LookupPrinted(pre, fs, OfText(name));
  }

  lemma NoColon(name: Text)
    requires name in [UPGRADE, CONNECTION, ACCEPT]
    ensures COLON !in OfText(name)
  {
    assert forall i :: 0 <= i < |name| ==> name[i] != ':';
  }

  // A printed response is accepted exactly when it begins with "HTTP/1.", its status is 101, and its
  // fields agree, whatever their order, their case, other fields between them and bytes behind; the
  // headers then end where they were printed to end.
  lemma PrintedIsJudged(status: seq<Byte>, fs: seq<Header>, rest: seq<Byte>, key: Text)
    requires OneLine(status) && AllPlain(fs) && |Printed(status, fs)| >= 12
    ensures var p := Printed(status, fs);
            Whole(p + rest, key) ==
            if p[..7] == OfText(HTTP) && Atoi(p + rest, 9) == 101 && FieldsAgree(fs, key) then Upgraded(|p|)
            else Refused
  {
    hide HeadersEnd, HeadersAgree, FieldsAgree, Atoi, OfText, Printed;
    var p := Printed(status, fs);
    PrintedEnds(status, fs);
    HeadersEndStable(p, p + rest);
    PrintedFieldsAgree(status, fs, key);
    assert (p + rest)[..|p + rest|] == p + rest && (p + rest)[..|p|] == p && (p + rest)[..7] == p[..7];
  }
}
