// RFC 6455 framing (src/ff-ws.c): parsing one server frame, building one masked client frame.
module WsFrame {
  import opened Bytes

  const MAX_PAYLOAD := 0x10_0000
  const CONN_BUF := MAX_PAYLOAD + 16

  datatype Op = Cont | Text | Binary | Close | Ping | Pong {
    function Code(): (c: Byte)
      ensures c < 16
    {
      match this
      case Cont => 0
      case Text => 1
      case Binary => 2
      case Close => 8
      case Ping => 9
      case Pong => 10
    }

    predicate IsControl() { Code() / 8 % 2 == 1 }
  }

  datatype OpOption = NoOp | SomeOp(op: Op)

  function OpOf(code: int): (r: OpOption)
    ensures forall op: Op :: r == SomeOp(op) <==> op.Code() == code
  {
    if code == 0 then SomeOp(Cont)
    else if code == 1 then SomeOp(Text)
    else if code == 2 then SomeOp(Binary)
    else if code == 8 then SomeOp(Close)
    else if code == 9 then SomeOp(Ping)
    else if code == 10 then SomeOp(Pong)
    else NoOp
  }

  datatype Frame = Frame(op: Op, fin: bool, payload: seq<Byte>)

  // ------------------------------------------------------------ server frames, section 5.2

  // The server frames this client accepts: control frames are whole and short (section 5.5), and
  // no payload passes FF_WS_MAX_PAYLOAD.
  predicate Legal(f: Frame) {
    && |f.payload| <= MAX_PAYLOAD
    && (f.op.IsControl() ==> f.fin && |f.payload| <= 125)
  }

  // The shortest of the three length forms, with the mask bit given by `flag`.
  function LengthField(n: nat, flag: int): (s: seq<Byte>)
    requires flag == 0 || flag == 128
    ensures |s| == if n <= 125 then 1 else if n <= 65535 then 3 else 9
    ensures s[0] % 128 == (if n <= 125 then n else if n <= 65535 then 126 else 127) && s[0] / 128 * 128 == flag
  {
    if n <= 125 then [flag + n]
    else if n <= 65535 then [flag + 126] + BigEndian(n, 2)
    else [flag + 127] + BigEndian(n, 8)
  }

  function FirstByte(op: Op, fin: bool): (b: Byte)
    ensures (b / 128 == 1) == fin && b / 16 % 8 == 0 && OpOf(b % 16) == SomeOp(op)
  {
    (if fin then 128 else 0) + op.Code()
  }

  function Encode(f: Frame): (s: seq<Byte>)
    ensures |s| >= 2 + |f.payload|
  {
    [FirstByte(f.op, f.fin)] + LengthField(|f.payload|, 0) + f.payload
  }

  // What the front of a receive buffer holds.
  datatype Verdict = NeedMore | Broken | Complete(frame: Frame, used: nat)

  // The declared payload length and where the payload starts, once the header is all there.
  datatype Header = ShortHeader | BadHeader | Header(op: Op, fin: bool, plen: nat, at: nat)

  function ParseHeader(s: seq<Byte>): (h: Header)
    ensures h.Header? ==> 2 <= h.at <= |s| && h.at <= 10 && h.plen <= MAX_PAYLOAD
  {
    if |s| < 2 then ShortHeader
    else if s[0] / 16 % 8 != 0 then BadHeader
    else
      match OpOf(s[0] % 16)
      case NoOp => BadHeader
      case SomeOp(op) =>
        var fin := s[0] / 128 == 1;
        if s[1] / 128 == 1 then BadHeader
        else if s[1] == 126 then
          if |s| < 4 then ShortHeader
          else if FromBigEndian(s[2..4]) < 126 then BadHeader
          else Checked(op, fin, FromBigEndian(s[2..4]), 4)
        else if s[1] == 127 then
          if |s| < 10 then ShortHeader
          else if FromBigEndian(s[2..10]) < 65536 then BadHeader
          else if FromBigEndian(s[2..10]) >= 0x8000_0000_0000_0000 then BadHeader
          else Checked(op, fin, FromBigEndian(s[2..10]), 10)
        else Checked(op, fin, s[1], 2)
  }

  function Checked(op: Op, fin: bool, plen: nat, at: nat): (h: Header)
    ensures h.Header? ==> h.plen <= MAX_PAYLOAD && h.at == at
  {
    if op.IsControl() && (plen > 125 || !fin) then BadHeader
    else if plen > MAX_PAYLOAD then BadHeader
    else Header(op, fin, plen, at)
  }

  function Parse(s: seq<Byte>): (v: Verdict)
    ensures v.Complete? ==> 2 <= v.used <= |s|
    ensures |s| >= CONN_BUF ==> v != NeedMore  // so polling a full receive buffer cannot stall
  {
    match ParseHeader(s)
    case ShortHeader => NeedMore
    case BadHeader => Broken
    case Header(op, fin, plen, at) =>
      if |s| < at + plen then NeedMore
      else Complete(Frame(op, fin, s[at..at + plen]), at + plen)
  }

  // The header of an encoded frame reads back as the frame's own fields, whatever follows.
  lemma HeaderOfEncoding(f: Frame, rest: seq<Byte>)
    requires Legal(f)
    ensures var n := |f.payload|;
            ParseHeader(Encode(f) + rest) == Header(f.op, f.fin, n, 1 + |LengthField(n, 0)|)
  {
    var n := |f.payload|;
    var lf := LengthField(n, 0);
    var s := Encode(f) + rest;
    assert s[0] == FirstByte(f.op, f.fin);
    assert s[1] == lf[0];
    if n <= 125 {
    } else if n <= 65535 {
      assert s[2..4] == BigEndian(n, 2);
      assert Pow256(2) == 65536;
      ReadBigEndian(n, 2);
    } else {
      assert s[2..10] == BigEndian(n, 8);
      Pow256Of8();
      ReadBigEndian(n, 8);
    }
  }

  lemma Pow256Of8()
    ensures Pow256(8) == 0x1_0000_0000_0000_0000
  {
    assert Pow256(4) == 0x1_0000_0000;
    assert Pow256(6) == 0x1_0000_0000_0000;
  }

  // Parsing inverts encoding, whatever bytes follow the frame.
  lemma ParseEncode(f: Frame, rest: seq<Byte>)
    requires Legal(f)
    ensures Parse(Encode(f) + rest) == Complete(f, |Encode(f)|)
  {
    HeaderOfEncoding(f, rest);
    var n := |f.payload|;
    var at := 1 + |LengthField(n, 0)|;
    assert (Encode(f) + rest)[at..at + n] == f.payload;
  }

  const HELLO: seq<Byte> := [0x48, 0x65, 0x6c, 0x6c, 0x6f]

  // The unmasked examples of section 5.7: how opcodes, flags and lengths stand on the wire.
  lemma ExamplesOfTheRfc()
    ensures Encode(Frame(Text, true, HELLO)) == [0x81, 0x05] + HELLO
    ensures Encode(Frame(Text, false, HELLO[..3])) == [0x01, 0x03] + HELLO[..3]
    ensures Encode(Frame(Cont, true, HELLO[3..])) == [0x80, 0x02] + HELLO[3..]
    ensures Encode(Frame(Ping, true, HELLO)) == [0x89, 0x05] + HELLO
    ensures Encode(Frame(Pong, true, HELLO)) == [0x8a, 0x05] + HELLO
    ensures Encode(Frame(Close, true, [])) == [0x88, 0x00] && FirstByte(Binary, true) == 0x82
  {
    hide BigEndian;
  }

  lemma LengthsOfTheRfc()
    ensures LengthField(256, 0) == [0x7e, 0x01, 0x00]
    ensures LengthField(65536, 0) == [0x7f, 0, 0, 0, 0, 0, 1, 0, 0]
  {
    assert BigEndian(1, 1) == [1] && BigEndian(256, 2) == [1, 0];
    LongLength();
    hide BigEndian;
  }

  lemma LongLength()
    ensures BigEndian(65536, 8) == [0, 0, 0, 0, 0, 1, 0, 0]
  {
    assert BigEndian(0, 2) == [0, 0] && BigEndian(0, 4) == [0, 0, 0, 0];
    assert BigEndian(0, 5) == [0, 0, 0, 0, 0] && BigEndian(1, 6) == [0, 0, 0, 0, 0, 1];
    assert BigEndian(256, 7) == [0, 0, 0, 0, 0, 1, 0];
  }

  lemma SplitAt(s: seq<Byte>, a: nat, b: nat, c: nat)
    requires a <= b <= c <= |s|
    ensures s[..c] == s[..a] + s[a..b] + s[b..c]
  {
  }

  lemma FieldsOfHeader(s: seq<Byte>)
    requires ParseHeader(s).Header?
    ensures var h := ParseHeader(s);
            s[0] == FirstByte(h.op, h.fin) && (h.op.IsControl() ==> h.fin && h.plen <= 125)
  {
    assert s[0] == 128 * (s[0] / 128) + s[0] % 16;
  }

  lemma LengthOfHeader(s: seq<Byte>)
    requires ParseHeader(s).Header?
    ensures s[1..ParseHeader(s).at] == LengthField(ParseHeader(s).plen, 0)
  {
    var n := ParseHeader(s).plen;
    if s[1] == 126 {
      WriteBigEndian(s[2..4]);
      assert Pow256(2) == 65536;
      assert 125 < n <= 65535 && LengthField(n, 0) == [126] + s[2..4];
      assert s[1..4] == [s[1]] + s[2..4];
    } else if s[1] == 127 {
      WriteBigEndian(s[2..10]);
      assert n > 65535 && LengthField(n, 0) == [127] + s[2..10];
      assert s[1..10] == [s[1]] + s[2..10];
    } else {
      assert LengthField(n, 0) == [s[1]];
    }
  }

  // Encoding inverts parsing: the bytes a frame was read from are exactly its encoding.
  lemma EncodeParse(s: seq<Byte>)
    requires Parse(s).Complete?
    ensures Legal(Parse(s).frame) && s[..Parse(s).used] == Encode(Parse(s).frame)
  {
    var h := ParseHeader(s);
    var f := Parse(s).frame;
    var n := |f.payload|;
    assert h.Header? && n == h.plen && f == Frame(h.op, h.fin, s[h.at..h.at + n]) && |s| >= h.at + n;
    FieldsOfHeader(s);
    LengthOfHeader(s);
    hide ParseHeader, LengthField, FirstByte;
    assert s[..1] == [s[0]];
    SplitAt(s, 1, h.at, h.at + n);
  }

  lemma SliceOfConcat(s: seq<Byte>, more: seq<Byte>, a: nat, b: nat)
    requires a <= b <= |s|
    ensures (s + more)[a..b] == s[a..b]
  {
  }

  // "Broken" and a complete frame are final: more bytes never change them.
  lemma VerdictIsFinal(s: seq<Byte>, more: seq<Byte>)
    requires Parse(s) != NeedMore
    ensures Parse(s + more) == Parse(s)
  {
    var t := s + more;
    assert t[0] == s[0] && t[1] == s[1];
    if |s| >= 4 { SliceOfConcat(s, more, 2, 4); }
    if |s| >= 10 { SliceOfConcat(s, more, 2, 10); }
    assert ParseHeader(t) == ParseHeader(s);
    hide ParseHeader;
    var h := ParseHeader(s);
    if h.Header? {
      SliceOfConcat(s, more, h.at, h.at + h.plen);
    }
  }

  // How many bytes the parser wants before it judges anything at all.
  function HeaderWanted(s: seq<Byte>): nat {
    if |s| < 2 || s[0] / 16 % 8 != 0 || OpOf(s[0] % 16) == NoOp then 2
    else if s[1] == 126 then 4
    else if s[1] == 127 then 10
    else 2
  }

  ghost predicate StartsLegalFrame(s: seq<Byte>) {
    exists f: Frame :: Legal(f) && s < Encode(f)
  }

  // "Need more" is answered exactly when the header is still incomplete or some legal frame
  // properly extends the buffer; a buffer no legal frame can extend is refused as soon as its
  // header is in.
  lemma NeedMoreExactly(s: seq<Byte>)
    ensures Parse(s) == NeedMore <==> |s| < HeaderWanted(s) || StartsLegalFrame(s)
  {
    if Parse(s) == NeedMore && |s| >= HeaderWanted(s) {
      var h := ParseHeader(s);
      var t := s + seq(h.at + h.plen - |s|, _ => 0);
      var f := Frame(h.op, h.fin, t[h.at..h.at + h.plen]);
      VerdictOfPadded(s, t, h);
      EncodeParse(t);
      assert t[..h.at + h.plen] == t;
      assert s < Encode(f);
    }
    if StartsLegalFrame(s) {
      var f: Frame :| Legal(f) && s < Encode(f);
      var rest := Encode(f)[|s|..];
      assert s + rest == Encode(f) == Encode(f) + [];
      if Parse(s) != NeedMore {
        VerdictIsFinal(s, rest);
        ParseEncode(f, []);
        assert false;
      }
    }
  }

  // A complete header is read the same however far the payload has come in.
  lemma VerdictOfPadded(s: seq<Byte>, t: seq<Byte>, h: Header)
    requires h == ParseHeader(s) && h.Header? && s <= t && |t| >= h.at + h.plen
    ensures Parse(t) == Complete(Frame(h.op, h.fin, t[h.at..h.at + h.plen]), h.at + h.plen)
  {
    assert t == s + t[|s|..];
    assert t[0] == s[0] && t[1] == s[1];
    if |s| >= 4 { SliceOfConcat(s, t[|s|..], 2, 4); }
    if |s| >= 10 { SliceOfConcat(s, t[|s|..], 2, 10); }
  }

  ghost predicate StartsWithLegalFrame(s: seq<Byte>) {
    exists f: Frame :: Legal(f) && Encode(f) <= s
  }

  // The three answers, each characterised by the section 5.2 encoding alone: a frame is reported
  // exactly when a legal one is there, and the buffer is refused exactly when its header is in and
  // no legal frame is there or can still arrive.
  lemma VerdictExactly(s: seq<Byte>)
    ensures Parse(s).Complete? <==> StartsWithLegalFrame(s)
    ensures Parse(s) == Broken <==>
            |s| >= HeaderWanted(s) && !StartsWithLegalFrame(s) && !StartsLegalFrame(s)
  {
    NeedMoreExactly(s);
    if Parse(s).Complete? {
      EncodeParse(s);
      assert Encode(Parse(s).frame) <= s;
    }
    if StartsWithLegalFrame(s) {
      var f: Frame :| Legal(f) && Encode(f) <= s;
      assert s == Encode(f) + s[|Encode(f)|..];
      ParseEncode(f, s[|Encode(f)|..]);
    }
  }

  // ff_ws_parse over the first `len` bytes of a buffer. The payload is reported by its offset.
  datatype Parsed = Short | Malformed | Whole(op: Op, fin: bool, at: nat, plen: nat)

  lemma SliceOfPrefix(buf: array<Byte>, len: nat, a: nat, b: nat)
    requires a <= b <= len <= buf.Length
    ensures buf[..len][a..b] == buf[a..b]
  {
  }

  // The payload length field, once the two first bytes are in: its value and where it ends.
  datatype LengthRead = TooShort | NotShortest | LengthRead(plen: nat, at: nat)

  lemma NoOctets(s: seq<Byte>)
    requires |s| >= 2
    ensures FromBigEndian(s[2..2]) == 0
  {
  }

  lemma NextOctet(s: seq<Byte>, k: nat)
    requires k + 2 < |s|
    ensures FromBigEndian(s[2..3 + k]) == 256 * FromBigEndian(s[2..2 + k]) + s[2 + k]
  {
    var t := s[2..3 + k];
    assert t[..|t| - 1] == s[2..2 + k] && t[|t| - 1] == s[2 + k];
  }

  method ReadLength(buf: array<Byte>, len: nat) returns (r: LengthRead)
    requires 2 <= len <= buf.Length && buf[1] < 128
    ensures var s := buf[..len];
            r == if s[1] == 126 then
                   if len < 4 then TooShort
                   else if FromBigEndian(s[2..4]) < 126 then NotShortest
                   else LengthRead(FromBigEndian(s[2..4]), 4)
                 else if s[1] == 127 then
                   if len < 10 then TooShort
                   else if FromBigEndian(s[2..10]) < 65536 then NotShortest
                   else if FromBigEndian(s[2..10]) >= 0x8000_0000_0000_0000 then NotShortest
                   else LengthRead(FromBigEndian(s[2..10]), 10)
                 else LengthRead(s[1], 2)
  {
    ghost var s := buf[..len];
    var plen: nat := buf[1] % 128;
    var i := 2;
    if plen == 126 {
      if len < 4 { return TooShort; }
      plen := 256 * (buf[2] as nat) + buf[3];
      i := 4;
      assert s[2..4] == [buf[2]] + [buf[3]];
      assert plen == FromBigEndian(s[2..4]);
      if plen < 126 { return NotShortest; }
    } else if plen == 127 {
      if len < 10 { return TooShort; }
      plen := 0;
      hide FromBigEndian;
      assert FromBigEndian(s[2..2]) == 0 by { NoOctets(s); }
      for k := 0 to 8
        invariant plen == FromBigEndian(s[2..2 + k])
      {
        NextOctet(s, k);
        plen := 256 * plen + buf[2 + k];
      }
      i := 10;
      if plen < 65536 { return NotShortest; }
      if plen >= 0x8000_0000_0000_0000 { return NotShortest; }
    }
    return LengthRead(plen, i);
  }

  method ParseBuffer(buf: array<Byte>, len: nat) returns (r: Parsed)
    requires len <= buf.Length
    ensures r == Short <==> Parse(buf[..len]) == NeedMore
    ensures r == Malformed <==> Parse(buf[..len]) == Broken
    ensures r.Whole? ==> r.at + r.plen <= len
    ensures r.Whole? ==>
              Parse(buf[..len]) == Complete(Frame(r.op, r.fin, buf[r.at..r.at + r.plen]), r.at + r.plen)
  {
    hide FromBigEndian, OpOf;
    if len < 2 { return Short; }
    var fin := buf[0] / 128 == 1;
    if buf[0] / 16 % 8 != 0 { return Malformed; }
    var known := OpOf(buf[0] % 16);
    if known == NoOp { return Malformed; }
    var op := known.op;
    if buf[1] / 128 == 1 { return Malformed; }
    var l := ReadLength(buf, len);
    if l == TooShort { return Short; }
    if l == NotShortest { return Malformed; }
    var plen, i := l.plen, l.at;
    if op.IsControl() && (plen > 125 || !fin) { return Malformed; }
    if plen > MAX_PAYLOAD { return Malformed; }
    if len < i + plen { return Short; }
    SliceOfPrefix(buf, len, i, i + plen);
    return Whole(op, fin, i, plen);
  }
}
