// The WebSocket connection (src/ff-ws-conn.c): a receive buffer, a reassembly buffer and a send
// loop over a transport that may deliver and accept any number of bytes at a time.
module WsConn {
  import opened Bytes
  import opened WsFrame
  import opened WsClient
  import opened WsMessages

  // struct ff_ws_io. Which answer each call gives, and with how many bytes, is not determined.
  class Transport {
    ghost var wire: seq<Byte>     // every byte accepted for sending, in order
    ghost var arrived: seq<Byte>  // every byte handed over by recv, in order
    ghost var sends: seq<int>     // what each call of send answered
    ghost var recvs: seq<int>     // what each call of recv answered

    // > 0: bytes moved; 0: nothing right now; < 0: the connection is dead.
    method Send(frame: array<Byte>, from: nat, n: nat) returns (r: int)
      requires from + n <= frame.Length
      modifies this`wire, this`sends
      ensures r <= n && sends == old(sends) + [r]
      ensures r <= 0 ==> wire == old(wire)
      ensures r > 0 ==> wire == old(wire) + frame[from..from + r]
    {
      r :| r <= n;
      sends := sends + [r];
      if r > 0 { wire := wire + frame[from..from + r]; }
    }

    method Recv(buf: array<Byte>, at: nat, n: nat) returns (r: int)
      requires at + n <= buf.Length
      modifies this`arrived, this`recvs, buf
      ensures r <= n && recvs == old(recvs) + [r] && buf[..at] == old(buf[..at])
      ensures r <= 0 ==> arrived == old(arrived)
      ensures r > 0 ==> arrived == old(arrived) + buf[at..at + r]
    {
      r :| r <= n;
      for k := 0 to if r > 0 then r else 0
        invariant buf[..at] == old(buf[..at]) && arrived == old(arrived) && recvs == old(recvs)
      {
        var b: Byte := *;
        buf[at + k] := b;
      }
      recvs := recvs + [r];
      if r > 0 { arrived := arrived + buf[at..at + r]; }
    }
  }

  // No recv from number n on found the connection dead.
  ghost predicate NoneDead(recvs: seq<int>, n: nat) { forall k :: n <= k < |recvs| ==> recvs[k] >= 0 }

  // How many sends have moved nothing since the last one that did.
  function Quiet(sends: seq<int>): nat {
    if sends == [] || sends[|sends| - 1] != 0 then 0 else 1 + Quiet(sends[..|sends| - 1])
  }

  // The answers after which a frame is given up: the connection is dead, or more than 200 sends in a
  // row have moved nothing.
  predicate GivesUp(sends: seq<int>) { sends != [] && (sends[|sends| - 1] < 0 || Quiet(sends) > 200) }

  // The answers one frame got: it was given up at the first moment that calls for it, with the reason,
  // and otherwise not at all.
  ghost predicate Patient(sends: seq<int>, ok: bool, err: Error) {
    && (forall k :: 0 <= k < |sends| ==> !GivesUp(sends[..k]))
    && (ok <==> !GivesUp(sends))
    && (!ok ==> err == if sends[|sends| - 1] < 0 then DiedSending else Stalled)
  }

  // A transport that only ever answers 0 is given up at the 201st answer.
  lemma {:induction false} SilentSends(n: nat)
    ensures Quiet(seq(n, _ => 0)) == n && (GivesUp(seq(n, _ => 0)) <==> n >= 201)
  {
    if n > 0 {
      SilentSends(n - 1);
      assert seq(n, _ => 0)[..n - 1] == seq(n - 1, _ => 0);
    }
  }

  lemma QuietSnoc(sends: seq<int>, r: int)
    ensures Quiet(sends + [r]) == if r == 0 then 1 + Quiet(sends) else 0
    ensures forall k :: 0 <= k <= |sends| ==> (sends + [r])[..k] == sends[..k]
  {
    assert (sends + [r])[..|sends|] == sends;
  }

  // ------------------------------------------------------------------ what was attempted

  predicate CauseFits(cause: Cause, op: Op) { (cause == Pong_ ==> op == Pong) && (cause == Shutdown ==> op == Close) }

  // Caller: ff_ws_conn_send from outside. Pong: the answer to a ping. Shutdown: a close frame, sent
  // by ff_ws_conn_close or as the echo of the server's.
  datatype Cause = Caller | Pong_ | Shutdown

  datatype Attempt = Attempt(cause: Cause, op: Op, payload: seq<Byte>, mask: Mask, sent: seq<Byte>, ok: bool) {
    function Frame(): seq<Byte> { EncodeClient(op, payload, mask) }

    // A send that succeeded put its whole frame on the wire; one that failed, a proper prefix. What
    // the connection sends by itself are pongs and close frames.
    ghost predicate Wf() {
      && |payload| < MAX_LENGTH && CauseFits(cause, op)
      && (if ok then sent == Frame() else sent < Frame())
    }
  }

  function OnWire(ats: seq<Attempt>): seq<Byte> {
    if ats == [] then [] else OnWire(ats[..|ats| - 1]) + ats[|ats| - 1].sent
  }

  // A frame of this kind that the connection sent of its own accord.
  predicate Own(a: Attempt, op: Op) { a.op == op && a.cause != Caller }

  // The close frames attempted.
  function CloseFrames(ats: seq<Attempt>): nat {
    if ats == [] then 0
    else CloseFrames(ats[..|ats| - 1]) + if Own(ats[|ats| - 1], Close) then 1 else 0
  }

  // The pongs that got through.
  function Ponged(ats: seq<Attempt>): seq<seq<Byte>> {
    if ats == [] then []
    else
      var last := ats[|ats| - 1];
      Ponged(ats[..|ats| - 1]) + if Own(last, Pong) && last.ok then [last.payload] else []
  }

  // All frames of one opcode, whoever asked for them: how many were attempted, and the payloads that
  // got through.
  function Tried(ats: seq<Attempt>, op: Op): nat {
    if ats == [] then 0 else Tried(ats[..|ats| - 1], op) + if ats[|ats| - 1].op == op then 1 else 0
  }

  function Through(ats: seq<Attempt>, op: Op): seq<seq<Byte>> {
    if ats == [] then []
    else
      var last := ats[|ats| - 1];
      Through(ats[..|ats| - 1], op) + if last.op == op && last.ok then [last.payload] else []
  }

  // The sends from number n on went through.
  ghost predicate AllOk(ats: seq<Attempt>, n: nat) { forall k :: n <= k < |ats| ==> ats[k].ok }

  // As long as callers send application messages only, every pong and every close frame is the
  // connection's own.
  lemma {:induction false} OwnControlFrames(ats: seq<Attempt>)
    requires forall a :: a in ats && a.cause == Caller ==> a.op != Pong && a.op != Close
    ensures Through(ats, Pong) == Ponged(ats) && Tried(ats, Close) == CloseFrames(ats)
  {
    if ats != [] {
      var front := ats[..|ats| - 1];
      assert forall a :: a in front ==> a in ats;
      assert ats[|ats| - 1] in ats;
      OwnControlFrames(front);
    }
  }

  lemma AttemptSnoc(ats: seq<Attempt>, a: Attempt)
    ensures OnWire(ats + [a]) == OnWire(ats) + a.sent
    ensures CloseFrames(ats + [a]) == CloseFrames(ats) + if Own(a, Close) then 1 else 0
    ensures Ponged(ats + [a]) == Ponged(ats) + if Own(a, Pong) && a.ok then [a.payload] else []
  {
    assert (ats + [a])[..|ats|] == ats;
  }

  lemma {:induction false} OnWireCons(a: Attempt, rest: seq<Attempt>)
    ensures OnWire([a] + rest) == a.sent + OnWire(rest)
    decreases |rest|
  {
    var all := [a] + rest;
    if rest == [] {
      assert all[..0] == [] && OnWire([]) == [];
    } else {
      var f := rest[..|rest| - 1];
      assert all[..|all| - 1] == [a] + f;
      OnWireCons(a, f);
    }
  }

  function Asked(ats: seq<Attempt>): seq<(Op, seq<Byte>)> {
    if ats == [] then [] else [(ats[0].op, ats[0].payload)] + Asked(ats[1..])
  }

  // While sends succeed a server reads exactly what was asked to be sent, in order; a send that then
  // fails leaves behind nothing a server can take for a frame.
  lemma {:induction false} WireReadsBack(ats: seq<Attempt>, failed: Attempt)
    requires (forall a :: a in ats ==> a.Wf() && a.ok) && failed.Wf() && !failed.ok
    ensures ReadAll(OnWire(ats) + failed.sent) == Asked(ats)
  {
    hide ReadClient, EncodeClient, OnWire;
    if ats == [] {
      assert OnWire(ats) + failed.sent == failed.sent by { NothingSent(); }
      CutFrameIsUnreadable(failed.op, failed.payload, failed.mask, failed.sent);
    } else {
      var a, more := ats[0], OnWire(ats[1..]) + failed.sent;
      assert a in ats && forall b :: b in ats[1..] ==> b in ats;
      WireReadsBack(ats[1..], failed);
      assert ats == [a] + ats[1..];
      OnWireCons(a, ats[1..]);
      assert OnWire(ats) + failed.sent == a.Frame() + more;
      ReadBuilt(a.op, a.payload, a.mask, more);
      assert (a.Frame() + more)[|a.Frame()|..] == more;
    }
  }

  lemma NothingSent()
    ensures OnWire([]) == []
  {
  }

  // c->err, without the sentences.
  datatype Error =
    | NoError
    | NoRandom | NoMemory | Unbuildable | DiedSending | Stalled
    | DiedReading | BadFrame | ServerClosed(code: nat)
    | StrayContinuation | Interrupted | TooLarge

  function CloseCode(payload: seq<Byte>): (c: nat)
    ensures c < 0x1_0000
  {
    if |payload| >= 2 then 256 * (payload[0] as nat) + payload[1] else NO_STATUS
  }

  const NO_STATUS: nat := 1005

  // Codes that section 7.4.1 defines for, or sets aside for, a close frame; 1004, 1005, 1006 and 1015
  // must not be sent, and below 1000 nothing is defined (section 7.4.2).
  predicate MayBeSent(code: nat) { 1000 <= code < 5000 && code !in {1004, NO_STATUS, 1006, 1015} }

  // The code a server's close frame carries, if its body is long enough for one.
  function CodeOf(payload: seq<Byte>): seq<Byte> { if |payload| >= 2 then payload[..2] else [] }

  // What is echoed may be sent exactly when the server sent a code that may be: a body without one is
  // answered with 1005.
  lemma EchoMayBeSentExactly(payload: seq<Byte>)
    ensures MayBeSent(CloseCode(payload)) <==> CodeOf(payload) != [] && MayBeSent(FromBigEndian(CodeOf(payload)))
    ensures |payload| < 2 ==> CloseCode(payload) == NO_STATUS && !MayBeSent(CloseCode(payload))
  {
    if |payload| >= 2 {
      var c := CodeOf(payload);
      assert c[..1] == [payload[0]] && [payload[0]][..0] == [];
      assert FromBigEndian([payload[0]]) == payload[0];
    }
  }

  ghost predicate NoClose(fs: seq<Frame>) { forall f :: f in fs ==> f.op != Close }

  function Front(fs: seq<Frame>): seq<Frame> { if fs == [] then [] else fs[..|fs| - 1] }

  lemma FrontSnoc(fs: seq<Frame>, f: Frame)
    ensures Front(fs + [f]) == fs
    ensures NoClose(fs + [f]) <==> NoClose(fs) && f.op != Close
  {
    assert (fs + [f])[|fs|] == f;
    assert forall g :: g in fs ==> g in fs + [f];
  }

  class Conn {
    const io: Transport
    const rx: array<Byte>
    const msg: array<Byte>
    var rxLen: nat
    var msgLen: nat
    var msgOp: Op
    var inMsg: bool
    var open: bool
    var closing: bool
    var closeCode: nat
    var err: Error

    ghost const base: seq<Byte>    // already on the wire when the framer took over
    ghost var stream: seq<Byte>    // every byte ever put in rx
    ghost var frames: seq<Frame>   // every frame consumed from it
    ghost var trace: seq<Event>    // messages handed up and pings answered, in order
    ghost var attempts: seq<Attempt>
    ghost var late: bool           // a poll was begun while the connection was not open

    function Reassembly(): Partial
      reads this, msg
      requires msgLen <= msg.Length
    {
      if inMsg then Building(msgOp, msg[..msgLen]) else Idle
    }

    ghost predicate Shape()
      reads this
    {
      && rx.Length == CONN_BUF && msg.Length == MAX_PAYLOAD && rx != msg
      && rxLen <= CONN_BUF && msgLen <= MAX_PAYLOAD
    }

    ghost predicate ReceiveOk()
      reads this, rx, msg
      requires Shape()
    {
      && AllLegal(frames)
      && stream == EncodeAll(frames) + rx[..rxLen]
      && Group(DataFrames(frames)).partial == Reassembly()
      && !Group(DataFrames(frames)).violation
      && trace == Trace(frames)
      && (open ==> NoClose(frames))
      && (late || NoClose(Front(frames)))
    }

    ghost predicate SendOk()
      reads `attempts, `frames, `open, `closing, io`wire
    {
      && (forall a :: a in attempts ==> a.Wf())
      && io.wire == base + OnWire(attempts)
      && CloseFrames(attempts) == (if closing then 1 else 0)
      && Ponged(attempts) == Pings(frames)
      && (open ==> !closing)
    }

    ghost predicate Valid()
      reads this, io, rx, msg
    {
      Shape() && ReceiveOk() && SendOk()
    }

    // ff_ws_conn_init, then the bytes that came in behind the server's 101 response.
    constructor (io: Transport, extra: seq<Byte>)
      requires |extra| <= CONN_BUF
      ensures Valid() && this.io == io && fresh(rx) && fresh(msg)
      ensures stream == extra && base == io.wire && attempts == [] && frames == []
      ensures open && !closing && !inMsg && !late
    {
      this.io := io;
      rx := new Byte[CONN_BUF];
      msg := new Byte[MAX_PAYLOAD];
      rxLen, msgLen, msgOp, inMsg := |extra|, 0, Cont, false;
      open, closing, closeCode, err := true, false, 0, NoError;
      base, stream, frames, trace, attempts, late := io.wire, extra, [], [], [], false;
      new;
      forall i | 0 <= i < |extra| { rx[i] := extra[i]; }
      assert rx[..rxLen] == extra;
      assert EncodeAll([]) + extra == extra;
      assert io.wire + [] == io.wire;
    }

    // ff_ws_conn_send: one masked frame, or a reason why not.
    method SendFrame(ghost cause: Cause, op: Op, payload: seq<Byte>) returns (ok: bool)
      requires |payload| < MAX_LENGTH - 16 && CauseFits(cause, op)
      modifies io`wire, io`sends, this`err, this`attempts
      ensures |attempts| == |old(attempts)| + 1 && attempts[..|old(attempts)|] == old(attempts)
      ensures var a := attempts[|old(attempts)|];
              && a.cause == cause && a.op == op && a.payload == payload && a.ok == ok && a.Wf()
              && io.wire == old(io.wire) + a.sent
      ensures ok ==> err == old(err) && Buildable(op, |payload|)
      ensures !ok ==> err in {NoRandom, NoMemory, Unbuildable, DiedSending, Stalled}
      ensures !ok && err == Unbuildable ==> !Buildable(op, |payload|)
      ensures old(io.sends) <= io.sends
      ensures ok || err in {DiedSending, Stalled} ==> Patient(io.sends[|old(io.sends)|..], ok, err)
    {
      hide EncodeClient, Patient;
      var random: bool := *;
      var memory: bool := *;
      var mask: Mask := *;
      ok := false;
      ghost var pushed: seq<Byte> := [];
      if !random {
        err := NoRandom;
      } else if !memory {
        err := NoMemory;
      } else {
        var frame := new Byte[|payload| + 16];
        var n := Build(op, payload, mask, frame);
        if n == 0 {
          err := Unbuildable;
        } else {
          ok, pushed := PushOut(frame, n);
        }
      }
      attempts := attempts + [Attempt(cause, op, payload, mask, pushed, ok)];
    }

    // The send loop: until the frame is gone, the connection dies, or it makes no progress for
    // 200 turns in a row.
    method PushOut(frame: array<Byte>, n: nat) returns (ok: bool, ghost pushed: seq<Byte>)
      requires n <= frame.Length
      modifies io`wire, io`sends, this`err
      ensures io.wire == old(io.wire) + pushed
      ensures if ok then pushed == frame[..n] else pushed < frame[..n]
      ensures if ok then err == old(err) else err in {DiedSending, Stalled}
      ensures old(io.sends) <= io.sends && Patient(io.sends[|old(io.sends)|..], ok, err)
    {
      var sent, idle := 0, 0;
      ghost var got: seq<int> := [];
      pushed := [];
      while sent < n
        invariant io.sends == old(io.sends) + got && Quiet(got) == idle
        invariant forall k :: 0 <= k <= |got| ==> !GivesUp(got[..k])
        invariant 0 <= sent <= n && 0 <= idle <= 200
        invariant pushed == frame[..sent] && io.wire == old(io.wire) + pushed
        invariant err == old(err)
        decreases n - sent, 200 - idle
      {
        var r := io.Send(frame, sent, n - sent);
        QuietSnoc(got, r);
        got := got + [r];
        assert got[..|got|] == got && io.sends[|old(io.sends)|..] == got;
        if r < 0 {
          err := DiedSending;
          return false, pushed;
        }
        if r == 0 {
          idle := idle + 1;
          if idle > 200 {
            err := Stalled;
            return false, pushed;
          }
          continue;
        }
        idle := 0;
        pushed := pushed + frame[sent..sent + r];
        sent := sent + r;
      }
      assert io.sends[|old(io.sends)|..] == got && got[..|got|] == got;
      return true, pushed;
    }

    // A send, and what it does to the record of sends.
    method SendLogged(ghost cause: Cause, op: Op, payload: seq<Byte>) returns (ok: bool)
      requires Shape() && ReceiveOk() && |payload| < MAX_LENGTH - 16 && CauseFits(cause, op)
      requires forall a :: a in attempts ==> a.Wf()
      requires io.wire == base + OnWire(attempts)
      modifies io`wire, io`sends, this`err, this`attempts
      ensures Shape() && ReceiveOk()
      ensures forall a :: a in attempts ==> a.Wf()
      ensures io.wire == base + OnWire(attempts)
      ensures CloseFrames(attempts) == CloseFrames(old(attempts)) + if cause != Caller && op == Close then 1 else 0
      ensures Ponged(attempts) == Ponged(old(attempts)) + if cause != Caller && op == Pong && ok then [payload] else []
      ensures |attempts| == |old(attempts)| + 1 && old(attempts) <= attempts
      ensures var a := attempts[|old(attempts)|]; a.cause == cause && a.op == op && a.payload == payload && a.ok == ok
      ensures if ok then err == old(err) && Buildable(op, |payload|)
              else err in {NoRandom, NoMemory, Unbuildable, DiedSending, Stalled}
      ensures !ok && err == Unbuildable ==> !Buildable(op, |payload|)
    {
      hide EncodeAll, Parse, Group, DataFrames, Trace, Attempt.Wf, OnWire, CloseFrames, Ponged, Legal;
      ok := SendFrame(cause, op, payload);
      var a := attempts[|old(attempts)|];
      AttemptSnoc(old(attempts), a);
      assert attempts == old(attempts) + [a];
      assert io.wire == base + OnWire(old(attempts)) + a.sent == base + OnWire(attempts);
    }

    // ff_ws_conn_send as its callers see it: nothing but the wire, the record and the reason changes.
    method Send(op: Op, payload: seq<Byte>) returns (ok: bool)
      requires Valid() && |payload| < MAX_LENGTH - 16
      modifies io`wire, io`sends, this`err, this`attempts
      ensures Valid() && |attempts| == |old(attempts)| + 1 && old(attempts) <= attempts
      ensures var a := attempts[|old(attempts)|]; a.op == op && a.payload == payload && a.ok == ok
      ensures if ok then err == old(err) && Buildable(op, |payload|)
              else err in {NoRandom, NoMemory, Unbuildable, DiedSending, Stalled}
      ensures !ok && err == Unbuildable ==> !Buildable(op, |payload|)
    {
      hide EncodeAll, Parse, Group, DataFrames, Trace, Pings, Attempt.Wf, OnWire, CloseFrames, Ponged, Legal;
      ok := SendLogged(Caller, op, payload);
    }

    // ff_ws_conn_close, and the echo of the server's close: at most one close frame ever goes out.
    method CloseWith(code: nat)
      requires Valid() && code < 0x1_0000
      modifies io`wire, io`sends, this`err, this`attempts, this`open, this`closing
      ensures Valid() && closing && old(attempts) <= attempts
      ensures old(closing) ==> attempts == old(attempts) && err == old(err) && open == old(open)
      ensures !old(closing) ==> !open && |attempts| == |old(attempts)| + 1
      ensures !old(closing) ==>
                var a := attempts[|old(attempts)|];
                && a.cause == Shutdown && a.op == Close && a.payload == [code / 256, code % 256]
                && (a.ok ==> err == old(err))
    {
      hide EncodeAll, Parse, Group, DataFrames, Trace, Pings, Attempt.Wf, OnWire, CloseFrames, Ponged, Legal;
      if closing { return; }
      closing := true;
      open := false;
      var _ := SendLogged(Shutdown, Close, [code / 256, code % 256]);
    }

    // ------------------------------------------------------------------------ receiving

    ghost predicate AtFrame(f: Frame, used: nat)
      reads this, rx
      requires Shape()
    {
      Parse(rx[..rxLen]) == Complete(f, used)
    }

    // drop: the first `used` bytes, which held frame f, are done with.
    method Drop(used: nat, ghost f: Frame)
      requires Shape() && AtFrame(f, used) && AllLegal(frames)
      requires stream == EncodeAll(frames) + rx[..rxLen]
      modifies rx, this`rxLen, this`frames
      ensures Shape() && rxLen == old(rxLen) - used
      ensures frames == old(frames) + [f] && AllLegal(frames)
      ensures stream == EncodeAll(frames) + rx[..rxLen]
    {
      hide EncodeAll, Encode, Parse, Legal;
      ghost var bytes := rx[..rxLen];
      EncodeParse(bytes);
      EncodeAllSnoc(frames, f);
      assert bytes == bytes[..used] + bytes[used..];
      forall i | 0 <= i < rxLen - used { rx[i] := rx[i + used]; }
      rxLen := rxLen - used;
      frames := frames + [f];
      assert rx[..rxLen] == bytes[used..];
    }

    // A ping is answered at once with its own payload (section 5.5.3), and only then consumed.
    method HandlePing(at: nat, plen: nat, ghost f: Frame) returns (ok: bool)
      requires Valid() && AtFrame(f, at + plen) && at + plen <= rxLen && (late || open)
      requires f.op == Ping && f.payload == rx[at..at + plen]
      modifies io`wire, io`sends, rx, this
      ensures Valid() && old(attempts) <= attempts && |attempts| == |old(attempts)| + 1
      ensures stream == old(stream) && inMsg == old(inMsg) && closing == old(closing) && late == old(late)
      ensures ok ==> frames == old(frames) + [f] && rxLen == old(rxLen) - (at + plen) && open == old(open)
      ensures ok ==> trace == old(trace) + [Answered(f.payload)]
      ensures !ok ==> !open && frames == old(frames) && trace == old(trace) && AtFrame(f, at + plen)
      ensures var a := attempts[|attempts| - 1]; a.op == Pong && a.payload == f.payload && a.ok == ok
      ensures !ok ==> err in {NoRandom, NoMemory, DiedSending, Stalled}
    {
      hide EncodeAll, Parse, Group, DataFrames, Trace, Pings, Attempt.Wf, OnWire, CloseFrames, Ponged, Legal;
      hide NoClose, Front;
      assert |f.payload| <= 125 && (late || NoClose(frames)) by { LegalAtFrame(f, at + plen); }
      ok := SendLogged(Pong_, Pong, rx[at..at + plen]);
      if !ok {
        open := false;
        return;
      }
      DropPing(at + plen, f);
    }

    method DropPing(used: nat, ghost f: Frame)
      requires Shape() && ReceiveOk() && AtFrame(f, used) && f.op == Ping && (late || NoClose(frames))
      modifies rx, `rxLen, `frames, `trace
      ensures Shape() && ReceiveOk() && rxLen == old(rxLen) - used
      ensures frames == old(frames) + [f] && trace == old(trace) + [Answered(f.payload)]
      ensures Pings(frames) == Pings(old(frames)) + [f.payload]
    {
      hide EncodeAll, Parse, Group, DataFrames, Trace, Pings, Legal;
      Drop(used, f);
      trace := trace + [Answered(f.payload)];
      ControlFrameSnoc(old(frames), f);
      FrontSnoc(old(frames), f);
    }

    lemma LegalAtFrame(f: Frame, used: nat)
      requires Shape() && AtFrame(f, used)
      ensures Legal(f) && |f.payload| <= MAX_PAYLOAD && (f.op.IsControl() ==> |f.payload| <= 125)
    {
      EncodeParse(rx[..rxLen]);
    }

    // Consumes a frame that calls for no answer and carries no message.
    method Skip(used: nat, ghost f: Frame)
      requires Valid() && AtFrame(f, used) && (f.op == Pong || (f.op == Close && !open))
      requires late || NoClose(frames)
      modifies rx, this`rxLen, this`frames
      ensures Valid() && rxLen == old(rxLen) - used && frames == old(frames) + [f]
      ensures Group(DataFrames(frames)) == Group(DataFrames(old(frames)))
    {
      hide EncodeAll, Encode, Parse, Group, DataFrames, Trace, Pings, Attempt.Wf, OnWire, CloseFrames, Ponged, Legal;
      Drop(used, f);
      ControlFrameSnoc(old(frames), f);
      FrontSnoc(old(frames), f);
    }

    // A close is echoed once, unless a close frame has gone out already.
    method HandleClose(at: nat, plen: nat, ghost f: Frame)
      requires Valid() && AtFrame(f, at + plen) && at + plen <= rxLen && (late || open)
      requires f.op == Close && f.payload == rx[at..at + plen]
      modifies io`wire, io`sends, rx, this
      ensures Valid() && old(attempts) <= attempts && stream == old(stream) && late == old(late)
      ensures frames == old(frames) + [f] && trace == old(trace) && inMsg == old(inMsg)
      ensures !open && closing && closeCode == CloseCode(f.payload)
      ensures old(closing) ==> attempts == old(attempts) && err == ServerClosed(closeCode)
      ensures !old(closing) ==> |attempts| == |old(attempts)| + 1
      ensures !old(closing) ==>
                && attempts[|old(attempts)|].payload == [closeCode / 256, closeCode % 256]
                && attempts[|old(attempts)|].op == Close
      ensures !old(closing) && attempts[|old(attempts)|].ok ==> err == ServerClosed(closeCode)
    {
      hide EncodeAll, Parse, Group, DataFrames, Trace, Pings, Attempt.Wf, OnWire, CloseFrames, Ponged, Legal;
      Echo(at, plen, f.payload);
      Skip(at + plen, f);
    }

    // The server's code, and its echo.
    method Echo(at: nat, plen: nat, ghost payload: seq<Byte>)
      requires Valid() && at + plen <= rxLen && payload == rx[at..at + plen]
      modifies io`wire, io`sends, `err, `attempts, `open, `closing, `closeCode
      ensures Valid() && old(attempts) <= attempts && !open && closing && closeCode == CloseCode(payload)
      ensures old(closing) ==> attempts == old(attempts) && err == ServerClosed(closeCode)
      ensures !old(closing) ==> |attempts| == |old(attempts)| + 1
      ensures !old(closing) ==>
                var a := attempts[|old(attempts)|];
                && a.payload == [closeCode / 256, closeCode % 256] && a.op == Close
                && (a.ok ==> err == ServerClosed(closeCode))
    {
      hide EncodeAll, Parse, Group, DataFrames, Trace, Pings, Attempt.Wf, OnWire, CloseFrames, Ponged, Legal;
      closeCode := if plen >= 2 then 256 * (rx[at] as nat) + rx[at + 1] else NO_STATUS;
      err := ServerClosed(closeCode);
      CloseWith(closeCode);
      open := false;
    }

    // A data frame joins the message being put together, or breaks the rules of section 5.4.
    method HandleData(op: Op, fin: bool, at: nat, plen: nat, ghost f: Frame)
      returns (ok: bool, done: bool, out: Message)
      requires Valid() && AtFrame(f, at + plen) && at + plen <= rxLen && (late || open)
      requires f == Frame(op, fin, rx[at..at + plen]) && !op.IsControl()
      modifies rx, msg, this
      ensures Valid() && attempts == old(attempts) && closing == old(closing) && stream == old(stream)
      ensures late == old(late)
      ensures ok <==> !Extend(Group(DataFrames(old(frames))), f).violation
      ensures ok ==> frames == old(frames) + [f] && rxLen == old(rxLen) - (at + plen) && open == old(open)
      ensures ok && done ==> trace == old(trace) + [Delivered(out)]
      ensures ok && done ==> MessagesOf(frames) == MessagesOf(old(frames)) + [out]
      ensures ok && !done ==> trace == old(trace) && MessagesOf(frames) == MessagesOf(old(frames))
      ensures !ok ==> !open && frames == old(frames) && trace == old(trace) && AtFrame(f, at + plen)
      ensures !ok ==> err in {StrayContinuation, Interrupted, TooLarge}
    {
      hide EncodeAll, Encode, Parse, Group, DataFrames, Trace, Pings, Attempt.Wf, OnWire, CloseFrames, Ponged, Legal;
      hide Extend;
      done, out := false, Message(Cont, []);
      assert |f.payload| <= MAX_PAYLOAD by { LegalAtFrame(f, at + plen); }
      ok := Admit(op, plen, f);
      if !ok { return; }
      Append(at, plen, f.payload);
      done, out := Conclude(fin, at + plen, f);
    }

    // The end of a data frame's turn: its bytes go, and a message it completed is handed up.
    method Conclude(fin: bool, used: nat, ghost f: Frame) returns (done: bool, out: Message)
      requires Shape() && SendOk() && AtFrame(f, used) && inMsg && !f.op.IsControl() && f.fin == fin
      requires AllLegal(frames) && stream == EncodeAll(frames) + rx[..rxLen]
      requires trace == Trace(frames) && (open ==> NoClose(frames)) && (late || NoClose(frames))
      requires Extend(Group(DataFrames(frames)), f) == Joined(Group(DataFrames(frames)).msgs, fin, msg[..msgLen])
      modifies rx, this`rxLen, this`frames, this`inMsg, this`trace
      ensures Valid() && rxLen == old(rxLen) - used && frames == old(frames) + [f] && done == fin
      ensures done ==> trace == old(trace) + [Delivered(out)] && MessagesOf(frames) == MessagesOf(old(frames)) + [out]
      ensures !done ==> trace == old(trace) && MessagesOf(frames) == MessagesOf(old(frames))
    {
      hide EncodeAll, Encode, Parse, Group, DataFrames, Trace, Attempt.Wf, OnWire, CloseFrames, Ponged, Legal, Extend;
      done, out := fin, Message(Cont, []);
      Drop(used, f);
      MessagesSnoc(old(frames), f);
      DataFrameTrace(old(frames), f);
      FrontSnoc(old(frames), f);
      if fin {
        inMsg := false;
        out := Message(msgOp, msg[..msgLen]);
        trace := trace + [Delivered(out)];
      }
    }

    // The grouping once the open message holds these bytes, and is or is not finished.
    function Joined(msgs: seq<Message>, fin: bool, bytes: seq<Byte>): Grouping
      reads this`msgOp
    {
      if fin then Grouping(msgs + [Message(msgOp, bytes)], Idle, false)
      else Grouping(msgs, Building(msgOp, bytes), false)
    }

    // The checks on a data frame, and the start of a message.
    method Admit(op: Op, plen: nat, ghost f: Frame) returns (ok: bool)
      requires Shape() && f.op == op && plen == |f.payload| <= MAX_PAYLOAD && !op.IsControl()
      requires Group(DataFrames(frames)).partial == Reassembly() && !Group(DataFrames(frames)).violation
      modifies this`msgOp, this`msgLen, this`inMsg, this`open, this`err
      ensures Shape()
      ensures ok ==> inMsg && open == old(open)
      ensures ok ==> Extend(Group(DataFrames(frames)), f) ==
                     Joined(Group(DataFrames(frames)).msgs, f.fin, msg[..msgLen] + f.payload)
      ensures ok ==> msgLen + plen <= MAX_PAYLOAD
      ensures !ok ==> Extend(Group(DataFrames(frames)), f).violation && !open
      ensures !ok ==> msgOp == old(msgOp) && msgLen == old(msgLen) && inMsg == old(inMsg)
      ensures !ok ==> err in {StrayContinuation, Interrupted, TooLarge}
    {
      hide Group, DataFrames;
      if op == Cont && !inMsg {
        err := StrayContinuation;
        open := false;
        return false;
      }
      if op != Cont && inMsg {
        err := Interrupted;
        open := false;
        return false;
      }
      if op != Cont {
        msgOp, msgLen, inMsg := op, 0, true;
        assert msg[..msgLen] + f.payload == f.payload;
      }
      if msgLen + plen > MAX_PAYLOAD {
        err := TooLarge;
        open := false;
        return false;
      }
      return true;
    }

    // Adds a frame's payload to the message buffer.
    method Append(at: nat, plen: nat, ghost payload: seq<Byte>)
      requires Shape() && at + plen <= rxLen && msgLen + plen <= MAX_PAYLOAD && payload == rx[at..at + plen]
      modifies msg, this`msgLen
      ensures Shape() && msgLen == old(msgLen) + plen && msg[..msgLen] == old(msg[..msgLen]) + payload
      ensures rx[..rxLen] == old(rx[..rxLen])
    {
      forall i | 0 <= i < plen { msg[msgLen + i] := rx[at + i]; }
      msgLen := msgLen + plen;
    }

    // Why polling ended, though recv was not dead: the bytes are not a frame, the server closed, or the
    // frame at the front is a ping that could not be answered or one that section 5.4 forbids.
    ghost predicate Ended()
      reads this, rx
      requires Shape()
    {
      || (err == BadFrame && Parse(rx[..rxLen]) == Broken)
      || (frames != [] && frames[|frames| - 1].op == Close)
      || exists f: Frame, used: nat :: AtFrame(f, used) && Fatal(f)
    }

    ghost predicate Fatal(f: Frame)
      reads this
    {
      if f.op == Ping then attempts != [] && !attempts[|attempts| - 1].ok
      else !f.op.IsControl() && Extend(Group(DataFrames(frames)), f).violation
    }

    // One turn of ff_ws_conn_poll's loop, for a frame that is there. `more` asks for another turn.
    method HandleFrame(p: Parsed) returns (more: bool, r: int, out: Message)
      requires Valid() && p.Whole? && p.at + p.plen <= rxLen
      requires AtFrame(Frame(p.op, p.fin, rx[p.at..p.at + p.plen]), p.at + p.plen) && (late || open)
      modifies this, io`wire, io`sends, rx, msg
      ensures Valid() && stream == old(stream) && late == old(late)
      ensures old(frames) <= frames && old(attempts) <= attempts && |frames| <= |old(frames)| + 1
      ensures old(closing) ==> closing
      ensures r in {-1, 0, 1}
      ensures more ==> rxLen < old(rxLen) && r == 0
      ensures more ==> MessagesOf(frames) == MessagesOf(old(frames))
      ensures !more ==> r != 0
      ensures r == 1 ==> MessagesOf(frames) == MessagesOf(old(frames)) + [out] && trace == old(trace) + [Delivered(out)]
      ensures r == -1 ==> MessagesOf(frames) == MessagesOf(old(frames)) && !open && Ended()
      ensures r >= 0 ==> |frames| == |old(frames)| + 1 && frames[|old(frames)|].op != Close && open == old(open)
      ensures r >= 0 ==> frames == old(frames) + [old(Frame(p.op, p.fin, rx[p.at..p.at + p.plen]))]
      ensures var t := TurnOf(old(Frame(p.op, p.fin, rx[p.at..p.at + p.plen])), Group(DataFrames(old(frames))));
              && (more ==> t == Waits)
              && (r == 1 ==> t == Delivers(out))
              && (r == -1 ==> t == Ends || !AllOk(attempts, |old(attempts)|))
      ensures r >= 0 ==> AllOk(attempts, |old(attempts)|)
    {
      hide EncodeAll, Encode, Parse, Group, DataFrames, Trace, Pings, Attempt.Wf, OnWire, CloseFrames, Ponged, Legal;
      hide Extend;
      ghost var f := Frame(p.op, p.fin, rx[p.at..p.at + p.plen]);
      more, r, out := true, 0, Message(Cont, []);
      assert p.at + p.plen > 0;
      if p.op.IsControl() {
        ControlFrameSnoc(frames, f);
        more, r := HandleControl(p.op, p.at, p.plen, f);
      } else {
        MessagesSnoc(frames, f);
        var ok, done, m := HandleData(p.op, p.fin, p.at, p.plen, f);
        if !ok {
          more, r := false, -1;
        } else if done {
          more, r, out := false, 1, m;
        }
      }
    }

    // A ping, a close or a pong.
    method HandleControl(op: Op, at: nat, plen: nat, ghost f: Frame) returns (more: bool, r: int)
      requires Valid() && AtFrame(f, at + plen) && at + plen <= rxLen && (late || open)
      requires f.op == op && op.IsControl() && f.payload == rx[at..at + plen]
      modifies this, io`wire, io`sends, rx
      ensures Valid() && stream == old(stream) && late == old(late)
      ensures old(frames) <= frames && old(attempts) <= attempts && |frames| <= |old(frames)| + 1
      ensures (old(closing) ==> closing) && MessagesOf(frames) == MessagesOf(old(frames))
      ensures if more then r == 0 else r == -1
      ensures more ==>
                && frames == old(frames) + [f] && op != Close && open == old(open)
                && rxLen == old(rxLen) - (at + plen)
      ensures more ==> AllOk(attempts, |old(attempts)|)
      ensures !more ==> !open && Ended() && (op == Close || !AllOk(attempts, |old(attempts)|))
    {
      hide EncodeAll, Encode, Parse, Group, DataFrames, Trace, Pings, Attempt.Wf, OnWire, CloseFrames, Ponged, Legal;
      hide Extend;
      ControlFrameSnoc(frames, f);
      more, r := true, 0;
      if op == Ping {
        var ok := HandlePing(at, plen, f);
        if !ok { more, r := false, -1; }
      } else if op == Close {
        HandleClose(at, plen, f);
        more, r := false, -1;
      } else {
        Skip(at + plen, f);
      }
    }

    // ff_ws_conn_poll: one read, then every frame already in the buffer, up to the first whole message.
    // It hands up a message exactly when the next one in the stream is complete before any close or
    // violation, recv did not find the connection dead and every pong on the way got through: whether
    // the connection was open, or a close had been sent or received, has no part in it.
    method Poll() returns (r: int, out: Message)
      requires Valid()
      modifies this, io, rx, msg
      ensures Valid() && r in {-1, 0, 1}
      ensures old(stream) <= stream && io.arrived == old(io.arrived) + stream[|old(stream)|..]
      ensures old(frames) <= frames && old(attempts) <= attempts && (old(closing) ==> closing)
      ensures late == (old(late) || !old(open))
      ensures old(io.recvs) <= io.recvs && |io.recvs| == |old(io.recvs)| + if old(rxLen) < CONN_BUF then 1 else 0
      ensures r == 1 ==> MessagesOf(frames) == MessagesOf(old(frames)) + [out]
      ensures r == 1 ==> trace != [] && trace[|trace| - 1] == Delivered(out)
      ensures r != 1 ==> MessagesOf(frames) == MessagesOf(old(frames))
      ensures r == 0 ==> Parse(rx[..rxLen]) == NeedMore
      ensures r >= 0 ==> open == old(open) && NoClose(frames[|old(frames)|..])
      ensures r == -1 ==> !open && if NoneDead(io.recvs, |old(io.recvs)|) then Ended() else err == DiedReading
      ensures |old(frames)| <= |SplitStream(stream).frames|
      ensures var coming := NextOf(SplitStream(stream).frames[|old(frames)|..], Group(DataFrames(old(frames))));
              && (r == 1 <==>
                    coming.Delivers? && NoneDead(io.recvs, |old(io.recvs)|) && AllOk(attempts, |old(attempts)|))
              && (r == 1 ==> out == coming.m)
    {
      hide EncodeAll, Encode, Parse, Group, DataFrames, Trace, Pings, Attempt.Wf, OnWire, CloseFrames, Ponged, Legal;
      hide Extend, SplitStream, NextOf, TurnOf, NoClose, AllOk, NoneDead, ReceiveOk, SendOk, Ended, MessagesOf;
      out := Message(Cont, []);
      Nothing(frames, attempts, io.recvs);
      BeginPoll();
      if rxLen < CONN_BUF {
        var got := Receive();
        if !got {
          ConsumedFrames();
          return -1, out;
        }
      }
      r := 0;
      ghost var all, heard := SplitStream(stream).frames, io.recvs;
      ConsumedFrames();
      ghost var coming := NextOf(all[|frames|..], Group(DataFrames(frames)));
      var more := true;
      while more
        invariant Valid() && old(stream) <= stream && io.arrived == old(io.arrived) + stream[|old(stream)|..]
        invariant old(frames) <= frames && old(attempts) <= attempts && (old(closing) ==> closing)
        invariant SplitStream(stream).frames == all && frames <= all
        invariant late == (old(late) || !old(open)) && io.recvs == heard
        invariant more ==> r == 0 && open == old(open) && NoClose(frames[|old(frames)|..])
        invariant more ==> MessagesOf(frames) == MessagesOf(old(frames)) && AllOk(attempts, |old(attempts)|)
        invariant more ==> NextOf(all[|frames|..], Group(DataFrames(frames))) == coming
        invariant !more ==> Ending(r, out, old(frames), |old(attempts)|, old(open), coming)
        decreases more, rxLen
      {
        ghost var before, tried := frames, attempts;
        more, r, out := Turn(all, coming);
        FramesSoFar(old(frames), before, frames);
        AllOkSoFar(tried, attempts, |old(attempts)|);
      }
    }

    ghost method BeginPoll()
      requires Valid()
      modifies `late
      ensures Valid() && late == (old(late) || !open)
    {
      hide EncodeAll, Parse, Group, DataFrames, Trace, Pings, Attempt.Wf, OnWire, CloseFrames, Ponged, Legal;
      if !open { late := true; }
    }

    // How a poll ends, given what it started from.
    ghost predicate Ending(r: int, out: Message, from: seq<Frame>, tried: nat, wasOpen: bool, coming: Coming)
      reads this, rx
      requires Shape()
    {
      && r in {-1, 0, 1} && from <= frames
      && (r == 1 ==>
            MessagesOf(frames) == MessagesOf(from) + [out] && trace != [] && trace[|trace| - 1] == Delivered(out))
      && (r != 1 ==> MessagesOf(frames) == MessagesOf(from))
      && (r == 0 ==> Parse(rx[..rxLen]) == NeedMore)
      && (r >= 0 ==> open == wasOpen && NoClose(frames[|from|..]))
      && (r == -1 ==> !open && Ended())
      && (r == 1 <==> coming.Delivers? && AllOk(attempts, tried))
      && (r == 1 ==> out == coming.m)
    }

    // One turn of the loop: parse what is in the buffer, and deal with the frame at its front.
    method Turn(ghost all: seq<Frame>, ghost coming: Coming) returns (more: bool, r: int, out: Message)
      requires Valid() && SplitStream(stream).frames == all && frames <= all
      requires NextOf(all[|frames|..], Group(DataFrames(frames))) == coming && (late || open)
      modifies this, io`wire, io`sends, rx, msg
      ensures Valid() && stream == old(stream) && frames <= all && late == old(late)
      ensures old(frames) <= frames && old(attempts) <= attempts && (old(closing) ==> closing)
      ensures more ==> rxLen < old(rxLen) && r == 0 && open == old(open) && NoClose(frames[|old(frames)|..])
      ensures more ==> MessagesOf(frames) == MessagesOf(old(frames)) && AllOk(attempts, |old(attempts)|)
      ensures more ==> NextOf(all[|frames|..], Group(DataFrames(frames))) == coming
      ensures !more ==> Ending(r, out, old(frames), |old(attempts)|, old(open), coming)
    {
      hide EncodeAll, Encode, Parse, Group, DataFrames, Trace, Pings, Attempt.Wf, OnWire, CloseFrames, Ponged, Legal;
      hide Extend, SplitStream, NextOf, TurnOf;
      out := Message(Cont, []);
      var p := ParseBuffer(rx, rxLen);
      FrontFrame(all);
      if p == Short { return false, 0, out; }
      if p == Malformed {
        err := BadFrame;
        open := false;
        return false, -1, out;
      }
      NextStep(all[|frames|..], Group(DataFrames(frames)));
      MessagesSnoc(frames, all[|frames|]);
      assert all[|frames|..][1..] == all[|frames| + 1..];
      more, r, out := HandleFrame(p);
      ConsumedFrames();
    }

    // The frame at the front of the buffer is the next one of the stream; without one there is none.
    lemma FrontFrame(all: seq<Frame>)
      requires Valid() && all == SplitStream(stream).frames && frames <= all
      ensures var v := Parse(rx[..rxLen]);
              if v.Complete? then |all| > |frames| && all[|frames|] == v.frame
              else all == frames && NextOf(all[|frames|..], Group(DataFrames(frames))) == Waits
    {
      hide EncodeAll, Parse, Group, DataFrames, Trace, Pings, Attempt.Wf, OnWire, CloseFrames, Ponged, Legal;
      SplitEncoded(frames, rx[..rxLen]);
    }

    // The read at the top of ff_ws_conn_poll.
    method Receive() returns (ok: bool)
      requires Valid() && rxLen < CONN_BUF
      modifies `stream, `rxLen, `open, `err, io`arrived, io`recvs, rx
      ensures Valid()
      ensures old(io.recvs) <= io.recvs && |io.recvs| == |old(io.recvs)| + 1
      ensures ok <==> NoneDead(io.recvs, |old(io.recvs)|)
      ensures old(stream) <= stream && io.arrived == old(io.arrived) + stream[|old(stream)|..]
      ensures if ok then open == old(open) else !open && err == DiedReading && stream == old(stream)
    {
      hide EncodeAll, Parse, Group, DataFrames, Trace, Pings, Attempt.Wf, OnWire, CloseFrames, Ponged, Legal;
      hide NoClose, Front;
      var r := io.Recv(rx, rxLen, CONN_BUF - rxLen);
      assert io.recvs[|old(io.recvs)|] == r;
      assert rx[..rxLen] == old(rx[..rxLen]);
      if r < 0 {
        err := DiedReading;
        open := false;
        return false;
      }
      Lengthen(r);
      return true;
    }

    // The r bytes behind those in the buffer count from now on.
    method Lengthen(r: nat)
      requires Valid() && rxLen + r <= CONN_BUF
      modifies `stream, `rxLen
      ensures Valid() && rxLen == old(rxLen) + r && stream == old(stream) + rx[old(rxLen)..rxLen]
    {
      hide EncodeAll, Parse, Group, DataFrames, Trace, Pings, Attempt.Wf, OnWire, CloseFrames, Ponged, Legal;
      hide NoClose, Front;
      assert rx[..rxLen + r] == rx[..rxLen] + rx[rxLen..rxLen + r];
      stream := stream + rx[rxLen..rxLen + r];
      rxLen := rxLen + r;
      assert stream == EncodeAll(frames) + rx[..rxLen];
    }

    // ---------------------------------------------------------------- what this amounts to

    // The frames consumed are always the first frames of the stream; once a poll has asked for more
    // bytes they are all of them, and the receive buffer is exactly the undecided rest.
    lemma ConsumedFrames()
      requires Valid()
      ensures frames <= SplitStream(stream).frames
      ensures Parse(rx[..rxLen]) == NeedMore ==> SplitStream(stream) == Split(frames, rx[..rxLen])
    {
      hide EncodeAll, Parse, Group, DataFrames, Trace, Pings, Attempt.Wf, OnWire, CloseFrames, Ponged, Legal;
      SplitEncoded(frames, rx[..rxLen]);
    }

    // On the wire, while callers send application messages only: one pong for each ping consumed,
    // with its payload, in order, and at most one close frame, attempted or sent.
    lemma OnePongEachOneCloseAtMost()
      requires Valid() && forall a :: a in attempts && a.cause == Caller ==> a.op != Pong && a.op != Close
      ensures Through(attempts, Pong) == Pings(frames)
      ensures Tried(attempts, Close) == if closing then 1 else 0
    {
      hide EncodeAll, Parse, Group, DataFrames, Trace, Pings, Attempt.Wf, OnWire, CloseFrames, Ponged, Legal;
      OwnControlFrames(attempts);
    }

    // What has been handed up is a prefix of the section 5.4 messages of everything received, and as
    // long as no poll was begun on a connection that was not open, of those in front of the first
    // close, however much was received behind it and however the last poll ended. Every ping consumed
    // so far has had its pong, in order, with its own payload.
    lemma DeliveredPrefix()
      requires Valid()
      ensures DeliveredIn(trace) == MessagesOf(frames) <= MessagesOf(SplitStream(stream).frames)
      ensures AnsweredIn(trace) == Ponged(attempts) == Pings(frames)
      ensures !late ==> StopsAtClose()
    {
      hide EncodeAll, Parse, Group, DataFrames, Trace, Pings, Attempt.Wf, OnWire, CloseFrames, Ponged, Legal;
      hide MessagesOf, StopsAtClose;
      ConsumedFrames();
      TraceIsComplete(frames);
      MessagesOfPrefix(frames, SplitStream(stream).frames);
      StopsByFrames();
      if !late { LastOneCloses(frames); }
    }

    // Nothing of what stands behind the first close has been handed up.
    ghost predicate StopsAtClose()
      reads this
    {
      DeliveredIn(trace) <= MessagesOf(UpToClose(SplitStream(stream).frames))
    }

    // The same, by the frames consumed.
    lemma StopsByFrames()
      requires Valid()
      ensures StopsAtClose() <==> MessagesOf(frames) == MessagesOf(UpToClose(frames))
    {
      hide EncodeAll, Parse, Group, DataFrames, Trace, Pings, Attempt.Wf, OnWire, CloseFrames, Ponged, Legal;
      hide MessagesOf;
      ConsumedFrames();
      TraceIsComplete(frames);
      var all := SplitStream(stream).frames;
      assert all == frames + all[|frames|..];
      UpToCloseConcat(frames, all[|frames|..]);
      var u := UpToClose(frames);
      MessagesOfPrefix(u, frames);
      SamePrefix(MessagesOf(u), MessagesOf(frames));
      SamePrefix(u, frames);
      MessagesOfPrefix(frames, frames + UpToClose(all[|frames|..]));
    }

    // Polling once more from a state in which nothing behind the close was handed up: something is,
    // exactly when the close had been consumed before and the bytes hold a message that comes next.
    method PollOnce() returns (r: int, out: Message)
      requires Valid() && StopsAtClose()
      modifies this, io, rx, msg
      ensures Valid() && old(stream) <= stream && old(io.recvs) <= io.recvs && old(attempts) <= attempts
      ensures old(open) ==> StopsAtClose() && (r == 1 ==> !closing)
      ensures |old(frames)| <= |SplitStream(stream).frames|
      ensures var coming := NextOf(SplitStream(stream).frames[|old(frames)|..], Group(DataFrames(old(frames))));
              var through := NoneDead(io.recvs, |old(io.recvs)|) && AllOk(attempts, |old(attempts)|);
              && (r == 1 <==> coming.Delivers? && through) && (r == 1 ==> out == coming.m)
              && (!StopsAtClose() <==> !NoClose(old(frames)) && coming.Delivers? && through)
    {
      hide EncodeAll, Parse, Group, DataFrames, Trace, MessagesOf, NoClose, NoneDead, AllOk;
      hide SplitStream, NextOf, StopsAtClose, Ended, Valid, UpToClose;
      StopsByFrames();
      OpenSeesNoClose();
      r, out := Poll();
      StopsByFrames();
      OpenSeesNoClose();
      PollEffect(old(frames), frames, r, out);
    }

    lemma OpenSeesNoClose()
      requires Valid()
      ensures open ==> NoClose(frames) && !closing
    {
    }
  }

  // At most the last of these frames is a close.
  lemma LastOneCloses(fs: seq<Frame>)
    requires NoClose(Front(fs))
    ensures MessagesOf(fs) == MessagesOf(UpToClose(fs))
  {
    hide Group, DataFrames;
    if fs != [] {
      var front, last := Front(fs), fs[|fs| - 1];
      assert fs == front + [last];
      AllInFront(front);
      UpToCloseConcat(front, [last]);
      UpToCloseStep([last]);
      assert UpToClose([last][1..]) == [] && [last] + [] == [last] && front + [] == front;
      if last.op == Close { MessagesSnoc(front, last); }
    }
  }

  // What a poll that took these frames to those did, and whether it went past a close.
  lemma PollEffect(fs: seq<Frame>, all: seq<Frame>, r: int, out: Message)
    requires fs <= all && MessagesOf(fs) == MessagesOf(UpToClose(fs))
    requires MessagesOf(all) == MessagesOf(fs) + if r == 1 then [out] else []
    requires r == 1 ==> NoClose(all[|fs|..])
    ensures MessagesOf(all) == MessagesOf(UpToClose(all)) <==> r != 1 || NoClose(fs)
  {
    hide MessagesOf, NoClose, UpToClose;
    ClosesOnce(fs, all);
    assert r == 1 ==> |MessagesOf(all)| == |MessagesOf(fs)| + 1;
    if r != 1 { assert MessagesOf(all) == MessagesOf(fs); }
  }

  // Behind a close, more frames do not count; without one they all do.
  lemma ClosesOnce(fs: seq<Frame>, all: seq<Frame>)
    requires fs <= all && MessagesOf(fs) == MessagesOf(UpToClose(fs))
    ensures NoClose(fs) && (NoClose(all[|fs|..]) || MessagesOf(all) == MessagesOf(fs)) ==>
              MessagesOf(all) == MessagesOf(UpToClose(all))
    ensures !NoClose(fs) ==> MessagesOf(UpToClose(all)) == MessagesOf(fs)
  {
    hide MessagesOf, UpToClose, NoClose;
    if !NoClose(fs) {
      StopsShort(fs);
      ClosedAlready(fs, all);
    } else if NoClose(all[|fs|..]) {
      StillNoClose(fs, all);
    } else if MessagesOf(all) == MessagesOf(fs) {
      NoNewMessages(fs, all);
    }
  }

  lemma ClosedAlready(fs: seq<Frame>, all: seq<Frame>)
    requires fs <= all && |UpToClose(fs)| < |fs|
    ensures UpToClose(all) == UpToClose(fs)
  {
    hide UpToClose;
    assert all == fs + all[|fs|..];
    UpToCloseConcat(fs, all[|fs|..]);
  }

  lemma StillNoClose(fs: seq<Frame>, all: seq<Frame>)
    requires fs <= all && NoClose(fs) && NoClose(all[|fs|..])
    ensures UpToClose(all) == all
  {
    hide UpToClose;
    assert all == fs + all[|fs|..];
    UpToCloseConcat(fs, all[|fs|..]);
    AllInFront(fs);
    AllInFront(all[|fs|..]);
  }

  lemma NoNewMessages(fs: seq<Frame>, all: seq<Frame>)
    requires fs <= all && NoClose(fs) && MessagesOf(all) == MessagesOf(fs)
    ensures MessagesOf(all) == MessagesOf(UpToClose(all))
  {
    hide MessagesOf, UpToClose, NoClose;
    assert all == fs + all[|fs|..];
    UpToCloseConcat(fs, all[|fs|..]);
    AllInFront(fs);
    MessagesOfPrefix(fs, UpToClose(all));
    MessagesOfPrefix(UpToClose(all), all);
    SamePrefix(MessagesOf(fs), MessagesOf(UpToClose(all)));
  }

  lemma StopsShort(fs: seq<Frame>)
    requires !NoClose(fs)
    ensures |UpToClose(fs)| < |fs|
  {
    SamePrefix(UpToClose(fs), fs);
  }

  lemma AllInFront(fs: seq<Frame>)
    requires NoClose(fs)
    ensures UpToClose(fs) == fs
  {
    assert forall k :: 0 <= k < |fs| ==> fs[k] in fs && fs[k].op != Close;
    SamePrefix(UpToClose(fs), fs);
  }

  lemma SamePrefix<T>(a: seq<T>, b: seq<T>)
    requires a <= b
    ensures (b <= a <==> a == b) && (|a| == |b| ==> a == b)
  {
    if |a| == |b| { assert a == b[..|a|] == b; }
  }

  lemma NextStep(fs: seq<Frame>, g: Grouping)
    requires fs != []
    ensures NextOf(fs, g) == if TurnOf(fs[0], g) != Waits then TurnOf(fs[0], g)
                             else NextOf(fs[1..], if fs[0].op.IsControl() then g else Extend(g, fs[0]))
  {
    hide TurnOf, Extend;
  }

  lemma FramesSoFar(from: seq<Frame>, before: seq<Frame>, after: seq<Frame>)
    requires from <= before <= after
    ensures NoClose(before[|from|..]) && NoClose(after[|before|..]) ==> NoClose(after[|from|..])
  {
    assert after[|from|..] == before[|from|..] + after[|before|..];
  }

  lemma AllOkSoFar(before: seq<Attempt>, after: seq<Attempt>, n: nat)
    requires n <= |before| && before <= after
    ensures AllOk(before, n) ==> (AllOk(after, n) <==> AllOk(after, |before|))
  {
    assert forall k :: 0 <= k < |before| ==> before[k] == after[k];
  }

  // Before anything has happened, nothing has gone wrong.
  lemma Nothing(fs: seq<Frame>, ats: seq<Attempt>, recvs: seq<int>)
    ensures NoClose(fs[|fs|..]) && AllOk(ats, |ats|) && NoneDead(recvs, |recvs|)
  {
  }

  // However the bytes were cut up on the way in, two connections that have received the same stream
  // and asked for more have handed up the same messages, sent the same pongs, and hold the same
  // remainder and the same part of a message.
  lemma CutsDoNotMatter(a: Conn, b: Conn)
    requires a.Valid() && b.Valid() && a.stream == b.stream
    requires Parse(a.rx[..a.rxLen]) == NeedMore && Parse(b.rx[..b.rxLen]) == NeedMore
    ensures a.trace == b.trace && a.frames == b.frames
    ensures a.rx[..a.rxLen] == b.rx[..b.rxLen] && a.Reassembly() == b.Reassembly()
  {
    hide SplitStream, EncodeAll, Parse, Group, DataFrames, Trace, Pings, Attempt.Wf, OnWire, CloseFrames, Ponged, Legal;
    a.ConsumedFrames();
    b.ConsumedFrames();
  }

  // A control frame leaves the messages alone.
  lemma ControlFrameSnoc(fs: seq<Frame>, f: Frame)
    requires f.op.IsControl()
    ensures Group(DataFrames(fs + [f])) == Group(DataFrames(fs))
    ensures Trace(fs + [f]) == Trace(fs) + if f.op == Ping then [Answered(f.payload)] else []
    ensures Pings(fs + [f]) == Pings(fs) + if f.op == Ping then [f.payload] else []
  {
    hide Group, DataFrames;
    MessagesSnoc(fs, f);
    assert (fs + [f])[..|fs|] == fs;
  }

  lemma DataFrameTrace(fs: seq<Frame>, f: Frame)
    requires !f.op.IsControl()
    ensures Pings(fs + [f]) == Pings(fs)
    ensures MessagesOf(fs + [f]) == MessagesOf(fs) ==> Trace(fs + [f]) == Trace(fs)
    ensures forall m :: MessagesOf(fs + [f]) == MessagesOf(fs) + [m] ==> Trace(fs + [f]) == Trace(fs) + [Delivered(m)]
  {
    hide MessagesOf;
    assert (fs + [f])[..|fs|] == fs;
  }

  lemma FirstOfStream(f: Frame, s: seq<Byte>)
    requires Legal(f) && f.op == Text && f.fin && Encode(f) <= s
    ensures NextOf(SplitStream(s).frames, Grouping([], Idle, false)) == Delivers(Message(Text, f.payload))
  {
    hide Encode, Legal, SplitStream;
    var rest := s[|Encode(f)|..];
    assert s == Encode(f) + rest;
    SplitStep(f, rest);
    NextStep([f] + SplitStream(rest).frames, Grouping([], Idle, false));
    hide NextOf;
    assert ([f] + SplitStream(rest).frames)[0] == f;
    assert |f.payload| <= MAX_PAYLOAD by { LegalPayload(f); }
  }

  lemma LegalPayload(f: Frame)
    requires Legal(f)
    ensures |f.payload| <= MAX_PAYLOAD
  {
  }

  // After a close of our own a text message whose frame is already there is still handed up, unless
  // recv finds the connection dead.
  method ClosedStillDelivers(io: Transport, f: Frame)
    returns (c: Conn, r: int, out: Message, ghost sent: nat)
    requires Legal(f) && f.op == Text && f.fin && |Encode(f)| <= CONN_BUF
    modifies io
    ensures fresh(c) && c.Valid() && c.closing && c.io == io && sent == 1 <= |c.attempts|
    ensures NoneDead(io.recvs, |old(io.recvs)|) && AllOk(c.attempts, sent) ==>
              r == 1 && out == Message(Text, f.payload)
  {
    hide SplitStream, Encode, EncodeAll, NextOf, Parse;
    c := new Conn(io, Encode(f));
    c.CloseWith(1000);
    sent := |c.attempts|;
    r, out := c.Poll();
    FirstOfStream(f, c.stream);
  }

  const CLOSE := Frame(Close, true, [])

  // A stream that begins with a close and a text message.
  lemma CloseThenText(f: Frame, s: seq<Byte>)
    requires Legal(f) && f.op == Text && f.fin && Encode(CLOSE) + Encode(f) <= s
    ensures var all := SplitStream(s).frames;
            && all != [] && all[0] == CLOSE && NextOf(all, Grouping([], Idle, false)) == Ends
            && NextOf(all[1..], Grouping([], Idle, false)) == Delivers(Message(Text, f.payload))
  {
    hide Encode, SplitStream;
    var rest := s[|Encode(CLOSE)|..];
    assert s == Encode(CLOSE) + rest;
    assert Encode(f) <= rest by { assert (Encode(CLOSE) + Encode(f))[|Encode(CLOSE)|..] == Encode(f); }
    SplitStep(CLOSE, rest);
    FirstOfStream(f, rest);
    var all := [CLOSE] + SplitStream(rest).frames;
    NextStep(all, Grouping([], Idle, false));
    assert all[1..] == SplitStream(rest).frames;
  }

  // A connection that was polled while it was open only, and whose stream begins with a close, has
  // consumed that close and nothing else once it has ended.
  lemma EndedAtClose(c: Conn)
    requires c.Valid() && !c.late && c.Ended()
    requires SplitStream(c.stream).frames != [] && SplitStream(c.stream).frames[0].op == Close
    ensures |c.frames| == 1
  {
    hide EncodeAll, Parse, Group, DataFrames, Trace, Pings, Attempt.Wf, OnWire, CloseFrames, Ponged, Legal, Extend;
    hide SplitStream;
    var all := SplitStream(c.stream).frames;
    c.ConsumedFrames();
    c.FrontFrame(all);
  }

  method PollToTheClose(c: Conn, f: Frame) returns (r: int)
    requires c.Valid() && c.open && !c.late && c.frames == []
    requires Legal(f) && f.op == Text && f.fin && Encode(CLOSE) + Encode(f) <= c.stream
    modifies c, c.io, c.rx, c.msg
    ensures c.Valid() && !c.late && r != 1 && old(c.stream) <= c.stream && old(c.io.recvs) <= c.io.recvs
    ensures NoneDead(c.io.recvs, |old(c.io.recvs)|) ==> r == -1 && c.frames == [CLOSE]
  {
    hide SplitStream, Encode, EncodeAll, NextOf, Parse, MessagesOf, Group, DataFrames, Trace;
    hide Conn.Valid, Conn.Ended;
    NothingGrouped();
    var out;
    r, out := c.Poll();
    CloseThenText(f, c.stream);
    c.ConsumedFrames();
    ghost var all := SplitStream(c.stream).frames;
    assert all[0..] == all && all[0] in all && c.frames[0..] == c.frames;
    if r == -1 && NoneDead(c.io.recvs, |old(c.io.recvs)|) { EndedAtClose(c); }
  }

  // And so is one that stands behind the server's close, by the poll after the one that read it.
  method BehindTheClose(io: Transport, f: Frame)
    returns (c: Conn, first: int, r: int, out: Message, ghost sent: nat)
    requires Legal(f) && f.op == Text && f.fin && |Encode(f)| + 2 <= CONN_BUF
    modifies io
    ensures fresh(c) && c.Valid() && c.io == io && sent <= |c.attempts| && old(io.recvs) <= io.recvs
    ensures NoneDead(io.recvs, |old(io.recvs)|) && AllOk(c.attempts, sent) ==>
              first == -1 && r == 1 && out == Message(Text, f.payload) && !c.StopsAtClose()
  {
    hide SplitStream, Encode, EncodeAll, NextOf, Parse, MessagesOf, Group, DataFrames, Trace;
    hide Conn.Valid, Conn.StopsAtClose, Conn.Ended;
    assert |Encode(CLOSE)| == 2 by { CloseIsShort(); }
    c := new Conn(io, Encode(CLOSE) + Encode(f));
    NothingGrouped();
    first := PollToTheClose(c, f);
    sent := |c.attempts|;
    c.DeliveredPrefix();
    r, out := c.PollOnce();
    CloseThenText(f, c.stream);
  }

  lemma CloseIsShort()
    ensures Legal(CLOSE) && |Encode(CLOSE)| == 2
  {
  }

  lemma NothingGrouped()
    ensures Group(DataFrames([])) == Group(DataFrames([CLOSE])) == Grouping([], Idle, false)
  {
    MessagesSnoc([], CLOSE);
    assert [] + [CLOSE] == [CLOSE];
  }
}
