// What RFC 6455 says a stream of server bytes means, with no buffers and no sockets: the frames in
// it (section 5.2), the messages those frames carry (section 5.4), and the pongs they call for
// (section 5.5.2).
module WsMessages {
  import opened Bytes
  import opened WsFrame

  // ------------------------------------------------------------------ frames of a stream

  function EncodeAll(fs: seq<Frame>): seq<Byte> {
    if fs == [] then [] else Encode(fs[0]) + EncodeAll(fs[1..])
  }

  ghost predicate AllLegal(fs: seq<Frame>) { forall f :: f in fs ==> Legal(f) }

  datatype Split = Split(frames: seq<Frame>, rest: seq<Byte>)

  // Every frame that can be read off the front, and the bytes that cannot.
  function SplitStream(s: seq<Byte>): Split
    decreases |s|
  {
    match Parse(s)
    case Complete(f, used) =>
      var t := SplitStream(s[used..]);
      Split([f] + t.frames, t.rest)
    case _ => Split([], s)
  }

  lemma {:induction false} EncodeAllSnoc(fs: seq<Frame>, f: Frame)
    ensures EncodeAll(fs + [f]) == EncodeAll(fs) + Encode(f)
  {
    if fs == [] {
      assert [f][1..] == [];
    } else {
      assert (fs + [f])[1..] == fs[1..] + [f];
      EncodeAllSnoc(fs[1..], f);
    }
  }

  lemma SplitStep(f: Frame, tail: seq<Byte>)
    requires Legal(f)
    ensures SplitStream(Encode(f) + tail) == Split([f] + SplitStream(tail).frames, SplitStream(tail).rest)
  {
    hide Parse, Encode, Legal;
    ParseEncode(f, tail);
    assert (Encode(f) + tail)[|Encode(f)|..] == tail;
  }

  // Frame boundaries are unambiguous: a stream splits back into the frames it was made of.
  lemma {:induction false} SplitEncoded(fs: seq<Frame>, r: seq<Byte>)
    requires AllLegal(fs)
    ensures SplitStream(EncodeAll(fs) + r) ==
            Split(fs + SplitStream(r).frames, SplitStream(r).rest)
    decreases |fs|
  {
    hide Parse, Encode, Legal, SplitStream;
    if fs == [] {
      assert EncodeAll(fs) + r == r;
      assert fs + SplitStream(r).frames == SplitStream(r).frames;
    } else {
      var tail := EncodeAll(fs[1..]) + r;
      assert EncodeAll(fs) + r == Encode(fs[0]) + tail;
      SplitStep(fs[0], tail);
      SplitEncoded(fs[1..], r);
      assert [fs[0]] + (fs[1..] + SplitStream(r).frames) == fs + SplitStream(r).frames;
    }
  }

  // Splitting loses nothing, and the remainder starts no readable frame.
  lemma {:induction false} SplitIsExact(s: seq<Byte>)
    ensures AllLegal(SplitStream(s).frames)
    ensures EncodeAll(SplitStream(s).frames) + SplitStream(s).rest == s
    ensures !Parse(SplitStream(s).rest).Complete?
    decreases |s|
  {
    hide Encode, Legal, Parse, SplitStream, EncodeAll;
    SplitUnfolds(s);
    if Parse(s).Complete? {
      var f, used := Parse(s).frame, Parse(s).used;
      EncodeParse(s);
      SplitIsExact(s[used..]);
      var t := SplitStream(s[used..]);
      EncodeAllCons(f, t.frames);
      assert Encode(f) + EncodeAll(t.frames) + t.rest == Encode(f) + (EncodeAll(t.frames) + t.rest);
      assert s == s[..used] + s[used..];
    }
  }

  lemma SplitUnfolds(s: seq<Byte>)
    ensures if Parse(s).Complete? then
              var t := SplitStream(s[Parse(s).used..]);
              SplitStream(s) == Split([Parse(s).frame] + t.frames, t.rest)
            else SplitStream(s) == Split([], s) && EncodeAll([]) + s == s
  {
    hide Parse;
    assert EncodeAll([]) + s == s;
  }

  lemma EncodeAllCons(f: Frame, fs: seq<Frame>)
    ensures EncodeAll([f] + fs) == Encode(f) + EncodeAll(fs)
  {
    hide Encode;
    assert ([f] + fs)[1..] == fs;
  }

  // More bytes only add frames.
  lemma SplitGrows(s: seq<Byte>, more: seq<Byte>)
    ensures SplitStream(s).frames <= SplitStream(s + more).frames
  {
    hide SplitStream, EncodeAll;
    var t := SplitStream(s);
    SplitIsExact(s);
    assert s + more == EncodeAll(t.frames) + (t.rest + more);
    SplitEncoded(t.frames, t.rest + more);
  }

  // -------------------------------------------------------------- messages, section 5.4

  datatype Message = Message(op: Op, payload: seq<Byte>)
  datatype Partial = Idle | Building(op: Op, bytes: seq<Byte>)
  datatype Grouping = Grouping(msgs: seq<Message>, partial: Partial, violation: bool)

  // Control frames may sit between the fragments of a message and are not part of it.
  function DataFrames(fs: seq<Frame>): seq<Frame> {
    if fs == [] then []
    else
      var last := fs[|fs| - 1];
      DataFrames(fs[..|fs| - 1]) + (if last.op.IsControl() then [] else [last])
  }

  function FirstFin(fs: seq<Frame>): (k: nat)
    ensures k <= |fs| && (k < |fs| ==> fs[k].fin) && forall i :: 0 <= i < k ==> !fs[i].fin
  {
    if fs == [] || fs[0].fin then 0 else 1 + FirstFin(fs[1..])
  }

  function Payloads(fs: seq<Frame>): seq<Byte> {
    if fs == [] then [] else Payloads(fs[..|fs| - 1]) + fs[|fs| - 1].payload
  }

  // The first frame of a message names its kind, every later one continues it, and the whole is
  // no larger than FF_WS_MAX_PAYLOAD.
  predicate WellFragmented(run: seq<Frame>)
    requires run != []
  {
    && run[0].op != Cont
    && (forall i :: 1 <= i < |run| ==> run[i].op == Cont)
    && |Payloads(run)| <= MAX_PAYLOAD
  }

  // A message ends at the first frame whose FIN bit is set. Grouping stops at the first message
  // that breaks the rules.
  function Group(fs: seq<Frame>): Grouping
    decreases |fs|
  {
    if fs == [] then Grouping([], Idle, false)
    else
      var k := FirstFin(fs);
      var run := if k < |fs| then fs[..k + 1] else fs;
      if !WellFragmented(run) then Grouping([], Idle, true)
      else if k < |fs| then
        var g := Group(fs[k + 1..]);
        g.(msgs := [Message(fs[0].op, Payloads(run))] + g.msgs)
      else Grouping([], Building(fs[0].op, Payloads(fs)), false)
  }

  // One more data frame, decided from the grouping so far.
  function Extend(g: Grouping, f: Frame): Grouping {
    if g.violation then g
    else
      match g.partial
      case Idle =>
        if f.op == Cont || |f.payload| > MAX_PAYLOAD then Grouping(g.msgs, Idle, true)
        else if f.fin then Grouping(g.msgs + [Message(f.op, f.payload)], Idle, false)
        else Grouping(g.msgs, Building(f.op, f.payload), false)
      case Building(op, bytes) =>
        if f.op != Cont || |bytes + f.payload| > MAX_PAYLOAD then Grouping(g.msgs, Idle, true)
        else if f.fin then Grouping(g.msgs + [Message(op, bytes + f.payload)], Idle, false)
        else Grouping(g.msgs, Building(op, bytes + f.payload), false)
  }

  lemma FirstFinSnoc(fs: seq<Frame>, f: Frame)
    ensures FirstFin(fs) < |fs| ==> FirstFin(fs + [f]) == FirstFin(fs)
    ensures FirstFin(fs) == |fs| ==> FirstFin(fs + [f]) == if f.fin then |fs| else |fs| + 1
  {
    hide FirstFin;
    var gs := fs + [f];
    assert gs[|fs|] == f;
    assert forall i :: 0 <= i < |fs| ==> gs[i] == fs[i];
  }

  lemma PayloadsSnoc(fs: seq<Frame>, f: Frame)
    ensures Payloads(fs + [f]) == Payloads(fs) + f.payload
  {
    assert (fs + [f])[..|fs|] == fs;
  }

  // Reassembling frame by frame computes the section 5.4 grouping of the whole.
  lemma {:induction false} GroupSnoc(fs: seq<Frame>, f: Frame)
    ensures Group(fs + [f]) == Extend(Group(fs), f)
    decreases |fs|
  {
    var gs := fs + [f];
    var k := FirstFin(fs);
    FirstFinSnoc(fs, f);
    if fs == [] {
      PayloadsSnoc([], f);
      assert gs == [f] && Payloads(gs) == f.payload;
      assert gs[1..] == [];
      assert gs[..1] == gs;
    } else if k < |fs| {
      assert gs[..k + 1] == fs[..k + 1];
      assert gs[k + 1..] == fs[k + 1..] + [f];
      GroupSnoc(fs[k + 1..], f);
      GroupPrepend([Message(fs[0].op, Payloads(fs[..k + 1]))], Group(fs[k + 1..]), f);
      hide WellFragmented, Payloads, FirstFin, Extend;
      GroupClosed(fs);
      GroupClosed(gs);
      GroupBroken(f);
    } else {
      OpenRunSnoc(fs, f);
    }
  }

  lemma GroupClosed(fs: seq<Frame>)
    requires FirstFin(fs) < |fs|
    ensures var k := FirstFin(fs);
            Group(fs) ==
            if !WellFragmented(fs[..k + 1]) then Grouping([], Idle, true)
            else
              var g := Group(fs[k + 1..]);
              g.(msgs := [Message(fs[0].op, Payloads(fs[..k + 1]))] + g.msgs)
  {
    hide WellFragmented, Payloads, FirstFin;
  }

  lemma GroupBroken(f: Frame)
    ensures Extend(Grouping([], Idle, true), f) == Grouping([], Idle, true)
  {
  }

  lemma GroupPrepend(front: seq<Message>, g: Grouping, f: Frame)
    ensures Extend(g.(msgs := front + g.msgs), f) ==
            Extend(g, f).(msgs := front + Extend(g, f).msgs)
  {
    forall m: Message ensures front + (g.msgs + [m]) == front + g.msgs + [m] {
    }
  }

  lemma WellFragmentedSnoc(fs: seq<Frame>, f: Frame)
    requires fs != []
    ensures WellFragmented(fs + [f]) <==>
            WellFragmented(fs) && f.op == Cont && |Payloads(fs) + f.payload| <= MAX_PAYLOAD
  {
    hide Payloads;
    var gs := fs + [f];
    PayloadsSnoc(fs, f);
    assert gs[0] == fs[0] && gs[|fs|] == f;
    forall i | 1 <= i < |fs| ensures gs[i] == fs[i] {
    }
  }

  lemma GroupOpenRun(fs: seq<Frame>)
    requires fs != [] && FirstFin(fs) >= |fs| - 1
    ensures Group(fs) ==
            if !WellFragmented(fs) then Grouping([], Idle, true)
            else if FirstFin(fs) < |fs| then Grouping([Message(fs[0].op, Payloads(fs))], Idle, false)
            else Grouping([], Building(fs[0].op, Payloads(fs)), false)
  {
    hide FirstFin, WellFragmented, Payloads;
    assert fs[..|fs|] == fs && fs[|fs|..] == [];
    assert Group([]) == Grouping([], Idle, false);
  }

  lemma OpenRunSnoc(fs: seq<Frame>, f: Frame)
    requires fs != [] && FirstFin(fs) == |fs|
    ensures Group(fs + [f]) == Extend(Group(fs), f)
  {
    hide Group, FirstFin, WellFragmented, Payloads;
    FirstFinSnoc(fs, f);
    PayloadsSnoc(fs, f);
    WellFragmentedSnoc(fs, f);
    GroupOpenRun(fs);
    GroupOpenRun(fs + [f]);
  }

  // Two fragments make a message of at most 1 MiB, and it is not the one or the other that counts.
  lemma LargestMessage(a: Frame, b: Frame)
    requires a.op == Text && !a.fin && b.op == Cont && b.fin
    ensures Group([a, b]) ==
            if |a.payload| + |b.payload| <= 1024 * 1024
            then Grouping([Message(Text, a.payload + b.payload)], Idle, false) else Grouping([], Idle, true)
  {
    assert [a, b][..2] == [a, b] && [a, b][2..] == [] && [a, b][1..] == [b];
    assert FirstFin([b]) == 0 && FirstFin([a, b]) == 1;
    assert [a, b][..1] == [a] && Payloads([a]) == [] + a.payload == a.payload;
    assert Payloads([a, b]) == a.payload + b.payload;
  }

  lemma ExtendGrows(g: Grouping, f: Frame)
    ensures g.msgs <= Extend(g, f).msgs && |Extend(g, f).msgs| <= |g.msgs| + 1
  {
  }

  // Grouping more frames only adds messages after those already found.
  lemma {:induction false} GroupGrows(fs: seq<Frame>, more: seq<Frame>)
    ensures Group(fs).msgs <= Group(fs + more).msgs
    decreases |more|
  {
    hide Group, Extend;
    if more == [] {
      assert fs + more == fs;
    } else {
      var init := more[..|more| - 1];
      GroupGrows(fs, init);
      GroupSnoc(fs + init, more[|more| - 1]);
      ExtendGrows(Group(fs + init), more[|more| - 1]);
      assert fs + more == (fs + init) + [more[|more| - 1]];
    }
  }

  lemma {:induction false} DataFramesConcat(fs: seq<Frame>, gs: seq<Frame>)
    ensures DataFrames(fs + gs) == DataFrames(fs) + DataFrames(gs)
    decreases |gs|
  {
    if gs == [] {
      assert fs + gs == fs;
    } else {
      assert (fs + gs)[..|fs + gs| - 1] == fs + gs[..|gs| - 1];
      DataFramesConcat(fs, gs[..|gs| - 1]);
    }
  }

  // ---------------------------------------------------- what a client does, in order

  datatype Event = Delivered(msg: Message) | Answered(payload: seq<Byte>)

  function MessagesOf(fs: seq<Frame>): seq<Message> { Group(DataFrames(fs)).msgs }

  // Everything a client hands up and every pong it sends, in the order of the frames that cause them.
  function Trace(fs: seq<Frame>): seq<Event>
  {
    if fs == [] then []
    else
      var init, last := fs[..|fs| - 1], fs[|fs| - 1];
      if last.op == Ping then Trace(init) + [Answered(last.payload)]
      else if |MessagesOf(fs)| > |MessagesOf(init)| then Trace(init) + [Delivered(MessagesOf(fs)[|MessagesOf(init)|])]
      else Trace(init)
  }

  function DeliveredIn(es: seq<Event>): seq<Message> {
    if es == [] then []
    else DeliveredIn(es[..|es| - 1]) + (if es[|es| - 1].Delivered? then [es[|es| - 1].msg] else [])
  }

  function AnsweredIn(es: seq<Event>): seq<seq<Byte>> {
    if es == [] then []
    else AnsweredIn(es[..|es| - 1]) + (if es[|es| - 1].Answered? then [es[|es| - 1].payload] else [])
  }

  function Pings(fs: seq<Frame>): seq<seq<Byte>> {
    if fs == [] then []
    else Pings(fs[..|fs| - 1]) + (if fs[|fs| - 1].op == Ping then [fs[|fs| - 1].payload] else [])
  }

  lemma MessagesSnoc(fs: seq<Frame>, f: Frame)
    ensures Group(DataFrames(fs + [f])) ==
            if f.op.IsControl() then Group(DataFrames(fs)) else Extend(Group(DataFrames(fs)), f)
  {
    assert (fs + [f])[..|fs|] == fs;
    if f.op.IsControl() {
      assert DataFrames(fs + [f]) == DataFrames(fs) + [] == DataFrames(fs);
    } else {
      GroupSnoc(DataFrames(fs), f);
    }
  }

  // The messages in the trace are the section 5.4 messages, and there is one pong for each ping,
  // with its payload, in order.
  lemma {:induction false} TraceIsComplete(fs: seq<Frame>)
    ensures DeliveredIn(Trace(fs)) == MessagesOf(fs)
    ensures AnsweredIn(Trace(fs)) == Pings(fs)
  {
    hide Group, DataFrames, Extend;
    if fs == [] {
      assert MessagesOf([]) == [] by { NoMessages(); }
    } else {
      var init, last := fs[..|fs| - 1], fs[|fs| - 1];
      TraceIsComplete(init);
      assert fs == init + [last];
      MessagesSnoc(init, last);
      ExtendGrows(Group(DataFrames(init)), last);
      AnswerSnoc(Trace(init), last.payload);
      if |MessagesOf(fs)| > |MessagesOf(init)| {
        var m := MessagesOf(fs)[|MessagesOf(init)|];
        assert MessagesOf(fs) == MessagesOf(init) + [m];
        DeliverySnoc(Trace(init), m);
      }
    }
  }

  lemma AnswerSnoc(es: seq<Event>, payload: seq<Byte>)
    ensures DeliveredIn(es + [Answered(payload)]) == DeliveredIn(es)
    ensures AnsweredIn(es + [Answered(payload)]) == AnsweredIn(es) + [payload]
  {
    assert (es + [Answered(payload)])[..|es|] == es;
  }

  lemma DeliverySnoc(es: seq<Event>, m: Message)
    ensures DeliveredIn(es + [Delivered(m)]) == DeliveredIn(es) + [m]
    ensures AnsweredIn(es + [Delivered(m)]) == AnsweredIn(es)
  {
    assert (es + [Delivered(m)])[..|es|] == es;
  }

  lemma NoMessages()
    ensures MessagesOf([]) == []
  {
  }

  // ------------------------------------------------------------------- up to the first close

  // The frames in front of the first Close.
  function UpToClose(fs: seq<Frame>): (r: seq<Frame>)
    ensures r <= fs && (forall f :: f in r ==> f.op != Close) && (|r| < |fs| ==> fs[|r|].op == Close)
  {
    if fs == [] || fs[0].op == Close then [] else [fs[0]] + UpToClose(fs[1..])
  }

  lemma {:induction false} UpToCloseConcat(fs: seq<Frame>, more: seq<Frame>)
    ensures UpToClose(fs + more) == if |UpToClose(fs)| == |fs| then fs + UpToClose(more) else UpToClose(fs)
    decreases |fs|
  {
    if fs == [] {
      assert fs + more == more;
    } else {
      UpToCloseStep(fs);
      UpToCloseStep(fs + more);
      hide UpToClose;
      assert (fs + more)[1..] == fs[1..] + more;
      assert fs == [fs[0]] + fs[1..];
      if fs[0].op != Close { UpToCloseConcat(fs[1..], more); }
    }
  }

  lemma UpToCloseStep(fs: seq<Frame>)
    requires fs != []
    ensures UpToClose(fs) == if fs[0].op == Close then [] else [fs[0]] + UpToClose(fs[1..])
  {
  }

  // Fewer frames hold fewer messages.
  lemma MessagesOfPrefix(fs: seq<Frame>, all: seq<Frame>)
    requires fs <= all
    ensures MessagesOf(fs) <= MessagesOf(all)
  {
    hide Group, DataFrames;
    assert all == fs + all[|fs|..];
    DataFramesConcat(fs, all[|fs|..]);
    GroupGrows(DataFrames(fs), DataFrames(all[|fs|..]));
  }

  // ----------------------------------------------------------------- what a poll comes upon

  datatype Coming = Waits | Ends | Delivers(m: Message)

  // What one frame does: nothing to hand up, the end, or a message.
  function TurnOf(f: Frame, g: Grouping): Coming {
    if f.op == Close then Ends
    else if f.op.IsControl() then Waits
    else
      var e := Extend(g, f);
      if e.violation then Ends
      else if |e.msgs| > |g.msgs| then Delivers(e.msgs[|e.msgs| - 1])
      else Waits
  }

  // What the first of these frames that does anything does.
  function NextOf(fs: seq<Frame>, g: Grouping): Coming {
    if fs == [] then Waits
    else if TurnOf(fs[0], g) != Waits then TurnOf(fs[0], g)
    else NextOf(fs[1..], if fs[0].op.IsControl() then g else Extend(g, fs[0]))
  }
}
