// The lock-free frame handoff (src/ff-handoff.c): one publisher, two slots, a wrapping sequence
// counter and any number of readers. Every load, store and word copied is a step of its own, and
// the steps of different threads interleave in any order. Steps are sequentially consistent.
module Handoff {
  import opened Bytes

  const TWO32 := 0x1_0000_0000
  const MAX_TRIES := 1024
  const WORDS: nat := 647  // the 32-bit words of a struct ff_frame

  type Counter = x: int | 0 <= x < 0x1_0000_0000
  type Frame = f: seq<int> | |f| == WORDS witness seq(WORDS, _ => 0)

  datatype Writer = Quiet | Writing(frame: Frame, copied: set<nat>)

  // Copying: `s` is the counter value loaded, `at` how many frames had been published by then, and
  // `out` the words copied so far, in whatever order.
  datatype Phase = Idle | Trying | Copying(s: Counter, at: nat, out: map<nat, int>)

  datatype Handed = Handed(at: nat, frame: Frame)

  // Of the read under way, or else the last one: `met` is the counter each attempt loaded, and `wrote`
  // the words of the caller's frame written over.
  datatype Reader = Reader(phase: Phase, tries: nat, handed: seq<Handed>, met: seq<Counter>, wrote: map<nat, int>)

  datatype State = State(slots: seq<Frame>, counter: Counter, writer: Writer,
                         published: seq<Frame>, readers: map<nat, Reader>) {
    function Of(r: nat): Reader { if r in readers then readers[r] else Reader(Idle, 0, [], [], map[]) }
    function With(r: nat, x: Reader): State { this.(readers := readers[r := x]) }
    // The counter as it would be if it never wrapped.
    function Raw(): nat { 2 * |published| + if writer.Quiet? then 0 else 1 }
  }

  datatype Event =
    | Begin(frame: Frame) | Store(i: nat) | End              // ff_handoff_publish
    | Start(r: nat) | Load(r: nat) | Fetch(r: nat, i: nat) | Check(r: nat)  // ff_handoff_read

  datatype Outcome = Impossible | Next(st: State)

  function SlotOf(c: Counter): (k: nat)
    ensures k < 2
  {
    c / 2 % 2
  }

  function Bump(c: Counter, n: nat): Counter { (c + n) % TWO32 }

  // While a frame is being written the counter is odd; one more is its final value, which names
  // the slot.
  function TargetSlot(st: State): (k: nat)
    ensures k < 2
  {
    SlotOf(Bump(st.counter, 1))
  }

  predicate WellShaped(st: State) { |st.slots| == 2 }

  // A failed attempt: try again, or give up after FF_HANDOFF_MAX_TRIES.
  function Retry(x: Reader): Reader {
    if x.tries + 1 < MAX_TRIES then x.(phase := Trying, tries := x.tries + 1) else x.(phase := Idle, tries := 0)
  }

  predicate WholeFrame(words: set<nat>) { forall i: nat :: i < WORDS ==> i in words }

  function FrameOf(out: map<nat, int>): Frame
    requires WholeFrame(out.Keys)
  {
    seq(WORDS, i requires 0 <= i < WORDS => out[i])
  }

  function Apply(st: State, e: Event): (o: Outcome)
    requires WellShaped(st)
    ensures o.Next? ==> WellShaped(o.st)
  {
    match e
    case Begin(f) =>
      if !st.writer.Quiet? then Impossible
      else Next(st.(counter := Bump(st.counter, 1), writer := Writing(f, {})))
    case Store(i) =>
      if st.writer.Quiet? || i >= WORDS then Impossible
      else
        var k := TargetSlot(st);
        Next(st.(slots := st.slots[k := st.slots[k][i := st.writer.frame[i]]],
                 writer := st.writer.(copied := st.writer.copied + {i})))
    case End =>
      if st.writer.Quiet? || !WholeFrame(st.writer.copied) then Impossible
      else Next(st.(counter := Bump(st.counter, 1), writer := Quiet, published := st.published + [st.writer.frame]))
    case Start(r) =>
      var x := st.Of(r);
      if !x.phase.Idle? then Impossible else Next(st.With(r, Reader(Trying, 0, x.handed, [], map[])))
    case Load(r) =>
      var y := st.Of(r);
      var x := y.(met := y.met + [st.counter]);
      if !x.phase.Trying? then Impossible
      else if st.counter == 0 then Next(st.With(r, x.(phase := Idle, tries := 0)))
      else if st.counter % 2 == 1 then Next(st.With(r, Retry(x)))
      else Next(st.With(r, x.(phase := Copying(st.counter, |st.published|, map[]))))
    case Fetch(r, i) =>
      var x := st.Of(r);
      if !x.phase.Copying? || i >= WORDS then Impossible
      else
        var word := st.slots[SlotOf(x.phase.s)][i];
        Next(st.With(r, x.(phase := x.phase.(out := x.phase.out[i := word]), wrote := x.wrote[i := word])))
    case Check(r) =>
      var x := st.Of(r);
      if !x.phase.Copying? || !WholeFrame(x.phase.out.Keys) then Impossible
      else if (st.counter - x.phase.s) % TWO32 < 3 then
        Next(st.With(r, x.(phase := Idle, tries := 0, handed := x.handed + [Handed(x.phase.at, FrameOf(x.phase.out))])))
      else Next(st.With(r, Retry(x)))
  }

  // ff_handoff_init.
  function Initial(): (st: State)
    ensures WellShaped(st)
  {
    var blank := seq(WORDS, _ => 0);
    State([blank, blank], 0, Quiet, [], map[])
  }

  // The state after a run, or Impossible if some step could not happen when it was due.
  function Run(es: seq<Event>): (o: Outcome)
    ensures o.Next? ==> WellShaped(o.st)
  {
    if es == [] then Next(Initial())
    else
      match Run(es[..|es| - 1])
      case Impossible => Impossible
      case Next(st) => Apply(st, es[|es| - 1])
  }

  // Fewer than 2^31 frames have been published since any reader still copying loaded the counter.
  ghost predicate Timely(st: State) {
    forall r: nat :: st.Of(r).phase.Copying? ==> |st.published| - st.Of(r).phase.at < 0x8000_0000
  }

  ghost predicate TimelyRun(es: seq<Event>) {
    forall n: nat :: n <= |es| && Run(es[..n]).Next? ==> Timely(Run(es[..n]).st)
  }

  // The same with any bound.
  ghost predicate Within(st: State, b: nat) {
    forall r: nat :: st.Of(r).phase.Copying? ==> |st.published| - st.Of(r).phase.at < b
  }

  ghost predicate RunWithin(es: seq<Event>, b: nat) {
    forall n: nat :: n <= |es| && Run(es[..n]).Next? ==> Within(Run(es[..n]).st, b)
  }

  // ------------------------------------------------------------------------- the invariant

  // The newest frame is whole in its slot; so is the one before it, until it is being written over.
  ghost predicate SlotsOk(st: State)
    requires WellShaped(st)
  {
    && st.counter == st.Raw() % TWO32
    && SlotsHold(st, |st.published|)
  }

  ghost predicate SlotsHold(st: State, n: nat)
    requires WellShaped(st) && n == |st.published|
  {
    && (n >= 1 ==> st.slots[n % 2] == st.published[n - 1])
    && (st.writer.Quiet? && n >= 2 ==> st.slots[(n + 1) % 2] == st.published[n - 2])
    && (st.writer.Writing? ==> forall i: nat :: i < WORDS && i in st.writer.copied ==>
          st.slots[(n + 1) % 2][i] == st.writer.frame[i])
  }

  // What a copy in progress holds is right for as long as its slot cannot have been touched.
  ghost predicate CopyOk(st: State, p: Phase) {
    p.Copying? ==>
      && 1 <= p.at <= |st.published| && p.s == 2 * p.at % TWO32
      && (st.Raw() <= 2 * p.at + 2 ==>
            forall i: nat :: i < WORDS && i in p.out ==> p.out[i] == st.published[p.at - 1][i])
  }

  // Every frame handed over is, word for word, one that was published, and none is older than the
  // one before it.
  ghost predicate HandedOk(st: State, x: Reader) {
    && (forall j :: 0 <= j < |x.handed| ==>
          && 1 <= x.handed[j].at <= |st.published|
          && x.handed[j].frame == st.published[x.handed[j].at - 1])
    && (forall j, k :: 0 <= j < k < |x.handed| ==> x.handed[j].at <= x.handed[k].at)
    && (x.phase.Copying? ==> forall j :: 0 <= j < |x.handed| ==> x.handed[j].at <= x.phase.at)
  }

  ghost predicate Inv(st: State) {
    && WellShaped(st) && SlotsOk(st)
    && (forall r: nat :: CopyOk(st, st.Of(r).phase))
    && (forall r: nat :: HandedOk(st, st.Of(r)))
  }

  // ------------------------------------------------------------- arithmetic of the wrap

  lemma SlotOfWrapped(k: nat)
    ensures SlotOf(2 * k % TWO32) == k % 2
  {
    var q, c := 2 * k / TWO32, 2 * k % TWO32;
    var h := k - 0x8000_0000 * q;
    assert c == 2 * h;
    SameParity(k, h, q);
  }

  lemma SameParity(k: nat, h: nat, q: nat)
    requires k == h + 0x8000_0000 * q
    ensures k % 2 == h % 2
  {
    assert k == h + 2 * (0x4000_0000 * q);
  }

  lemma BumpWrapped(raw: nat, n: nat)
    ensures Bump(raw % TWO32, n) == (raw + n) % TWO32
  {
    var q := raw / TWO32;
    assert raw + n == TWO32 * q + (raw % TWO32 + n);
    Multiples(q, raw % TWO32 + n, TWO32);
  }

  lemma WrappedParity(raw: nat)
    ensures raw % TWO32 % 2 == raw % 2
  {
    assert raw == TWO32 * (raw / TWO32) + raw % TWO32;
  }

  // Less than a full turn of the counter apart, the wrapped difference is the true one.
  lemma WrappedDifference(raw: nat, from: nat)
    requires from <= raw < from + TWO32
    ensures (raw % TWO32 - from % TWO32) % TWO32 == raw - from
  {
    var a, b := raw / TWO32, from / TWO32;
    assert raw == TWO32 * a + raw % TWO32 && from == TWO32 * b + from % TWO32;
    var d := raw % TWO32 - from % TWO32;
    assert raw - from == TWO32 * (a - b) + d;
    if d >= 0 {
      assert a == b;
    } else {
      assert a == b + 1;
    }
  }

  // ------------------------------------------------------------------ every step keeps it

  lemma TargetIsOther(st: State)
    requires WellShaped(st) && SlotsOk(st) && st.writer.Writing?
    ensures TargetSlot(st) == (|st.published| + 1) % 2
  {
    BumpWrapped(st.Raw(), 1);
    SlotOfWrapped(|st.published| + 1);
  }

  lemma BeginKeeps(st: State, f: Frame)
    requires Inv(st) && st.writer.Quiet?
    ensures Inv(Apply(st, Begin(f)).st)
  {
    var t := Apply(st, Begin(f)).st;
    BumpWrapped(st.Raw(), 1);
    assert forall r: nat :: t.Of(r) == st.Of(r);
  }

  lemma StoreKeeps(st: State, i: nat)
    requires Inv(st) && Apply(st, Store(i)).Next?
    ensures Inv(Apply(st, Store(i)).st)
  {
    var t := Apply(st, Store(i)).st;
    TargetIsOther(st);
    var n := |st.published|;
    assert n % 2 != (n + 1) % 2;
    assert forall r: nat :: t.Of(r) == st.Of(r);
  }

  lemma EndKeeps(st: State)
    requires Inv(st) && Apply(st, End).Next?
    ensures Inv(Apply(st, End).st)
  {
    var t := Apply(st, End).st;
    var n := |st.published|;
    BumpWrapped(st.Raw(), 1);
    assert st.slots[(n + 1) % 2] == st.writer.frame;
    assert (n + 2) % 2 == n % 2;
    assert forall j :: 0 <= j < n ==> t.published[j] == st.published[j];
    forall r: nat ensures CopyOk(t, t.Of(r).phase) && HandedOk(t, t.Of(r)) {
      assert t.Of(r) == st.Of(r);
      assert CopyOk(st, st.Of(r).phase) && HandedOk(st, st.Of(r));
    }
  }

  // A step of one reader leaves the rest alone.
  lemma ReaderStepKeeps(st: State, t: State, r: nat, x: Reader)
    requires Inv(st) && t == st.With(r, x) && CopyOk(t, x.phase) && HandedOk(t, x)
    ensures Inv(t)
  {
    forall q: nat ensures CopyOk(t, t.Of(q).phase) && HandedOk(t, t.Of(q)) {
      if q != r {
        assert t.Of(q) == st.Of(q);
        assert CopyOk(st, st.Of(q).phase) && HandedOk(st, st.Of(q));
      }
    }
  }

  lemma LoadKeeps(st: State, r: nat)
    requires Inv(st) && Apply(st, Load(r)).Next?
    ensures Inv(Apply(st, Load(r)).st)
  {
    var t := Apply(st, Load(r)).st;
    assert HandedOk(st, st.Of(r));
    WrappedParity(st.Raw());
    ReaderStepKeeps(st, t, r, t.Of(r));
  }

  lemma FetchKeeps(st: State, r: nat, i: nat)
    requires Inv(st) && Apply(st, Fetch(r, i)).Next?
    ensures Inv(Apply(st, Fetch(r, i)).st)
  {
    var t := Apply(st, Fetch(r, i)).st;
    var p := st.Of(r).phase;
    assert CopyOk(st, p) && HandedOk(st, st.Of(r));
    SlotOfWrapped(p.at);
    var n := |st.published|;
    if st.Raw() <= 2 * p.at + 2 {
      assert p.at == n || p.at == n - 1;
      assert (n + 1) % 2 == (n - 1) % 2;
      assert st.slots[p.at % 2] == st.published[p.at - 1];
    }
    ReaderStepKeeps(st, t, r, t.Of(r));
  }

  // The check passes exactly when the counter has moved by at most two, so the copy is whole.
  lemma CheckKeeps(st: State, r: nat)
    requires Inv(st) && Apply(st, Check(r)).Next? && Timely(st)
    ensures Inv(Apply(st, Check(r)).st)
  {
    var t := Apply(st, Check(r)).st;
    var p := st.Of(r).phase;
    assert CopyOk(st, p) && HandedOk(st, st.Of(r));
    WrappedDifference(st.Raw(), 2 * p.at);
    PassedCheck(st, r);
    ReaderStepKeeps(st, t, r, t.Of(r));
  }

  lemma StepKeeps(st: State, e: Event)
    requires Inv(st) && Timely(st) && Apply(st, e).Next?
    ensures Inv(Apply(st, e).st)
  {
    match e
    case Begin(f) => BeginKeeps(st, f);
    case Store(i) => StoreKeeps(st, i);
    case End => EndKeeps(st);
    case Start(r) =>
      assert HandedOk(st, st.Of(r));
      ReaderStepKeeps(st, Apply(st, e).st, r, Reader(Trying, 0, st.Of(r).handed, [], map[]));
    case Load(r) => LoadKeeps(st, r);
    case Fetch(r, i) => FetchKeeps(st, r, i);
    case Check(r) => CheckKeeps(st, r);
  }

  // --------------------------------------------------------------------------- the theorems

  // In every interleaving, every frame a reader was handed was published, whole, and no reader ever
  // goes back in time.
  lemma {:induction false} EveryRunIsSafe(es: seq<Event>)
    requires TimelyRun(es) && Run(es).Next?
    ensures Inv(Run(es).st)
  {
    if es != [] {
      var front := es[..|es| - 1];
      forall n: nat | n <= |front| && Run(front[..n]).Next? ensures Timely(Run(front[..n]).st) {
        assert front[..n] == es[..n];
      }
      EveryRunIsSafe(front);
      assert es[..|front|] == front;
      StepKeeps(Run(front).st, es[|es| - 1]);
    }
  }

  // When reader r last loaded the counter, exactly `at` frames had been published.
  ghost predicate LoadedAt(es: seq<Event>, r: nat, at: nat) {
    exists m: nat :: LastLoad(es, r, m) && Run(es[..m]).Next? && |Run(es[..m]).st.published| == at
  }

  ghost predicate LastLoad(es: seq<Event>, r: nat, m: nat) {
    m < |es| && es[m] == Load(r) && forall k :: m < k < |es| ==> es[k] != Load(r)
  }

  lemma {:induction false} CopyingHasLoaded(es: seq<Event>, r: nat)
    requires Run(es).Next? && Run(es).st.Of(r).phase.Copying?
    ensures LoadedAt(es, r, Run(es).st.Of(r).phase.at)
  {
    if es != [] {
      var n := |es| - 1;
      var front, e := es[..n], es[n];
      var before, after := Run(front).st.Of(r).phase, Run(es).st.Of(r).phase;
      CopyBegins(Run(front).st, e, r);
      if e == Load(r) {
        assert LastLoad(es, r, n);
      } else {
        CopyingHasLoaded(front, r);
        LoadedEarlier(front, e, r, after.at);
        assert es == front + [e];
      }
    }
  }

  // A copy begins with a load, and until it is over there is no other.
  lemma CopyBegins(st: State, e: Event, r: nat)
    requires WellShaped(st) && Apply(st, e).Next? && Apply(st, e).st.Of(r).phase.Copying?
    ensures e == Load(r) ==> Apply(st, e).st.Of(r).phase.at == |st.published|
    ensures e != Load(r) ==> st.Of(r).phase.Copying? && st.Of(r).phase.at == Apply(st, e).st.Of(r).phase.at
  {
  }

  lemma LoadedEarlier(front: seq<Event>, e: Event, r: nat, at: nat)
    requires e != Load(r) && LoadedAt(front, r, at)
    ensures LoadedAt(front + [e], r, at)
  {
    hide Run;
    var es := front + [e];
    var m: nat :| LastLoad(front, r, m) && Run(front[..m]).Next? && |Run(front[..m]).st.published| == at;
    assert es[..m] == front[..m];
    assert LastLoad(es, r, m);
  }

  // Reader r got nothing, or the newest frame that was complete when it loaded the counter.
  ghost predicate NewestOrNothing(es: seq<Event>, st: State, t: State, r: nat) {
    t.Of(r).handed == st.Of(r).handed || exists at: nat :: LoadedAt(es, r, at) && GotFrame(st, t, r, at)
  }

  ghost predicate GotFrame(st: State, t: State, r: nat, at: nat) {
    1 <= at <= |st.published| && t.Of(r).handed == st.Of(r).handed + [Handed(at, st.published[at - 1])]
  }

  lemma HandsOverNewest(es: seq<Event>, st: State, r: nat)
    requires TimelyRun(es) && Run(es) == Next(st) && WellShaped(st) && Apply(st, Check(r)).Next?
    ensures NewestOrNothing(es, st, Apply(st, Check(r)).st, r)
  {
    hide LoadedAt, Run, Inv;
    EveryRunIsSafe(es);
    assert Timely(st) by { assert es[..|es|] == es; }
    hide TimelyRun, Timely;
    var t, p := Apply(st, Check(r)).st, st.Of(r).phase;
    CopyingHasLoaded(es, r);
    PassedCheck(st, r);
    hide Apply;
    if t.Of(r).handed != st.Of(r).handed {
      assert GotFrame(st, t, r, p.at);
    }
  }

  lemma PassedCheck(st: State, r: nat)
    requires Inv(st) && Timely(st) && Apply(st, Check(r)).Next?
    ensures var t, p := Apply(st, Check(r)).st, st.Of(r).phase;
            t.Of(r).handed == st.Of(r).handed ||
            (1 <= p.at <= |st.published| &&
             t.Of(r).handed == st.Of(r).handed + [Handed(p.at, st.published[p.at - 1])])
  {
    var p := st.Of(r).phase;
    assert CopyOk(st, p);
    WrappedDifference(st.Raw(), 2 * p.at);
    if (st.counter - p.s) % TWO32 < 3 {
      assert FrameOf(p.out) == st.published[p.at - 1];
    }
  }

  // A finished copy is handed over exactly if, since the counter was loaded, the publisher has at most
  // begun one frame, or finished one and begun no other. Otherwise the attempt is lost, and the read
  // with the last of them.
  lemma CheckSucceedsExactly(st: State, r: nat)
    requires Inv(st) && Timely(st) && Apply(st, Check(r)).Next?
    ensures var x, y := st.Of(r), Apply(st, Check(r)).st.Of(r);
            var newer := |st.published| - x.phase.at;
            if newer == 0 || (newer == 1 && st.writer.Quiet?) then
              y.phase == Idle && |y.handed| == |x.handed| + 1
            else
              y.handed == x.handed && y.phase == if x.tries + 1 < MAX_TRIES then Trying else Idle
  {
    assert CopyOk(st, st.Of(r).phase);
    WrappedDifference(st.Raw(), 2 * st.Of(r).phase.at);
  }

  // An attempt goes on to copy exactly when some frame is published and none is being written, but for
  // every 2^31st; a writer costs it the attempt, and nothing published ends the read.
  lemma LoadExactly(st: State, r: nat)
    requires Inv(st) && Apply(st, Load(r)).Next?
    ensures var x, y := st.Of(r), Apply(st, Load(r)).st.Of(r);
            && y.handed == x.handed
            && y.phase ==
               if st.writer.Writing? then if x.tries + 1 < MAX_TRIES then Trying else Idle
               else if |st.published| % 0x8000_0000 == 0 then Idle
               else Copying(st.counter, |st.published|, map[])
  {
    EmptyExactly(st);
    WrappedParity(st.Raw());
  }

  // A reader's steps write nothing that is shared, and nothing of another reader's.
  lemma ReadersTouchNothing(st: State, e: Event)
    requires WellShaped(st) && Apply(st, e).Next? && (e.Start? || e.Load? || e.Fetch? || e.Check?)
    ensures Apply(st, e).st.(readers := st.readers) == st
    ensures forall q: nat :: q != e.r ==> Apply(st, e).st.Of(q) == st.Of(q)
  {
  }

  // While no frame is being written and none has been begun since the load, the check passes: a
  // reader loses only to a publisher.
  lemma QuietReadSucceeds(st: State, r: nat)
    requires Inv(st) && st.Of(r).phase.Copying? && st.Of(r).phase.at == |st.published|
    requires WholeFrame(st.Of(r).phase.out.Keys)
    ensures var t := Apply(st, Check(r)); t.Next? && |t.st.Of(r).handed| == |st.Of(r).handed| + 1
  {
    assert CopyOk(st, st.Of(r).phase);
    WrappedDifference(st.Raw(), 2 * |st.published|);
  }

  // The answer "nothing published yet" is right, except after every 2^31st frame.
  lemma EmptyExactly(st: State)
    requires Inv(st)
    ensures st.counter == 0 <==> st.writer.Quiet? && |st.published| % 0x8000_0000 == 0
  {
    var raw := st.Raw();
    assert raw == TWO32 * (raw / TWO32) + raw % TWO32;
    WrappedParity(raw);
    if st.writer.Quiet? {
      var n := |st.published|;
      assert n == 0x8000_0000 * (n / 0x8000_0000) + n % 0x8000_0000;
      assert 2 * n == TWO32 * (n / 0x8000_0000) + 2 * (n % 0x8000_0000);
    }
  }

  // ---------------------------------------------------------------- what becomes of *out

  // The counter values at which an attempt goes on to copy.
  predicate Enters(c: Counter) { c != 0 && c % 2 == 0 }

  ghost predicate Entered(met: seq<Counter>) { exists k :: 0 <= k < |met| && Enters(met[k]) }

  // The attempts that are over.
  function Over(x: Reader): seq<Counter> { if x.phase.Copying? && x.met != [] then x.met[..|x.met| - 1] else x.met }

  // An attempt that is over wrote all of the caller's frame or nothing of it; one under way has written
  // the words it has copied.
  ghost predicate WroteOk(x: Reader) {
    && (Entered(Over(x)) ==> WholeFrame(x.wrote.Keys))
    && (!Entered(Over(x)) ==> x.wrote == if x.phase.Copying? then x.phase.out else map[])
    && (x.phase.Copying? ==> x.met != [] && Enters(x.met[|x.met| - 1]))
    && (x.phase.Copying? ==> forall i :: i in x.phase.out ==> i in x.wrote && x.wrote[i] == x.phase.out[i])
  }

  lemma EnteredSnoc(met: seq<Counter>, c: Counter)
    ensures Entered(met + [c]) <==> Entered(met) || Enters(c)
  {
    var more := met + [c];
    assert forall k :: 0 <= k < |met| ==> more[k] == met[k];
    assert more[|met|] == c;
  }

  lemma WroteStep(st: State, e: Event, r: nat)
    requires WellShaped(st) && Apply(st, e).Next? && WroteOk(st.Of(r))
    ensures WroteOk(Apply(st, e).st.Of(r))
  {
    hide Entered, Enters, WholeFrame;
    var x, y := st.Of(r), Apply(st, e).st.Of(r);
    match e
    case Begin(_) =>
    case Store(_) =>
    case End =>
    case Start(q) => if q == r { NothingEntered(); }
    case Load(q) => if q == r { LoadWrote(st, r); }
    case Fetch(q, i) => if q == r { FetchWrote(st, r, i); }
    case Check(q) => if q == r { CheckWrote(st, r); }
  }

  lemma NothingEntered()
    ensures !Entered([])
  {
  }

  lemma LoadWrote(st: State, r: nat)
    requires WellShaped(st) && Apply(st, Load(r)).Next? && WroteOk(st.Of(r))
    ensures WroteOk(Apply(st, Load(r)).st.Of(r))
  {
    var x := st.Of(r);
    EnteredSnoc(x.met, st.counter);
    assert (x.met + [st.counter])[..|x.met|] == x.met;
    hide Entered, WholeFrame;
  }

  lemma FetchWrote(st: State, r: nat, i: nat)
    requires WellShaped(st) && Apply(st, Fetch(r, i)).Next? && WroteOk(st.Of(r))
    ensures WroteOk(Apply(st, Fetch(r, i)).st.Of(r))
  {
    hide Entered, Enters;
  }

  lemma CheckWrote(st: State, r: nat)
    requires WellShaped(st) && Apply(st, Check(r)).Next? && WroteOk(st.Of(r))
    ensures WroteOk(Apply(st, Check(r)).st.Of(r))
  {
    var x := st.Of(r);
    assert x.met == Over(x) + [x.met[|x.met| - 1]];
    EnteredSnoc(Over(x), x.met[|x.met| - 1]);
    hide Entered, Enters;
  }

  lemma {:induction false} WroteInRun(es: seq<Event>, r: nat)
    requires Run(es).Next?
    ensures WroteOk(Run(es).st.Of(r))
    decreases |es|
  {
    if es != [] {
      var front := es[..|es| - 1];
      WroteInRun(front, r);
      WroteStep(Run(front).st, es[|es| - 1], r);
    }
    hide Apply;
  }

  // When a read is over, and so also when it answers false, the caller's frame is untouched exactly
  // when every attempt met a counter that was zero or odd; otherwise every word of it was written.
  lemma OutUntouchedExactly(es: seq<Event>, r: nat)
    requires Run(es).Next? && Run(es).st.Of(r).phase.Idle?
    ensures var x := Run(es).st.Of(r);
            && (x.wrote == map[] <==> forall k :: 0 <= k < |x.met| ==> x.met[k] == 0 || x.met[k] % 2 == 1)
            && (x.wrote != map[] ==> WholeFrame(x.wrote.Keys))
  {
    WroteInRun(es, r);
    var x := Run(es).st.Of(r);
    hide Run;
    if Entered(x.met) { assert 0 in x.wrote; }
  }

  // ------------------------------------------------- the bound on publishes cannot be dropped

  function Solid(v: int): Frame { seq(WORDS, _ => v) }

  function Stores(n: nat): (es: seq<Event>)
    ensures |es| == n
  {
    if n == 0 then [] else Stores(n - 1) + [Store(n - 1)]
  }

  function Fetches(r: nat, n: nat): (es: seq<Event>)
    ensures |es| == n
  {
    if n == 0 then [] else Fetches(r, n - 1) + [Fetch(r, n)]
  }

  function Publish(f: Frame): seq<Event> { [Begin(f)] + Stores(WORDS) + [End] }

  lemma RunThen(es: seq<Event>, e: Event)
    requires Run(es).Next?
    ensures Run(es + [e]) == Apply(Run(es).st, e)
  {
    assert (es + [e])[..|es|] == es;
  }

  // The state with the first n words of the frame being written stored.
  ghost predicate Stored(st: State, t: State, n: nat)
    requires WellShaped(st) && WellShaped(t)
  {
    && st.writer.Writing? && t.writer.Writing? && t.writer.frame == st.writer.frame
    && (forall i: nat :: i in t.writer.copied <==> i < n)
    && t == st.(slots := t.slots, writer := t.writer)
    && t.slots[1 - TargetSlot(st)] == st.slots[1 - TargetSlot(st)]
    && forall i :: 0 <= i < n && i < WORDS ==> t.slots[TargetSlot(st)][i] == st.writer.frame[i]
  }

  lemma StoreOneMore(st: State, t: State, n: nat)
    requires WellShaped(st) && WellShaped(t) && Stored(st, t, n) && n < WORDS
    ensures Apply(t, Store(n)).Next? && Stored(st, Apply(t, Store(n)).st, n + 1)
  {
    assert TargetSlot(t) == TargetSlot(st);
  }

  lemma {:induction false} StoresRun(es: seq<Event>, n: nat)
    requires Run(es).Next? && Run(es).st.writer.Writing? && Run(es).st.writer.copied == {} && n <= WORDS
    ensures Run(es + Stores(n)).Next? && Stored(Run(es).st, Run(es + Stores(n)).st, n)
  {
    hide Apply, Run;
    if n == 0 {
      assert es + Stores(0) == es;
    } else {
      StoresRun(es, n - 1);
      assert es + Stores(n) == es + Stores(n - 1) + [Store(n - 1)];
      RunThen(es + Stores(n - 1), Store(n - 1));
      StoreOneMore(Run(es).st, Run(es + Stores(n - 1)).st, n - 1);
    }
  }

  // The state once frame f has been published.
  ghost predicate PublishedOne(st: State, t: State, f: Frame)
    requires WellShaped(st) && WellShaped(t)
  {
    && t == st.(slots := t.slots, counter := Bump(st.counter, 2), published := st.published + [f])
    && t.slots[SlotOf(Bump(st.counter, 2))] == f
    && t.slots[1 - SlotOf(Bump(st.counter, 2))] == st.slots[1 - SlotOf(Bump(st.counter, 2))]
  }

  lemma EndPublishes(st: State, b: State, t: State, f: Frame)
    requires WellShaped(st) && WellShaped(t) && st.writer.Quiet?
    requires b == st.(counter := Bump(st.counter, 1), writer := Writing(f, {})) && Stored(b, t, WORDS)
    ensures Apply(t, End).Next? && PublishedOne(st, Apply(t, End).st, f)
  {
    BumpTwice(st.counter);
    assert t.slots[TargetSlot(b)] == f;
  }

  lemma PublishRun(es: seq<Event>, f: Frame)
    requires Run(es).Next? && Run(es).st.writer.Quiet?
    ensures Run(es + Publish(f)).Next? && PublishedOne(Run(es).st, Run(es + Publish(f)).st, f)
  {
    hide Run;
    RunThen(es, Begin(f));
    var b := Run(es + [Begin(f)]).st;
    assert b == Run(es).st.(counter := Bump(Run(es).st.counter, 1), writer := Writing(f, {}));
    hide Apply, PublishedOne, Stored;
    StoresRun(es + [Begin(f)], WORDS);
    var t := Run(es + [Begin(f)] + Stores(WORDS)).st;
    EndPublishes(Run(es).st, b, t, f);
    RunThen(es + [Begin(f)] + Stores(WORDS), End);
    assert es + Publish(f) == es + [Begin(f)] + Stores(WORDS) + [End];
  }

  lemma BumpTwice(c: Counter)
    ensures Bump(Bump(c, 1), 1) == Bump(c, 2)
  {
  }

  function PublishMany(f: Frame, n: nat): seq<Event> {
    if n == 0 then [] else PublishMany(f, n - 1) + Publish(f)
  }

  ghost predicate PublishedMany(st: State, t: State, f: Frame, n: nat)
    requires WellShaped(st) && WellShaped(t)
  {
    && t.writer.Quiet? && t.readers == st.readers
    && t.counter == Bump(st.counter, 2 * n) && |t.published| == |st.published| + n
    && (forall g :: g in t.published ==> g in st.published || g == f)
    && (n >= 1 ==> t.slots[SlotOf(t.counter)] == f)
    && (n >= 2 ==> t.slots[1 - SlotOf(t.counter)] == f)
  }

  lemma OneMorePublished(st: State, t: State, u: State, f: Frame, n: nat)
    requires WellShaped(st) && WellShaped(t) && WellShaped(u) && st.counter % 2 == 0
    requires PublishedMany(st, t, f, n) && PublishedOne(t, u, f)
    ensures PublishedMany(st, u, f, n + 1)
  {
    BumpOn(st.counter, n);
    SlotsAlternate(st.counter, n);
    hide Bump, SlotOf;
  }

  // Any number of publishes of one frame: the counter moves on by two each time.
  lemma {:induction false} PublishManyRun(es: seq<Event>, f: Frame, n: nat)
    requires Run(es).Next? && Run(es).st.writer.Quiet? && Run(es).st.counter % 2 == 0
    ensures Run(es + PublishMany(f, n)).Next? && PublishedMany(Run(es).st, Run(es + PublishMany(f, n)).st, f, n)
  {
    hide Run, Apply;
    if n == 0 {
      assert es + PublishMany(f, 0) == es;
    } else {
      PublishManyRun(es, f, n - 1);
      var front := es + PublishMany(f, n - 1);
      assert es + PublishMany(f, n) == front + Publish(f);
      PublishRun(front, f);
      OneMorePublished(Run(es).st, Run(front).st, Run(front + Publish(f)).st, f, n - 1);
    }
  }

  lemma BumpOn(c: Counter, n: nat)
    ensures Bump(Bump(c, 2 * n), 2) == Bump(c, 2 * (n + 1))
  {
    var q := (c + 2 * n) / TWO32;
    assert c + 2 * n == TWO32 * q + Bump(c, 2 * n);
    Multiples(q, Bump(c, 2 * n) + 2, TWO32);
  }

  lemma SlotsAlternate(c: Counter, n: nat)
    requires c % 2 == 0
    ensures SlotOf(Bump(Bump(c, 2 * n), 2)) == 1 - SlotOf(Bump(c, 2 * n))
  {
    hide SlotOf, Bump;
    var k := c / 2 + n;
    assert c == 2 * (c / 2);
    BumpOn(c, n);
    BumpIs(c, n, k);
    BumpIs(c, n + 1, k + 1);
    SlotOfWrapped(k);
    SlotOfWrapped(k + 1);
    Alternates(k);
  }

  lemma Alternates(k: nat)
    ensures (k + 1) % 2 == 1 - k % 2
  {
  }

  lemma BumpIs(c: Counter, n: nat, k: nat)
    requires c + 2 * n == 2 * k
    ensures Bump(c, 2 * n) == 2 * k % TWO32
  {
  }

  // The state once reader r has also copied words 1 to n of its slot.
  ghost predicate Fetched(st: State, t: State, r: nat, n: nat)
    requires WellShaped(st) && WellShaped(t)
  {
    && st.Of(r).phase.Copying? && t.Of(r).phase.Copying?
    && t == st.(readers := t.readers)
    && t.Of(r) == st.Of(r).(phase := st.Of(r).phase.(out := t.Of(r).phase.out), wrote := t.Of(r).wrote)
    && OutFrom(t.Of(r).phase.out, st.Of(r).phase.out, st.slots[SlotOf(st.Of(r).phase.s)], n)
  }

  ghost predicate OutFrom(out: map<nat, int>, from: map<nat, int>, slot: Frame, n: nat) {
    && from.Keys <= out.Keys
    && (forall i: nat :: 1 <= i <= n && i < WORDS ==> i in out && out[i] == slot[i])
    && (0 in from ==> out[0] == from[0])
  }

  lemma FetchOneMore(st: State, t: State, r: nat, n: nat)
    requires WellShaped(st) && WellShaped(t) && Fetched(st, t, r, n) && n + 1 < WORDS
    ensures Apply(t, Fetch(r, n + 1)).Next? && Fetched(st, Apply(t, Fetch(r, n + 1)).st, r, n + 1)
  {
  }

  lemma {:induction false} FetchesRun(es: seq<Event>, r: nat, n: nat)
    requires Run(es).Next? && Run(es).st.Of(r).phase.Copying? && n < WORDS
    ensures Run(es + Fetches(r, n)).Next? && Fetched(Run(es).st, Run(es + Fetches(r, n)).st, r, n)
  {
    hide Run, Apply;
    if n == 0 {
      assert es + Fetches(r, 0) == es;
    } else {
      FetchesRun(es, r, n - 1);
      assert es + Fetches(r, n) == es + Fetches(r, n - 1) + [Fetch(r, n)];
      RunThen(es + Fetches(r, n - 1), Fetch(r, n));
      FetchOneMore(Run(es).st, Run(es + Fetches(r, n - 1)).st, r, n - 1);
    }
  }

  // One reader copies a single word, 2^31 frames go by, and it copies the rest: the counter is back
  // where it was, the check passes, and the frame handed over was never published.
  function TornPrefix(): seq<Event> { Publish(Solid(0)) + [Start(0), Load(0), Fetch(0, 0)] }

  function TornRun(): seq<Event> {
    TornPrefix() + PublishMany(Solid(1), 0x8000_0000) + Fetches(0, WORDS - 1) + [Check(0)]
  }

  lemma TornPrefixRun()
    ensures Run(TornPrefix()).Next?
    ensures var st := Run(TornPrefix()).st;
            && st.writer.Quiet? && st.counter == 2 && st.published == [Solid(0)]
            && st.Of(0) == Reader(Copying(2, 1, map[0 := 0]), 0, [], [2], map[0 := 0])
  {
    hide Run;
    assert Run([]) == Next(Initial()) by { RunOfNothing(); }
    assert [] + Publish(Solid(0)) == Publish(Solid(0));
    PublishRun([], Solid(0));
    var es := Publish(Solid(0));
    var st := Run(es).st;
    assert st.counter == 2 && st.published == [Solid(0)] && st.slots[1] == Solid(0);
    hide Apply;
    FirstWord(st);
    RunThen(es, Start(0));
    RunThen(es + [Start(0)], Load(0));
    RunThen(es + [Start(0)] + [Load(0)], Fetch(0, 0));
    assert TornPrefix() == es + [Start(0)] + [Load(0)] + [Fetch(0, 0)];
  }

  // The first three steps of a read, after one frame.
  lemma FirstWord(st: State)
    requires WellShaped(st) && st.writer.Quiet? && st.counter == 2 && st.published == [Solid(0)]
    requires st.slots[1] == Solid(0) && st.Of(0) == Reader(Idle, 0, [], [], map[])
    ensures var a := Apply(st, Start(0));
            a.Next? &&
            var b := Apply(a.st, Load(0));
            b.Next? &&
            var c := Apply(b.st, Fetch(0, 0));
            && c.Next? && c.st.writer == st.writer && c.st.counter == st.counter && c.st.published == st.published
            && c.st.Of(0) == Reader(Copying(2, 1, map[0 := 0]), 0, [], [2], map[0 := 0])
  {
  }

  lemma RunOfNothing()
    ensures Run([]) == Next(Initial())
  {
  }

  lemma BoundIsNeeded()
    ensures Run(TornRun()).Next?
    ensures var x := Run(TornRun()).st.Of(0);
            |x.handed| == 1 && x.handed[0].frame !in Run(TornRun()).st.published
    ensures |Run(TornRun()).st.published| == 0x8000_0001
  {
    hide Run, Apply, PublishMany, Fetches, TornPrefix;
    TornPrefixRun();
    var es := TornPrefix();
    PublishManyRun(es, Solid(1), 0x8000_0000);
    var es2 := es + PublishMany(Solid(1), 0x8000_0000);
    var st := Run(es2).st;
    assert st.counter == 2 && st.slots[1] == Solid(1) && st.Of(0) == Run(es).st.Of(0);
    FetchesRun(es2, 0, WORDS - 1);
    var es3 := es2 + Fetches(0, WORDS - 1);
    var t := Run(es3).st;
    RunThen(es3, Check(0));
    TornCheck(t);
    var torn := Run(TornRun()).st.Of(0).handed[0].frame;
    assert torn[0] != Solid(1)[0] && torn[1] != Solid(0)[1];
  }

  lemma TornCheck(t: State)
    requires WellShaped(t) && t.Of(0).phase.Copying? && t.counter == 2 == t.Of(0).phase.s && t.Of(0).handed == []
    requires OutFrom(t.Of(0).phase.out, map[0 := 0], Solid(1), WORDS - 1)
    ensures Apply(t, Check(0)).Next?
    ensures var u := Apply(t, Check(0)).st;
            && u.published == t.published && |u.Of(0).handed| == 1
            && u.Of(0).handed[0].frame[0] == 0 && u.Of(0).handed[0].frame[1] == 1
  {
    var out := t.Of(0).phase.out;
    assert out[0] == 0 && out[1] == Solid(1)[1];
  }

  // ------------------------------------------------------------------------ the exact bound

  // What a reader may rely on: only whole published frames, and never an older one after a newer.
  ghost predicate Safe(es: seq<Event>) {
    Run(es).Next? ==> forall r: nat :: HandedOk(Run(es).st, Run(es).st.Of(r))
  }

  // A copy is of something that was published.
  ghost predicate CopiesSomething(st: State) {
    && WellShaped(st) && st.counter == st.Raw() % TWO32
    && forall r: nat :: st.Of(r).phase.Copying? ==> 1 <= st.Of(r).phase.at <= |st.published|
  }

  lemma CopiesSomethingStep(st: State, e: Event)
    requires CopiesSomething(st) && Apply(st, e).Next?
    ensures CopiesSomething(Apply(st, e).st) && |st.published| <= |Apply(st, e).st.published|
  {
    var t := Apply(st, e).st;
    BumpWrapped(st.Raw(), 1);
    forall r: nat ensures t.Of(r).phase.Copying? ==> 1 <= t.Of(r).phase.at <= |t.published| {
      if t.Of(r).phase.Copying? { CopyBegins(st, e, r); }
    }
    hide WholeFrame;
  }

  lemma {:induction false} CopiesSomethingInRun(es: seq<Event>, n: nat)
    requires Run(es).Next? && n <= |es|
    ensures Run(es[..n]).Next? && CopiesSomething(Run(es[..n]).st)
    ensures |Run(es[..n]).st.published| <= |Run(es).st.published|
    decreases |es|
  {
    hide Apply, CopiesSomething;
    if es == [] {
      StartCopiesNothing();
    } else {
      var front := es[..|es| - 1];
      CopiesSomethingInRun(front, |front|);
      assert front[..|front|] == front;
      CopiesSomethingStep(Run(front).st, es[|es| - 1]);
      if n < |es| {
        CopiesSomethingInRun(front, n);
        assert es[..n] == front[..n];
      } else {
        assert es[..n] == es;
      }
    }
  }

  lemma StartCopiesNothing()
    ensures Run([]).Next? && CopiesSomething(Run([]).st)
  {
  }

  // In a run with few frames every copy is within the bound.
  lemma FewFramesAreWithin(es: seq<Event>, b: nat)
    requires Run(es).Next? && |Run(es).st.published| <= b
    ensures RunWithin(es, b)
  {
    hide Run;
    forall n: nat | n <= |es| && Run(es[..n]).Next? ensures Within(Run(es[..n]).st, b) {
      CopiesSomethingInRun(es, n);
    }
  }

  // Every run in which fewer than b frames are published during any one copy is safe exactly when b
  // is at most 2^31.
  lemma SafeExactly(b: nat)
    ensures (forall es: seq<Event> :: RunWithin(es, b) ==> Safe(es)) <==> b <= 0x8000_0000
  {
    hide Run, RunWithin, TimelyRun, Inv, HandedOk;
    if b <= 0x8000_0000 {
      forall es: seq<Event> | RunWithin(es, b) ensures Safe(es) {
        if Run(es).Next? {
          WithinIsTimely(es, b);
          EveryRunIsSafe(es);
          InvIsSafe(Run(es).st);
        }
      }
    } else {
      BoundIsNeeded();
      FewFramesAreWithin(TornRun(), 0x8000_0001);
      WiderBound(TornRun(), 0x8000_0001, b);
      TornIsUnsafe();
    }
  }

  lemma WithinIsTimely(es: seq<Event>, b: nat)
    requires RunWithin(es, b) && b <= 0x8000_0000
    ensures TimelyRun(es)
  {
    hide Run;
    forall n: nat | n <= |es| && Run(es[..n]).Next? ensures Timely(Run(es[..n]).st) {
      assert Within(Run(es[..n]).st, b);
    }
  }

  lemma WiderBound(es: seq<Event>, a: nat, b: nat)
    requires RunWithin(es, a) && a <= b
    ensures RunWithin(es, b)
  {
    hide Run;
    forall n: nat | n <= |es| && Run(es[..n]).Next? ensures Within(Run(es[..n]).st, b) {
      assert Within(Run(es[..n]).st, a);
    }
  }

  lemma InvIsSafe(st: State)
    requires Inv(st)
    ensures forall r: nat :: HandedOk(st, st.Of(r))
  {
  }

  lemma TornIsUnsafe()
    ensures !Safe(TornRun())
  {
    hide Run, TornRun;
    BoundIsNeeded();
    var st := Run(TornRun()).st;
    HandedArePublished(st, st.Of(0));
    hide HandedOk;
  }

  lemma HandedArePublished(st: State, x: Reader)
    ensures HandedOk(st, x) ==> forall j :: 0 <= j < |x.handed| ==> x.handed[j].frame in st.published
  {
  }

  // -------------------------------------------------- a read that fails and writes all the same

  function Loads(r: nat, n: nat): (es: seq<Event>)
    ensures |es| == n
  {
    if n == 0 then [] else Loads(r, n - 1) + [Load(r)]
  }

  lemma {:induction false} LoadsRun(es: seq<Event>, r: nat, n: nat)
    requires Run(es).Next? && Run(es).st.counter % 2 == 1
    requires Run(es).st.Of(r).phase.Trying? && Run(es).st.Of(r).tries + n <= MAX_TRIES
    ensures Run(es + Loads(r, n)).Next? && Run(es + Loads(r, n)).st.counter == Run(es).st.counter
    ensures var x, y := Run(es).st.Of(r), Run(es + Loads(r, n)).st.Of(r);
            && y.handed == x.handed && y.wrote == x.wrote && |y.met| == |x.met| + n && x.met <= y.met
            && (if x.tries + n < MAX_TRIES || n == 0 then y.phase == Trying && y.tries == x.tries + n
                else y.phase == Idle)
  {
    hide Run, Apply;
    if n == 0 {
      assert es + Loads(r, 0) == es;
    } else {
      LoadsRun(es, r, n - 1);
      var before := es + Loads(r, n - 1);
      assert es + Loads(r, n) == before + [Load(r)];
      RunThen(before, Load(r));
      OddLoad(Run(before).st, r);
    }
  }

  lemma OddLoad(st: State, r: nat)
    requires WellShaped(st) && st.counter % 2 == 1 && st.Of(r).phase.Trying?
    ensures Apply(st, Load(r)).Next? && Apply(st, Load(r)).st.counter == st.counter
    ensures var x, y := st.Of(r), Apply(st, Load(r)).st.Of(r);
            && y.handed == x.handed && y.wrote == x.wrote && y.met == x.met + [st.counter]
            && (if x.tries + 1 < MAX_TRIES then y.phase == Trying && y.tries == x.tries + 1 else y.phase == Idle)
  {
  }

  // A whole copy is spoilt by two publishes, and the publisher then stands still in the middle of a
  // third for as long as the reader goes on trying.
  function SpoiltRun(): seq<Event> {
    TornPrefix() + Fetches(0, WORDS - 1) + PublishMany(Solid(1), 2) + [Check(0)] + [Begin(Solid(2))] +
        Loads(0, MAX_TRIES - 1)
  }

  // The read answers false, and the caller's previous frame is gone.
  lemma FalseReadOverwrites()
    ensures Run(SpoiltRun()).Next?
    ensures var x := Run(SpoiltRun()).st.Of(0); x.phase == Idle && x.handed == [] && WholeFrame(x.wrote.Keys)
  {
    hide Run, Apply, PublishMany, Fetches, TornPrefix, Loads;
    TornPrefixRun();
    FetchesRun(TornPrefix(), 0, WORDS - 1);
    var es := TornPrefix() + Fetches(0, WORDS - 1);
    PublishManyRun(es, Solid(1), 2);
    var es2 := es + PublishMany(Solid(1), 2);
    assert Run(es2).st.counter == 6 && Run(es2).st.Of(0) == Run(es).st.Of(0);
    RunThen(es2, Check(0));
    SpoiltCheck(Run(es2).st);
    var es3 := es2 + [Check(0)];
    RunThen(es3, Begin(Solid(2)));
    BeginOdd(Run(es3).st, Solid(2));
    var es4 := es3 + [Begin(Solid(2))];
    LoadsRun(es4, 0, MAX_TRIES - 1);
    WroteInRun(SpoiltRun(), 0);
    var x := Run(SpoiltRun()).st.Of(0);
    assert x.met[0] == 2;
    assert Enters(x.met[0]);
  }

  lemma SpoiltCheck(st: State)
    requires WellShaped(st) && st.Of(0).phase.Copying? && st.counter == 6 && st.Of(0).phase.s == 2
    requires st.Of(0).tries == 0 && WholeFrame(st.Of(0).phase.out.Keys)
    ensures Apply(st, Check(0)).Next?
    ensures var t := Apply(st, Check(0)).st;
            && t == st.(readers := t.readers) && t.Of(0) == st.Of(0).(phase := Trying, tries := 1)
  {
  }

  lemma BeginOdd(st: State, f: Frame)
    requires WellShaped(st) && st.writer.Quiet? && st.counter == 6
    ensures Apply(st, Begin(f)).Next?
    ensures var t := Apply(st, Begin(f)).st; t.counter == 7 && t.readers == st.readers
  {
  }
}
