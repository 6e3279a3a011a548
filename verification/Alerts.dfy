// The alert queue (src/ff-alert-queue.c) and the player that shows one alert at a time
// (src/ff-alert-source.c). Each operation is one step; the lock around the queue and the thread
// each runs on are not part of the model.
module Alerts {
  import opened Bytes

  const MAX: nat := 64
  const KINDS: int := 7
  const TWO64: nat := 0x1_0000_0000_0000_0000

  datatype Event = Event(kind: int, name: string, message: string, amount: int, tier: int)

  const BLANK := Event(0, "", "", 0, 0)

  // ------------------------------------------------------------------------------- the ring

  function Slot(k: nat): (i: nat)
    ensures i < MAX
    ensures k < MAX ==> i == k
    ensures MAX <= k < 2 * MAX ==> i == k - MAX
  {
    k % MAX
  }

  // The events a ring holds, oldest first.
  function Ring(items: seq<Event>, head: nat, count: nat): (w: seq<Event>)
    requires |items| == MAX
    ensures |w| == count
  {
    seq(count, i requires 0 <= i < count => items[Slot(head + i)])
  }

  lemma RingPush(items: seq<Event>, head: nat, count: nat, e: Event)
    requires |items| == MAX && head < MAX && count < MAX
    ensures Ring(items[Slot(head + count) := e], head, count + 1) == Ring(items, head, count) + [e]
  {
    var now := items[Slot(head + count) := e];
    forall i: nat | i < count ensures Ring(now, head, count + 1)[i] == Ring(items, head, count)[i] {
      assert Slot(head + i) != Slot(head + count);
    }
  }

  lemma RingPop(items: seq<Event>, head: nat, count: nat)
    requires |items| == MAX && head < MAX && 0 < count <= MAX
    ensures Ring(items, head, count) == [items[head]] + Ring(items, Slot(head + 1), count - 1)
  {
    var all, rest := Ring(items, head, count), Ring(items, Slot(head + 1), count - 1);
    forall i | 0 <= i < |rest| ensures rest[i] == all[1..][i] {
      assert Slot(Slot(head + 1) + i) == Slot(head + (i + 1));
    }
    assert Slot(head + 0) == head;
    assert all == [all[0]] + all[1..];
  }

  class Queue {
    const items: array<Event>
    var head: nat
    var count: nat
    var dropped: nat

    ghost predicate Valid()
      reads this
    {
      items.Length == MAX && head < MAX && count <= MAX && dropped < TWO64
    }

    ghost function Waiting(): (w: seq<Event>)
      requires Valid()
      reads this, items
      ensures |w| == count
    {
      Ring(items[..], head, count)
    }

    constructor ()
      ensures Valid() && fresh(items) && Waiting() == [] && dropped == 0
    {
      items := new Event[MAX](_ => BLANK);
      head, count, dropped := 0, 0, 0;
    }

    // A full queue refuses the newest.
    method Push(e: Event) returns (ok: bool)
      requires Valid()
      modifies this, items
      ensures Valid() && ok == (|old(Waiting())| < MAX)
      ensures Waiting() == if ok then old(Waiting()) + [e] else old(Waiting())
      ensures dropped == if ok then old(dropped) else (old(dropped) + 1) % TWO64
    {
      if count >= MAX {
        dropped := (dropped + 1) % TWO64;
        return false;
      }
      RingPush(items[..], head, count, e);
      items[Slot(head + count)] := e;
      assert items[..] == old(items[..])[Slot(head + count) := e];
      count := count + 1;
      return true;
    }

    method Pop() returns (ok: bool, e: Event)
      requires Valid()
      modifies `head, `count
      ensures Valid() && ok == (old(Waiting()) != [])
      ensures ok ==> old(Waiting()) == [e] + Waiting()
      ensures !ok ==> Waiting() == old(Waiting())
    {
      if count == 0 { return false, BLANK; }
      RingPop(items[..], head, count);
      e := items[head];
      head := Slot(head + 1);
      count := count - 1;
      return true, e;
    }

    method Clear() returns (n: nat)
      requires Valid()
      modifies `head, `count
      ensures Valid() && n == |old(Waiting())| && Waiting() == []
    {
      n := count;
      head, count := 0, 0;
    }
  }

  // ------------------------------------------------------------------------------ accounting

  // What became of an event that has left the queue.
  datatype Fate = Started | Cleared

  // Arrival numbers of the events started, in order.
  function StartedOf(gone: seq<Fate>): (r: seq<nat>)
    ensures |r| <= |gone|
  {
    if gone == [] then []
    else StartedOf(gone[..|gone| - 1]) + if gone[|gone| - 1] == Started then [|gone| - 1] else []
  }

  function ClearedOf(gone: seq<Fate>): (n: nat) {
    if gone == [] then 0
    else ClearedOf(gone[..|gone| - 1]) + if gone[|gone| - 1] == Cleared then 1 else 0
  }

  // The events among these that were started: the arrivals without the cleared ones.
  function Kept(es: seq<Event>, gone: seq<Fate>): (r: seq<Event>)
    requires |es| == |gone|
  {
    if es == [] then []
    else Kept(es[..|es| - 1], gone[..|es| - 1]) + if gone[|es| - 1] == Started then [es[|es| - 1]] else []
  }

  // On screen from Start to End; an end says how long the alert was up, how long it was due, and
  // whether it was skipped.
  datatype Mark = Start(event: Event) | End(up: real, due: real, skipped: bool)

  // What has been on screen, in order.
  function Shown(marks: seq<Mark>): seq<Event> {
    if marks == [] then []
    else Shown(marks[..|marks| - 1]) + if marks[|marks| - 1].Start? then [marks[|marks| - 1].event] else []
  }

  // Starts and ends by turns, a start first.
  predicate ByTurns(marks: seq<Mark>) {
    && (marks != [] ==> marks[0].Start?)
    && forall k :: 0 < k < |marks| ==> (marks[k].Start? <==> marks[k - 1].End?)
  }

  predicate Showing(marks: seq<Mark>) { marks != [] && marks[|marks| - 1].Start? }

  // No alert ends early of its own accord.
  predicate Fair(marks: seq<Mark>) {
    forall k :: 0 <= k < |marks| && marks[k].End? ==> marks[k].skipped || marks[k].up >= marks[k].due
  }

  class AlertSource {
    const queue: Queue
    var enabled: set<int>
    var paused: bool
    var playing: bool
    var elapsed: real
    var duration: real
    var showing: Event             // the event whose text is on screen
    ghost var accepted: seq<Event> // every event that entered the queue
    ghost var gone: seq<Fate>      // what became of those that left it
    ghost var refused: nat         // refusals by a full queue
    ghost var marks: seq<Mark>
    ghost var up: real             // time ticked since the last start
    ghost var skipped: bool        // whether it was skipped since

    ghost predicate Valid()
      reads this, queue, queue.items
    {
      && queue.Valid()
      && |gone| <= |accepted| && queue.Waiting() == accepted[|gone|..]
      && queue.dropped == refused % TWO64
      && (playing <==> Showing(marks))
      && Shown(marks) == Kept(accepted[..|gone|], gone)
      && (playing ==> marks[|marks| - 1].event == showing)
      && ByTurns(marks) && Fair(marks)
      && (playing && !skipped ==> elapsed == up)
    }

    constructor (duration: real)
      ensures Valid() && fresh(queue) && fresh(queue.items) && accepted == [] && marks == [] &&
                this.duration == duration
    {
      queue := new Queue();
      enabled, paused, playing, elapsed, this.duration, showing := {}, false, false, 0.0, duration, BLANK;
      accepted, gone, refused, marks, up, skipped := [], [], 0, [], 0.0, false;
    }

    // ff_alert_enqueue.
    method Enqueue(e: Event)
      requires Valid()
      modifies this, queue, queue.items
      ensures Valid() && gone == old(gone) && marks == old(marks)
      ensures playing == old(playing) && elapsed == old(elapsed) && duration == old(duration) && paused == old(paused)
      ensures showing == old(showing)
      ensures var wanted := 0 <= e.kind < KINDS && e.kind in old(enabled);
              var room := |old(queue.Waiting())| < MAX;
              && accepted == (if wanted && room then old(accepted) + [e] else old(accepted))
              && refused == old(refused) + (if wanted && !room then 1 else 0)
      ensures enabled == old(enabled)
    {
      hide ByTurns, Fair, Shown, Kept, Ring, Showing;
      if e.kind < 0 || e.kind >= KINDS { return; }
      if e.kind !in enabled { return; }
      var ok := queue.Push(e);
      if ok {
        assert (accepted + [e])[..|gone|] == accepted[..|gone|];
        accepted := accepted + [e];
      } else {
        DropCount(refused);
        refused := refused + 1;
      }
    }

    // start_alert, for the event that has just left the queue.
    method StartAlert(e: Event)
      requires queue.Valid() && |gone| < |accepted| && e == accepted[|gone|] &&
                queue.Waiting() == accepted[|gone| + 1..]
      requires queue.dropped == refused % TWO64 && ByTurns(marks) && Fair(marks)
      requires Shown(marks) == Kept(accepted[..|gone|], gone)
      requires !playing && !Showing(marks)
      modifies `elapsed, `playing, `showing, `gone, `marks, `up, `skipped
      ensures Valid() && playing && elapsed == 0.0 && showing == e
      ensures gone == old(gone) + [Started] && marks == old(marks) + [Start(e)]
    {
      hide ByTurns, Fair, Shown, Kept, Ring;
      showing := e;
      elapsed := 0.0;
      playing := true;
      StartSnoc(marks, accepted[..|gone|], gone, e);
      assert accepted[..|gone| + 1] == accepted[..|gone|] + [e];
      gone := gone + [Started];
      marks := marks + [Start(e)];
      up, skipped := 0.0, false;
    }

    method EndAlert()
      requires Valid() && playing && elapsed >= duration
      modifies `elapsed, `playing, `marks
      ensures Valid() && !playing && elapsed == 0.0 && marks == old(marks) + [End(up, duration, skipped)]
    {
      playing := false;
      EndSnoc(marks, End(up, duration, skipped));
      marks := marks + [End(up, duration, skipped)];
      elapsed := 0.0;
    }

    // alert_tick: an alert that has been up its time ends, and then the oldest waiting one starts
    // unless starting is paused.
    method Tick(dt: real)
      requires Valid()
      modifies this, queue
      ensures Valid() && accepted == old(accepted) && refused == old(refused) && duration == old(duration)
      ensures paused == old(paused) && enabled == old(enabled)
      ensures old(playing && elapsed + dt < duration) ==>
                && playing && elapsed == old(elapsed) + dt && showing == old(showing)
                && gone == old(gone) && marks == old(marks) && skipped == old(skipped)
      ensures !old(playing && elapsed + dt < duration) ==>
                && elapsed == (if playing || old(playing) then 0.0 else old(elapsed))
                && (playing <==> !paused && old(queue.Waiting()) != [])
                && (playing ==> showing == old(queue.Waiting())[0] && queue.Waiting() == old(queue.Waiting())[1..])
                && (!playing ==> queue.Waiting() == old(queue.Waiting()))
                && gone == (if playing then old(gone) + [Started] else old(gone))
                && marks == old(marks)
                            + (if old(playing) then [End(old(up) + dt, duration, old(skipped))] else [])
                            + (if playing then [Start(showing)] else [])
    {
      hide ByTurns, Fair, Shown, Kept, Ring;
      if playing {
        elapsed := elapsed + dt;
        up := up + dt;
        if elapsed < duration { return; }
        EndAlert();
      }
      StartNext();
    }

    // The rest of a tick: the oldest waiting event, if there is one and starting is not paused.
    method StartNext()
      requires Valid() && !playing
      modifies this, queue
      ensures Valid() && accepted == old(accepted) && refused == old(refused) && duration == old(duration)
      ensures paused == old(paused) && enabled == old(enabled)
      ensures elapsed == if playing then 0.0 else old(elapsed)
      ensures playing <==> !paused && old(queue.Waiting()) != []
      ensures playing ==> showing == old(queue.Waiting())[0] && queue.Waiting() == old(queue.Waiting())[1..]
      ensures !playing ==> queue.Waiting() == old(queue.Waiting())
      ensures gone == (if playing then old(gone) + [Started] else old(gone))
      ensures marks == old(marks) + (if playing then [Start(showing)] else [])
    {
      hide ByTurns, Fair, Shown, Kept, Ring;
      if paused { return; }
      var have, next := queue.Pop();
      if have {
        assert accepted[|gone|..][1..] == accepted[|gone| + 1..];
        StartAlert(next);
      }
    }

    // on_skip: the next tick ends it.
    method Skip()
      requires Valid()
      modifies `elapsed, `skipped
      ensures Valid() && elapsed == duration && (playing ==> skipped)
    {
      elapsed := duration;
      skipped := true;
    }

    // A tick of an alert on screen, with the skip button pressed at one of the four moments below.
    method TickSkippedAt(dt: real, m: Moment)
      requires Valid() && playing
      modifies this, queue
      ensures Valid() && duration == old(duration)
      ensures var (ended, left) := TickWithSkip(old(elapsed), duration, dt, m);
              if ended then |marks| > |old(marks)| && marks[..|old(marks)|] == old(marks) && marks[|old(marks)|].End?
              else playing && elapsed == left && showing == old(showing) && marks == old(marks)
    {
      hide ByTurns, Fair, Shown, Kept, Ring, Showing, TickWithSkip;
      var due := AddSkippedAt(dt, m);
      if !due { return; }
      EndAlert();
      StartNext();
    }

    // The part of it that reads and writes elapsed; `due` is what the test finds.
    method AddSkippedAt(dt: real, m: Moment) returns (due: bool)
      requires Valid() && playing
      modifies `elapsed, `up, `skipped
      ensures Valid() && due == TickWithSkip(old(elapsed), duration, dt, m).0 && (due ==> elapsed >= duration)
      ensures !due ==> elapsed == TickWithSkip(old(elapsed), duration, dt, m).1
    {
      hide ByTurns, Fair, Shown, Kept, Ring, Showing;
      if m == BeforeRead { Skip(); }
      var sum := elapsed + dt;
      if m == BeforeWrite { Skip(); }
      elapsed := sum;
      up := up + dt;
      if m == BeforeTest { Skip(); }
      due := elapsed >= duration;
      if m == AfterTest { Skip(); }
    }

    // And the tick after it: by then the alert is gone, unless the press fell between the read and the
    // write of elapsed and the alert was due in neither tick.
    method TwoTicks(dt: real, m: Moment, dt2: real)
      requires Valid() && playing && dt >= 0.0 && dt2 >= 0.0
      modifies this, queue
      ensures Valid()
      ensures |marks| > |old(marks)| <==>
                m != BeforeWrite || Due(old(elapsed), dt, old(duration)) || Due(old(elapsed) + dt, dt2, old(duration))
      ensures |marks| > |old(marks)| ==> marks[..|old(marks)|] == old(marks) && marks[|old(marks)|].End?
      ensures |marks| <= |old(marks)| ==> playing && showing == old(showing) && elapsed == old(elapsed) + dt + dt2
    {
      TickSkippedAt(dt, m);
      Tick(dt2);
    }

    // on_clear: only what waits is thrown away.
    method ClearQueue() returns (n: nat)
      requires Valid()
      modifies queue, `gone
      ensures Valid() && n == |old(queue.Waiting())| && queue.Waiting() == []
      ensures gone == old(gone) + AllCleared(n)
    {
      ClearSnoc(accepted[..|gone|], gone, accepted[|gone|..]);
      n := queue.Clear();
      assert accepted[..|gone|] + accepted[|gone|..] == accepted == accepted[..|gone| + n];
      gone := gone + AllCleared(n);
    }

    method SetPaused(p: bool)
      requires Valid()
      modifies `paused
      ensures Valid() && paused == p
    {
      paused := p;
    }

    method SetDuration(d: real)
      requires Valid()
      modifies `duration
      ensures Valid() && duration == d
    {
      duration := d;
    }

    method SetEnabled(kinds: set<int>)
      requires Valid()
      modifies `enabled
      ensures Valid() && enabled == kinds
    {
      enabled := kinds;
    }
  }

  function AllCleared(n: nat): (r: seq<Fate>)
    ensures |r| == n
  {
    seq(n, _ => Cleared)
  }

  lemma DropCount(n: nat)
    ensures (n % TWO64 + 1) % TWO64 == (n + 1) % TWO64
  {
    assert n + 1 == TWO64 * (n / TWO64) + (n % TWO64 + 1);
    Multiples(n / TWO64, n % TWO64 + 1, TWO64);
  }

  lemma StartSnoc(marks: seq<Mark>, es: seq<Event>, gone: seq<Fate>, e: Event)
    requires |es| == |gone| && Shown(marks) == Kept(es, gone) && !Showing(marks)
    ensures Shown(marks + [Start(e)]) == Kept(es + [e], gone + [Started])
    ensures ByTurns(marks) ==> ByTurns(marks + [Start(e)])
    ensures Fair(marks) ==> Fair(marks + [Start(e)])
  {
    ShownSnoc(marks, Start(e));
    assert (es + [e])[..|es|] == es && (gone + [Started])[..|gone|] == gone;
    hide Shown;
  }

  lemma ShownSnoc(marks: seq<Mark>, m: Mark)
    ensures Shown(marks + [m]) == Shown(marks) + if m.Start? then [m.event] else []
  {
    assert (marks + [m])[..|marks|] == marks;
  }

  lemma EndSnoc(marks: seq<Mark>, e: Mark)
    requires e.End? && Showing(marks)
    ensures Shown(marks + [e]) == Shown(marks)
    ensures ByTurns(marks) ==> ByTurns(marks + [e])
    ensures Fair(marks) && (e.skipped || e.up >= e.due) ==> Fair(marks + [e])
  {
    assert (marks + [e])[..|marks|] == marks;
  }

  lemma {:induction false} ClearSnoc(es: seq<Event>, gone: seq<Fate>, more: seq<Event>)
    requires |es| == |gone|
    ensures Kept(es + more, gone + AllCleared(|more|)) == Kept(es, gone)
    ensures ClearedOf(gone + AllCleared(|more|)) == ClearedOf(gone) + |more|
    decreases |more|
  {
    var n := |more|;
    if n == 0 {
      assert gone + AllCleared(n) == gone && es + more == es;
    } else {
      ClearSnoc(es, gone, more[..n - 1]);
      assert (gone + AllCleared(n))[..|gone| + n - 1] == gone + AllCleared(n - 1);
      assert (es + more)[..|es| + n - 1] == es + more[..n - 1];
    }
  }

  // ---------------------------------------------------------------- what every run keeps

  // The numbers of the started ones grow, and are those of exactly the events not cleared.
  lemma {:induction false} StartedGrow(gone: seq<Fate>, i: nat)
    ensures forall j, k :: 0 <= j < k < |StartedOf(gone)| ==> StartedOf(gone)[j] < StartedOf(gone)[k]
    ensures forall j :: 0 <= j < |StartedOf(gone)| ==> StartedOf(gone)[j] < |gone|
    ensures i in StartedOf(gone) <==> i < |gone| && gone[i] == Started
  {
    if gone != [] {
      var f := gone[..|gone| - 1];
      var before, now := StartedOf(f), StartedOf(gone);
      assert now == before + if gone[|f|] == Started then [|f|] else [];
      hide StartedOf;
      StartedGrow(f, i);
      assert i < |f| ==> f[i] == gone[i];
    }
  }

  // What was kept is what has these numbers.
  lemma {:induction false} KeptAreStarted(es: seq<Event>, gone: seq<Fate>, j: nat)
    requires |es| == |gone|
    ensures |Kept(es, gone)| == |StartedOf(gone)|
    ensures j < |StartedOf(gone)| ==> StartedOf(gone)[j] < |es| && Kept(es, gone)[j] == es[StartedOf(gone)[j]]
  {
    if gone != [] {
      var f, g := gone[..|gone| - 1], es[..|es| - 1];
      assert StartedOf(gone) == StartedOf(f) + if gone[|f|] == Started then [|f|] else [];
      assert Kept(es, gone) == Kept(g, f) + if gone[|f|] == Started then [es[|f|]] else [];
      hide Kept, StartedOf;
      KeptAreStarted(g, f, j);
    }
  }

  lemma {:induction false} EachHasOneFate(gone: seq<Fate>)
    ensures |StartedOf(gone)| + ClearedOf(gone) == |gone|
  {
    if gone != [] { EachHasOneFate(gone[..|gone| - 1]); }
  }

  // What has been on screen is what arrived, in the order of arrival, each event at most once, without
  // exactly those that were cleared or still wait.
  lemma ShownInOrder(a: AlertSource, i: nat)
    requires a.Valid()
    ensures var at, shown := StartedOf(a.gone), Shown(a.marks);
            && |at| == |shown| && (forall j, k :: 0 <= j < k < |at| ==> at[j] < at[k])
            && (forall j :: 0 <= j < |at| ==> at[j] < |a.gone| && shown[j] == a.accepted[at[j]])
            && (i in at <==> i < |a.gone| && a.gone[i] == Started)
  {
    hide StartedOf, Kept, Shown, Ring, ByTurns, Fair, Showing;
    var es := a.accepted[..|a.gone|];
    StartedGrow(a.gone, i);
    KeptAreStarted(es, a.gone, 0);
    forall j: nat | j < |StartedOf(a.gone)| ensures Kept(es, a.gone)[j] == a.accepted[StartedOf(a.gone)[j]] {
      KeptAreStarted(es, a.gone, j);
    }
  }

  // Every event accepted has been started, cleared, or still waits; those waiting are the newest.
  lemma NothingIsLost(a: AlertSource)
    requires a.Valid()
    ensures |a.accepted| == |Shown(a.marks)| + ClearedOf(a.gone) + |a.queue.Waiting()|
    ensures a.accepted[|a.accepted| - |a.queue.Waiting()|..] == a.queue.Waiting()
    ensures |a.queue.Waiting()| <= MAX
  {
    EachHasOneFate(a.gone);
    ShownInOrder(a, 0);
  }

  // Between two starts there is an end: no two alerts are up together.
  lemma NeverTwoAtOnce(a: AlertSource, i: nat, j: nat)
    requires a.Valid() && i < j < |a.marks| && a.marks[i].Start? && a.marks[j].Start?
    ensures i + 1 < j && a.marks[i + 1].End?
  {
    var next := a.marks[i + 1];
    assert next.Start? <==> a.marks[i].End?;
    assert next.Start? || next.End?;
  }

  // An alert nobody skipped was up for at least the duration in force when it ended.
  lemma FullTimeUnlessSkipped(a: AlertSource, k: nat)
    requires a.Valid() && k < |a.marks| && a.marks[k].End? && !a.marks[k].skipped
    ensures a.marks[k].up >= a.marks[k].due
  {
  }

  // ------------------------------------------------------- the skip button inside a tick

  // `elapsed += dt` reads, adds and writes; then elapsed is read again and compared. The skip button
  // runs on another thread, so its write can come at any of these moments.
  datatype Moment = BeforeRead | BeforeWrite | BeforeTest | AfterTest

  predicate Due(elapsed: real, dt: real, duration: real) { elapsed + dt >= duration }

  // What the tick makes of an alert on screen, and what elapsed is left at: whether it ends now.
  function TickWithSkip(elapsed: real, duration: real, dt: real, m: Moment): (bool, real) {
    match m
    case BeforeRead => (Due(duration, dt, duration), duration + dt)
    case BeforeWrite => (Due(elapsed, dt, duration), elapsed + dt)
    case BeforeTest => (Due(duration, 0.0, duration), duration)
    case AfterTest => (Due(elapsed, dt, duration), duration)
  }

  // The alert on screen is gone by the end of the tick after, however short, exactly unless the skip
  // fell between the read and the write of an alert that was not due: then it is as if the button had
  // not been pressed.
  lemma SkipWorksExactly(elapsed: real, duration: real, dt: real, m: Moment)
    requires dt >= 0.0
    ensures var (ended, left) := TickWithSkip(elapsed, duration, dt, m);
            && ((ended || forall dt2: real :: dt2 >= 0.0 ==> Due(left, dt2, duration)) <==>
                m != BeforeWrite || Due(elapsed, dt, duration))
            && (m == BeforeWrite ==> left == elapsed + dt)
  {
    var (ended, left) := TickWithSkip(elapsed, duration, dt, m);
    if m == BeforeWrite && !Due(elapsed, dt, duration) {
      assert !Due(left, 0.0, duration);
    }
  }
}
