// The clock of an animated image (src/ff-webp.c): frames pulled one at a time from a decoder, each
// with the time in milliseconds at which it stops being current.
module WebpClock {
  import opened Bytes

  const MS: nat := 1_000_000 // nanoseconds in a millisecond

  // The end of each frame, counted from the start of the loop; at least two frames.
  predicate IsAnimation(ends: seq<nat>) { |ends| >= 2 && forall i, j :: 0 <= i < j < |ends| ==> ends[i] <= ends[j] }

  function LoopNs(ends: seq<nat>): nat
    requires IsAnimation(ends)
  {
    MS * ends[|ends| - 1]
  }

  function Rem(e: nat, total: nat): nat { if total == 0 then 0 else e % total }

  // ----------------------------------------------------------------- what the clock should do

  // elapsed_ns and the frame on screen.
  datatype Clock = Clock(elapsed: nat, frame: nat)

  // One advance, when the decoder delivers: the frame on screen stays, gives way to the next one, or
  // the loop begins again.
  function Step(ends: seq<nat>, c: Clock, dt: nat): (r: Clock)
    requires IsAnimation(ends) && c.frame < |ends|
    ensures r.frame < |ends|
  {
    var e := c.elapsed + dt;
    if e / MS < ends[c.frame] then Clock(e, c.frame)
    else if c.frame + 1 < |ends| then Clock(e, c.frame + 1)
    else Clock(Rem(e, LoopNs(ends)), 0)
  }

  function After(ends: seq<nat>, steps: seq<nat>): (c: Clock)
    requires IsAnimation(ends)
    ensures c.frame < |ends|
  {
    if steps == [] then Clock(0, 0)
    else Step(ends, After(ends, steps[..|steps| - 1]), steps[|steps| - 1])
  }

  function Total(steps: seq<nat>): nat {
    if steps == [] then 0 else Total(steps[..|steps| - 1]) + steps[|steps| - 1]
  }

  // The frame current at a time within the loop, looked up afresh.
  function FrameAt(ends: seq<nat>, ms: nat): (f: nat)
    requires ends != [] && ms < ends[|ends| - 1]
    ensures f < |ends| && ms < ends[f] && forall g :: 0 <= g < f ==> ends[g] <= ms
  {
    if ms < ends[0] then 0 else 1 + FrameAt(ends[1..], ms)
  }

  predicate InStep(ends: seq<nat>, c: Clock)
    requires IsAnimation(ends)
  {
    c.elapsed < LoopNs(ends) && c.elapsed / MS < ends[|ends| - 1] && c.frame == FrameAt(ends, c.elapsed / MS)
  }

  // How long frame k lasts, in milliseconds.
  function Duration(ends: seq<nat>, k: nat): nat
    requires IsAnimation(ends) && k < |ends|
  {
    if k == 0 then ends[0] else ends[k] - ends[k - 1]
  }

  // --------------------------------------------------------------------------- struct ff_webp

  class Webp {
    const ends: seq<nat>
    var next: nat // the decoder: which frame it delivers next
    var elapsedNs: nat
    var frameEndMs: nat
    var haveFrame: bool
    var exhausted: bool
    ghost var steps: seq<nat> // the time fed since the first frame
    ghost var clean: bool     // no pull has failed

    ghost predicate Valid()
      reads this
    {
      && IsAnimation(ends) && next <= |ends|
      && (!haveFrame ==> next == 0)
      && (clean && !haveFrame ==> elapsedNs == 0 && steps == [] && !exhausted)
      && (clean && haveFrame ==>
          && 0 < next && !exhausted && frameEndMs == ends[next - 1]
          && Clock(elapsedNs, next - 1) == After(ends, steps))
    }

    constructor (ends: seq<nat>)
      requires IsAnimation(ends)
      ensures Valid() && this.ends == ends && steps == [] && clean && !haveFrame
    {
      this.ends := ends;
      next, elapsedNs, frameEndMs, haveFrame, exhausted, steps, clean := 0, 0, 0, false, false, [], true;
    }

    // ok: whether WebPAnimDecoderGetNext succeeds.
    method Pull(ok: bool) returns (frame: bool)
      requires next < |ends|
      modifies `next, `frameEndMs, `haveFrame, `exhausted, `clean
      ensures frame == ok && clean == (old(clean) && ok)
      ensures ok ==> next == old(next) + 1 && frameEndMs == ends[old(next)] && haveFrame && exhausted == old(exhausted)
      ensures !ok ==> next == old(next) && frameEndMs == old(frameEndMs) && haveFrame == old(haveFrame) && exhausted
    {
      if !ok {
        exhausted := true;
        clean := false;
        return false;
      }
      frameEndMs := ends[next];
      next := next + 1;
      haveFrame := true;
      return true;
    }

    // The first call shows the first frame and leaves the clock alone.
    method Advance(dt: nat, ok: bool) returns (frame: bool)
      requires Valid()
      modifies this
      ensures Valid()
      ensures steps == if old(haveFrame) then old(steps) + [dt] else old(steps)
      ensures clean ==> old(clean)
      ensures old(clean) && ok ==> clean && haveFrame
    {
      hide Rem;
      if !haveFrame {
        frame := Pull(ok);
        return;
      }
      ghost var was := steps;
      steps := steps + [dt];
      assert steps[..|steps| - 1] == was;
      elapsedNs := elapsedNs + dt;
      if elapsedNs / MS < frameEndMs { return false; }
      if next >= |ends| || exhausted {
        elapsedNs := Rewound(elapsedNs, frameEndMs);
        next := 0;
        exhausted := false;
        frameEndMs := 0;
        frame := Pull(ok);
        return;
      }
      frame := Pull(ok);
    }
  }

  method Rewound(elapsed: nat, frameEndMs: nat) returns (r: nat)
    ensures r == Rem(elapsed, MS * frameEndMs)
  {
    var total := frameEndMs * MS;
    r := if total != 0 then elapsed % total else 0;
  }

  // ---------------------------------------------------------------------------- no drift

  lemma SameLater(a: nat, b: nat, d: nat, total: nat)
    requires total > 0 && a % total == b % total
    ensures (a + d) % total == (b + d) % total
  {
    var p, q := a / total, b / total;
    assert a + d == total * p + (a % total + d) && b + d == total * q + (a % total + d);
    Multiples(p, a % total + d, total);
    Multiples(q, a % total + d, total);
  }

  // However often it loops, and however late each frame is, the clock has moved by the time fed.
  lemma {:induction false} NoDrift(ends: seq<nat>, steps: seq<nat>)
    requires IsAnimation(ends) && LoopNs(ends) > 0
    ensures After(ends, steps).elapsed % LoopNs(ends) == Total(steps) % LoopNs(ends)
  {
    var total := LoopNs(ends);
    if steps != [] {
      var front, dt := steps[..|steps| - 1], steps[|steps| - 1];
      NoDrift(ends, front);
      SameLater(After(ends, front).elapsed, Total(front), dt, total);
      StepKeepsTime(ends, After(ends, front), dt);
    }
  }

  lemma StepKeepsTime(ends: seq<nat>, c: Clock, dt: nat)
    requires IsAnimation(ends) && LoopNs(ends) > 0 && c.frame < |ends|
    ensures Step(ends, c, dt).elapsed % LoopNs(ends) == (c.elapsed + dt) % LoopNs(ends)
  {
    var e, total := c.elapsed + dt, LoopNs(ends);
    RemOfRem(e, total);
  }

  lemma RemOfRem(e: nat, total: nat)
    requires total > 0
    ensures Rem(e, total) % total == e % total && Rem(e, total) < total
  {
  }

  // --------------------------------------------------------------------------- keeping up

  lemma {:induction false} FrameIs(ends: seq<nat>, ms: nat, f: nat)
    requires f < |ends| && ms < ends[f] && ms < ends[|ends| - 1] && forall g :: 0 <= g < f ==> ends[g] <= ms
    ensures FrameAt(ends, ms) == f
  {
    if f > 0 {
      assert ends[0] <= ms;
      FrameIs(ends[1..], ms, f - 1);
    }
  }

  lemma Below(e: nat, ms: nat)
    ensures e / MS < ms <==> e < MS * ms
  {
  }

  // No frame is shorter than a step, and the first is shown at all.
  predicate Slow(ends: seq<nat>, step: nat)
    requires IsAnimation(ends)
  {
    ends[0] > 0 && forall k: nat :: k < |ends| ==> step <= MS * Duration(ends, k)
  }

  lemma StepKeepsUp(ends: seq<nat>, c: Clock, dt: nat)
    requires IsAnimation(ends) && c.frame < |ends| && InStep(ends, c) && Slow(ends, dt)
    ensures InStep(ends, Step(ends, c, dt))
  {
    hide FrameAt;
    var e, f, last := c.elapsed + dt, c.frame, |ends| - 1;
    Below(c.elapsed, ends[f]);
    Below(e, ends[f]);
    Below(e, ends[last]);
    assert forall g :: 0 <= g < f ==> ends[g] <= c.elapsed / MS <= e / MS;
    if e / MS < ends[f] {
      FrameIs(ends, e / MS, f);
    } else if f < last {
      assert dt <= MS * Duration(ends, f + 1);
      Below(e, ends[f + 1]);
      FrameIs(ends, e / MS, f + 1);
    } else {
      assert dt <= MS * Duration(ends, 0);
      OneTurn(e, LoopNs(ends));
      Below(e - LoopNs(ends), ends[0]);
      Below(e - LoopNs(ends), ends[last]);
      FrameIs(ends, (e - LoopNs(ends)) / MS, 0);
    }
  }

  lemma OneTurn(e: nat, total: nat)
    requires total <= e < 2 * total
    ensures Rem(e, total) == e - total
  {
  }

  lemma {:induction false} KeepsUp(ends: seq<nat>, steps: seq<nat>, most: nat)
    requires IsAnimation(ends) && Slow(ends, most) && forall s :: s in steps ==> s <= most
    ensures InStep(ends, After(ends, steps))
  {
    hide Step, FrameAt;
    if steps == [] {
      Below(0, ends[|ends| - 1]);
      FrameIs(ends, 0, 0);
    } else {
      var front, dt := steps[..|steps| - 1], steps[|steps| - 1];
      assert forall s :: s in front ==> s in steps;
      KeepsUp(ends, front, most);
      assert dt in steps && dt <= most;
      assert Slow(ends, dt) by { assert forall k: nat :: k < |ends| ==> most <= MS * Duration(ends, k); }
      StepKeepsUp(ends, After(ends, front), dt);
    }
  }

  // In step, the frame on screen is the one current at the time fed so far, modulo the loop.
  lemma InStepIsLookup(ends: seq<nat>, steps: seq<nat>)
    requires IsAnimation(ends) && InStep(ends, After(ends, steps))
    ensures LoopNs(ends) > 0 && After(ends, steps).elapsed == Total(steps) % LoopNs(ends)
    ensures Total(steps) % LoopNs(ends) / MS < ends[|ends| - 1]
    ensures After(ends, steps).frame == FrameAt(ends, Total(steps) % LoopNs(ends) / MS)
  {
    hide FrameAt, After, Total;
    NoDrift(ends, steps);
    Small(After(ends, steps).elapsed, LoopNs(ends));
  }

  lemma Small(e: nat, total: nat)
    requires e < total
    ensures e % total == e
  {
  }

  function Ones(n: nat): (s: seq<nat>)
    ensures |s| == n && forall d :: d in s ==> d == 1
  {
    seq(n, _ => 1)
  }

  lemma {:induction false} TotalOnes(n: nat)
    ensures Total(Ones(n)) == n
  {
    if n > 0 {
      assert Ones(n)[..n - 1] == Ones(n - 1);
      TotalOnes(n - 1);
    }
  }

  // A step longer than frame k, taken a nanosecond before that frame is due, leaves the clock behind.
  lemma LateAfter(ends: seq<nat>, k: nat, n: nat, long: nat)
    requires IsAnimation(ends) && ends[0] > 0 && k < |ends| && long == MS * Duration(ends, k) + 1
    requires n + 1 == if k == 0 then LoopNs(ends) else MS * ends[k - 1]
    ensures !InStep(ends, After(ends, Ones(n))) || !InStep(ends, After(ends, Ones(n) + [long]))
  {
    hide FrameAt, Total;
    var c := After(ends, Ones(n));
    var later := Ones(n) + [long];
    assert later[..n] == Ones(n) && After(ends, later) == Step(ends, c, long);
    if InStep(ends, c) {
      InStepIsLookup(ends, Ones(n));
      TotalOnes(n);
      hide After;
      Small(n, LoopNs(ends));
      assert c.elapsed == n;
      LateStep(ends, k, n, long, c);
    }
  }

  lemma LateStep(ends: seq<nat>, k: nat, n: nat, long: nat, c: Clock)
    requires IsAnimation(ends) && ends[0] > 0 && k < |ends| && long == MS * Duration(ends, k) + 1
    requires n + 1 == if k == 0 then LoopNs(ends) else MS * ends[k - 1]
    requires c.frame < |ends| && InStep(ends, c) && c.elapsed == n
    ensures !InStep(ends, Step(ends, c, long))
  {
    hide FrameAt, Rem;
    var f, last := c.frame, |ends| - 1;
    var due := if k == 0 then ends[last] else ends[k - 1];
    assert n + 1 == MS * due && n / MS == due - 1;
    var e := n + long;
    if k > 0 { assert ends[k - 1] > n / MS && !(k - 1 < f); }
    assert ends[f] == due;
    assert e == MS * due + MS * Duration(ends, k);
    Below(e, ends[f]);
    Below(e, ends[last]);
    if k > 0 {
      assert f <= k - 1;
      assert e == MS * ends[k] && e / MS == ends[k];
      assert ends[f + 1] <= ends[k];
    } else if f == last {
      TurnOnto(ends, e);
    }
  }

  // Landing just at the end of frame 0.
  lemma TurnOnto(ends: seq<nat>, e: nat)
    requires IsAnimation(ends) && ends[0] > 0 && e == LoopNs(ends) + MS * ends[0]
    ensures Rem(e, LoopNs(ends)) == if ends[0] < ends[|ends| - 1] then MS * ends[0] else 0
  {
  }

  // The picture is the right one after every run of steps no longer than most exactly when most is
  // no longer than the shortest frame.
  lemma KeepsUpExactly(ends: seq<nat>, most: nat)
    requires IsAnimation(ends)
    ensures (forall steps: seq<nat> :: (forall s :: s in steps ==> s <= most) ==> InStep(ends, After(ends, steps)))
            <==> Slow(ends, most)
  {
    hide After, InStep;
    if Slow(ends, most) {
      forall steps: seq<nat> | forall s :: s in steps ==> s <= most ensures InStep(ends, After(ends, steps)) {
        KeepsUp(ends, steps, most);
      }
    } else if ends[0] == 0 {
      NeverInStep(ends);
    } else {
      var k: nat :| k < |ends| && most > MS * Duration(ends, k);
      var n, long := (if k == 0 then LoopNs(ends) else MS * ends[k - 1]) - 1, MS * Duration(ends, k) + 1;
      LateAfter(ends, k, n, long);
      var later := Ones(n) + [long];
      assert forall s :: s in later ==> s in Ones(n) || s == long;
    }
  }

  lemma NeverInStep(ends: seq<nat>)
    requires IsAnimation(ends) && ends[0] == 0
    ensures !InStep(ends, After(ends, []))
  {
  }
}
