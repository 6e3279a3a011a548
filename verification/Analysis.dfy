// The audio analysis (src/ff-analysis.c) and the feed that drives it (src/ff-audio.c): a ring of
// samples cut into hops, onsets with a refractory period, and one published frame a hop. The
// transform, the band map and the envelopes are parameters; arithmetic is over reals.
module Analysis {
  import opened Bytes

  const RING: nat := 8192
  const FFT: nat := 2048
  const HOP: nat := 1024
  const WAVE: nat := 512
  const BANDS: nat := 64
  const FLUX_HISTORY: nat := 43
  const REFRACTORY: nat := 5
  const TWO32: nat := 0x1_0000_0000

  datatype Params = Params(gain: real, beatSensitivity: real, releaseMs: real)

  type Bands = s: seq<real> | |s| == BANDS witness seq(BANDS, _ => 0.0)

  function NoBands(): Bands { seq(BANDS, _ => 0.0) }

  // What the model does not look into: the raw bands of a short and a long window, how many of
  // them lie below 4 kHz, the square root, and how the rest of the frame follows (E: bands, peaks,
  // level, peak, bass, mid, treble and the beat's envelope).
  datatype Dsp<!E> = Dsp(
    spectrum: (seq<real>, seq<real>) -> Bands,
    lowBands: nat,
    root: real -> real,
    rest: E,
    follow: (E, Params, seq<real>, seq<real>, bool) -> E)

  // ------------------------------------------------------------------------- the newest samples

  // The last n of s in arrival order, zeros before the first.
  function Recent(s: seq<real>, n: nat): (w: seq<real>)
    ensures |w| == n
  {
    seq(n, i requires 0 <= i < n => if |s| + i < n then 0.0 else s[|s| + i - n])
  }

  // A ring read from its oldest entry on.
  function Rotated(a: seq<real>, pos: nat): seq<real>
    requires pos <= |a|
  {
    a[pos..] + a[..pos]
  }

  function Wrap(k: nat, n: nat): nat
    requires n > 0
  {
    k % n
  }

  lemma Wraps(k: nat, n: nat)
    requires 0 < n && k < 2 * n
    ensures Wrap(k, n) == if k < n then k else k - n
  {
    if k < n {
      Remainder(k, 0, k, n);
    } else {
      Remainder(k, 1, k - n, n);
    }
  }

  lemma RingStep(a: seq<real>, pos: nat, s: seq<real>, x: real)
    requires pos < |a| && Rotated(a, pos) == Recent(s, |a|)
    ensures Wrap(pos + 1, |a|) < |a| && Rotated(a[pos := x], Wrap(pos + 1, |a|)) == Recent(s + [x], |a|)
  {
    var n, b, q := |a|, a[pos := x], Wrap(pos + 1, |a|);
    Wraps(pos + 1, n);
    forall i | 0 <= i < n ensures Rotated(b, q)[i] == Recent(s + [x], n)[i] {
      if i < n - 1 {
        assert Rotated(b, q)[i] == Rotated(a, pos)[i + 1];
      }
    }
  }

  // Reading the ring from its write position on gives the samples oldest first.
  lemma RingAt(a: seq<real>, pos: nat, s: seq<real>, i: nat)
    requires pos < |a| && i < |a| && Rotated(a, pos) == Recent(s, |a|)
    ensures Wrap(pos + i, |a|) < |a| && a[Wrap(pos + i, |a|)] == Recent(s, |a|)[i]
  {
    Wraps(pos + i, |a|);
    assert Rotated(a, pos)[i] == if pos + i < |a| then a[pos + i] else a[pos + i - |a|];
  }

  function Clip(x: real, gain: real): (y: real)
    ensures -1.0 <= y <= 1.0
  {
    if x * gain > 1.0 then 1.0 else if x * gain < -1.0 then -1.0 else x * gain
  }

  // Within range a sample is multiplied by the gain; beyond it, it stays at the end it passed.
  lemma ClipExactly(x: real, gain: real)
    ensures -1.0 <= x * gain <= 1.0 ==> Clip(x, gain) == x * gain
    ensures (x * gain >= 1.0 ==> Clip(x, gain) == 1.0) && (x * gain <= -1.0 ==> Clip(x, gain) == -1.0)
  {
  }

  // What the analysis sees of a window: after gain, clipped.
  function Clipped(w: seq<real>, gain: real): seq<real> {
    seq(|w|, i requires 0 <= i < |w| => Clip(w[i], gain))
  }

  // Every other sample of the last hop.
  function Wave(s: seq<real>, gain: real): seq<real> {
    seq(WAVE, i requires 0 <= i < WAVE => Clip(Recent(s, HOP)[2 * i], gain))
  }

  // --------------------------------------------------------------------------------- onsets

  function Flux(raw: Bands, before: Bands, n: nat): real
    requires n <= BANDS
  {
    if n == 0 then 0.0
    else Flux(raw, before, n - 1) + if raw[n - 1] - before[n - 1] > 0.0 then raw[n - 1] - before[n - 1] else 0.0
  }

  function Sum(s: seq<real>): real { if s == [] then 0.0 else Sum(s[..|s| - 1]) + s[|s| - 1] }

  // Only what rises counts: a spectrum that rises in every band counts for all it has risen, and one that
  // rises in none for nothing.
  lemma {:induction false} FluxExactly(raw: Bands, before: Bands, n: nat)
    requires n <= BANDS
    ensures Flux(raw, before, n) >= 0.0
    ensures (forall i :: 0 <= i < n ==> raw[i] >= before[i]) ==>
              Flux(raw, before, n) == Sum(raw[..n]) - Sum(before[..n])
    ensures (forall i :: 0 <= i < n ==> raw[i] <= before[i]) ==> Flux(raw, before, n) == 0.0
  {
    if n > 0 {
      FluxExactly(raw, before, n - 1);
      assert raw[..n][..n - 1] == raw[..n - 1] && before[..n][..n - 1] == before[..n - 1];
    }
  }

  function Square(x: real): real { x * x }

  function Spread(s: seq<real>, mean: real): real {
    if s == [] then 0.0 else Spread(s[..|s| - 1], mean) + Square(s[|s| - 1] - mean)
  }

  function Mean(s: seq<real>): real { Sum(s) / FLUX_HISTORY as real }

  function Threshold(s: seq<real>, root: real -> real, sensitivity: real): real {
    var k := 1.5 / if sensitivity > 0.05 then sensitivity else 0.05;
    Mean(s) + k * root(Spread(s, Mean(s)) / FLUX_HISTORY as real)
  }

  // The threshold stands above the mean by one and a half deviations over the sensitivity, which counts
  // as a twentieth at least.
  lemma ThresholdExactly(s: seq<real>, root: real -> real, sensitivity: real)
    ensures (Threshold(s, root, sensitivity) - Mean(s)) * (if sensitivity > 0.05 then sensitivity else 0.05) ==
            1.5 * root(Spread(s, Mean(s)) / FLUX_HISTORY as real)
  {
    var d, r := if sensitivity > 0.05 then sensitivity else 0.05, root(Spread(s, Mean(s)) / FLUX_HISTORY as real);
    assert 1.5 / d * d == 1.5;
    TimesBack(1.5 / d, r, d);
  }

  lemma TimesBack(k: real, r: real, d: real)
    ensures k * r * d == k * d * r
  {
    assert k * r * d == k * (r * d) == k * (d * r);
  }

  // The spread about m, from the sum of squares, the sum and the number.
  function AboutMean(squares: real, sum: real, n: real, m: real): real { squares - 2.0 * m * sum + n * (m * m) }

  // The spread is the sum of squares less what the mean accounts for.
  lemma {:induction false} SpreadExactly(s: seq<real>, m: real)
    ensures Spread(s, m) == AboutMean(SquareSum(s), Sum(s), |s| as real, m)
  {
    hide Square, AboutMean;
    if s == [] {
      NoSpread(m);
    } else {
      SpreadExactly(s[..|s| - 1], m);
      OneMoreSquare(SquareSum(s[..|s| - 1]), Sum(s[..|s| - 1]), (|s| - 1) as real, m, s[|s| - 1]);
    }
  }

  lemma NoSpread(m: real)
    ensures AboutMean(0.0, 0.0, 0.0, m) == 0.0
  {
  }

  lemma OneMoreSquare(q: real, a: real, n: real, m: real, x: real)
    ensures AboutMean(q, a, n, m) + Square(x - m) == AboutMean(q + Square(x), a + x, n + 1.0, m)
  {
    var mm, mx := m * m, m * x;
    assert Square(x - m) == x * x - 2.0 * mx + mm;
    assert 2.0 * m * (a + x) == 2.0 * m * a + 2.0 * mx;
    assert (n + 1.0) * mm == n * mm + mm;
  }

  function SquareSum(s: seq<real>): real {
    if s == [] then 0.0 else SquareSum(s[..|s| - 1]) + Square(s[|s| - 1])
  }

  // Of a history that has not moved, the mean is its value and the spread is nothing.
  lemma {:induction false} SteadyHistory(s: seq<real>, c: real)
    requires forall i :: 0 <= i < |s| ==> s[i] == c
    ensures Sum(s) == |s| as real * c && Spread(s, c) == 0.0
    ensures |s| == FLUX_HISTORY ==> Mean(s) == c
  {
    if s != [] {
      SteadyHistory(s[..|s| - 1], c);
      assert Square(c - c) == 0.0;
      assert (|s| as real - 1.0) * c + c == |s| as real * c;
    }
    if |s| == FLUX_HISTORY { assert Sum(s) == 43.0 * c; }
  }

  // No beat in the last five hops.
  ghost predicate Rested(onsets: seq<bool>) {
    forall i :: 0 <= i < |onsets| && i + REFRACTORY >= |onsets| ==> !onsets[i]
  }

  // Everything an analysis remembers besides its samples, one flux and one onset for each hop.
  datatype Past<E> = Past(raw: Bands, fluxes: seq<real>, onsets: seq<bool>, rest: E)

  ghost function Hop<E>(d: Dsp<E>, was: Past<E>, s: seq<real>, p: Params): Past<E>
    requires d.lowBands <= BANDS
  {
    var short, long := Clipped(Recent(s, FFT), p.gain), Clipped(Recent(s, RING), p.gain);
    var raw := d.spectrum(short, long);
    var flux := Flux(raw, was.raw, d.lowBands);
    var onset := Rested(was.onsets) && flux > 0.02
      && flux > Threshold(Recent(was.fluxes, FLUX_HISTORY), d.root, p.beatSensitivity);
    Past(raw, was.fluxes + [flux], was.onsets + [onset], d.follow(was.rest, p, short, long, onset))
  }

  // The past after one hop for each of the parameters in force at it.
  ghost function After<E>(d: Dsp<E>, s: seq<real>, knobs: seq<Params>): (r: Past<E>)
    requires d.lowBands <= BANDS && HOP * |knobs| <= |s|
    ensures |r.onsets| == |r.fluxes| == |knobs|
  {
    if knobs == [] then Past(NoBands(), [], [], d.rest)
    else Hop(d, After(d, s, knobs[..|knobs| - 1]), s[..HOP * |knobs|], knobs[|knobs| - 1])
  }

  datatype Frame<E> = Frame(wave: seq<real>, beatCount: nat, rest: E)

  function Beats(onsets: seq<bool>): (n: nat)
    ensures n <= |onsets|
  {
    if onsets == [] then 0 else Beats(onsets[..|onsets| - 1]) + if onsets[|onsets| - 1] then 1 else 0
  }

  // The frame of hop k.
  ghost function FrameAt<E>(d: Dsp<E>, s: seq<real>, knobs: seq<Params>, k: nat): Frame<E>
    requires d.lowBands <= BANDS && 0 < k <= |knobs| && HOP * |knobs| <= |s|
  {
    var past := After(d, s, knobs[..k]);
    Frame(Wave(s[..HOP * k], knobs[k - 1].gain), Beats(past.onsets) % TWO32, past.rest)
  }

  lemma {:induction false} AfterGrows<E>(d: Dsp<E>, s: seq<real>, more: seq<real>, knobs: seq<Params>)
    requires d.lowBands <= BANDS && HOP * |knobs| <= |s|
    ensures After(d, s + more, knobs) == After(d, s, knobs)
    decreases |knobs|
  {
    hide Hop;
    if knobs != [] {
      AfterGrows(d, s, more, knobs[..|knobs| - 1]);
      assert (s + more)[..HOP * |knobs|] == s[..HOP * |knobs|];
    }
  }

  lemma FrameGrows<E>(d: Dsp<E>, s: seq<real>, more: seq<real>, knobs: seq<Params>, later: seq<Params>, k: nat)
    requires d.lowBands <= BANDS && HOP * |knobs| <= |s| && HOP * (|knobs| + |later|) <= |s| + |more|
    requires 0 < k <= |knobs|
    ensures FrameAt(d, s + more, knobs + later, k) == FrameAt(d, s, knobs, k)
  {
    hide After, Wave, Beats;
    assert (knobs + later)[..k] == knobs[..k];
    AfterGrows(d, s, more, knobs[..k]);
    assert (s + more)[..HOP * k] == s[..HOP * k];
  }

  // ------------------------------------------------------------------- sums over a ring

  lemma {:induction false} SumPlus(a: seq<real>, b: seq<real>)
    ensures Sum(a + b) == Sum(a) + Sum(b)
    decreases |b|
  {
    if b == [] {
      assert a + b == a;
    } else {
      var f := b[..|b| - 1];
      SumPlus(a, f);
      assert (a + b)[..|a + b| - 1] == a + f;
    }
  }

  lemma {:induction false} SpreadPlus(a: seq<real>, b: seq<real>, mean: real)
    ensures Spread(a + b, mean) == Spread(a, mean) + Spread(b, mean)
    decreases |b|
  {
    hide Square;
    if b == [] {
      assert a + b == a;
    } else {
      var f := b[..|b| - 1];
      SpreadPlus(a, f, mean);
      assert (a + b)[..|a + b| - 1] == a + f;
    }
  }

  // Where a ring starts makes no difference to its sums.
  lemma RotationSums(a: seq<real>, pos: nat, mean: real)
    requires pos <= |a|
    ensures Sum(a) == Sum(Rotated(a, pos)) && Spread(a, mean) == Spread(Rotated(a, pos), mean)
  {
    hide Sum, Spread;
    assert a == a[..pos] + a[pos..];
    SumPlus(a[..pos], a[pos..]);
    SumPlus(a[pos..], a[..pos]);
    SpreadPlus(a[..pos], a[pos..], mean);
    SpreadPlus(a[pos..], a[..pos], mean);
  }

  method RingSum(a: array<real>) returns (sum: real)
    ensures sum == Sum(a[..])
  {
    sum := 0.0;
    for i := 0 to a.Length
      invariant sum == Sum(a[..i])
    {
      sum := sum + a[i];
      assert a[..i + 1][..i] == a[..i];
    }
    assert a[..a.Length] == a[..];
  }

  method RingSpread(a: array<real>, mean: real) returns (sum: real)
    ensures sum == Spread(a[..], mean)
  {
    sum := 0.0;
    for i := 0 to a.Length
      invariant sum == Spread(a[..i], mean)
    {
      var d := a[i] - mean;
      sum := sum + Square(d);
      assert a[..i + 1][..i] == a[..i];
    }
    assert a[..a.Length] == a[..];
  }

  // ------------------------------------------------------------------- struct ff_analysis

  // Hops still to wait, counted down from a beat.
  function Refractory(onsets: seq<bool>): (n: nat) {
    if onsets == [] then 0
    else if onsets[|onsets| - 1] then REFRACTORY
    else if Refractory(onsets[..|onsets| - 1]) > 0 then Refractory(onsets[..|onsets| - 1]) - 1
    else 0
  }

  class FfAnalysis<E> {
    const d: Dsp<E>
    var p: Params
    const ring: array<real>
    var ringPos: nat
    var sinceHop: nat
    const prevLow: array<real>
    const fluxHist: array<real>
    var fluxPos: nat
    var refractoryHops: nat
    var wave: seq<real>
    var beatCount: nat
    var rest: E
    ghost var heard: seq<real>   // every sample pushed
    ghost var knobs: seq<Params> // the parameters in force at each hop

    ghost predicate Shape()
      reads this
    {
      && ring.Length == RING && prevLow.Length == BANDS && fluxHist.Length == FLUX_HISTORY
      && ring != prevLow && ring != fluxHist && prevLow != fluxHist
      && ringPos < RING && fluxPos < FLUX_HISTORY && d.lowBands <= BANDS
      && HOP * |knobs| <= |heard|
    }

    ghost predicate RingHolds()
      reads `ringPos, `heard, ring
      requires ring.Length == RING && ringPos < RING
    {
      Rotated(ring[..], ringPos) == Recent(heard, RING)
    }

    ghost predicate Remembers(past: Past<E>)
      reads this, prevLow, fluxHist
      requires Shape()
    {
      && (forall b: nat :: b < d.lowBands ==> prevLow[b] == past.raw[b])
      && Rotated(fluxHist[..], fluxPos) == Recent(past.fluxes, FLUX_HISTORY)
      && refractoryHops == Refractory(past.onsets)
      && beatCount == Beats(past.onsets) % TWO32
      && rest == past.rest
    }

    ghost predicate Valid()
      reads this, ring, prevLow, fluxHist
    {
      && Shape() && RingHolds()
      && sinceHop < HOP && |heard| == HOP * |knobs| + sinceHop
      && Remembers(After(d, heard, knobs))
      && (|knobs| > 0 ==> wave == Wave(heard[..HOP * |knobs|], knobs[|knobs| - 1].gain))
    }

    lemma HopsFit()
      requires Valid()
      ensures d.lowBands <= BANDS && HOP * |knobs| <= |heard|
    {
    }

    constructor (d: Dsp<E>, p: Params)
      requires d.lowBands <= BANDS
      ensures Valid() && heard == [] && knobs == [] && this.d == d && this.p == p
      ensures fresh(ring) && fresh(prevLow) && fresh(fluxHist)
    {
      this.d, this.p := d, p;
      ring, prevLow, fluxHist := new real[RING](_ => 0.0), new real[BANDS](_ => 0.0), new real[FLUX_HISTORY](_ => 0.0);
      ringPos, sinceHop, fluxPos, refractoryHops, beatCount := 0, 0, 0, 0, 0;
      wave, rest := seq(WAVE, _ => 0.0), d.rest;
      heard, knobs := [], [];
    }

    method SetParams(p: Params)
      requires Valid()
      modifies `p
      ensures Valid() && this.p == p
    {
      hide Recent, Rotated, After, Wave, Wrap, Refractory, Beats, Flux;
      this.p := p;
    }

    // The ring from start on, every stride-th sample, after gain and clipping.
    method Samples(off: nat, n: nat, stride: nat) returns (w: array<real>)
      requires Shape() && RingHolds() && off + stride * n <= RING && (stride == 1 || stride == 2)
      ensures fresh(w) && w.Length == n
      ensures forall i: nat :: i < n && off + stride * i < RING ==>
                w[i] == Clip(Recent(heard, RING)[off + stride * i], p.gain)
    {
      hide Recent, Rotated, Wrap, Clip;
      var start := Wrap(ringPos + off, RING);
      w := new real[n];
      for i := 0 to n
        invariant ringPos == old(ringPos) && RingHolds()
        invariant forall j: nat :: j < i && off + stride * j < RING ==>
                  w[j] == Clip(Recent(heard, RING)[off + stride * j], p.gain)
      {
        var k := stride * i;
        StrideBelow(off, stride, i, n);
        SampleAt(ring[..], ringPos, heard, off, k);
        w[i] := Clip(ring[Wrap(start + k, RING)], p.gain);
      }
    }

    method FluxOf(raw: Bands, ghost before: Bands) returns (flux: real)
      requires Shape() && forall b: nat :: b < d.lowBands ==> prevLow[b] == before[b]
      modifies prevLow
      ensures flux == Flux(raw, before, d.lowBands)
      ensures forall b: nat :: b < d.lowBands ==> prevLow[b] == raw[b]
    {
      flux := 0.0;
      for b := 0 to d.lowBands
        invariant flux == Flux(raw, before, b)
        invariant forall c: nat :: c < b ==> prevLow[c] == raw[c]
        invariant forall c: nat :: b <= c < d.lowBands ==> prevLow[c] == before[c]
      {
        var rise := raw[b] - prevLow[b];
        if rise > 0.0 { flux := flux + rise; }
        prevLow[b] := raw[b];
      }
    }

    method IsOnset(flux: real, ghost fluxes: seq<real>, ghost onsets: seq<bool>) returns (onset: bool)
      requires Shape() && Rotated(fluxHist[..], fluxPos) == Recent(fluxes, FLUX_HISTORY)
      requires refractoryHops == Refractory(onsets)
      ensures onset <==>
                && Rested(onsets) && flux > 0.02
                && flux > Threshold(Recent(fluxes, FLUX_HISTORY), d.root, p.beatSensitivity)
    {
      hide Rotated, Recent, Sum, Spread, Refractory;
      RefractoryIsRest(onsets, REFRACTORY);
      var mean := RingSum(fluxHist);
      RotationSums(fluxHist[..], fluxPos, mean / FLUX_HISTORY as real);
      mean := mean / FLUX_HISTORY as real;
      var spread := RingSpread(fluxHist, mean);
      var k := 1.5 / if p.beatSensitivity > 0.05 then p.beatSensitivity else 0.05;
      onset := refractoryHops == 0 && flux > 0.02 && flux > mean + k * d.root(spread / FLUX_HISTORY as real);
    }

    method Remember(flux: real, onset: bool, ghost fluxes: seq<real>, ghost onsets: seq<bool>)
      requires Shape() && Rotated(fluxHist[..], fluxPos) == Recent(fluxes, FLUX_HISTORY)
      requires refractoryHops == Refractory(onsets) && beatCount == Beats(onsets) % TWO32
      requires onset ==> refractoryHops == 0
      modifies fluxHist, `fluxPos, `refractoryHops, `beatCount
      ensures Shape() && Rotated(fluxHist[..], fluxPos) == Recent(fluxes + [flux], FLUX_HISTORY)
      ensures refractoryHops == Refractory(onsets + [onset]) && beatCount == Beats(onsets + [onset]) % TWO32
    {
      hide Recent, Rotated, Wrap;
      RingStep(fluxHist[..], fluxPos, fluxes, flux);
      assert fluxHist[..][fluxPos := flux] == fluxHist[..fluxPos] + [flux] + fluxHist[fluxPos + 1..];
      fluxHist[fluxPos] := flux;
      assert fluxHist[..] == old(fluxHist[..])[fluxPos := flux];
      fluxPos := Wrap(fluxPos + 1, FLUX_HISTORY);
      if refractoryHops > 0 { refractoryHops := refractoryHops - 1; }
      assert (onsets + [onset])[..|onsets|] == onsets;
      CountOn(Beats(onsets));
      if onset {
        beatCount := (beatCount + 1) % TWO32;
        refractoryHops := REFRACTORY;
      }
    }

    method Analyse()
      requires Shape() && RingHolds() && |heard| == HOP * (|knobs| + 1) && Remembers(After(d, heard, knobs))
      modifies `fluxPos, `refractoryHops, `beatCount, `wave, `rest, `knobs, prevLow, fluxHist
      ensures Shape() && RingHolds() && knobs == old(knobs) + [p] && Remembers(After(d, heard, knobs))
      ensures wave == Wave(heard, p.gain)
    {
      hide Recent, Rotated, After, Flux, Refractory, Beats, Threshold, Rested, Clip;
      hide FfAnalysis<E>.RingHolds, Clipped, Wave;
      ghost var past := After(d, heard, knobs);
      var td, tdLow := Windows();
      var raw := d.spectrum(td, tdLow);
      var flux := FluxOf(raw, past.raw);
      var onset := IsOnset(flux, past.fluxes, past.onsets);
      RefractoryIsRest(past.onsets, REFRACTORY);
      Remember(flux, onset, past.fluxes, past.onsets);
      rest := d.follow(rest, p, td, tdLow, onset);
      wave := Decimated();
      knobs := knobs + [p];
      AfterSnoc(d, heard, old(knobs), p);
    }

    // The two windows that are transformed.
    method Windows() returns (td: seq<real>, tdLow: seq<real>)
      requires Shape() && RingHolds()
      ensures td == Clipped(Recent(heard, FFT), p.gain) && tdLow == Clipped(Recent(heard, RING), p.gain)
    {
      hide Recent, Rotated, Clip, Clipped;
      var a := Samples(RING - FFT, FFT, 1);
      var b := Samples(0, RING, 1);
      ShortWindow(heard, a[..], b[..], p.gain);
      return a[..], b[..];
    }

    method Decimated() returns (w: seq<real>)
      requires Shape() && RingHolds()
      ensures w == Wave(heard, p.gain)
    {
      hide Recent, Rotated, Clip, Wave;
      var a := Samples(RING - HOP, WAVE, 2);
      WaveWindow(heard, a[..], p.gain);
      return a[..];
    }

    method PushOne(x: real) returns (updated: bool)
      requires Valid()
      modifies this, ring, prevLow, fluxHist
      ensures Valid() && p == old(p) && heard == old(heard) + [x]
      ensures knobs == if updated then old(knobs) + [p] else old(knobs)
    {
      hide Recent, Rotated, After, Wave, Wrap, Refractory, Beats;
      RingStep(ring[..], ringPos, heard, x);
      ring[ringPos] := x;
      assert ring[..] == old(ring[..])[ringPos := x];
      ringPos := Wrap(ringPos + 1, RING);
      AfterGrows(d, heard, [x], knobs);
      assert (heard + [x])[..HOP * |knobs|] == heard[..HOP * |knobs|];
      heard := heard + [x];
      sinceHop := sinceHop + 1;
      if sinceHop < HOP { return false; }
      sinceHop := 0;
      Analyse();
      assert heard[..HOP * |knobs|] == heard;
      return true;
    }

    // ff_analysis_push: out is the frame of the newest hop, and is left alone when there was none.
    method Push(mono: seq<real>, scratch: Frame<E>) returns (updated: bool, out: Frame<E>)
      requires Valid()
      modifies this, ring, prevLow, fluxHist
      ensures Valid() && p == old(p) && heard == old(heard) + mono
      ensures |knobs| >= |old(knobs)| && knobs[..|old(knobs)|] == old(knobs)
      ensures forall k :: |old(knobs)| <= k < |knobs| ==> knobs[k] == p
      ensures updated <==> |knobs| > |old(knobs)|
      ensures out == if updated then FrameAt(d, heard, knobs, |knobs|) else scratch
    {
      hide After, Wave, Beats, FfAnalysis<E>.Valid;
      HopsFit();
      updated, out := false, scratch;
      ghost var h0, k0, p0 := heard, knobs, p;
      for i := 0 to |mono|
        invariant Valid() && p == p0 && heard == h0 + mono[..i]
        invariant |knobs| >= |k0| && knobs[..|k0|] == k0 && forall k :: |k0| <= k < |knobs| ==> knobs[k] == p
        invariant updated <==> |knobs| > |k0|
      {
        assert mono[..i + 1] == mono[..i] + [mono[i]];
        var one := PushOne(mono[i]);
        updated := updated || one;
      }
      assert mono[..|mono|] == mono;
      HopsFit();
      if updated {
        out := Frame(wave, beatCount, rest);
        NewestFrame();
      }
    }

    // What is kept is the frame of the newest hop.
    lemma NewestFrame()
      requires Valid() && |knobs| > 0
      ensures d.lowBands <= BANDS && HOP * |knobs| <= |heard|
      ensures Frame(wave, beatCount, rest) == FrameAt(d, heard, knobs, |knobs|)
    {
      hide Recent, Rotated, After, Wave, Wrap, Refractory, Beats;
      assert knobs[..|knobs|] == knobs;
      AfterPrefix(d, heard, knobs);
    }
  }

  lemma StrideBelow(off: nat, stride: nat, i: nat, n: nat)
    requires i < n && off + stride * n <= RING && (stride == 1 || stride == 2)
    ensures off + stride * i < RING
  {
    if stride == 1 {
      assert stride * n == n && stride * i == i;
    } else {
      assert stride * n == 2 * n && stride * i == 2 * i;
    }
  }

  lemma WrapTwice(pos: nat, off: nat, k: nat)
    requires pos < RING && off + k < RING
    ensures Wrap(Wrap(pos + off, RING) + k, RING) == Wrap(pos + (off + k), RING) < RING
  {
    Wraps(pos + off, RING);
    Wraps(pos + (off + k), RING);
    Wraps(Wrap(pos + off, RING) + k, RING);
  }

  lemma SampleAt(a: seq<real>, pos: nat, s: seq<real>, off: nat, k: nat)
    requires |a| == RING && pos < RING && off + k < RING && Rotated(a, pos) == Recent(s, RING)
    ensures Wrap(Wrap(pos + off, RING) + k, RING) < RING
    ensures a[Wrap(Wrap(pos + off, RING) + k, RING)] == Recent(s, RING)[off + k]
  {
    hide Recent, Rotated, Wrap;
    WrapTwice(pos, off, k);
    RingAt(a, pos, s, off + k);
  }

  lemma CountOn(n: nat)
    ensures (n % TWO32 + 1) % TWO32 == (n + 1) % TWO32
  {
    assert n + 1 == TWO32 * (n / TWO32) + (n % TWO32 + 1);
    Multiples(n / TWO32, n % TWO32 + 1, TWO32);
  }

  lemma RecentOfRecent(s: seq<real>, n: nat, i: nat)
    requires n <= RING && i < n
    ensures Recent(s, n)[i] == Recent(s, RING)[RING - n + i]
  {
  }

  // The short window is the newest 2048 samples of the long one.
  lemma ShortWindow(s: seq<real>, td: seq<real>, tdLow: seq<real>, gain: real)
    requires |td| == FFT && |tdLow| == RING
    requires forall i: nat :: i < FFT && RING - FFT + 1 * i < RING ==>
              td[i] == Clip(Recent(s, RING)[RING - FFT + 1 * i], gain)
    requires forall i: nat :: i < RING && 0 + 1 * i < RING ==> tdLow[i] == Clip(Recent(s, RING)[0 + 1 * i], gain)
    ensures td == Clipped(Recent(s, FFT), gain) && tdLow == Clipped(Recent(s, RING), gain)
  {
    hide Recent, Clip;
    forall i: nat | i < FFT ensures td[i] == Clip(Recent(s, FFT)[i], gain) { RecentOfRecent(s, FFT, i); }
  }

  lemma WaveWindow(s: seq<real>, w: seq<real>, gain: real)
    requires |w| == WAVE
    requires forall i: nat :: i < WAVE && RING - HOP + 2 * i < RING ==>
              w[i] == Clip(Recent(s, RING)[RING - HOP + 2 * i], gain)
    ensures w == Wave(s, gain)
  {
    hide Recent, Clip;
    forall i: nat | i < WAVE ensures w[i] == Clip(Recent(s, HOP)[2 * i], gain) { RecentOfRecent(s, HOP, 2 * i); }
  }

  lemma AfterSnoc<E>(d: Dsp<E>, s: seq<real>, knobs: seq<Params>, p: Params)
    requires d.lowBands <= BANDS && HOP * (|knobs| + 1) == |s|
    ensures After(d, s, knobs + [p]) == Hop(d, After(d, s, knobs), s, p)
  {
    hide Hop;
    assert (knobs + [p])[..|knobs|] == knobs;
    assert s[..HOP * (|knobs| + 1)] == s;
  }

  lemma AfterPrefix<E>(d: Dsp<E>, s: seq<real>, knobs: seq<Params>)
    requires d.lowBands <= BANDS && HOP * |knobs| <= |s|
    ensures After(d, s, knobs[..|knobs|]) == After(d, s, knobs)
  {
    assert knobs[..|knobs|] == knobs;
  }

  // The countdown is five less the hops since the last beat.
  lemma {:induction false} RefractoryIsRest(o: seq<bool>, m: nat)
    requires m <= REFRACTORY
    ensures Refractory(o) <= REFRACTORY - m <==> forall i :: 0 <= i < |o| && i + m >= |o| ==> !o[i]
    ensures m == REFRACTORY ==> (Refractory(o) == 0 <==> Rested(o))
    decreases |o|
  {
    if o != [] && m > 0 {
      var f := o[..|o| - 1];
      RefractoryIsRest(f, m - 1);
      if o[|o| - 1] {
        assert |o| - 1 + m >= |o|;
      } else {
        assert forall i :: 0 <= i < |f| ==> f[i] == o[i];
      }
    }
    if m == 0 { RefractoryAtMost(o); }
  }

  lemma {:induction false} RefractoryAtMost(o: seq<bool>)
    ensures Refractory(o) <= REFRACTORY
  {
    if o != [] { RefractoryAtMost(o[..|o| - 1]); }
  }

  // ------------------------------------------------------------------------------ consequences

  // Two analyses of the same samples, under the same parameters at each hop, are in the same state,
  // however the samples were split into pushes.
  lemma SplitsDoNotMatter<E>(a: FfAnalysis<E>, b: FfAnalysis<E>)
    requires a.Valid() && b.Valid() && a.d == b.d && a.heard == b.heard
    requires forall k :: 0 <= k < |a.knobs| && k < |b.knobs| ==> a.knobs[k] == b.knobs[k]
    ensures a.knobs == b.knobs && a.sinceHop == b.sinceHop && a.refractoryHops == b.refractoryHops
    ensures a.beatCount == b.beatCount && a.rest == b.rest
    ensures a.knobs != [] ==> a.wave == b.wave
    ensures Rotated(a.ring[..], a.ringPos) == Rotated(b.ring[..], b.ringPos)
    ensures Rotated(a.fluxHist[..], a.fluxPos) == Rotated(b.fluxHist[..], b.fluxPos)
    ensures forall i: nat :: i < a.d.lowBands ==> a.prevLow[i] == b.prevLow[i]
  {
    HopsCounted(|a.knobs|, a.sinceHop, |b.knobs|, b.sinceHop);
    assert a.knobs == b.knobs;
  }

  lemma HopsCounted(m: nat, x: nat, n: nat, y: nat)
    requires x < HOP && y < HOP && HOP * m + x == HOP * n + y
    ensures m == n && x == y
  {
  }

  // So too when each was only ever used with one set of parameters.
  lemma SplitsUnderOneSetting<E>(a: FfAnalysis<E>, b: FfAnalysis<E>, p: Params)
    requires a.Valid() && b.Valid() && a.d == b.d && a.heard == b.heard
    requires (forall k :: 0 <= k < |a.knobs| ==> a.knobs[k] == p) &&
              (forall k :: 0 <= k < |b.knobs| ==> b.knobs[k] == p)
    ensures a.knobs == b.knobs && a.sinceHop == b.sinceHop && a.refractoryHops == b.refractoryHops
    ensures a.beatCount == b.beatCount && a.rest == b.rest && (a.knobs != [] ==> a.wave == b.wave)
  {
    hide FfAnalysis<E>.Valid;
    SplitsDoNotMatter(a, b);
  }

  // The last n samples, with silence in front while there are fewer.
  function Newest(s: seq<real>, n: nat): (w: seq<real>)
    ensures |w| == n
  {
    if |s| >= n then s[|s| - n..] else seq(n - |s|, _ => 0.0) + s
  }

  // At every hop the two transforms read the newest 2048 and 8192 samples in the order they arrived,
  // and the waveform every second one of the newest 1024.
  lemma WindowsAreNewest<E>(d: Dsp<E>, was: Past<E>, s: seq<real>, p: Params, i: nat)
    requires d.lowBands <= BANDS && i < WAVE
    ensures Hop(d, was, s, p).raw == d.spectrum(Clipped(Newest(s, FFT), p.gain), Clipped(Newest(s, RING), p.gain))
    ensures |s| >= HOP ==> Wave(s, p.gain)[i] == Clip(s[|s| - HOP + 2 * i], p.gain)
  {
    RecentIsNewest(s, FFT);
    RecentIsNewest(s, RING);
    RecentIsNewest(s, HOP);
    hide Recent, Newest, Flux, Threshold, Rested;
    if |s| >= HOP { NewestAt(s, 2 * i); }
  }

  lemma RecentIsNewest(s: seq<real>, n: nat)
    ensures Recent(s, n) == Newest(s, n)
  {
  }

  lemma NewestAt(s: seq<real>, k: nat)
    requires |s| >= HOP && k < HOP
    ensures Newest(s, HOP)[k] == s[|s| - HOP + k]
  {
  }

  lemma {:induction false} OnsetsAreRested<E>(d: Dsp<E>, s: seq<real>, knobs: seq<Params>, j: nat)
    requires d.lowBands <= BANDS && HOP * |knobs| <= |s| && j < |knobs|
    requires After(d, s, knobs).onsets[j]
    ensures Rested(After(d, s, knobs).onsets[..j])
    decreases |knobs|
  {
    hide Rested, Threshold, Flux, Recent, Clipped;
    var f := knobs[..|knobs| - 1];
    var before, now := After(d, s, f).onsets, After(d, s, knobs).onsets;
    assert |before| == |f| && now == before + [now[|f|]];
    if j < |f| {
      OnsetsAreRested(d, s, f, j);
      assert now[..j] == before[..j];
    } else {
      assert now[..j] == before;
    }
  }

  // Two beats are at least six hops apart.
  lemma BeatsApart<E>(d: Dsp<E>, s: seq<real>, knobs: seq<Params>, i: nat, j: nat)
    requires d.lowBands <= BANDS && HOP * |knobs| <= |s| && i < j < |knobs|
    requires After(d, s, knobs).onsets[i] && After(d, s, knobs).onsets[j]
    ensures j - i >= REFRACTORY + 1
  {
    hide After;
    OnsetsAreRested(d, s, knobs, j);
    assert After(d, s, knobs).onsets[..j][i];
  }

  // So the count grows by at most one in six hops.
  lemma {:induction false} FewBeats(o: seq<bool>)
    requires forall i, j :: 0 <= i < j < |o| && o[i] && o[j] ==> j - i >= REFRACTORY + 1
    ensures 6 * Beats(o) <= |o| + 5
    decreases |o|
  {
    if o != [] {
      var f := o[..|o| - 1];
      if o[|o| - 1] && |o| > 5 {
        var g := o[..|o| - 6];
        FewBeats(g);
        NoneBetween(o, 5);
      } else if o[|o| - 1] {
        NoneBetween(o, |o| - 1);
        assert o[..0] == [];
      } else {
        FewBeats(f);
      }
    }
  }

  // A beat at the end has none in the n hops before it.
  lemma {:induction false} NoneBetween(o: seq<bool>, n: nat)
    requires o != [] && o[|o| - 1] && n <= 5 && n < |o|
    requires forall i, j :: 0 <= i < j < |o| && o[i] && o[j] ==> j - i >= REFRACTORY + 1
    ensures Beats(o) == Beats(o[..|o| - 1 - n]) + 1
    decreases n
  {
    if n > 0 {
      NoneBetween(o, n - 1);
      var g := o[..|o| - n];
      assert g[|g| - 1] == o[|o| - 1 - n];
      assert !o[|o| - 1 - n];
      assert g[..|g| - 1] == o[..|o| - 1 - n];
    }
  }

  lemma BeatCountIsBounded<E>(d: Dsp<E>, s: seq<real>, knobs: seq<Params>)
    requires d.lowBands <= BANDS && HOP * |knobs| <= |s|
    ensures 6 * Beats(After(d, s, knobs).onsets) <= |knobs| + 5
  {
    var o := After(d, s, knobs).onsets;
    forall i, j | 0 <= i < j < |o| && o[i] && o[j] ensures j - i >= REFRACTORY + 1 {
      BeatsApart(d, s, knobs, i, j);
    }
    hide After, Beats;
    FewBeats(o);
  }

  // --------------------------------------------------------------------------------- the feed

  function Mix(l: real, r: real): real { 0.5 * (l + r) }

  // Two equal channels mix to themselves, either comes in at half, and neither goes before the other.
  lemma MixExactly(l: real, r: real)
    ensures Mix(l, l) == l && Mix(l, r) == Mix(r, l) && Mix(l, 0.0) * 2.0 == l
    ensures Mix(l, r) == Mix(l, 0.0) + Mix(0.0, r)
  {
  }

  function Mono(l: seq<real>, r: seq<real>): (m: seq<real>)
    requires r == [] || |r| == |l|
    ensures |m| == |l|
  {
    seq(|l|, i requires 0 <= i < |l| => if r != [] then Mix(l[i], r[i]) else l[i])
  }

  // Frames a to b, oldest first.
  ghost function Frames<E>(d: Dsp<E>, s: seq<real>, knobs: seq<Params>, a: nat, b: nat): (r: seq<Frame<E>>)
    requires d.lowBands <= BANDS && a <= b <= |knobs| && HOP * |knobs| <= |s|
    ensures |r| == b - a
  {
    seq(b - a, k requires 0 <= k < b - a => FrameAt(d, s, knobs, a + k + 1))
  }

  class FfAudio<E> {
    const an: FfAnalysis<E>
    var scratch: Frame<E>
    var published: seq<Frame<E>> // what ff_handoff_publish was given

    constructor (an: FfAnalysis<E>, scratch: Frame<E>)
      ensures this.an == an && published == []
    {
      this.an, this.scratch, published := an, scratch, [];
    }

    // One chunk of at most a hop completes at most one hop.
    method Chunk(mono: seq<real>)
      requires an.Valid() && |mono| <= HOP
      modifies this, an, an.ring, an.prevLow, an.fluxHist
      ensures an.Valid() && an.p == old(an.p) && an.heard == old(an.heard) + mono
      ensures forall k :: |old(an.knobs)| <= k < |an.knobs| ==> an.knobs[k] == an.p
      ensures |an.knobs| >= |old(an.knobs)| && an.knobs[..|old(an.knobs)|] == old(an.knobs)
      ensures published == old(published) + Frames(an.d, an.heard, an.knobs, |old(an.knobs)|, |an.knobs|)
    {
      hide FrameAt, After;
      var updated;
      ghost var k0 := |an.knobs|;
      updated, scratch := an.Push(mono, scratch);
      AtMostOneHop(|old(an.heard)|, |mono|, k0, |an.knobs|);
      if updated {
        published := published + [scratch];
        assert Frames(an.d, an.heard, an.knobs, k0, |an.knobs|) == [scratch];
      }
    }

    // Every hop is published, once and in order, however many samples arrive at a time.
    method Feed(l: seq<real>, r: seq<real>)
      requires an.Valid() && (r == [] || |r| == |l|)
      modifies this, an, an.ring, an.prevLow, an.fluxHist
      ensures an.Valid() && an.p == old(an.p) && an.heard == old(an.heard) + Mono(l, r)
      ensures forall k :: |old(an.knobs)| <= k < |an.knobs| ==> an.knobs[k] == an.p
      ensures |an.knobs| >= |old(an.knobs)| && an.knobs[..|old(an.knobs)|] == old(an.knobs)
      ensures published == old(published) + Frames(an.d, an.heard, an.knobs, |old(an.knobs)|, |an.knobs|)
    {
      hide Mono, Frames, After, FfAnalysis<E>.RingHolds, FfAnalysis<E>.Remembers, FfAnalysis<E>.Valid;
      var at := 0;
      ghost var h0, k0, p0 := an.heard, an.knobs, published;
      ghost var all := Mono(l, r);
      assert all[..0] == [];
      an.HopsFit();
      NoFrames(an.d, h0, k0);
      while at < |l|
        invariant 0 <= at <= |l| && an.Valid() && an.d.lowBands <= BANDS && HOP * |an.knobs| <= |an.heard|
        invariant an.heard == h0 + all[..at] && an.p == old(an.p)
        invariant forall k :: |k0| <= k < |an.knobs| ==> an.knobs[k] == an.p
        invariant |an.knobs| >= |k0| && an.knobs[..|k0|] == k0
        invariant published == p0 + Frames(an.d, an.heard, an.knobs, |k0|, |an.knobs|)
      {
        var n := if |l| - at > HOP then HOP else |l| - at;
        var mono := MixDown(l, r, at, n);
        ghost var h1, k1 := an.heard, an.knobs;
        Chunk(mono);
        an.HopsFit();
        TakeMore(all, at, n, h0);
        FramesJoin(an.d, h1, mono, k1, an.knobs, |k0|);
        at := at + n;
      }
      assert all[..|l|] == all;
    }
  }

  method MixDown(l: seq<real>, r: seq<real>, at: nat, n: nat) returns (mono: seq<real>)
    requires (r == [] || |r| == |l|) && at + n <= |l|
    ensures mono == Mono(l, r)[at..at + n]
  {
    var a := new real[n];
    for i := 0 to n
      invariant forall j: nat :: j < i ==> a[j] == Mono(l, r)[at + j]
    {
      a[i] := if r != [] then Mix(l[at + i], r[at + i]) else l[at + i];
    }
    mono := a[..];
  }

  lemma AtMostOneHop(heard: nat, more: nat, before: nat, after: nat)
    requires more <= HOP && heard < HOP * before + HOP && HOP * after <= heard + more
    ensures after <= before + 1
  {
  }

  lemma TakeMore(all: seq<real>, at: nat, n: nat, before: seq<real>)
    requires at + n <= |all|
    ensures before + all[..at + n] == before + all[..at] + all[at..at + n]
  {
    assert all[..at + n] == all[..at] + all[at..at + n];
  }

  lemma NoFrames<E>(d: Dsp<E>, s: seq<real>, knobs: seq<Params>)
    requires d.lowBands <= BANDS && HOP * |knobs| <= |s|
    ensures Frames(d, s, knobs, |knobs|, |knobs|) == []
  {
    hide FrameAt;
  }

  lemma FramesJoin<E>(d: Dsp<E>, s: seq<real>, more: seq<real>, knobs: seq<Params>, now: seq<Params>, a: nat)
    requires d.lowBands <= BANDS && a <= |knobs| <= |now| && now[..|knobs|] == knobs
    requires HOP * |knobs| <= |s| && HOP * |now| <= |s| + |more|
    ensures Frames(d, s, knobs, a, |knobs|) + Frames(d, s + more, now, |knobs|, |now|) ==
              Frames(d, s + more, now, a, |now|)
  {
    hide FrameAt;
    assert now == knobs + now[|knobs|..];
    forall k: nat | a < k <= |knobs| ensures FrameAt(d, s, knobs, k) == FrameAt(d, s + more, now, k) {
      FrameGrows(d, s, more, knobs, now[|knobs|..], k);
    }
  }
}
