// Mouth shapes from audio (src/ff-viseme.c): one frame classified by two band ratios, and the hold,
// closure and rest timing around it. Arithmetic is over reals; a band's centre frequency comes from
// powf, so the centres are a parameter.
module Viseme {
  const BANDS: nat := 64

  datatype Shape = A | B | C | D | E | F | G | H | X

  datatype Frame = Frame(level: real, bands: seq<real>)

  datatype Params = Params(gate: real, closureMs: real, holdMs: real, releaseMs: real, jawBias: real)

  const DEFAULTS := Params(0.04, 200.0, 80.0, 120.0, 0.0)

  const FRICATION := 0.22
  const OPEN_WIDE := 0.56
  const JAW := 0.48
  const FRONT := 0.29
  const JAW_BIAS_MAX := 0.15
  const SILENCE := 0.0001
  const TINY := 0.000001

  // ------------------------------------------------------------------------------ features

  // The bands among the first n whose centres lie from lo to hi, added up.
  function BandSum(f: Frame, hz: seq<real>, lo: real, hi: real, n: nat): (s: real)
    requires n <= |hz| <= |f.bands|
    ensures (forall i :: 0 <= i < n ==> f.bands[i] >= 0.0) ==> s >= 0.0
  {
    if n == 0 then 0.0
    else BandSum(f, hz, lo, hi, n - 1) + if lo <= hz[n - 1] <= hi then f.bands[n - 1] else 0.0
  }

  predicate Fits(f: Frame, hz: seq<real>) { |f.bands| == BANDS && |hz| == BANDS }

  function Band(f: Frame, hz: seq<real>, lo: real, hi: real): real
    requires Fits(f, hz)
  {
    BandSum(f, hz, lo, hi, BANDS)
  }

  method BandTotal(f: Frame, hz: seq<real>, lo: real, hi: real) returns (sum: real)
    requires Fits(f, hz)
    ensures sum == Band(f, hz, lo, hi)
  {
    sum := 0.0;
    for i := 0 to BANDS
      invariant sum == BandSum(f, hz, lo, hi, i)
    {
      if lo <= hz[i] && hz[i] <= hi {
        sum := sum + f.bands[i];
      }
    }
  }

  function Frication(voiced: real, high: real): real {
    if voiced + high <= SILENCE then 0.0 else high / (voiced + high)
  }

  // The share of b in a + b, kept off a division by nothing.
  function Share(a: real, b: real): real { if a + b + TINY == 0.0 then 0.0 else b / (a + b + TINY) }

  lemma ShareInRange(a: real, b: real)
    requires a >= 0.0 && b >= 0.0
    ensures 0.0 <= Share(a, b) < 1.0
  {
    QuotientInRange(b, a + b + TINY);
  }

  lemma QuotientInRange(b: real, t: real)
    requires 0.0 <= b < t
    ensures 0.0 <= b / t < 1.0
  {
    var q := b / t;
    assert q * t == b;
    if q < 0.0 { NegativeProduct(q, t); }
    if q >= 1.0 { LargeProduct(q, t); }
  }

  lemma NegativeProduct(q: real, t: real)
    requires q < 0.0 < t
    ensures q * t < 0.0
  {
  }

  lemma LargeProduct(q: real, t: real)
    requires q >= 1.0 && t > 0.0
    ensures q * t >= t
  {
    assert (q - 1.0) * t >= 0.0;
  }

  function Openness(f: Frame, hz: seq<real>): real
    requires Fits(f, hz)
  {
    Share(Band(f, hz, 180.0, 450.0), Band(f, hz, 450.0, 1100.0))
  }

  function Frontness(f: Frame, hz: seq<real>): real
    requires Fits(f, hz)
  {
    Share(Band(f, hz, 550.0, 1300.0), Band(f, hz, 1800.0, 3000.0))
  }

  function ClampBias(b: real): real {
    if b < -JAW_BIAS_MAX then -JAW_BIAS_MAX else if b > JAW_BIAS_MAX then JAW_BIAS_MAX else b
  }

  // Silence, a hiss, or a vowel to be told apart by its jaw and its tongue.
  datatype Sound = Nothing | Hiss | Vowel(open: real, front: real)

  function Heard(f: Frame, hz: seq<real>): Sound
    requires Fits(f, hz)
  {
    var voiced, high := Band(f, hz, 180.0, 3500.0), Band(f, hz, 3500.0, 16000.0);
    if voiced + high <= SILENCE then Nothing
    else if Frication(voiced, high) > FRICATION then Hiss
    else if voiced <= SILENCE then Nothing
    else Vowel(Openness(f, hz), Frontness(f, hz))
  }

  function ShapeOf(s: Sound, bias: real): (r: Shape)
    ensures r in {B, C, D, E, F, X}
  {
    match s
    case Nothing => X
    case Hiss => B
    case Vowel(open, front) =>
      if open > OPEN_WIDE - ClampBias(bias) then D
      else if open > JAW - ClampBias(bias) then if front > FRONT then C else E
      else if front > FRONT then B else F
  }

  function Classify(f: Frame, hz: seq<real>, bias: real): (r: Shape)
    requires Fits(f, hz)
    ensures r in {B, C, D, E, F, X}
  {
    ShapeOf(Heard(f, hz), bias)
  }

  method ClassifyFrame(f: Frame, hz: seq<real>, jawBias: real) returns (r: Shape)
    requires Fits(f, hz)
    ensures r == Classify(f, hz, jawBias)
  {
    hide Band, BandSum;
    var bias := jawBias;
    if bias < -JAW_BIAS_MAX { bias := -JAW_BIAS_MAX; }
    if bias > JAW_BIAS_MAX { bias := JAW_BIAS_MAX; }
    var voiced := BandTotal(f, hz, 180.0, 3500.0);
    var high := BandTotal(f, hz, 3500.0, 16000.0);
    if voiced + high <= SILENCE { return X; }
    if Frication(voiced, high) > FRICATION { return B; }
    if voiced <= SILENCE { return X; }
    var open := Openness(f, hz);
    var isFront := Frontness(f, hz) > FRONT;
    if open > OPEN_WIDE - bias { return D; }
    if open > JAW - bias { return if isFront then C else E; }
    return if isFront then B else F;
  }

  // {B, F} below {C, E} below D.
  function Jaw(s: Shape): nat {
    match s case D => 2 case C => 1 case E => 1 case _ => 0
  }

  // ---------------------------------------------------------------- what a frame sounds like

  // All of a frame is in the bands i, j and k.
  ghost predicate OnlyIn(f: Frame, i: nat, j: nat, k: nat) {
    forall b :: 0 <= b < |f.bands| && b != i && b != j && b != k ==> f.bands[b] == 0.0
  }

  function Part(v: real, hz: real, lo: real, hi: real): real { if lo <= hz <= hi then v else 0.0 }

  lemma {:induction false} ThreeBands(f: Frame, hz: seq<real>, lo: real, hi: real, i: nat, j: nat, k: nat, n: nat)
    requires n <= |hz| <= |f.bands| && i < j < k < |hz| && OnlyIn(f, i, j, k)
    ensures BandSum(f, hz, lo, hi, n) ==
            (if i < n then Part(f.bands[i], hz[i], lo, hi) else 0.0) +
            (if j < n then Part(f.bands[j], hz[j], lo, hi) else 0.0) +
            (if k < n then Part(f.bands[k], hz[k], lo, hi) else 0.0)
  {
    if n > 0 { ThreeBands(f, hz, lo, hi, i, j, k, n - 1); }
  }

  lemma BandsOfThree(f: Frame, hz: seq<real>, lo: real, hi: real, i: nat, j: nat, k: nat)
    requires Fits(f, hz) && i < j < k < BANDS && OnlyIn(f, i, j, k)
    ensures Band(f, hz, lo, hi) ==
            Part(f.bands[i], hz[i], lo, hi) + Part(f.bands[j], hz[j], lo, hi) + Part(f.bands[k], hz[k], lo, hi)
  {
    ThreeBands(f, hz, lo, hi, i, j, k, BANDS);
  }

  // A single tone, whatever the trim: a hiss is B, a first formant that is high opens the mouth wide, one
  // that is low closes it, and a second formant alone, which is high, puts the tongue to the front.
  lemma PureTone(f: Frame, hz: seq<real>, i: nat, bias: real)
    requires Fits(f, hz) && 0 < i < BANDS - 1 && OnlyIn(f, i - 1, i, i + 1)
    requires f.bands[i] > SILENCE && f.bands[i - 1] == 0.0 == f.bands[i + 1]
    ensures var c := hz[i];
            && (3500.0 <= c <= 16000.0 ==> Classify(f, hz, bias) == B)
            && (450.0 < c <= 1100.0 ==> Classify(f, hz, bias) == D)
            && (180.0 <= c < 450.0 ==> Classify(f, hz, bias) == F)
            && (1800.0 <= c <= 3000.0 ==> Classify(f, hz, bias) == B)
            && (c < 180.0 || c > 16000.0 ==> Classify(f, hz, bias) == X)
  {
    hide Band;
    var v, c := f.bands[i], hz[i];
    BandsOfThree(f, hz, 180.0, 3500.0, i - 1, i, i + 1);
    BandsOfThree(f, hz, 3500.0, 16000.0, i - 1, i, i + 1);
    BandsOfThree(f, hz, 180.0, 450.0, i - 1, i, i + 1);
    BandsOfThree(f, hz, 450.0, 1100.0, i - 1, i, i + 1);
    BandsOfThree(f, hz, 550.0, 1300.0, i - 1, i, i + 1);
    BandsOfThree(f, hz, 1800.0, 3000.0, i - 1, i, i + 1);
    NearlyAll(v);
  }

  lemma NearlyAll(v: real)
    requires v > SILENCE
    ensures Share(0.0, v) > 0.9 && Share(v, 0.0) == 0.0 && Share(0.0, 0.0) == 0.0
    ensures Frication(v, 0.0) == 0.0 && Frication(0.0, v) == 1.0 && Frication(v, v) == 0.5
  {
    QuotientIs(v, v + TINY, 0.9, 1.0);
    QuotientIs(0.0, v + TINY, -1.0, 1.0);
    QuotientIs(0.0, v, -1.0, 1.0);
    QuotientIs(v, v, 0.0, 2.0);
    QuotientIs(v, v + v, 0.0, 1.0);
  }

  // A quotient is the number whose product with t is b.
  lemma QuotientIs(b: real, t: real, low: real, high: real)
    requires t > 0.0 && low * t < b < high * t
    ensures low < b / t < high && b / t * t == b
    ensures (b == 0.0 ==> b / t == 0.0) && (b == t ==> b / t == 1.0) && (2.0 * b == t ==> b / t == 0.5)
  {
    var q := b / t;
    assert q * t == b;
    if q <= low { ProductsKeepOrder(q, low, t); }
    if q >= high { ProductsKeepOrder(high, q, t); }
    Only(q, 0.0, t);
    Only(q, 1.0, t);
    Only(q, 0.5, t);
  }

  lemma ProductsKeepOrder(a: real, b: real, t: real)
    requires a <= b && t > 0.0
    ensures a * t <= b * t
  {
  }

  lemma Only(q: real, r: real, t: real)
    requires t > 0.0
    ensures q * t == r * t ==> q == r
  {
    assert (q - r) * t == q * t - r * t;
  }

  // With the trim at rest, as much below 450 Hz as above it leaves the mouth half open, and what decides
  // the side of the tongue is whether there is a second formant.
  lemma HalfOpen(f: Frame, hz: seq<real>, i: nat, j: nat, k: nat)
    requires Fits(f, hz) && i < j < k < BANDS && OnlyIn(f, i, j, k)
    requires 180.0 <= hz[i] < 450.0 < hz[j] < 550.0 && 1800.0 <= hz[k] <= 3000.0
    requires f.bands[i] == f.bands[j] > SILENCE && (f.bands[k] == 0.0 || f.bands[k] > SILENCE)
    ensures Classify(f, hz, 0.0) == if f.bands[k] == 0.0 then E else C
  {
    hide Band;
    BandsOfThree(f, hz, 180.0, 3500.0, i, j, k);
    BandsOfThree(f, hz, 3500.0, 16000.0, i, j, k);
    BandsOfThree(f, hz, 180.0, 450.0, i, j, k);
    BandsOfThree(f, hz, 450.0, 1100.0, i, j, k);
    BandsOfThree(f, hz, 550.0, 1300.0, i, j, k);
    BandsOfThree(f, hz, 1800.0, 3000.0, i, j, k);
    NearlyHalf(f.bands[i]);
    if f.bands[k] != 0.0 { NearlyAll(f.bands[k]); }
  }

  lemma NearlyHalf(v: real)
    requires v > SILENCE
    ensures 0.49 < Share(v, v) < 0.5
  {
    QuotientIs(v, v + v + TINY, 0.49, 0.5);
  }

  // B and C are shown for a tongue to the front, E and F for one to the back.
  lemma SidesOfTheTongue(open: real, front: real, bias: real)
    ensures var s := ShapeOf(Vowel(open, front), bias);
            (s in {B, C} ==> front > FRONT) && (s in {E, F} ==> front <= FRONT) && s in {B, C, D, E, F}
    ensures ShapeOf(Hiss, bias) == B && ShapeOf(Nothing, bias) == X
  {
  }

  // Raising the trim never closes the jaw, and changes nothing but the jaw: below D the side of
  // the tongue is the same, and a hiss or silence is shown as before.
  lemma RaisingTheTrimOpens(f: Frame, hz: seq<real>, low: real, high: real)
    requires Fits(f, hz) && low <= high
    ensures Jaw(Classify(f, hz, low)) <= Jaw(Classify(f, hz, high))
    ensures Classify(f, hz, low) in {B, C} && Classify(f, hz, high) != D ==> Classify(f, hz, high) in {B, C}
    ensures Classify(f, hz, low) in {E, F} && Classify(f, hz, high) != D ==> Classify(f, hz, high) in {E, F}
    ensures Classify(f, hz, low) == X <==> Classify(f, hz, high) == X
  {
    hide Heard;
    assert ClampBias(low) <= ClampBias(high);
  }

  // With band values that are not negative both vowel features are proper shares, so neither jaw
  // threshold can leave their range however far the trim is pushed.
  lemma TrimStaysInRange(f: Frame, hz: seq<real>, bias: real)
    requires Fits(f, hz) && forall i :: 0 <= i < BANDS ==> f.bands[i] >= 0.0
    ensures 0.0 <= Openness(f, hz) < 1.0 && 0.0 <= Frontness(f, hz) < 1.0
    ensures 0.0 < JAW - ClampBias(bias) < OPEN_WIDE - ClampBias(bias) < 1.0
    ensures OPEN_WIDE - ClampBias(bias) - (JAW - ClampBias(bias)) == OPEN_WIDE - JAW
  {
    ShareInRange(Band(f, hz, 180.0, 450.0), Band(f, hz, 450.0, 1100.0));
    ShareInRange(Band(f, hz, 550.0, 1300.0), Band(f, hz, 1800.0, 3000.0));
  }

  // -------------------------------------------------------------------------------- timing

  // One update: what it was given and the shape it answered with.
  datatype Tick = Tick(frame: Frame, dt: real, params: Params, shape: Shape)

  predicate Voiced(t: Tick) { t.frame.level > t.params.gate }

  ghost predicate Spoke(h: seq<Tick>) { exists t :: t in h && Voiced(t) }

  function Front<T>(h: seq<T>): seq<T>
    requires h != []
  {
    h[..|h| - 1]
  }

  function Last<T>(h: seq<T>): T
    requires h != []
  {
    h[|h| - 1]
  }

  // How long it has been quiet.
  function QuietFor(h: seq<Tick>): real {
    if h == [] || Voiced(Last(h)) then 0.0 else QuietFor(Front(h)) + Last(h).dt
  }

  function Showing(h: seq<Tick>): Shape { if h == [] then X else Last(h).shape }

  // How long the shape on show has been up.
  function UpFor(h: seq<Tick>): real {
    if h == [] || Last(h).shape != Showing(Front(h)) then 0.0 else UpFor(Front(h)) + Last(h).dt
  }

  predicate AtRest(s: Shape) { s == A || s == X }

  // The shape the next update answers with.
  ghost function Rule(h: seq<Tick>, hz: seq<real>, f: Frame, dt: real, p: Params): Shape
    requires Fits(f, hz)
  {
    if f.level <= p.gate then
      if Spoke(h) && QuietFor(h) + dt < p.closureMs then A else X
    else if AtRest(Showing(h)) || UpFor(h) + dt >= p.holdMs then Classify(f, hz, p.jawBias)
    else Showing(h)
  }

  // Up at once, down over the release time.
  function Follow(openness: real, level: real, dt: real, release: real): real {
    if level > openness || release <= 0.0 then level
    else openness + Scaled(level - openness, if dt / release > 1.0 then 1.0 else dt / release)
  }

  function Scaled(d: real, k: real): real { d * k }

  // Falling takes the release time, evenly: of the way down, as much is gone as of the time.
  lemma FallsEvenly(openness: real, level: real, dt: real, release: real)
    requires level <= openness && release > 0.0 && dt >= 0.0
    ensures dt <= release ==> (openness - Follow(openness, level, dt, release)) * release == (openness - level) * dt
    ensures dt >= release ==> Follow(openness, level, dt, release) == level
  {
    QuotientOf(dt, release);
    var q, d := dt / release, level - openness;
    if dt < release {
      assert Follow(openness, level, dt, release) == openness + d * q;
      assert d * q * release == d * (q * release);
    }
    if dt == release { assert q == 1.0; }
  }

  lemma QuotientOf(a: real, b: real)
    requires a >= 0.0 && b > 0.0
    ensures a / b * b == a && (a / b > 1.0 <==> a > b) && (a == b ==> a / b == 1.0)
  {
    var q := a / b;
    assert q * b == a;
    if q <= 1.0 { ProductsKeepOrder(q, 1.0, b); } else { ProductsKeepOrder(1.0, q, b); }
    Only(q, 1.0, b);
  }

  function Opened(h: seq<Tick>): real {
    if h == [] then 0.0
    else Follow(Opened(Front(h)), Last(h).frame.level, Last(h).dt, Last(h).params.releaseMs)
  }

  ghost predicate Run(h: seq<Tick>, hz: seq<real>) {
    h == [] || (
      && Fits(Last(h).frame, hz) && Last(h).dt >= 0.0
      && Run(Front(h), hz)
      && Last(h).shape == Rule(Front(h), hz, Last(h).frame, Last(h).dt, Last(h).params))
  }

  class Mouth {
    const hz: seq<real>
    var current: Shape
    var heldMs: real
    var openness: real
    var silentMs: real
    var spoke: bool
    var voiced: bool
    ghost var past: seq<Tick>

    // The fields are what the past says they are. A shape at rest is never held, so only there may
    // the timer run short.
    ghost predicate Valid()
      reads this
    {
      && |hz| == BANDS && Run(past, hz)
      && current == Showing(past)
      && (!AtRest(current) ==> heldMs == UpFor(past))
      && openness == Opened(past)
      && silentMs == QuietFor(past)
      && (spoke <==> Spoke(past))
      && (voiced <==> past != [] && Voiced(Last(past)))
    }

    constructor (hz: seq<real>)
      requires |hz| == BANDS
      ensures Valid() && past == [] && this.hz == hz
    {
      this.hz := hz;
      current := X;
      heldMs, openness, silentMs, spoke, voiced := 0.0, 0.0, 0.0, false, false;
      past := [];
    }

    method Update(f: Frame, dt: real, p: Params) returns (shape: Shape)
      requires Valid() && Fits(f, hz) && dt >= 0.0
      modifies this
      ensures Valid() && past == old(past) + [Tick(f, dt, p, shape)]
    {
      hide Classify, QuietFor, UpFor, Opened, Spoke, Follow, Run;
      ghost var was := past;
      FollowLevel(f.level, dt, p.releaseMs);
      heldMs := heldMs + dt;
      voiced := f.level > p.gate;
      if !voiced {
        Shut(dt, p);
      } else {
        Speak(f, p);
      }
      shape := current;
      past := was + [Tick(f, dt, p, shape)];
      Snoc(was, Tick(f, dt, p, shape));
      RunSnoc(was, hz, Tick(f, dt, p, shape));
    }

    method Shut(dt: real, p: Params)
      modifies `silentMs, `current, `heldMs
      ensures silentMs == old(silentMs) + dt
      ensures current == if spoke && silentMs < p.closureMs then A else X
    {
      silentMs := silentMs + dt;
      var want := if spoke && silentMs < p.closureMs then A else X;
      if current != want {
        current := want;
        heldMs := 0.0;
      }
    }

    method Speak(f: Frame, p: Params)
      requires Fits(f, hz)
      modifies `silentMs, `spoke, `current, `heldMs
      ensures silentMs == 0.0 && spoke
      ensures current ==
        if AtRest(old(current)) || old(heldMs) >= p.holdMs then Classify(f, hz, p.jawBias) else old(current)
      ensures heldMs == if current != old(current) || AtRest(old(current)) then 0.0 else old(heldMs)
    {
      hide Classify;
      silentMs := 0.0;
      spoke := true;
      var want := ClassifyFrame(f, hz, p.jawBias);
      if current == X || current == A {
        current := want;
        heldMs := 0.0;
        return;
      }
      if want != current && heldMs >= p.holdMs {
        current := want;
        heldMs := 0.0;
      }
    }

    method FollowLevel(level: real, dt: real, release: real)
      modifies `openness
      ensures openness == Follow(old(openness), level, dt, release)
    {
      if level > openness {
        openness := level;
      } else if release > 0.0 {
        var k := dt / release;
        if k > 1.0 { k := 1.0; }
        openness := openness + (level - openness) * k;
      } else {
        openness := level;
      }
    }
  }

  lemma Snoc(h: seq<Tick>, t: Tick)
    ensures Front(h + [t]) == h && Last(h + [t]) == t && Showing(h + [t]) == t.shape
    ensures QuietFor(h + [t]) == if Voiced(t) then 0.0 else QuietFor(h) + t.dt
    ensures UpFor(h + [t]) == if t.shape != Showing(h) then 0.0 else UpFor(h) + t.dt
    ensures Opened(h + [t]) == Follow(Opened(h), t.frame.level, t.dt, t.params.releaseMs)
    ensures Spoke(h + [t]) <==> Spoke(h) || Voiced(t)
  {
    assert Front(h + [t]) == h;
    SpokeSnoc(h, t);
    hide Follow, Spoke;
  }

  lemma RunSnoc(h: seq<Tick>, hz: seq<real>, t: Tick)
    requires Run(h, hz) && Fits(t.frame, hz) && t.dt >= 0.0
    requires t.shape == Rule(h, hz, t.frame, t.dt, t.params)
    ensures Run(h + [t], hz)
  {
    hide Rule;
    assert Front(h + [t]) == h;
  }

  lemma SpokeSnoc(h: seq<Tick>, t: Tick)
    ensures Spoke(h + [t]) <==> Spoke(h) || Voiced(t)
  {
    assert t in h + [t];
    assert forall u :: u in h ==> u in h + [t];
  }

  // ---------------------------------------------------------------- what every run keeps

  // The closed mouth is shown exactly while a gap is shorter than a closure and speech came before.
  lemma ClosedExactly(h: seq<Tick>, hz: seq<real>)
    requires Run(h, hz) && h != []
    ensures Showing(h) == A <==> !Voiced(Last(h)) && Spoke(h) && QuietFor(h) < Last(h).params.closureMs
    ensures !Voiced(Last(h)) && Showing(h) != A ==> Showing(h) == X
  {
    hide Classify, UpFor;
    assert h == Front(h) + [Last(h)];
    SpokeSnoc(Front(h), Last(h));
    if Voiced(Last(h)) { NeverAHeldWhileVoiced(h, hz); }
  }

  lemma NeverAHeldWhileVoiced(h: seq<Tick>, hz: seq<real>)
    requires Run(h, hz) && h != [] && Voiced(Last(h))
    ensures Showing(h) != A
  {
    hide UpFor, QuietFor;
    var t := Last(h);
    assert Classify(t.frame, hz, t.params.jawBias) != A;
  }

  // Teeth on the lip and the lifted tongue are never asked for.
  lemma {:induction false} NeverTeethOrTongue(h: seq<Tick>, hz: seq<real>, i: nat)
    requires Run(h, hz) && i < |h|
    ensures h[i].shape != G && h[i].shape != H
    decreases |h|
  {
    if i < |h| - 1 {
      NeverTeethOrTongue(Front(h), hz, i);
    } else {
      if |h| > 1 { NeverTeethOrTongue(Front(h), hz, i - 1); }
      var t := Last(h);
      assert Classify(t.frame, hz, t.params.jawBias) !in {G, H};
    }
  }

  function TimeFrom(h: seq<Tick>, i: nat): real
    requires i <= |h|
    decreases |h| - i
  {
    if i == |h| then 0.0 else h[i].dt + TimeFrom(h, i + 1)
  }

  lemma {:induction false} TimeFromSnoc(h: seq<Tick>, t: Tick, i: nat)
    requires i <= |h|
    ensures TimeFrom(h + [t], i) == TimeFrom(h, i) + t.dt
    decreases |h| - i
  {
    if i < |h| {
      TimeFromSnoc(h, t, i + 1);
      assert (h + [t])[i] == h[i];
    } else {
      assert TimeFrom(h + [t], i + 1) == 0.0;
    }
  }

  // A shape that went up at update i and has not changed since has been up for the time since.
  lemma {:induction false} UpSince(h: seq<Tick>, i: nat)
    requires i < |h| && (forall j :: i <= j < |h| ==> h[j].shape == h[i].shape)
    requires h[i].shape != Showing(h[..i])
    ensures UpFor(h) == TimeFrom(h, i + 1)
    decreases |h|
  {
    if i == |h| - 1 {
      assert Front(h) == h[..i];
    } else {
      var g := Front(h);
      assert g[..i] == h[..i];
      UpSince(g, i);
      assert h == g + [Last(h)];
      TimeFromSnoc(g, Last(h), i + 1);
      assert Showing(g) == h[i].shape && Last(h).shape == h[|h| - 1].shape;
    }
  }

  lemma HeldUntilReplaced(h: seq<Tick>, hz: seq<real>)
    requires Run(h, hz) && h != [] && Voiced(Last(h))
    requires !AtRest(Showing(Front(h))) && Last(h).shape != Showing(Front(h))
    ensures UpFor(Front(h)) + Last(h).dt >= Last(h).params.holdMs
  {
    hide Classify, QuietFor, UpFor;
  }

  // A speaking shape put up at update i and replaced at update j, a voiced one, has been up for the
  // hold time then in force.
  lemma NoFlicker(h: seq<Tick>, hz: seq<real>, i: nat, j: nat)
    requires Run(h, hz) && i < j < |h|
    requires !AtRest(h[i].shape) && h[i].shape != Showing(h[..i])
    requires forall k :: i <= k < j ==> h[k].shape == h[i].shape
    requires h[j].shape != h[i].shape && Voiced(h[j])
    ensures TimeFrom(h[..j + 1], i + 1) >= h[j].params.holdMs
  {
    hide Run, UpFor, TimeFrom;
    PrefixRuns(h, hz, j + 1);
    UpBefore(h, i, j);
    OneMoreTick(h, j);
    TimeFromSnoc(h[..j], h[j], i + 1);
    HeldUntilReplaced(h[..j + 1], hz);
  }

  // And it is held no longer: as soon as it has been up for that time, a voiced update shows what is
  // heard.
  lemma HeldExactly(h: seq<Tick>, hz: seq<real>, i: nat, j: nat)
    requires Run(h, hz) && i < j < |h|
    requires !AtRest(h[i].shape) && h[i].shape != Showing(h[..i])
    requires forall k :: i <= k < j ==> h[k].shape == h[i].shape
    requires Voiced(h[j]) && Fits(h[j].frame, hz)
    ensures h[j].shape == if TimeFrom(h[..j + 1], i + 1) >= h[j].params.holdMs
                          then Classify(h[j].frame, hz, h[j].params.jawBias) else h[i].shape
  {
    hide Run, UpFor, TimeFrom, Classify;
    PrefixRuns(h, hz, j + 1);
    UpBefore(h, i, j);
    OneMoreTick(h, j);
    TimeFromSnoc(h[..j], h[j], i + 1);
    VoicedRule(h[..j + 1], hz);
  }

  lemma VoicedRule(h: seq<Tick>, hz: seq<real>)
    requires Run(h, hz) && h != [] && Voiced(Last(h)) && !AtRest(Showing(Front(h)))
    ensures Fits(Last(h).frame, hz)
    ensures Last(h).shape == if UpFor(Front(h)) + Last(h).dt >= Last(h).params.holdMs
                             then Classify(Last(h).frame, hz, Last(h).params.jawBias) else Showing(Front(h))
  {
    hide Classify, QuietFor, UpFor;
  }

  lemma OneMoreTick(h: seq<Tick>, j: nat)
    requires 0 < j < |h|
    ensures h[..j + 1] == h[..j] + [h[j]] && Front(h[..j + 1]) == h[..j] && Last(h[..j + 1]) == h[j]
    ensures Showing(h[..j]) == h[j - 1].shape
  {
  }

  lemma UpBefore(h: seq<Tick>, i: nat, j: nat)
    requires i < j <= |h| && h[i].shape != Showing(h[..i])
    requires forall k :: i <= k < j ==> h[k].shape == h[i].shape
    ensures UpFor(h[..j]) == TimeFrom(h[..j], i + 1)
  {
    hide UpFor, TimeFrom;
    assert h[..j][..i] == h[..i];
    UpSince(h[..j], i);
  }

  lemma {:induction false} PrefixRuns(h: seq<Tick>, hz: seq<real>, n: nat)
    requires Run(h, hz) && n <= |h|
    ensures Run(h[..n], hz)
    decreases |h|
  {
    if n == |h| {
      assert h[..n] == h;
    } else {
      PrefixRuns(Front(h), hz, n);
      assert Front(h)[..n] == h[..n];
    }
  }

  // The first voiced frame after rest or a closure is shown as it was heard.
  lemma WordsStartAtOnce(h: seq<Tick>, hz: seq<real>)
    requires Run(h, hz) && h != [] && Voiced(Last(h)) && AtRest(Showing(Front(h)))
    ensures Showing(h) == Classify(Last(h).frame, hz, Last(h).params.jawBias)
  {
  }

  // The mouth is never behind an attack, and never leaves the range of what it was fed.
  lemma {:induction false} OpennessFollows(h: seq<Tick>, hz: seq<real>, lo: real, hi: real)
    requires Run(h, hz) && lo <= 0.0 <= hi
    requires forall t :: t in h ==> lo <= t.frame.level <= hi
    ensures lo <= Opened(h) <= hi
    ensures h != [] ==> Opened(h) >= Last(h).frame.level
    decreases |h|
  {
    hide Rule;
    if h != [] {
      var g, t := Front(h), Last(h);
      assert forall u :: u in g ==> u in h;
      assert t in h;
      OpennessFollows(g, hz, lo, hi);
      FollowBetween(Opened(g), t.frame.level, t.dt, t.params.releaseMs);
    }
  }

  lemma FollowBetween(o: real, level: real, dt: real, release: real)
    requires dt >= 0.0
    ensures level <= Follow(o, level, dt, release)
    ensures Follow(o, level, dt, release) <= if level > o then level else o
  {
    if level <= o && release > 0.0 {
      PositiveQuotient(dt, release);
      var k := if dt / release > 1.0 then 1.0 else dt / release;
      ScaledDown(o - level, k);
      ScaledOpposite(o - level, k);
    }
  }

  lemma PositiveQuotient(a: real, t: real)
    requires a >= 0.0 && t > 0.0
    ensures a / t >= 0.0
  {
    var q := a / t;
    assert q * t == a;
    if q < 0.0 { NegativeProduct(q, t); }
  }

  lemma ScaledOpposite(d: real, k: real)
    ensures Scaled(-d, k) == -Scaled(d, k)
  {
  }

  lemma ScaledDown(d: real, k: real)
    requires d >= 0.0 && 0.0 <= k <= 1.0
    ensures 0.0 <= Scaled(d, k) <= d
  {
    assert d * k >= 0.0;
    assert d * (1.0 - k) >= 0.0;
    assert d * (1.0 - k) == d - d * k;
  }
}
