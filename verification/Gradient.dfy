// Gradient ramps (src/ff-layers.c): colour stops baked into a 256-entry table by one forward pass,
// and the dirty flag that decides when to bake again. Arithmetic is over reals.
module Gradient {
  import opened Bytes

  const LUT: nat := 256
  const EPSILON := 0.000001

  type Colour = c: seq<real> | |c| == 4 witness [0.0, 0.0, 0.0, 0.0]

  datatype Stop = Stop(pos: real, col: Colour)

  // --------------------------------------------------- what each entry of the table should be

  // A stop behind the one before it is moved forward to it.
  function Pos(stops: seq<Stop>, i: nat): real
    requires i < |stops|
  {
    if i == 0 then stops[0].pos
    else if stops[i].pos < Pos(stops, i - 1) then Pos(stops, i - 1)
    else stops[i].pos
  }

  // The interval position t falls in, searched for from the first one.
  function Search(stops: seq<Stop>, t: real, s: nat): (r: nat)
    requires |stops| >= 2 && s <= |stops| - 2
    decreases |stops| - s
    ensures s <= r <= |stops| - 2
    ensures forall j: nat :: s < j <= r ==> t > Pos(stops, j)
    ensures r < |stops| - 2 ==> t <= Pos(stops, r + 1)
  {
    if s < |stops| - 2 && t > Pos(stops, s + 1) then Search(stops, t, s + 1) else s
  }

  function Unit(v: real): (u: real)
    ensures 0.0 <= u <= 1.0 && (0.0 <= v <= 1.0 ==> u == v) && (v <= 0.0 ==> u == 0.0) && (v >= 1.0 ==> u == 1.0)
  {
    if v < 0.0 then 0.0 else if v > 1.0 then 1.0 else v
  }

  // How far between stop s and the next one t lies; two stops at one place make a hard edge.
  function Fraction(stops: seq<Stop>, t: real, s: nat): (f: real)
    requires s + 1 < |stops|
    ensures 0.0 <= f <= 1.0
  {
    var span := Pos(stops, s + 1) - Pos(stops, s);
    Unit(if span > EPSILON then (t - Pos(stops, s)) / span else if t < Pos(stops, s) then 0.0 else 1.0)
  }

  function ToByte(v: real): Byte {
    ByteRange(Unit(v));
    (Unit(v) * 255.0 + 0.5).Floor
  }

  lemma ByteRange(u: real)
    requires 0.0 <= u <= 1.0
    ensures 0 <= (u * 255.0 + 0.5).Floor < 256
  {
  }

  function Part(d: real, f: real): real { d * f }

  function Blend(a: real, b: real, f: real): real { a + Part(b - a, f) }

  function Place(x: int): real { x as real / 255.0 }

  // Channel c of entry x, by a search of its own.
  function ByteAt(stops: seq<Stop>, x: nat, c: nat): Byte
    requires |stops| >= 2 && c < 4
  {
    var t := Place(x);
    var s := Search(stops, t, 0);
    ToByte(Blend(stops[s].col[c], stops[s + 1].col[c], Fraction(stops, t, s)))
  }

  ghost predicate IsTable(lut: seq<Byte>, stops: seq<Stop>)
    requires |stops| >= 2
  {
    |lut| == 4 * LUT && forall x: nat, c: nat :: x < LUT && c < 4 ==> lut[4 * x + c] == ByteAt(stops, x, c)
  }

  // --------------------------------------------------------------------- bake_gradient

  // One pass: the cursor only ever moves forward.
  method Bake(stops: seq<Stop>) returns (lut: array<Byte>)
    requires |stops| >= 2
    ensures fresh(lut) && IsTable(lut[..], stops)
  {
    hide Search, Fraction, Pos, ByteAt, Place;
    var n := |stops|;
    var pos := ClampPositions(stops);
    lut := new Byte[4 * LUT];
    var s := 0;
    for x := 0 to LUT
      invariant 0 <= s <= n - 2 && forall i: nat :: i < n ==> pos[i] == Pos(stops, i)
      invariant forall j: nat :: 0 < j <= s ==> x > 0 && Place(x - 1) > Pos(stops, j)
      invariant forall y: nat, c: nat :: y < x && c < 4 ==> lut[4 * y + c] == ByteAt(stops, y, c)
    {
      var t := Place(x);
      PlacesGrow(x);
      while s < n - 2 && t > pos[s + 1]
        invariant 0 <= s <= n - 2
        invariant forall j: nat :: 0 < j <= s ==> t > Pos(stops, j)
      {
        s := s + 1;
      }
      CursorIsSearch(stops, t, s);
      var f := FractionOf(stops, t, s, pos[s], pos[s + 1]);
      FillEntry(stops, lut, x, s, f);
    }
  }

  method FractionOf(stops: seq<Stop>, t: real, s: nat, here: real, there: real) returns (f: real)
    requires s + 1 < |stops| && here == Pos(stops, s) && there == Pos(stops, s + 1)
    ensures f == Fraction(stops, t, s)
  {
    hide Pos;
    var span := there - here;
    f := if span > EPSILON then (t - here) / span else if t < here then 0.0 else 1.0;
    if f < 0.0 { f := 0.0; }
    if f > 1.0 { f := 1.0; }
  }

  lemma PlacesGrow(x: int)
    ensures Place(x - 1) < Place(x)
  {
    assert Place(x) == Place(x - 1) + 1.0 / 255.0;
  }

  method ClampPositions(stops: seq<Stop>) returns (pos: array<real>)
    requires |stops| >= 2
    ensures fresh(pos) && pos.Length == |stops| && forall i: nat :: i < |stops| ==> pos[i] == Pos(stops, i)
  {
    pos := new real[|stops|];
    pos[0] := stops[0].pos;
    for i := 1 to |stops|
      invariant forall j: nat :: j < i ==> pos[j] == Pos(stops, j)
    {
      pos[i] := if stops[i].pos < pos[i - 1] then pos[i - 1] else stops[i].pos;
    }
  }

  method FillEntry(stops: seq<Stop>, lut: array<Byte>, x: nat, s: nat, f: real)
    requires |stops| >= 2 && lut.Length == 4 * LUT && x < LUT && s == Search(stops, Place(x), 0)
    requires f == Fraction(stops, Place(x), s)
    modifies lut
    ensures forall c: nat :: c < 4 ==> lut[4 * x + c] == ByteAt(stops, x, c)
    ensures forall k: nat :: k < 4 * x ==> lut[k] == old(lut[k])
  {
    hide Fraction, Search, Blend;
    for c := 0 to 4
      invariant forall d: nat :: d < c ==> lut[4 * x + d] == ByteAt(stops, x, d)
      invariant forall k: nat :: k < 4 * x ==> lut[k] == old(lut[k])
    {
      var v := Blend(stops[s].col[c], stops[s + 1].col[c], f);
      if v < 0.0 { v := 0.0; }
      if v > 1.0 { v := 1.0; }
      ByteRange(v);
      lut[4 * x + c] := (v * 255.0 + 0.5).Floor;
    }
  }

  lemma CursorIsSearch(stops: seq<Stop>, t: real, s: nat)
    requires |stops| >= 2 && s <= |stops| - 2
    requires forall j: nat :: 0 < j <= s ==> t > Pos(stops, j)
    requires s == |stops| - 2 || t <= Pos(stops, s + 1)
    ensures Search(stops, t, 0) == s
  {
    var r := Search(stops, t, 0);
    var atR, atS := Pos(stops, r + 1), Pos(stops, s + 1);
  }

  // -------------------------------------------------------------- what the table looks like

  // Clamping moves each stop to the furthest position so far: never back, and never past it.
  lemma {:induction false} ClampedForward(stops: seq<Stop>, i: nat)
    requires i < |stops|
    ensures forall j: nat :: j <= i ==> stops[j].pos <= Pos(stops, i) && Pos(stops, j) <= Pos(stops, i)
    ensures exists j: nat :: j <= i && Pos(stops, i) == stops[j].pos
  {
    if i > 0 {
      ClampedForward(stops, i - 1);
      if stops[i].pos >= Pos(stops, i - 1) {
        assert Pos(stops, i) == stops[i].pos;
      } else {
        var j: nat :| j <= i - 1 && Pos(stops, i - 1) == stops[j].pos;
        assert Pos(stops, i) == stops[j].pos;
      }
    }
  }

  // Stops already in order stay where they are.
  lemma {:induction false} InOrderUnmoved(stops: seq<Stop>, i: nat)
    requires i < |stops| && forall j: nat, k: nat :: j < k < |stops| ==> stops[j].pos <= stops[k].pos
    ensures Pos(stops, i) == stops[i].pos
  {
    if i > 0 { InOrderUnmoved(stops, i - 1); }
  }

  // Between two neighbouring positions, the interval is the one that ends there.
  lemma Interval(stops: seq<Stop>, t: real, i: nat)
    requires i + 1 < |stops| && Pos(stops, i) < t <= Pos(stops, i + 1)
    ensures Search(stops, t, 0) == i
  {
    var r := Search(stops, t, 0);
    ClampedForward(stops, i);
    var atR := Pos(stops, r + 1);
  }

  // Within an interval that is no hard edge, the way gone is in proportion to the way there is.
  lemma FractionInProportion(stops: seq<Stop>, t: real, s: nat)
    requires s + 1 < |stops| && Pos(stops, s) <= t <= Pos(stops, s + 1)
    requires Pos(stops, s + 1) - Pos(stops, s) > EPSILON
    ensures Fraction(stops, t, s) * (Pos(stops, s + 1) - Pos(stops, s)) == t - Pos(stops, s)
  {
    var d, span := t - Pos(stops, s), Pos(stops, s + 1) - Pos(stops, s);
    ProperQuotient(d, span);
    hide Pos;
  }

  lemma ProperQuotient(a: real, b: real)
    requires 0.0 <= a <= b && b > 0.0
    ensures 0.0 <= a / b <= 1.0 && a / b * b == a
  {
  }

  // So each channel moves from one stop's value to the next one's in proportion to the position, and
  // what an entry shows is that value rounded.
  lemma ChannelInProportion(stops: seq<Stop>, x: nat, i: nat, c: nat)
    requires i + 1 < |stops| && c < 4 && Search(stops, Place(x), 0) == i
    requires Pos(stops, i) <= Place(x) <= Pos(stops, i + 1) && Pos(stops, i + 1) - Pos(stops, i) > EPSILON
    ensures exists v: real ::
              && ByteAt(stops, x, c) == ToByte(v)
              && (v - stops[i].col[c]) * (Pos(stops, i + 1) - Pos(stops, i)) ==
                 (stops[i + 1].col[c] - stops[i].col[c]) * (Place(x) - Pos(stops, i))
  {
    hide Pos, ToByte, Place;
    var a, b, f := stops[i].col[c], stops[i + 1].col[c], Fraction(stops, Place(x), i);
    FractionInProportion(stops, Place(x), i);
    var v := Blend(a, b, f);
    assert v - a == (b - a) * f;
    Regrouped(b - a, f, Pos(stops, i + 1) - Pos(stops, i), Place(x) - Pos(stops, i));
    assert ByteAt(stops, x, c) == ToByte(v);
  }

  lemma Regrouped(d: real, f: real, span: real, way: real)
    requires f * span == way
    ensures d * f * span == d * way
  {
    assert d * f * span == d * (f * span);
  }

  // The 256 places lie evenly from 0 to 1.
  lemma PlacesAreEven(x: int)
    ensures Place(0) == 0.0 && Place(255) == 1.0 && Place(x + 1) - Place(x) == 1.0 / 255.0
  {
    PlacesGrow(x + 1);
  }

  // A channel is rounded to the nearest byte, and what lies outside 0 to 1 is brought inside first.
  lemma ToByteIsNearest(v: real)
    ensures 0.0 <= v <= 1.0 ==> -0.5 <= ToByte(v) as real - 255.0 * v <= 0.5
    ensures (v <= 0.0 ==> ToByte(v) == 0) && (v >= 1.0 ==> ToByte(v) == 255)
  {
    if v <= 0.0 { assert Unit(v) == 0.0 && (0.0 * 255.0 + 0.5).Floor == 0; }
    if v >= 1.0 { assert Unit(v) == 1.0 && (1.0 * 255.0 + 0.5).Floor == 255; }
  }

  // A ramp from black to white is the byte of its entry.
  const BLACK_TO_WHITE: seq<Stop> := [Stop(0.0, [0.0, 0.0, 0.0, 0.0]), Stop(1.0, [1.0, 1.0, 1.0, 1.0])]

  lemma BlackToWhite(x: nat, c: nat)
    requires x < LUT && c < 4
    ensures ByteAt(BLACK_TO_WHITE, x, c) == x
  {
    hide ByteAt, ToByte, Place, Pos, Search;
    PlaceOfByte(x);
    OneInterval(Place(x));
    ChannelInProportion(BLACK_TO_WHITE, x, 0, c);
  }

  lemma OneInterval(t: real)
    ensures Pos(BLACK_TO_WHITE, 0) == 0.0 && Pos(BLACK_TO_WHITE, 1) == 1.0 && Search(BLACK_TO_WHITE, t, 0) == 0
    ensures forall c :: 0 <= c < 4 ==> BLACK_TO_WHITE[0].col[c] == 0.0 && BLACK_TO_WHITE[1].col[c] == 1.0
  {
  }

  lemma PlaceOfByte(x: nat)
    requires x < LUT
    ensures 0.0 <= Place(x) <= 1.0 && ToByte(Place(x)) == x
  {
    assert Place(x) * 255.0 == x as real;
    hide Place;
    ToByteIsNearest(Place(x));
  }

  // A pair of stops no further apart than the tolerance is a hard edge: wherever it is the interval,
  // the colour is the first stop's before it and the second's from it on, and nothing in between.
  lemma HardEdge(stops: seq<Stop>, x: nat, i: nat, c: nat)
    requires i + 1 < |stops| && c < 4 && Pos(stops, i + 1) - Pos(stops, i) <= EPSILON
    requires Search(stops, Place(x), 0) == i
    ensures ByteAt(stops, x, c) == ToByte((if Place(x) < Pos(stops, i) then stops[i] else stops[i + 1]).col[c])
  {
    hide ToByte, Blend;
    BlendEnds(stops[i].col[c], stops[i + 1].col[c]);
  }

  // On either side of coincident stops the ramp is that of the neighbouring interval, up to the first
  // stop's own colour on the left, and starting from the second's on the right.
  lemma EdgeSides(stops: seq<Stop>, x: nat, i: nat, c: nat)
    requires i + 1 < |stops| && c < 4 && Pos(stops, i) == Pos(stops, i + 1)
    ensures i > 0 && Pos(stops, i - 1) < Place(x) <= Pos(stops, i) ==>
              ByteAt(stops, x, c) ==
              ToByte(Blend(stops[i - 1].col[c], stops[i].col[c], Fraction(stops, Place(x), i - 1)))
    ensures i + 2 < |stops| && Pos(stops, i + 1) < Place(x) <= Pos(stops, i + 2) ==>
              ByteAt(stops, x, c) ==
              ToByte(Blend(stops[i + 1].col[c], stops[i + 2].col[c], Fraction(stops, Place(x), i + 1)))
    ensures i > 0 && Pos(stops, i - 1) < Place(x) == Pos(stops, i) ==> ByteAt(stops, x, c) == ToByte(stops[i].col[c])
    ensures i == 0 && Place(x) < Pos(stops, 0) ==> ByteAt(stops, x, c) == ToByte(stops[0].col[c])
    ensures (i == 0 && Place(x) == Pos(stops, 0)) || (i + 2 == |stops| && Place(x) > Pos(stops, i)) ==>
              ByteAt(stops, x, c) == ToByte(stops[i + 1].col[c])
  {
    var t := Place(x);
    if i > 0 && Pos(stops, i - 1) < t <= Pos(stops, i) { Interval(stops, t, i - 1); }
    if i + 2 < |stops| && Pos(stops, i + 1) < t <= Pos(stops, i + 2) { Interval(stops, t, i + 1); }
    if i > 0 && Pos(stops, i - 1) < t == Pos(stops, i) { StopShowsItsColour(stops, x, i, c); }
    if i == 0 && t <= Pos(stops, 0) { HardEdge(stops, x, 0, c); }
    if i + 2 == |stops| && t > Pos(stops, i) { LastInterval(stops, t); HardEdge(stops, x, i, c); }
  }

  // Behind all stops but the last, the interval is the last one.
  lemma LastInterval(stops: seq<Stop>, t: real)
    requires |stops| >= 2 && t > Pos(stops, |stops| - 2)
    ensures Search(stops, t, 0) == |stops| - 2
  {
    var r := Search(stops, t, 0);
    ClampedForward(stops, |stops| - 2);
    var atR := Pos(stops, r + 1);
  }

  // An entry at a stop has that stop's own colour: of several stops at one place, the first one's,
  // unless these start the ramp, when it is the second one's.
  lemma StopShowsItsColour(stops: seq<Stop>, x: nat, i: nat, c: nat)
    requires |stops| >= 2 && i < |stops| && c < 4 && Place(x) == Pos(stops, i)
    requires i > 0 ==> Pos(stops, i - 1) < Pos(stops, i)
    ensures ByteAt(stops, x, c) ==
            ToByte((if i == 0 && Pos(stops, 1) - Pos(stops, 0) <= EPSILON then stops[1] else stops[i]).col[c])
  {
    var t, s := Place(x), if i == 0 then 0 else i - 1;
    if i == 0 { ClampedForward(stops, 1); } else { Interval(stops, t, s); }
    assert Search(stops, t, 0) == s;
    var span := Pos(stops, s + 1) - Pos(stops, s);
    BlendEnds(stops[s].col[c], stops[s + 1].col[c]);
    if span > EPSILON { OwnQuotient(span); ZeroQuotient(span); }
    hide Blend, ToByte;
    assert Fraction(stops, t, s) == if i == 0 && span > EPSILON then 0.0 else 1.0;
  }

  lemma ZeroQuotient(a: real)
    requires a > 0.0
    ensures 0.0 / a == 0.0
  {
  }

  lemma OwnQuotient(a: real)
    requires a > 0.0
    ensures a / a == 1.0
  {
  }

  // Before the first stop and behind the last, the colour stands still.
  lemma OutsideTheStops(stops: seq<Stop>, x: nat, c: nat)
    requires |stops| >= 2 && c < 4
    ensures Place(x) < Pos(stops, 0) ==> ByteAt(stops, x, c) == ToByte(stops[0].col[c])
    ensures Place(x) > Pos(stops, |stops| - 1) ==> ByteAt(stops, x, c) == ToByte(stops[|stops| - 1].col[c])
  {
    var t, n := Place(x), |stops|;
    var s := Search(stops, t, 0);
    BlendEnds(stops[s].col[c], stops[s + 1].col[c]);
    ClampedForward(stops, n - 1);
    hide Blend, ToByte;
    if t < Pos(stops, 0) {
      ClampedForward(stops, 1);
      assert s == 0;
      NegativeQuotient(t - Pos(stops, 0), Pos(stops, 1) - Pos(stops, 0));
      assert Fraction(stops, t, s) == 0.0;
      assert ByteAt(stops, x, c) == ToByte(Blend(stops[s].col[c], stops[s + 1].col[c], 0.0));
    } else if t > Pos(stops, n - 1) {
      var atS := Pos(stops, s + 1);
      assert s == n - 2;
      LargeQuotient(t - Pos(stops, s), Pos(stops, s + 1) - Pos(stops, s));
      assert Pos(stops, s) <= Pos(stops, n - 1);
      assert Fraction(stops, t, s) == 1.0;
    }
  }

  lemma NegativeQuotient(a: real, b: real)
    requires a < 0.0
    ensures b > 0.0 ==> a / b < 0.0
  {
  }

  lemma LargeQuotient(a: real, b: real)
    requires a > b
    ensures b > 0.0 ==> a / b > 1.0
  {
  }

  lemma ToByteMonotone(a: real, b: real)
    requires a <= b
    ensures ToByte(a) <= ToByte(b)
  {
    var u, v := Unit(a), Unit(b);
    assert u * 255.0 + 0.5 <= v * 255.0 + 0.5;
  }

  // Every byte lies between those of the two stops it was mixed from.
  lemma BytesBetween(stops: seq<Stop>, x: nat, c: nat)
    requires |stops| >= 2 && c < 4
    ensures var s := Search(stops, Place(x), 0);
            var a, b := ToByte(stops[s].col[c]), ToByte(stops[s + 1].col[c]);
            (a <= ByteAt(stops, x, c) <= b) || (b <= ByteAt(stops, x, c) <= a)
  {
    hide Pos;
    var s := Search(stops, Place(x), 0);
    var a, b, f := stops[s].col[c], stops[s + 1].col[c], Fraction(stops, Place(x), s);
    BlendBetween(a, b, f);
    if a <= b {
      ToByteMonotone(a, Blend(a, b, f));
      ToByteMonotone(Blend(a, b, f), b);
    } else {
      ToByteMonotone(b, Blend(a, b, f));
      ToByteMonotone(Blend(a, b, f), a);
    }
  }

  lemma Portion(d: real, f: real)
    requires d >= 0.0 && 0.0 <= f <= 1.0
    ensures 0.0 <= Part(d, f) <= d
  {
    assert d * (1.0 - f) >= 0.0;
    assert d * (1.0 - f) == d - d * f;
  }

  lemma NegativePortion(d: real, f: real)
    requires d <= 0.0 && 0.0 <= f <= 1.0
    ensures d <= Part(d, f) <= 0.0
  {
    Portion(-d, f);
    assert Part(-d, f) == -Part(d, f);
  }

  lemma BlendEnds(a: real, b: real)
    ensures Blend(a, b, 0.0) == a && Blend(a, b, 1.0) == b
  {
  }

  lemma BlendBetween(a: real, b: real, f: real)
    requires 0.0 <= f <= 1.0
    ensures a <= b ==> a <= Blend(a, b, f) <= b
    ensures b <= a ==> b <= Blend(a, b, f) <= a
  {
    hide Part;
    if a <= b { Portion(b - a, f); }
    if b <= a { NegativePortion(b - a, f); }
  }

  // ------------------------------------------------------------------- the table as a cache

  // The table last handed to the graphics driver, if the driver made a texture for it, and whether
  // it has to be made again: grad_tex and grad_dirty.
  datatype Texture = NoTexture | Texture(bytes: seq<Byte>)

  datatype Cache = Cache(texture: Texture, dirty: bool)

  // load_texture_param: nothing yet, and to be baked.
  const UNBAKED := Cache(NoTexture, true)

  // Dirty, or the table is the bake of the current stops, unless the driver would not make one.
  ghost predicate CacheOk(c: Cache, stops: seq<Stop>)
    requires |stops| >= 2
  {
    !c.dirty ==> Shows(c.texture, stops)
  }

  // The blank texture, or the table of these stops.
  ghost predicate Shows(t: Texture, stops: seq<Stop>)
    requires |stops| >= 2
  {
    t == NoTexture || IsTable(t.bytes, stops)
  }

  // bake_gradient. `created`: whether gs_texture_create would succeed; updating a texture does.
  method BakeTexture(stops: seq<Stop>, was: Cache, created: bool) returns (now: Cache)
    requires |stops| >= 2
    ensures !now.dirty && Shows(now.texture, stops)
    ensures now.texture == NoTexture <==> was.texture == NoTexture && !created
  {
    var lut := Bake(stops);
    var texture := was.texture;
    if texture == NoTexture {
      if created { texture := Texture(lut[..]); }
    } else {
      texture := Texture(lut[..]);
    }
    return Cache(texture, false);
  }

  // The gradient branch of set_params: what the shader is given is the texture left, or the blank one
  // if there is none.
  method DrawRamp(stops: seq<Stop>, was: Cache, created: bool) returns (now: Cache)
    requires |stops| >= 2 && CacheOk(was, stops)
    ensures !now.dirty && Shows(now.texture, stops)
    ensures now.texture == NoTexture <==> was.texture == NoTexture && !(was.dirty && created)
    ensures !was.dirty ==> now == was
  {
    now := was;
    if was.dirty { now := BakeTexture(stops, was, created); }
  }

  // ------------------------------------------------------------ how long a ramp stays blank

  // What happens to a gradient after it was loaded: a draw, with what creating a texture at that
  // moment would answer, or a change of its stops.
  datatype RampEvent = Drawn(created: bool) | Changed

  // Whether there is a texture, and whether it has to be baked.
  datatype Progress = Progress(made: bool, dirty: bool)

  function After(es: seq<RampEvent>): Progress {
    if es == [] then Progress(false, true)
    else
      var p := After(es[..|es| - 1]);
      match es[|es| - 1]
      case Changed => p.(dirty := true)
      case Drawn(created) => Progress(p.made || (p.dirty && created), false)
  }

  // A draw that comes first since the gradient was loaded or since a change.
  predicate FirstDraw(es: seq<RampEvent>, k: nat) {
    k < |es| && es[k].Drawn? && (k == 0 || es[k - 1] == Changed)
  }

  // The blank texture is bound until a draw succeeds in making one that is the first since loading or
  // since a change: a failure is not made good before the stops change again.
  lemma {:induction false} BlankExactly(es: seq<RampEvent>)
    ensures After(es).made <==> exists k: nat :: FirstDraw(es, k) && es[k].created
    ensures After(es).dirty <==> es == [] || es[|es| - 1] == Changed
    decreases |es|
  {
    if es != [] {
      var f, last := es[..|es| - 1], |es| - 1;
      BlankExactly(f);
      assert forall j :: 0 <= j < |f| ==> f[j] == es[j];
      assert forall k: nat :: k < last ==> FirstDraw(es, k) == FirstDraw(f, k);
      if After(es).made && !After(f).made { assert FirstDraw(es, last); }
      if k: nat :| FirstDraw(f, k) && f[k].created { assert FirstDraw(es, k); }
    }
  }

  // What a texture and a mark show of the past.
  function ProgressOf(c: Cache): Progress { Progress(c.texture != NoTexture, c.dirty) }

  // A draw moves texture and mark as its event does, and so does a change.
  lemma DrawIsAnEvent(es: seq<RampEvent>, was: Cache, now: Cache, created: bool)
    requires After(es) == ProgressOf(was) && !now.dirty
    requires now.texture == NoTexture <==> was.texture == NoTexture && !(was.dirty && created)
    ensures After(es + [Drawn(created)]) == ProgressOf(now)
  {
    assert (es + [Drawn(created)])[..|es|] == es;
  }

  lemma ChangeIsAnEvent(es: seq<RampEvent>, was: Cache)
    requires After(es) == ProgressOf(was)
    ensures After(es + [Changed]) == ProgressOf(was.(dirty := true))
  {
    assert (es + [Changed])[..|es|] == es;
  }
}
