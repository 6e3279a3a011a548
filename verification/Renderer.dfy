// One parameter of a renderer (src/ff-layers.c): what settings make of it, applied over and over.
module Renderer {
  import opened Bytes
  import opened Settings
  import opened LicenceDocs
  import opened Gradient

  // -------------------------------------------------------------------------- one parameter

  datatype Kind = FloatK | IntK | BoolK | Vec4K | TextureK | OtherK

  // The stops of a gradient; parse_gradient makes none with fewer than two.
  type Ramp = s: seq<Stop> | s == [] || |s| >= 2 witness []

  // A shader parameter as its preset left it; no stops unless it is a gradient.
  datatype Param = Param(
    name: string, kind: Kind, builtin: bool,
    hasRange: bool, min: real, max: real,
    preset: Colour, stops: Ramp, userPicks: bool)

  // What a draw reads: def, tex_user, and the gradient's stops.
  datatype Live = Live(def: Colour, file: string, stops: seq<Stop>)

  type Preset = seq<seq<Param>>

  const FILE_CAP: nat := 512

  function Loaded(p: Param): Live { Live(p.preset, "", p.stops) }

  // is_exposed
  predicate Exposed(p: Param) {
    !p.builtin && (p.kind in {FloatK, IntK, BoolK, Vec4K} || (p.kind == TextureK && (p.userPicks || p.stops != [])))
  }

  function ToRange(p: Param, x: real): (y: real)
    ensures p.hasRange && p.min <= p.max ==> p.min <= y <= p.max && (p.min <= x <= p.max ==> y == x)
    ensures !(p.hasRange && p.min <= p.max) ==> y == x
  {
    if !p.hasRange || p.min > p.max then x
    else if x < p.min then p.min
    else if x > p.max then p.max
    else x
  }

  function StopOf(stop: Stop, key: string, s: nat, m: Map): Stop {
    var c, at := StopKey(key, 'c', s), StopKey(key, 'p', s);
    Stop(Unit(if at in m then AsReal(m[at]) else stop.pos), if c in m then Unpack(AsInt(m[c])) else stop.col)
  }

  // What a user's value makes of a parameter that is not a gradient.
  function Chosen(p: Param, v: Setting): Live {
    match p.kind
    case FloatK => Loaded(p).(def := p.preset[0 := ToRange(p, AsReal(v))])
    case IntK => Loaded(p).(def := p.preset[0 := ToRange(p, AsInt(v) as real)])
    case BoolK => Loaded(p).(def := p.preset[0 := if AsBool(v) then 1.0 else 0.0])
    case Vec4K => Loaded(p).(def := Unpack(AsInt(v)))
    case TextureK => Loaded(p).(file := Cut(AsText(v), FILE_CAP))
    case OtherK => Loaded(p)
  }

  // The value a parameter should run on: a function of its preset and the settings alone.
  function LiveOf(p: Param, layer: nat, m: Map): Live {
    var key := ParamKey(layer, p.name);
    if !Exposed(p) then Loaded(p)
    else if p.stops != [] then
      Loaded(p).(stops := seq(|p.stops|, s requires 0 <= s < |p.stops| => StopOf(p.stops[s], key, s, m)))
    else if key in m then Chosen(p, m[key])
    else Loaded(p)
  }

  // What a setting under the parameter's own key does to what the shader is given, by kind.
  lemma SettingTakesEffect(p: Param, layer: nat, m: Map)
    requires !p.builtin && p.stops == [] && (p.kind == TextureK ==> p.userPicks)
    requires "l" + NatText(layer) + "." + p.name in m
    ensures var v, now := m["l" + NatText(layer) + "." + p.name], LiveOf(p, layer, m);
            && (p.kind == FloatK && v.RealV? ==> now.def[0] == ToRange(p, v.x))
            && (p.kind == FloatK && v.IntV? ==> now.def[0] == ToRange(p, v.n as real))
            && (p.kind == IntK && v.IntV? ==> now.def[0] == ToRange(p, v.n as real))
            && (p.kind == BoolK && v.BoolV? ==> now.def[0] == if v.b then 1.0 else 0.0)
            && (p.kind == TextureK && v.TextV? && |v.s| < FILE_CAP ==> now.file == v.s)
            && (p.kind in {FloatK, IntK, BoolK} ==> now.def[1..] == p.preset[1..])
  {
    hide NatText;
  }

  // No setting reaches what the engine fills in itself, a kind it does not know, or an image that is not
  // the viewer's to pick.
  lemma OthersStay(p: Param, layer: nat, m: Map)
    requires p.builtin || p.kind == OtherK || (p.kind == TextureK && !p.userPicks && p.stops == [])
    ensures LiveOf(p, layer, m) == Loaded(p)
  {
    hide StopOf;
  }

  lemma ColourTakesEffect(p: Param, layer: nat, m: Map, r: int, g: int, b: int, a: int)
    requires !p.builtin && p.stops == [] && p.kind == Vec4K
    requires 0 <= r < 256 && 0 <= g < 256 && 0 <= b < 256 && 0 <= a < 256
    requires var key := "l" + NatText(layer) + "." + p.name;
             key in m && m[key] == IntV(r + 0x100 * g + 0x1_0000 * b + 0x100_0000 * a)
    ensures LiveOf(p, layer, m).def == [r as real / 255.0, g as real / 255.0, b as real / 255.0, a as real / 255.0]
  {
    hide NatText, Unpack;
    UnpackChannels(r, g, b, a);
  }

  // Each stop of a gradient has a key for its colour and one for its place, and neither moves the other.
  lemma StopTakesEffect(p: Param, layer: nat, m: Map, s: nat)
    requires !p.builtin && p.kind == TextureK && s < |p.stops|
    ensures var key, now := "l" + NatText(layer) + "." + p.name, LiveOf(p, layer, m).stops[s];
            var c, at := key + ".c" + NatText(s), key + ".p" + NatText(s);
            && (c in m && m[c].IntV? ==> now.col == Unpack(m[c].n)) && (c !in m ==> now.col == p.stops[s].col)
            && (at in m && m[at].RealV? && 0.0 <= m[at].x <= 1.0 ==> now.pos == m[at].x)
            && (at in m && m[at].RealV? && m[at].x > 1.0 ==> now.pos == 1.0)
            && (at in m && m[at].RealV? && m[at].x < 0.0 ==> now.pos == 0.0)
            && (at !in m && 0.0 <= p.stops[s].pos <= 1.0 ==> now.pos == p.stops[s].pos)
  {
    hide NatText, Unpack;
    var key := ParamKey(layer, p.name);
    assert key + "." + ['c'] + NatText(s) == key + ".c" + NatText(s);
    assert key + "." + ['p'] + NatText(s) == key + ".p" + NatText(s);
  }

  // A live value that loading or earlier settings could have left behind.
  ghost predicate Follows(p: Param, l: Live) {
    && |l.stops| == |p.stops| && |l.file| < FILE_CAP
    && (!Exposed(p) ==> l == Loaded(p))
    && (p.kind in {FloatK, IntK, BoolK} ==> l.def[1..] == p.preset[1..])
    && (p.kind in {TextureK, OtherK} || p.stops != [] ==> l.def == p.preset)
    && (p.kind != TextureK || p.stops != [] ==> l.file == "")
  }

  lemma LiveFollows(p: Param, layer: nat, m: Map)
    ensures Follows(p, LiveOf(p, layer, m)) && Follows(p, Loaded(p))
  {
    hide Unpack;
  }

  method ApplyStops(p: Param, key: string, was: seq<Stop>, m: Map) returns (now: seq<Stop>, rebake: bool)
    requires |was| == |p.stops|
    ensures now == seq(|p.stops|, s requires 0 <= s < |p.stops| => StopOf(p.stops[s], key, s, m))
    ensures rebake <==> now != was
  {
    hide Unpack, StopKey;
    now, rebake := was, false;
    for s := 0 to |p.stops|
      invariant |now| == |was|
      invariant forall t :: 0 <= t < s ==> now[t] == StopOf(p.stops[t], key, t, m)
      invariant forall t :: s <= t < |now| ==> now[t] == was[t]
      invariant rebake <==> now != was
    {
      var col, pos := p.stops[s].col, p.stops[s].pos;
      var k := StopKey(key, 'c', s);
      if k in m { col := Unpack(AsInt(m[k])); }
      k := StopKey(key, 'p', s);
      if k in m { pos := AsReal(m[k]); }
      if pos < 0.0 { pos := 0.0; }
      if pos > 1.0 { pos := 1.0; }
      assert Stop(pos, col) == StopOf(p.stops[s], key, s, m);
      if now[s].col != col || now[s].pos != pos {
        assert was[s] != Stop(pos, col);
        now := now[s := Stop(pos, col)];
        rebake := true;
        assert now[s] != was[s];
      }
    }
  }

  // One parameter: rebake marks the gradient dirty, rebind reloads the image.
  method ApplyParam(p: Param, layer: nat, was: Live, m: Map) returns (now: Live, rebake: bool, rebind: bool)
    requires Follows(p, was)
    ensures now == LiveOf(p, layer, m)
    ensures rebake <==> now.stops != was.stops
    ensures now.file != was.file ==> rebind
    ensures rebind && now.file == was.file ==>
              ParamKey(layer, p.name) in m && |AsText(m[ParamKey(layer, p.name)])| >= FILE_CAP
  {
    hide Unpack, ParamKey, AsReal, AsInt, AsBool, AsText;
    now, rebake, rebind := was, false, false;
    if !Exposed(p) { return; }
    var key := ParamKey(layer, p.name);
    if p.stops != [] {
      var stops;
      stops, rebake := ApplyStops(p, key, was.stops, m);
      now := was.(stops := stops);
      return;
    }
    assert was.stops == p.stops;
    if key !in m {
      now := was.(def := p.preset);
      if p.kind == TextureK && was.file != "" {
        now := now.(file := "");
        rebind := true;
      }
      return;
    }
    now, rebind := Read(p, was, m[key]);
  }

  method Read(p: Param, was: Live, v: Setting) returns (now: Live, rebind: bool)
    requires Follows(p, was) && Exposed(p) && p.stops == []
    ensures now == Chosen(p, v)
    ensures now.file != was.file ==> rebind
    ensures rebind && now.file == was.file ==> |AsText(v)| >= FILE_CAP
  {
    hide Unpack, AsReal, AsInt, AsBool, AsText;
    now, rebind := was, false;
    match p.kind {
      case FloatK => now := now.(def := now.def[0 := AsReal(v)]);
      case IntK => now := now.(def := now.def[0 := AsInt(v) as real]);
      case BoolK => now := now.(def := now.def[0 := if AsBool(v) then 1.0 else 0.0]);
      case Vec4K => now := now.(def := Unpack(AsInt(v)));
      case TextureK =>
        var want := AsText(v);
        if want != was.file {
          now := now.(file := Cut(want, FILE_CAP));
          rebind := true;
        }
      case OtherK =>
    }
    now := ClampToRange(p, now);
    assert now.stops == p.stops;
    Scalars(p, was, now);
  }

  // clamp_to_range
  method ClampToRange(p: Param, l: Live) returns (now: Live)
    ensures now == if p.kind in {FloatK, IntK} then l.(def := l.def[0 := ToRange(p, l.def[0])]) else l
  {
    now := l;
    if !p.hasRange || p.min > p.max { return; }
    if p.kind != FloatK && p.kind != IntK { return; }
    if now.def[0] < p.min {
      now := now.(def := now.def[0 := p.min]);
    } else if now.def[0] > p.max {
      now := now.(def := now.def[0 := p.max]);
    }
  }

  lemma Scalars(p: Param, was: Live, now: Live)
    requires Follows(p, was) && p.kind in {FloatK, IntK, BoolK} ==> now.def == was.def[0 := now.def[0]]
    ensures Follows(p, was) && p.kind in {FloatK, IntK, BoolK} ==> now.def == p.preset[0 := now.def[0]]
  {
    if Follows(p, was) && p.kind in {FloatK, IntK, BoolK} {
      assert forall c :: 1 <= c < 4 ==> was.def[c] == was.def[1..][c - 1] && p.preset[c] == p.preset[1..][c - 1];
    }
  }
}
