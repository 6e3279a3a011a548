// An instance (src/ff-props.c, ff_instance_update) and its renderer (src/ff-layers.c): the settings
// are applied over and over, and a preset switch takes the old preset's settings with it.
module Instance {
  import opened Bytes
  import opened Settings
  import opened Gradient
  import opened Renderer
  import Viseme

  const ID_CAP: nat := 64

  // ---------------------------------------------------------------------------- the mouth

  // MOUTH_CTLS: the first five kept keys, and the field each writes.
  const MOUTH_CTLS: nat := 5

  function Field(m: Viseme.Params, i: nat): real
    requires i < MOUTH_CTLS
  {
    match i case 0 => m.gate case 1 => m.closureMs case 2 => m.holdMs case 3 => m.releaseMs case _ => m.jawBias
  }

  function WithField(m: Viseme.Params, i: nat, x: real): (r: Viseme.Params)
    requires i < MOUTH_CTLS
    ensures Field(r, i) == x && forall j: nat :: j < MOUTH_CTLS && j != i ==> Field(r, j) == Field(m, j)
  {
    match i
    case 0 => m.(gate := x)
    case 1 => m.(closureMs := x)
    case 2 => m.(holdMs := x)
    case 3 => m.(releaseMs := x)
    case _ => m.(jawBias := x)
  }

  // A control the viewer has not set is at its default, never at zero.
  function MouthValue(m: Map, i: nat): real
    requires i < MOUTH_CTLS
  {
    if KEPT_KEYS[i] in m then AsReal(m[KEPT_KEYS[i]]) else Field(Viseme.DEFAULTS, i)
  }

  function MouthOf(m: Map): Viseme.Params {
    Viseme.Params(MouthValue(m, 0), MouthValue(m, 1), MouthValue(m, 2), MouthValue(m, 3), MouthValue(m, 4))
  }

  // Each control has its key and its default.
  lemma MouthByKey(m: Map)
    ensures var mouth := MouthOf(m);
            && mouth.gate == (if "mouth.gate" in m then AsReal(m["mouth.gate"]) else 0.04)
            && mouth.closureMs == (if "mouth.closure_ms" in m then AsReal(m["mouth.closure_ms"]) else 200.0)
            && mouth.holdMs == (if "mouth.hold_ms" in m then AsReal(m["mouth.hold_ms"]) else 80.0)
            && mouth.releaseMs == (if "mouth.release_ms" in m then AsReal(m["mouth.release_ms"]) else 120.0)
            && mouth.jawBias == (if "mouth.jaw_bias" in m then AsReal(m["mouth.jaw_bias"]) else 0.0)
  {
    hide AsReal;
  }

  method ReadMouth(m: Map) returns (mouth: Viseme.Params)
    ensures mouth == MouthOf(m)
  {
    hide AsReal;
    mouth := Viseme.DEFAULTS;
    for i := 0 to MOUTH_CTLS
      invariant forall j: nat :: j < i ==> Field(mouth, j) == MouthValue(m, j)
      invariant forall j: nat :: i <= j < MOUTH_CTLS ==> Field(mouth, j) == Field(Viseme.DEFAULTS, j)
    {
      if KEPT_KEYS[i] in m {
        mouth := WithField(mouth, i, AsReal(m[KEPT_KEYS[i]]));
      }
    }
    assert Field(mouth, 0) == MouthValue(m, 0) && Field(mouth, 1) == MouthValue(m, 1);
    assert Field(mouth, 2) == MouthValue(m, 2) && Field(mouth, 3) == MouthValue(m, 3);
    assert Field(mouth, 4) == MouthValue(m, 4);
  }

  // ------------------------------------------------------------------------- the renderer

  const MAX_LAYERS: nat := 8

  // The layers that are loaded of a preset.
  function Loadable(p: Preset): (r: Preset)
    ensures r <= p && |r| <= 8 && (r == p || |r| == 8)
  {
    if |p| > MAX_LAYERS then p[..MAX_LAYERS] else p
  }

  // Whether a parameter is drawn as a gradient.
  predicate IsRamp(p: Param) { !p.builtin && p.kind == TextureK && p.stops != [] }

  // Every gradient of a layer is marked to be baked, or its table is that of its live stops.
  ghost predicate LayerCached(layer: seq<Param>, live: seq<Live>, caches: seq<Cache>)
    requires LayerFollows(layer, live)
  {
    |caches| == |layer| &&
    forall k :: 0 <= k < |layer| && IsRamp(layer[k]) ==> CachedAt(layer[k], live[k], caches[k])
  }

  ghost predicate CachedAt(p: Param, l: Live, c: Cache)
    requires Follows(p, l) && IsRamp(p)
  {
    CacheOk(c, l.stops)
  }

  ghost predicate LayerShows(layer: seq<Param>, i: nat, live: seq<Live>, m: Map) {
    |live| == |layer| && forall k :: 0 <= k < |layer| ==> live[k] == LiveOf(layer[k], i, m)
  }

  ghost predicate LayerFollows(layer: seq<Param>, live: seq<Live>) {
    |live| == |layer| && forall k :: 0 <= k < |layer| ==> Follows(layer[k], live[k])
  }

  class FfRenderer {
    var preset: Preset
    var live: seq<seq<Live>>
    var caches: seq<seq<Cache>>
    var mouth: Viseme.Params
    ghost var events: seq<seq<seq<RampEvent>>> // every gradient's draws and changes since it was loaded

    ghost predicate Valid()
      reads this
    {
      && |live| == |caches| == |events| == |preset|
      && (forall i :: 0 <= i < |preset| ==> Recorded(preset[i], caches[i], events[i]))
      && (forall i :: 0 <= i < |preset| ==> LayerFollows(preset[i], live[i]))
      && (forall i :: 0 <= i < |preset| ==> LayerCached(preset[i], live[i], caches[i]))
    }

    // Everything a frame draws is what its preset and these settings say.
    ghost predicate Shows(m: Map)
      reads this
    {
      && mouth == MouthOf(m)
      && |live| == |preset| && forall i: nat :: i < |preset| ==> LayerShows(preset[i], i, live[i], m)
    }

    constructor ()
      ensures Valid() && preset == []
    {
      preset, live, caches, mouth, events := [], [], [], Viseme.DEFAULTS, [];
    }

    // unload_layers, then the layers there is room for, each parameter at its preset's value.
    method Load(p: Preset)
      modifies this
      ensures Valid() && preset == Loadable(p) && mouth == old(mouth)
      ensures forall i :: 0 <= i < |preset| ==> live[i] == LoadLayer(preset[i])
      ensures forall i :: 0 <= i < |preset| ==> caches[i] == UnbakedLayer(preset[i])
      ensures forall i, k :: 0 <= i < |preset| && 0 <= k < |preset[i]| ==> events[i][k] == []
    {
      var n := if |p| > MAX_LAYERS then MAX_LAYERS else |p|;
      preset := p[..n];
      live := seq(n, i requires 0 <= i < n => LoadLayer(p[i]));
      caches := seq(n, i requires 0 <= i < n => UnbakedLayer(p[i]));
      events := seq(n, i requires 0 <= i < n => seq(|p[i]|, _ => []));
    }

    method ApplySettings(m: Map)
      requires Valid()
      modifies `live, `caches, `mouth, `events
      ensures Valid() && Shows(m)
      ensures forall i, k :: 0 <= i < |preset| && 0 <= k < |preset[i]| && old(live)[i][k].stops == live[i][k].stops ==>
                caches[i][k] == old(caches)[i][k]
      ensures forall i, k :: 0 <= i < |preset| && 0 <= k < |preset[i]| && old(live)[i][k].stops != live[i][k].stops ==>
                caches[i][k] == old(caches)[i][k].(dirty := true)
      ensures forall i :: 0 <= i < |preset| ==> ChangesIn(old(live)[i], live[i], old(events)[i], events[i])
    {
      hide LayerShows, LayerCached, Recorded, ChangesIn, LayerFollows;
      mouth := ReadMouth(m);
      var mouthNow := mouth;
      for i := 0 to |preset|
        invariant Valid() && mouth == mouthNow
        invariant forall j: nat :: j < i ==> LayerShows(preset[j], j, live[j], m)
        invariant forall j: nat :: j < i ==> Marked(preset[j], old(live)[j], live[j], old(caches)[j], caches[j])
        invariant forall j: nat :: j < i ==> ChangesIn(old(live)[j], live[j], old(events)[j], events[j])
        invariant forall j: nat :: i <= j < |preset| ==>
                    live[j] == old(live)[j] && caches[j] == old(caches)[j] && events[j] == old(events)[j]
      {
        ApplyTo(i, m);
      }
    }

    // One turn of the loop over the layers.
    method ApplyTo(i: nat, m: Map)
      requires Valid() && i < |preset|
      modifies `live, `caches, `events
      ensures Valid() && LayerShows(preset[i], i, live[i], m)
      ensures Marked(preset[i], old(live)[i], live[i], old(caches)[i], caches[i])
      ensures ChangesIn(old(live)[i], live[i], old(events)[i], events[i])
      ensures forall j: nat :: j < |preset| && j != i ==>
                live[j] == old(live)[j] && caches[j] == old(caches)[j] && events[j] == old(events)[j]
    {
      hide LayerShows, LayerCached, Recorded, ChangesIn, LayerFollows;
      var layer, cached := ApplyLayer(preset[i], i, live[i], caches[i], m);
      ghost var happened := NoteChanges(preset[i], live[i], layer, caches[i], cached, events[i]);
      live, caches, events := live[i := layer], caches[i := cached], events[i := happened];
    }

    // set_params: every gradient of layer i is baked if it is marked, and bound. `created` is what
    // creating a texture would answer for each.
    method SetParams(i: nat, created: seq<bool>) returns (bound: seq<Texture>)
      requires Valid() && i < |preset| && |created| == |preset[i]|
      modifies `caches, `events
      ensures Valid() && |bound| == |preset[i]|
      ensures forall j :: 0 <= j < |preset| && j != i ==> caches[j] == old(caches)[j]
      ensures forall k :: 0 <= k < |preset[i]| && IsRamp(preset[i][k]) ==>
                BoundAt(preset[i][k], live[i][k], old(caches)[i][k], caches[i][k], created[k], bound[k])
      ensures forall j :: 0 <= j < |preset| && j != i ==> events[j] == old(events)[j]
      ensures DrawsIn(created, old(events)[i], events[i])
    {
      hide LayerFollows, Recorded, DrawsIn;
      var layer;
      layer, bound := DrawLayer(preset[i], live[i], caches[i], created);
      ghost var happened := NoteDraws(preset[i], live[i], caches[i], layer, created, bound, events[i]);
      events := events[i := happened];
      caches := caches[i := layer];
    }
  }

  // What has happened to each gradient is what its texture and mark show.
  ghost predicate Recorded(layer: seq<Param>, caches: seq<Cache>, es: seq<seq<RampEvent>>) {
    && |caches| == |es| == |layer|
    && forall k :: 0 <= k < |layer| && IsRamp(layer[k]) ==> After(es[k]) == ProgressOf(caches[k])
  }

  // One change where the stops are other than they were, and one draw each.
  ghost predicate ChangesIn(was: seq<Live>, now: seq<Live>, before: seq<seq<RampEvent>>, after: seq<seq<RampEvent>>) {
    && |was| == |now| == |before| == |after|
    && forall k :: 0 <= k < |before| ==>
         after[k] == before[k] + if was[k].stops == now[k].stops then [] else [Changed]
  }

  ghost predicate DrawsIn(created: seq<bool>, before: seq<seq<RampEvent>>, after: seq<seq<RampEvent>>) {
    && |created| == |before| == |after|
    && forall k :: 0 <= k < |before| ==> after[k] == before[k] + [Drawn(created[k])]
  }

  ghost method NoteChanges(layer: seq<Param>, was: seq<Live>, now: seq<Live>, cacheWas: seq<Cache>,
                           cacheNow: seq<Cache>, es: seq<seq<RampEvent>>)
    returns (after: seq<seq<RampEvent>>)
    requires Recorded(layer, cacheWas, es) && Marked(layer, was, now, cacheWas, cacheNow)
    ensures Recorded(layer, cacheNow, after) && ChangesIn(was, now, es, after)
  {
    after := seq(|es|, k requires 0 <= k < |es| => es[k] + if was[k].stops == now[k].stops then [] else [Changed]);
    forall k | 0 <= k < |layer| && IsRamp(layer[k]) ensures After(after[k]) == ProgressOf(cacheNow[k]) {
      ChangeIsAnEvent(es[k], cacheWas[k]);
      assert es[k] + [] == es[k];
    }
  }

  ghost method NoteDraws(layer: seq<Param>, live: seq<Live>, was: seq<Cache>, now: seq<Cache>, created: seq<bool>,
                         bound: seq<Texture>, es: seq<seq<RampEvent>>)
    returns (after: seq<seq<RampEvent>>)
    requires LayerFollows(layer, live) && Recorded(layer, was, es) && |now| == |created| == |bound| == |layer|
    requires forall k :: 0 <= k < |layer| && IsRamp(layer[k]) ==>
               BoundAt(layer[k], live[k], was[k], now[k], created[k], bound[k])
    ensures Recorded(layer, now, after) && DrawsIn(created, es, after)
  {
    hide Gradient.Shows;
    after := seq(|es|, k requires 0 <= k < |es| => es[k] + [Drawn(created[k])]);
    forall k | 0 <= k < |layer| && IsRamp(layer[k]) ensures After(after[k]) == ProgressOf(now[k]) {
      DrawIsAnEvent(es[k], was[k], now[k], created[k]);
    }
  }

  // Over every run of loads, updates and draws: a gradient has a texture to be bound exactly if some
  // draw that came first since loading, or since its stops changed, succeeded in making one.
  lemma BlankUntilMade(r: FfRenderer, i: nat, k: nat)
    requires r.Valid() && i < |r.preset| && k < |r.preset[i]| && IsRamp(r.preset[i][k])
    ensures r.caches[i][k].texture != NoTexture <==>
              exists n: nat :: FirstDraw(r.events[i][k], n) && r.events[i][k][n].created
    ensures r.caches[i][k].dirty <==> r.events[i][k] == [] || r.events[i][k][|r.events[i][k]| - 1] == Changed
  {
    hide FirstDraw, Gradient.Shows;
    assert Recorded(r.preset[i], r.caches[i], r.events[i]);
    BlankExactly(r.events[i][k]);
  }

  // What a draw binds for one gradient: the table of the live stops, or the blank texture exactly
  // when there was no texture and none was made now.
  ghost predicate BoundAt(p: Param, l: Live, was: Cache, now: Cache, created: bool, bound: Texture)
    requires Follows(p, l) && IsRamp(p)
  {
    && bound == now.texture && !now.dirty && Gradient.Shows(bound, l.stops)
    && (bound == NoTexture <==> was.texture == NoTexture && !(was.dirty && created))
    && (!was.dirty ==> now == was)
  }

  method DrawLayer(layer: seq<Param>, live: seq<Live>, was: seq<Cache>, created: seq<bool>)
    returns (now: seq<Cache>, bound: seq<Texture>)
    requires LayerFollows(layer, live) && LayerCached(layer, live, was) && |created| == |layer|
    ensures LayerCached(layer, live, now) && |bound| == |layer|
    ensures forall k :: 0 <= k < |layer| && IsRamp(layer[k]) ==>
              BoundAt(layer[k], live[k], was[k], now[k], created[k], bound[k])
  {
    hide Gradient.Shows, Follows, LiveOf;
    now, bound := was, [];
    for k := 0 to |layer|
      invariant |now| == |layer| && |bound| == k
      invariant forall j :: 0 <= j < k && IsRamp(layer[j]) ==>
                BoundAt(layer[j], live[j], was[j], now[j], created[j], bound[j])
      invariant forall j :: k <= j < |layer| ==> now[j] == was[j]
    {
      var t := NoTexture;
      if IsRamp(layer[k]) {
        assert CachedAt(layer[k], live[k], was[k]);
        RampHasStops(layer[k], live[k]);
        var c := DrawRamp(live[k].stops, now[k], created[k]);
        now := now[k := c];
        t := c.texture;
      }
      bound := bound + [t];
    }
  }

  lemma RampHasStops(p: Param, l: Live)
    requires Follows(p, l) && IsRamp(p)
    ensures |l.stops| >= 2
  {
  }

  function LoadLayer(layer: seq<Param>): (live: seq<Live>)
    ensures LayerFollows(layer, live)
  {
    assert forall k :: 0 <= k < |layer| ==> Follows(layer[k], Loaded(layer[k]));
    seq(|layer|, k requires 0 <= k < |layer| => Loaded(layer[k]))
  }

  function UnbakedLayer(layer: seq<Param>): seq<Cache> { seq(|layer|, _ => UNBAKED) }

  // A cache is marked where the stops changed, and otherwise as it was.
  ghost predicate Marked(layer: seq<Param>, was: seq<Live>, now: seq<Live>, cacheWas: seq<Cache>,
                         cacheNow: seq<Cache>) {
    && |was| == |now| == |cacheWas| == |cacheNow| == |layer|
    && forall k :: 0 <= k < |layer| ==>
         cacheNow[k] == if was[k].stops == now[k].stops then cacheWas[k] else cacheWas[k].(dirty := true)
  }

  method ApplyLayer(layer: seq<Param>, i: nat, was: seq<Live>, cacheWas: seq<Cache>, m: Map)
    returns (now: seq<Live>, cacheNow: seq<Cache>)
    requires LayerFollows(layer, was) && LayerCached(layer, was, cacheWas)
    ensures LayerFollows(layer, now) && LayerShows(layer, i, now, m)
    ensures LayerCached(layer, now, cacheNow) && Marked(layer, was, now, cacheWas, cacheNow)
  {
    hide LiveOf, Follows, CacheOk;
    now, cacheNow := was, cacheWas;
    for k := 0 to |layer|
      invariant LayerFollows(layer, now)
      invariant Marked(layer, was, now, cacheWas, cacheNow)
      invariant forall j: nat :: j < k ==> now[j] == LiveOf(layer[j], i, m)
      invariant forall j: nat :: k <= j < |layer| ==> now[j] == was[j] && cacheNow[j] == cacheWas[j]
    {
      var l, rebake, rebind := ApplyParam(layer[k], i, now[k], m);
      LiveFollows(layer[k], i, m);
      now := now[k := l];
      if rebake { cacheNow := cacheNow[k := cacheNow[k].(dirty := true)]; }
    }
    MarkedIsCached(layer, was, now, cacheWas, cacheNow);
  }

  // Marking what changed keeps every cache in order.
  lemma MarkedIsCached(layer: seq<Param>, was: seq<Live>, now: seq<Live>, cacheWas: seq<Cache>, cacheNow: seq<Cache>)
    requires LayerFollows(layer, was) && LayerFollows(layer, now) && LayerCached(layer, was, cacheWas)
    requires Marked(layer, was, now, cacheWas, cacheNow)
    ensures LayerCached(layer, now, cacheNow)
  {
    hide Gradient.Shows;
    forall k | 0 <= k < |layer| && IsRamp(layer[k]) ensures CachedAt(layer[k], now[k], cacheNow[k]) {
      assert CachedAt(layer[k], was[k], cacheWas[k]);
      RampHasStops(layer[k], now[k]);
    }
    hide Follows;
  }

  // --------------------------------------------------------------------------- the settings

  function WithoutLayerKeys(m: Map): Map { map k | k in m && !IsLayerKey(k) :: m[k] }

  class ObsData {
    var user: Map

    constructor (m: Map)
      ensures user == m
    {
      user := m;
    }

    // Names are collected first, then erased.
    method EraseLayerKeys()
      modifies this
      ensures user == WithoutLayerKeys(old(user))
    {
      hide IsLayerKey;
      var doomed := LayerKeys();
      for i := 0 to |doomed|
        invariant user == map k | k in old(user) && k !in doomed[..i] :: old(user)[k]
      {
        user := user - {doomed[i]};
        assert doomed[..i + 1] == doomed[..i] + [doomed[i]];
      }
      assert doomed[..|doomed|] == doomed;
    }

    method LayerKeys() returns (doomed: seq<string>)
      ensures forall k :: k in doomed <==> k in user && IsLayerKey(k)
    {
      hide IsLayerKey;
      var names := user.Keys;
      doomed := [];
      while names != {}
        invariant names <= user.Keys
        invariant forall k :: k in doomed <==> k in user && k !in names && IsLayerKey(k)
        decreases |names|
      {
        var n :| n in names;
        names := names - {n};
        if IsLayerKey(n) { doomed := doomed + [n]; }
      }
    }
  }

  function TextOr(m: Map, key: string, unset: string): string { if key in m then AsText(m[key]) else unset }

  // ---------------------------------------------------------------------------- the instance

  class FfInstance {
    const lookup: (string, string) -> Preset // the packs: what a pack id and a preset id load
    const defaultPreset: string
    const renderer: FfRenderer
    var packId: string
    var presetId: string
    var reloadPending: bool
    var initialised: bool
    ghost var source: (string, string) // the ids the renderer's preset was loaded for

    ghost predicate Valid()
      reads this, renderer
    {
      && renderer.Valid()
      && (initialised ==>
          && packId == Cut(source.0, ID_CAP) && presetId == Cut(source.1, ID_CAP)
          && renderer.preset == Loadable(lookup(source.0, source.1)))
    }

    function PackOf(m: Map): string { TextOr(m, "pack", "demo") }

    function PresetOf(m: Map): string { TextOr(m, "preset", defaultPreset) }

    constructor (lookup: (string, string) -> Preset, defaultPreset: string)
      ensures Valid() && fresh(renderer) && !initialised && !reloadPending
      ensures this.lookup == lookup && this.defaultPreset == defaultPreset
    {
      this.lookup, this.defaultPreset := lookup, defaultPreset;
      renderer := new FfRenderer();
      packId, presetId, reloadPending, initialised := "", "", false, false;
      source := ("", "");
    }

    // The Reload button.
    method AskReload()
      requires Valid()
      modifies `reloadPending
      ensures Valid() && reloadPending
    {
      reloadPending := true;
    }

    // Settings are erased exactly when the stored ids differ from those asked for; afterwards the
    // renderer shows the preset it was loaded for under the settings that are left, whatever
    // happened before, and that preset is the one asked for unless the ids it was loaded for had
    // been cut.
    method Update(d: ObsData)
      requires Valid()
      modifies this, renderer, d
      ensures Valid() && initialised && !reloadPending
      ensures d.user == if old(initialised && (packId != PackOf(d.user) || presetId != PresetOf(d.user)))
                        then WithoutLayerKeys(old(d.user)) else old(d.user)
      ensures renderer.Shows(d.user)
      ensures source == if old(initialised && !reloadPending &&
                               packId == PackOf(d.user) && presetId == PresetOf(d.user))
                        then old(source) else old((PackOf(d.user), PresetOf(d.user)))
      ensures old(initialised ==> |source.0| < ID_CAP && |source.1| < ID_CAP) ==>
                source == old((PackOf(d.user), PresetOf(d.user)))
    {
      hide WithoutLayerKeys, MouthOf, IsLayerKey, LayerShows, LayerFollows, AsText;
      var pack, preset := PackOf(d.user), PresetOf(d.user);
      var changed := initialised && (packId != pack || presetId != preset);
      packId := Cut(pack, ID_CAP);
      presetId := Cut(preset, ID_CAP);
      var reload := changed || reloadPending || !initialised;
      reloadPending := false;
      if changed { d.EraseLayerKeys(); }
      if reload {
        renderer.Load(lookup(pack, preset));
        source := (pack, preset);
      }
      renderer.ApplySettings(d.user);
      initialised := true;
    }
  }

  // ------------------------------------------------------------------------- consequences

  // What the panel shows of an unset gradient: its own stops, within the ramp.
  function PresetValue(p: Param): Live {
    if !Exposed(p) then Loaded(p)
    else Loaded(p).(stops := seq(|p.stops|, s requires 0 <= s < |p.stops| =>
      Gradient.Stop(Gradient.Unit(p.stops[s].pos), p.stops[s].col)))
  }

  // Without a setting of its own a parameter is back at its preset, however it got here.
  lemma RestoredIsPreset(p: Param, layer: nat, m: Map)
    requires forall k :: k in m ==> !IsLayerKey(k)
    ensures LiveOf(p, layer, m) == PresetValue(p)
  {
    hide Unpack, IsLayerKey;
    var key := ParamKey(layer, p.name);
    RendererKeysAreLayerKeys(layer, p.name, 'c', 0);
    forall s: nat | s < |p.stops|
      ensures StopOf(p.stops[s], key, s, m) == Gradient.Stop(Gradient.Unit(p.stops[s].pos), p.stops[s].col)
    {
      RendererKeysAreLayerKeys(layer, p.name, 'c', s);
      RendererKeysAreLayerKeys(layer, p.name, 'p', s);
    }
    hide StopKey, ParamKey;
  }

  // A preset switch leaves no layer value behind, and spares the mouth and the source's own keys.
  lemma SwitchErasesExactly(m: Map, p: Param, layer: nat)
    ensures LiveOf(p, layer, WithoutLayerKeys(m)) == PresetValue(p)
    ensures MouthOf(WithoutLayerKeys(m)) == MouthOf(m)
    ensures forall i: nat :: i < |KEPT_KEYS| ==>
              (KEPT_KEYS[i] in WithoutLayerKeys(m) <==> KEPT_KEYS[i] in m) &&
              (KEPT_KEYS[i] in m ==> WithoutLayerKeys(m)[KEPT_KEYS[i]] == m[KEPT_KEYS[i]])
  {
    hide LiveOf, IsLayerKey;
    RestoredIsPreset(p, layer, WithoutLayerKeys(m));
    forall i: nat | i < |KEPT_KEYS| ensures !IsLayerKey(KEPT_KEYS[i]) { OtherKeysAreKept(i); }
    hide AsReal;
    assert forall i: nat :: i < MOUTH_CTLS ==> MouthValue(WithoutLayerKeys(m), i) == MouthValue(m, i);
  }

  ghost predicate Reads(p: Param, layer: nat, key: string) {
    key == ParamKey(layer, p.name) || exists kind: char, s: nat :: key == StopKey(ParamKey(layer, p.name), kind, s)
  }

  // A parameter is moved by its own settings only, and no two parameters share one.
  lemma OwnSettingsOnly(p: Param, layer: nat, m: Map, n: Map)
    requires forall k :: Reads(p, layer, k) ==> (k in m <==> k in n) && (k in m ==> m[k] == n[k])
    ensures LiveOf(p, layer, m) == LiveOf(p, layer, n)
  {
    hide Unpack, AsReal, AsInt, Chosen;
    var key := ParamKey(layer, p.name);
    assert Reads(p, layer, key);
    forall s: nat | s < |p.stops| ensures StopOf(p.stops[s], key, s, m) == StopOf(p.stops[s], key, s, n) {
      assert Reads(p, layer, StopKey(key, 'c', s)) && Reads(p, layer, StopKey(key, 'p', s));
    }
    hide StopKey, ParamKey, StopOf;
  }

  lemma SettingsApart(p: Param, i: nat, q: Param, j: nat, key: string)
    requires '.' !in p.name && '.' !in q.name && Reads(p, i, key) && Reads(q, j, key)
    ensures i == j && p.name == q.name
  {
    var a, b := ParamKey(i, p.name), ParamKey(j, q.name);
    if a == b {
      ParamKeyInjective(i, p.name, j, q.name);
    } else if kind: char, s: nat :| key == StopKey(a, kind, s) {
      StopKeysApart(i, p.name, kind, s, j, q.name, 'c', 0);
      var kind2: char, s2: nat :| key == StopKey(b, kind2, s2);
      StopKeysApart(i, p.name, kind, s, j, q.name, kind2, s2);
    } else {
      var kind2: char, s2: nat :| key == StopKey(b, kind2, s2);
      StopKeysApart(j, q.name, kind2, s2, i, p.name, 'c', 0);
    }
  }

  // A switch away from a pair of ids is always noticed, and staying on it never mistaken for one,
  // exactly when both ids fit the fields that remember them.
  lemma SwitchesNoticedExactly(p: string, q: string)
    ensures (forall r: string, s: string ::
              (Cut(p, ID_CAP) != r || Cut(q, ID_CAP) != s) <==> (p, q) != (r, s))
            <==> |p| < ID_CAP && |q| < ID_CAP
  {
    if |p| >= ID_CAP || |q| >= ID_CAP {
      assert Cut(p, ID_CAP) != p || Cut(q, ID_CAP) != q;
      assert !((Cut(p, ID_CAP) != p || Cut(q, ID_CAP) != q) <==> (p, q) != (p, q));
    } else {
      assert Cut(p, ID_CAP) == p && Cut(q, ID_CAP) == q;
    }
  }

  // An overlong id that stays erases what the viewer has set of the layers, at every update.
  method OverlongIdErases(i: FfInstance, id: string, edits: seq<Map>) returns (d: ObsData)
    requires i.Valid() && |id| >= ID_CAP && forall e :: e in edits ==> "pack" !in e && "preset" !in e
    modifies i, i.renderer
    ensures i.Valid() && i.source == (id, "") && i.renderer.preset == Loadable(i.lookup(id, ""))
    ensures forall k :: k in d.user ==> !IsLayerKey(k)
    ensures i.renderer.Shows(d.user)
  {
    hide IsLayerKey, WithoutLayerKeys, FfRenderer.Shows, FfRenderer.Valid;
    d := new ObsData(map["pack" := TextV(id), "preset" := TextV("")]);
    i.AskReload();
    OwnKeysStay(d.user);
    i.Update(d);
    for n := 0 to |edits|
      invariant i.Valid() && i.initialised && i.source == (id, "") && fresh(d)
      invariant "pack" in d.user && d.user["pack"] == TextV(id) && "preset" in d.user && d.user["preset"] == TextV("")
      invariant i.renderer.Shows(d.user) && forall k :: k in d.user ==> !IsLayerKey(k)
    {
      assert edits[n] in edits;
      d.user := d.user + edits[n];
      OwnKeysStay(d.user);
      i.Update(d);
    }
  }

  lemma OwnKeysStay(m: Map)
    ensures var w := WithoutLayerKeys(m);
            && (forall k :: k in w ==> !IsLayerKey(k))
            && ("pack" in w <==> "pack" in m) && ("pack" in m ==> w["pack"] == m["pack"])
            && ("preset" in w <==> "preset" in m) && ("preset" in m ==> w["preset"] == m["preset"])
  {
    assert !IsLayerKey("pack") && !IsLayerKey("preset");
  }

  // An overlong id followed by the part of it that was remembered is not seen as a switch.
  method OverlongIdGoesStale(i: FfInstance, id: string) returns (d: ObsData)
    requires i.Valid() && |id| >= ID_CAP
    modifies i, i.renderer
    ensures i.Valid() && d.user == map["pack" := TextV(Cut(id, ID_CAP)), "preset" := TextV("")]
    ensures i.renderer.preset == Loadable(i.lookup(id, ""))
  {
    d := new ObsData(map["pack" := TextV(id), "preset" := TextV("")]);
    i.AskReload();
    i.Update(d);
    assert i.packId == Cut(id, ID_CAP) && i.presetId == "";
    d.user := map["pack" := TextV(Cut(id, ID_CAP)), "preset" := TextV("")];
    i.Update(d);
  }
}
