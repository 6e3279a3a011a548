// A source's settings (libobs obs_data): typed values, packed colours (src/ff-layers.c, pack_color
// and unpack_color) and the keys a renderer's parameters are stored under (param_key, grad_key,
// and is_layer_key of src/ff-props.c).
module Settings {
  import opened LicenceText
  import opened LicenceDocs
  import opened Gradient

  // ------------------------------------------------------------------------------ obs_data

  // A value the user has set, and how libobs hands it out as each type.
  datatype Setting = IntV(n: int) | RealV(x: real) | BoolV(b: bool) | TextV(s: string)

  type Map = map<string, Setting>

  function Truncated(x: real): int { if x >= 0.0 then x.Floor else -((-x).Floor) }

  function AsInt(v: Setting): int { match v case IntV(n) => n case RealV(x) => Truncated(x) case _ => 0 }
  function AsReal(v: Setting): real { match v case IntV(n) => n as real case RealV(x) => x case _ => 0.0 }
  function AsBool(v: Setting): bool { v.BoolV? && v.b }
  function AsText(v: Setting): string { if v.TextV? then v.s else "" }

  // -------------------------------------------------------------------------------- colours

  // pack_color and unpack_color: 0xAABBGGRR against four channels from 0 to 1.
  function Channel(v: real): (b: int)
    ensures 0 <= b < 256
  {
    ByteRange(Unit(v));
    (Unit(v) * 255.0 + 0.5).Floor
  }

  function Pack(c: Colour): int {
    Channel(c[0]) + 0x100 * Channel(c[1]) + 0x1_0000 * Channel(c[2]) + 0x100_0000 * Channel(c[3])
  }

  function Unpack(n: int): Colour {
    var u := n % 0x1_0000_0000;
    [(u % 256) as real / 255.0, (u / 0x100 % 256) as real / 255.0,
     (u / 0x1_0000 % 256) as real / 255.0, (u / 0x100_0000 % 256) as real / 255.0]
  }

  // 0xAABBGGRR: red in the low byte, then green, blue and alpha, each a share of 255.
  lemma UnpackChannels(r: int, g: int, b: int, a: int)
    requires 0 <= r < 256 && 0 <= g < 256 && 0 <= b < 256 && 0 <= a < 256
    ensures Unpack(r + 0x100 * g + 0x1_0000 * b + 0x100_0000 * a) ==
            [r as real / 255.0, g as real / 255.0, b as real / 255.0, a as real / 255.0]
  {
    var n := r + 0x100 * g + 0x1_0000 * b + 0x100_0000 * a;
    assert n % 0x1_0000_0000 == n;
    assert n / 0x100 == g + 0x100 * b + 0x1_0000 * a && n % 256 == r;
    assert n / 0x1_0000 == b + 0x100 * a && n / 0x100 % 256 == g;
    assert n / 0x100_0000 == a && n / 0x1_0000 % 256 == b;
  }

  // A number asked for as an integer is cut towards zero, and what is no number counts as 0.
  lemma AsIntCuts(x: real)
    ensures var n := AsInt(RealV(x)) as real;
            (x >= 0.0 ==> 0.0 <= n <= x < n + 1.0) && (x <= 0.0 ==> n - 1.0 < x <= n <= 0.0)
    ensures AsInt(TextV("7")) == 0 && AsReal(TextV("7")) == 0.0
  {
  }

  lemma ChannelOfByte(b: int)
    requires 0 <= b < 256
    ensures Channel(b as real / 255.0) == b
  {
    var v := b as real / 255.0;
    assert v * 255.0 == b as real;
    assert 0.0 <= v <= 1.0;
  }

  lemma Digits256(u: int)
    requires 0 <= u < 0x1_0000_0000
    ensures u == u % 256 + 0x100 * (u / 0x100 % 256) + 0x1_0000 * (u / 0x1_0000 % 256) +
              0x100_0000 * (u / 0x100_0000 % 256)
  {
    var a, b, c := u / 0x100, u / 0x1_0000, u / 0x100_0000;
    assert u == 0x100 * a + u % 0x100;
    assert a == 0x100 * b + a % 0x100;
    assert b == 0x100 * c + b % 0x100;
  }

  // Every 32-bit colour survives being unpacked and packed again.
  lemma PackUnpack(n: int)
    ensures Pack(Unpack(n)) == n % 0x1_0000_0000
  {
    var u := n % 0x1_0000_0000;
    ChannelOfByte(u % 256);
    ChannelOfByte(u / 0x100 % 256);
    ChannelOfByte(u / 0x1_0000 % 256);
    ChannelOfByte(u / 0x100_0000 % 256);
    hide Channel;
    Digits256(u);
  }

  // ----------------------------------------------------------------------------------- keys

  function ParamKey(layer: nat, name: string): string { "l" + NatText(layer) + "." + name }

  function StopKey(key: string, kind: char, stop: nat): string { key + "." + [kind] + NatText(stop) }

  lemma KeysAsWritten()
    ensures ParamKey(0, "speed") == "l0.speed" && ParamKey(12, "x") == "l12.x"
    ensures StopKey("l0.ramp", 'c', 3) == "l0.ramp.c3"
  {
    assert NatText(12) == NatText(1) + [DigitChar(2)] && NatText(1) == "1" && NatText(0) == "0" && NatText(3) == "3";
  }

  function DigitsEnd(s: string, i: nat): (j: nat)
    requires i <= |s|
    decreases |s| - i
    ensures i <= j <= |s| && (j < |s| ==> !IsDigit(s[j])) && forall k :: i <= k < j ==> IsDigit(s[k])
  {
    if i < |s| && IsDigit(s[i]) then DigitsEnd(s, i + 1) else i
  }

  lemma {:induction false} DigitsEndAt(s: string, i: nat, j: nat)
    requires i <= j < |s| && (forall k :: i <= k < j ==> IsDigit(s[k])) && !IsDigit(s[j])
    ensures DigitsEnd(s, i) == j
    decreases j - i
  {
    if i < j { DigitsEndAt(s, i + 1, j); }
  }

  // is_layer_key
  predicate IsLayerKey(s: string) {
    && |s| >= 2 && s[0] == 'l' && IsDigit(s[1])
    && DigitsEnd(s, 1) < |s| && s[DigitsEnd(s, 1)] == '.'
  }

  // An 'l', decimal digits, a dot, and anything.
  lemma LayerKeyShape(s: string)
    ensures IsLayerKey(s) <==>
            exists d: string, rest: string ::
              d != [] && (forall c :: c in d ==> IsDigit(c)) && s == "l" + d + "." + rest
  {
    if IsLayerKey(s) {
      var e := DigitsEnd(s, 1);
      var d, rest := s[1..e], s[e + 1..];
      assert s == "l" + d + "." + rest;
    }
    if d: string, rest: string :|
      d != [] && (forall c :: c in d ==> IsDigit(c)) && s == "l" + d + "." + rest
    {
      assert forall k :: 1 <= k < 1 + |d| ==> s[k] == d[k - 1];
      assert s[1 + |d|] == '.';
      assert d[0] in d;
      assert forall k :: 0 <= k < |d| ==> d[k] in d;
      DigitsEndAt(s, 1, 1 + |d|);
    }
  }

  // The keys the renderer writes are layer keys, those of gradient stops included.
  lemma RendererKeysAreLayerKeys(layer: nat, name: string, kind: char, stop: nat)
    ensures IsLayerKey(ParamKey(layer, name)) && IsLayerKey(StopKey(ParamKey(layer, name), kind, stop))
  {
    var d := NatText(layer);
    LayerKeyShape(ParamKey(layer, name));
    var rest := name + "." + [kind] + NatText(stop);
    assert StopKey(ParamKey(layer, name), kind, stop) == "l" + d + "." + rest;
    LayerKeyShape(StopKey(ParamKey(layer, name), kind, stop));
  }

  lemma {:induction false} NatTextOfNat(d: string)
    requires d != [] && (forall c :: c in d ==> IsDigit(c)) && (d[0] == '0' ==> |d| == 1)
    ensures NatText(NatOf(d)) == d
    decreases |d|
  {
    var front, last := d[..|d| - 1], d[|d| - 1];
    assert last in d && IsDigit(last);
    assert d == front + [last];
    assert NatOf(d) == 10 * NatOf(front) + (last as int - 48);
    if front == [] {
      assert NatOf(front) == 0;
    } else {
      assert front[0] == d[0];
      hide NatOf;
      NatTextOfNat(front);
      NatOfPositive(front);
      LastDigitText(NatOf(front), last);
    }
  }

  lemma LastDigitText(n: nat, c: char)
    requires n > 0 && IsDigit(c)
    ensures NatText(10 * n + (c as int - 48)) == NatText(n) + [c]
  {
    var m := 10 * n + (c as int - 48);
    assert m / 10 == n && m % 10 == c as int - 48;
  }

  lemma {:induction false} NatOfPositive(d: string)
    requires d != [] && (forall c :: c in d ==> IsDigit(c)) && d[0] != '0'
    ensures NatOf(d) > 0
  {
    assert d[0] in d && d[|d| - 1] in d;
    if |d| > 1 { NatOfPositive(d[..|d| - 1]); } else { assert NatOf([]) == 0; }
  }

  // Among layer keys, the renderer can write exactly those whose number has no leading zero; the
  // others are erased with them all the same.
  lemma WritableLayerKeys(s: string)
    requires IsLayerKey(s)
    ensures (exists layer: nat, name: string :: s == ParamKey(layer, name)) <==> s[1] != '0' || s[2] == '.'
  {
    var e := DigitsEnd(s, 1);
    var d, rest := s[1..e], s[e + 1..];
    hide NatText, NatOf;
    assert s == "l" + d + "." + rest && d[0] == s[1] && s[e] == '.';
    assert forall c :: c in d ==> IsDigit(c) by { assert forall k :: 0 <= k < |d| ==> d[k] == s[k + 1]; }
    if s[1] != '0' || s[2] == '.' {
      assert e == 2 ==> |d| == 1;
      NatTextOfNat(d);
      assert s == ParamKey(NatOf(d), rest);
    }
    if layer: nat, name: string :| s == ParamKey(layer, name) {
      var t := NatText(layer);
      NoLeadingZero(layer);
      assert s[1] == t[0] && s[1 + |t|] == '.';
    }
  }

  lemma {:induction false} NoLeadingZero(n: nat)
    ensures NatText(n)[0] == '0' ==> n == 0 && |NatText(n)| == 1
  {
    if n >= 10 {
      NoLeadingZero(n / 10);
      assert NatText(n)[0] == NatText(n / 10)[0];
    }
  }

  lemma LeadingZeroIsErasedToo()
    ensures IsLayerKey("l00.x") && forall layer: nat, name: string :: "l00.x" != ParamKey(layer, name)
  {
    var s := "l00.x";
    assert s[0] == 'l' && s[1] == '0' && s[2] == '0' && s[3] == '.';
    assert DigitsEnd(s, 3) == 3;
    assert DigitsEnd(s, 2) == 3;
    assert DigitsEnd(s, 1) == 3;
    WritableLayerKeys(s);
  }

  // Settings that are not the preset's: the mouth, and those of the source itself.
  const KEPT_KEYS: seq<string> := [
    "mouth.gate", "mouth.closure_ms", "mouth.hold_ms", "mouth.release_ms", "mouth.jaw_bias",
    "pack", "preset", "width", "height", "audio_mode", "audio_source", "gain_db", "release_ms",
    "beat_sensitivity", "install_zip"]

  lemma OtherKeysAreKept(i: nat)
    requires i < |KEPT_KEYS|
    ensures !IsLayerKey(KEPT_KEYS[i])
  {
    assert KEPT_KEYS[i][0] != 'l';
  }

  // ------------------------------------------------------------ no two controls share a key

  lemma DigitsOfNat(n: nat)
    ensures NatText(n) != [] && forall k :: 0 <= k < |NatText(n)| ==> IsDigit(NatText(n)[k])
  {
    var d := NatText(n);
    assert forall k :: 0 <= k < |d| ==> d[k] in d;
  }

  lemma ParamKeyParts(layer: nat, name: string)
    ensures DigitsEnd(ParamKey(layer, name), 1) == 1 + |NatText(layer)|
    ensures ParamKey(layer, name)[1..1 + |NatText(layer)|] == NatText(layer)
    ensures ParamKey(layer, name)[2 + |NatText(layer)|..] == name
  {
    hide NatText;
    var d, s := NatText(layer), ParamKey(layer, name);
    DigitsOfNat(layer);
    assert s == "l" + d + "." + name;
    assert forall k :: 1 <= k < 1 + |d| ==> s[k] == d[k - 1];
    assert s[1 + |d|] == '.';
    DigitsEndAt(s, 1, 1 + |d|);
  }

  lemma ParamKeyInjective(i: nat, p: string, j: nat, q: string)
    requires ParamKey(i, p) == ParamKey(j, q)
    ensures i == j && p == q
  {
    hide NatText;
    ParamKeyParts(i, p);
    ParamKeyParts(j, q);
    NatReads(i);
    NatReads(j);
  }

  lemma NatReads(n: nat)
    ensures NatOf(NatText(n)) == n
  {
    ReadNat(n);
  }

  // Stop keys of a parameter are parameter keys of a name with a dot in it, which no shader
  // identifier has.
  lemma StopKeysApart(i: nat, p: string, kind: char, n: nat, j: nat, q: string, kind2: char, m: nat)
    requires '.' !in p && '.' !in q
    ensures StopKey(ParamKey(i, p), kind, n) != ParamKey(j, q)
    ensures StopKey(ParamKey(i, p), kind, n) == StopKey(ParamKey(j, q), kind2, m) ==>
              i == j && p == q && kind == kind2 && n == m
  {
    hide NatText;
    var a, b := p + "." + [kind] + NatText(n), q + "." + [kind2] + NatText(m);
    assert StopKey(ParamKey(i, p), kind, n) == ParamKey(i, a);
    assert StopKey(ParamKey(j, q), kind2, m) == ParamKey(j, b);
    assert a[|p|] == '.';
    if ParamKey(i, a) == ParamKey(j, q) { ParamKeyInjective(i, a, j, q); }
    if ParamKey(i, a) == ParamKey(j, b) {
      ParamKeyInjective(i, a, j, b);
      assert p + "." + ([kind] + NatText(n)) == a && q + "." + ([kind2] + NatText(m)) == b;
      DotsAgree(p, [kind] + NatText(n), q, [kind2] + NatText(m));
      assert ([kind] + NatText(n))[1..] == NatText(n) && ([kind2] + NatText(m))[1..] == NatText(m);
      assert ([kind] + NatText(n))[0] == kind && ([kind2] + NatText(m))[0] == kind2;
      NatReads(n);
      NatReads(m);
    }
  }

  lemma DotsAgree(p: string, a: string, q: string, b: string)
    requires '.' !in p && '.' !in q && p + "." + a == q + "." + b
    ensures p == q && a == b
  {
    var s, t := p + "." + a, q + "." + b;
    assert s[|p|] == '.' && t[|q|] == '.';
    assert forall k :: 0 <= k < |p| ==> s[k] == p[k] && p[k] in p;
    assert forall k :: 0 <= k < |q| ==> t[k] == q[k] && q[k] in q;
    assert |p| == |q|;
    assert s[..|p|] == p && t[..|q|] == q;
    assert s[|p| + 1..] == a && t[|q| + 1..] == b;
  }
}
