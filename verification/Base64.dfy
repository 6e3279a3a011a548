// Base64 (RFC 4648 section 4) as the program has it, three times over: b64 in src/ff-ws.c, b64dec in
// src/ff-licence.c, and the key encoder written out in src/ff-net.c.
module Base64 {
  import opened Bytes

  type Sextet = x: int | 0 <= x < 64

  // The alphabet, in order: A-Z, a-z, 0-9, '+', '/'.
  function Digit(v: Sextet): (c: char)
    ensures c != '=' && 0 < c as int < 128
  {
    if v < 26 then (v + 65) as char
    else if v < 52 then (v - 26 + 97) as char
    else if v < 62 then (v - 52 + 48) as char
    else if v == 62 then '+' else '/'
  }

  datatype Value = NotADigit | Value(v: Sextet)

  // strchr over the alphabet: where a character stands in it, if it does.
  function ValueOf(c: char): (r: Value)
    ensures r.Value? ==> Digit(r.v) == c
    ensures forall v: Sextet :: Digit(v) == c ==> r == Value(v)
  {
    if 'A' <= c <= 'Z' then Value(c as int - 65)
    else if 'a' <= c <= 'z' then Value(c as int - 97 + 26)
    else if '0' <= c <= '9' then Value(c as int - 48 + 52)
    else if c == '+' then Value(62)
    else if c == '/' then Value(63)
    else NotADigit
  }

  // ----------------------------------------------------------------------------- encoding

  function At(s: seq<Byte>, i: nat): Byte { if i < |s| then s[i] else 0 }

  // Bits 6k to 6k+5 of the octets, read left to right, with zeros after the end.
  function SextetAt(s: seq<Byte>, k: nat): Sextet {
    var i := k / 4 * 3;
    if k % 4 == 0 then At(s, i) / 4
    else if k % 4 == 1 then At(s, i) % 4 * 16 + At(s, i + 1) / 16
    else if k % 4 == 2 then At(s, i + 1) % 16 * 4 + At(s, i + 2) / 64
    else At(s, i + 2) % 64
  }

  // How many digits carry bits, and how long the padded text is.
  function Digits(n: nat): nat { n / 3 * 4 + if n % 3 == 0 then 0 else n % 3 + 1 }
  function Length(n: nat): nat { (n + 2) / 3 * 4 }

  function CharAt(s: seq<Byte>, k: nat): char {
    if k < Digits(|s|) then Digit(SextetAt(s, k)) else '='
  }

  function Encode(s: seq<Byte>): (t: string)
    ensures |t| == Length(|s|) && forall c :: c in t ==> 0 < c as int < 256
  {
    seq(Length(|s|), k requires 0 <= k => CharAt(s, k))
  }

  // The vectors of section 10 for one, two and three octets, and both signs of the alphabet.
  lemma Vectors()
    ensures Encode([0x66]) == "Zg==" && Encode([0x66, 0x6f]) == "Zm8="
  {
  }

  lemma WholeGroup()
    ensures Encode([0x66, 0x6f, 0x6f]) == "Zm9v"
  {
  }

  lemma BothSigns()
    ensures Encode([0xfb, 0xff]) == "+/8="
  {
  }

  lemma FirstOfFour(a: Byte, b: Byte, c: Byte)
    ensures (65536 * a + 256 * b + c) / 262144 % 64 == a / 4
  {
    var rem := 65536 * (a % 4) + 256 * b + c;
    Remainder(65536 * a + 256 * b + c, a / 4, rem, 262144);
    Remainder(a / 4, 0, a / 4, 64);
  }

  lemma SecondOfFour(a: Byte, b: Byte, c: Byte)
    ensures (65536 * a + 256 * b + c) / 4096 % 64 == a % 4 * 16 + b / 16
  {
    var q: int := 16 * (a as int) + b as int / 16;
    var rem := 256 * (b % 16) + c;
    Remainder(65536 * a + 256 * b + c, q, rem, 4096);
    Remainder(q, a / 4, a % 4 * 16 + b / 16, 64);
  }

  lemma ThirdOfFour(a: Byte, b: Byte, c: Byte)
    ensures (65536 * a + 256 * b + c) / 64 % 64 == b % 16 * 4 + c / 64
  {
    var q: int := 1024 * (a as int) + 4 * (b as int) + c / 64;
    Remainder(65536 * a + 256 * b + c, q, c % 64, 64);
    Remainder(q, 16 * (a as int) + b / 16, b % 16 * 4 + c / 64, 64);
  }

  lemma LastOfFour(a: Byte, b: Byte, c: Byte)
    ensures (65536 * a + 256 * b + c) % 64 == c % 64
  {
    var q: int := 1024 * (a as int) + 4 * (b as int) + c / 64;
    Remainder(65536 * a + 256 * b + c, q, c % 64, 64);
  }

  // One group of three octets as a 24-bit number, cut into four.
  lemma GroupOfThree(s: seq<Byte>, g: nat)
    ensures var v := 65536 * At(s, 3 * g) + 256 * At(s, 3 * g + 1) + At(s, 3 * g + 2);
            && SextetAt(s, 4 * g) == v / 262144 % 64
            && SextetAt(s, 4 * g + 1) == v / 4096 % 64
            && SextetAt(s, 4 * g + 2) == v / 64 % 64
            && SextetAt(s, 4 * g + 3) == v % 64
  {
    hide SextetAt, At;
    SextetsOfGroup(s, g);
    CutInFour(At(s, 3 * g), At(s, 3 * g + 1), At(s, 3 * g + 2));
  }

  lemma CutInFour(a: Byte, b: Byte, c: Byte)
    ensures var v := 65536 * a + 256 * b + c;
            && v / 262144 % 64 == a / 4 && v / 4096 % 64 == a % 4 * 16 + b / 16
            && v / 64 % 64 == b % 16 * 4 + c / 64 && v % 64 == c % 64
  {
    FirstOfFour(a, b, c);
    SecondOfFour(a, b, c);
    ThirdOfFour(a, b, c);
    LastOfFour(a, b, c);
  }

  method B64(input: seq<Byte>, out: array<char>) returns (j: nat)
    modifies out
    ensures out.Length < Length(|input|) + 1 ==> j == 0 && out[..] == old(out[..])
    ensures out.Length >= Length(|input|) + 1 ==> j == Length(|input|) && out[..j] == Encode(input) && out[j] == '\0'
  {
    hide SextetAt, Digit, CharAt;
    var n := |input|;
    var need := (n + 2) / 3 * 4;
    if out.Length < need + 1 { return 0; }
    j := 0;
    var i := 0;
    ghost var g: nat := 0;
    ghost var groups := (n + 2) / 3;
    assert need == 4 * groups && n <= 3 * groups < n + 3;
    while i < n
      invariant i == 3 * g && j == 4 * g && g <= groups
      invariant forall k: nat :: k < j ==> out[k] == CharAt(input, k)
      decreases n - i
    {
      var v: nat := 65536 * (input[i] as nat);
      if i + 1 < n { v := v + 256 * (input[i + 1] as nat); }
      if i + 2 < n { v := v + input[i + 2]; }
      GroupOfThree(input, g);
      GroupChars(input, g);
      PutFour(out, j, v, i + 1 < n, i + 2 < n);
      j := j + 4;
      i := i + 3;
      g := g + 1;
    }
    out[j] := '\0';
    EncodingIs(input, out[..j]);
  }

  lemma EncodingIs(s: seq<Byte>, t: string)
    requires |t| == Length(|s|) && forall k: nat :: k < |t| ==> t[k] == CharAt(s, k)
    ensures t == Encode(s)
  {
    hide CharAt;
  }

  // Which of a group's four characters are digits.
  lemma GroupChars(s: seq<Byte>, g: nat)
    requires 3 * g < |s|
    ensures CharAt(s, 4 * g) == Digit(SextetAt(s, 4 * g))
    ensures CharAt(s, 4 * g + 1) == Digit(SextetAt(s, 4 * g + 1))
    ensures CharAt(s, 4 * g + 2) == if 3 * g + 1 < |s| then Digit(SextetAt(s, 4 * g + 2)) else '='
    ensures CharAt(s, 4 * g + 3) == if 3 * g + 2 < |s| then Digit(SextetAt(s, 4 * g + 3)) else '='
    ensures 4 * g + 4 <= Length(|s|)
  {
    hide SextetAt, Digit;
  }

  method PutFour(out: array<char>, j: nat, v: nat, third: bool, fourth: bool)
    requires j + 4 <= out.Length
    modifies out
    ensures out[j] == Digit(v / 262144 % 64) && out[j + 1] == Digit(v / 4096 % 64)
    ensures out[j + 2] == if third then Digit(v / 64 % 64) else '='
    ensures out[j + 3] == if fourth then Digit(v % 64) else '='
    ensures forall k :: 0 <= k < out.Length && (k < j || k >= j + 4) ==> out[k] == old(out[k])
  {
    out[j] := Digit(v / 262144 % 64);
    out[j + 1] := Digit(v / 4096 % 64);
    out[j + 2] := if third then Digit(v / 64 % 64) else '=';
    out[j + 3] := if fourth then Digit(v % 64) else '=';
  }

  // The key encoder of ff_net_ws_open: five whole groups, and the sixteenth octet by itself.
  method EncodeKey(raw: seq<Byte>) returns (key: array<char>)
    requires |raw| == 16
    ensures key.Length == 25 && key[..24] == Encode(raw) && key[24] == '\0'
  {
    hide SextetAt, Digit, CharAt;
    key := new char[25];
    for i := 0 to 5
      invariant forall k: nat :: k < 4 * i ==> key[k] == CharAt(raw, k)
    {
      var v := 65536 * (raw[i * 3] as nat) + 256 * (raw[i * 3 + 1] as nat) + raw[i * 3 + 2];
      GroupOfThree(raw, i);
      GroupChars(raw, i);
      PutFour(key, i * 4, v, true, true);
    }
    var last := 65536 * (raw[15] as nat);
    GroupOfThree(raw, 5);
    GroupChars(raw, 5);
    PutFour(key, 20, last, false, false);
    key[24] := '\0';
    EncodingIs(raw, key[..24]);
  }

  // ----------------------------------------------------------------------------- decoding

  // The text a C loop over `*s && *s != '='` visits.
  function Body(s: string): (b: string)
    ensures b <= s && '=' !in b && '\0' !in b
    ensures |b| < |s| ==> s[|b|] == '=' || s[|b|] == '\0'
  {
    if s == [] || s[0] == '=' || s[0] == '\0' then [] else [s[0]] + Body(s[1..])
  }

  predicate AllDigits(b: string) { forall i :: 0 <= i < |b| ==> ValueOf(b[i]).Value? }

  function Sextets(b: string): (v: seq<Sextet>)
    requires AllDigits(b)
    ensures |v| == |b|
  {
    seq(|b|, i requires 0 <= i < |b| => ValueOf(b[i]).v)
  }

  // The whole octets in k digits: three in each group of four, one or two in a part of a group.
  function OctetCount(k: nat): nat { k / 4 * 3 + if k % 4 == 0 then 0 else k % 4 - 1 }

  // Bits 8m to 8m+7 of the digits, read left to right.
  function OctetAt(v: seq<Sextet>, m: nat): Byte
    requires m < OctetCount(|v|)
  {
    var j := m / 3 * 4;
    if m % 3 == 0 then v[j] as int * 4 + v[j + 1] / 16
    else if m % 3 == 1 then v[j + 1] as int % 16 * 16 + v[j + 2] / 4
    else v[j + 2] as int % 4 * 64 + v[j + 3]
  }

  function Octets(v: seq<Sextet>): (s: seq<Byte>)
    ensures |s| == OctetCount(|v|)
  {
    seq(OctetCount(|v|), m requires 0 <= m < OctetCount(|v|) => OctetAt(v, m))
  }

  predicate Decodable(s: string, cap: nat) { AllDigits(Body(s)) && OctetCount(|Body(s)|) <= cap }

  // The low bits still waiting in the 32-bit accumulator after i digits, however far it has
  // overflowed.
  predicate Pending(v: seq<Sextet>, acc: nat, bits: nat) {
    var k := |v|;
    && bits == (if k % 4 == 1 then 6 else if k % 4 == 2 then 4 else if k % 4 == 3 then 2 else 0)
    && (k % 4 == 1 ==> acc % 64 == v[k - 1])
    && (k % 4 == 2 ==> acc % 64 % 16 == v[k - 1] % 16)
    && (k % 4 == 3 ==> acc % 64 % 4 == v[k - 1] % 4)
  }

  // The low bits of a number whose low twelve bits are h:d.
  lemma LowSix(x: nat, h: Sextet, d: Sextet)
    requires x % 4096 == h * 64 + d
    ensures x % 64 == d
  {
    assert x == 4096 * (x / 4096) + (h * 64 + d);
    Remainder(x, 64 * (x / 4096) + h, d, 64);
  }

  lemma OctetAboveFour(x: nat, h: Sextet, d: Sextet)
    requires x % 4096 == h * 64 + d
    ensures x / 16 % 256 == h * 4 + d / 16
  {
    var y: int := h * 4 + d / 16;
    assert x == 4096 * (x / 4096) + (h * 64 + d);
    Remainder(x, 256 * (x / 4096) + y, d % 16, 16);
    Remainder(x / 16, x / 4096, y, 256);
  }

  lemma OctetAboveTwo(x: nat, h: Sextet, d: Sextet)
    requires x % 4096 == h * 64 + d
    ensures x / 4 % 256 == h % 16 * 16 + d / 4
  {
    var y: int := h % 16 * 16 + d / 4;
    var q := 4 * (x / 4096) + h / 16;
    assert x == 4096 * (x / 4096) + (h * 64 + d);
    Remainder(x, 1024 * (x / 4096) + 16 * h + d / 4, d % 4, 4);
    Remainder(x / 4, q, y, 256);
  }

  lemma OctetAtBottom(x: nat, h: Sextet, d: Sextet)
    requires x % 4096 == h * 64 + d
    ensures x % 256 == h % 4 * 64 + d
  {
    var y: int := h % 4 * 64 + d;
    assert x == 4096 * (x / 4096) + (h * 64 + d);
    Remainder(x, 16 * (x / 4096) + h / 4, y, 256);
  }

  lemma Overflow(acc: nat, d: Sextet)
    ensures (acc * 64 + d) % 0x1_0000_0000 % 4096 == acc % 64 * 64 + d
  {
    var y: int := acc % 64 * 64 + d;
    assert acc * 64 + d == 4096 * (acc / 64) + y;
    WrapKeepsLowBits(acc * 64 + d, acc / 64, y);
  }

  lemma WrapKeepsLowBits(wide: nat, q: nat, y: nat)
    requires wide == 4096 * q + y && y < 4096
    ensures wide % 0x1_0000_0000 % 4096 == y
  {
    var p := wide / 0x1_0000_0000;
    assert wide % 0x1_0000_0000 == 4096 * (q - 1048576 * p) + y;
    Remainder(wide % 0x1_0000_0000, q - 1048576 * p, y, 4096);
  }

  // acc >> bits, for the shifts that occur.
  function Shifted(acc: nat, bits: nat): nat {
    if bits == 4 then acc / 16 else if bits == 2 then acc / 4 else acc
  }

  // acc << 6 | d in 32 bits.
  function Next(acc: nat, d: Sextet): nat { (acc * 64 + d) % 0x1_0000_0000 }

  // One more digit: the octet it completes, and what is left waiting.
  lemma ShiftIn(v: seq<Sextet>, acc: nat, bits: nat, d: Sextet)
    requires Pending(v, acc, bits)
    ensures if bits + 6 >= 8 then
              && Pending(v + [d], Next(acc, d), bits - 2)
              && |Octets(v + [d])| == |Octets(v)| + 1
              && OctetAt(v + [d], |Octets(v)|) == Shifted(Next(acc, d), bits - 2) % 256
            else Pending(v + [d], Next(acc, d), bits + 6) && |Octets(v + [d])| == |Octets(v)|
  {
    var x := Next(acc, d);
    Overflow(acc, d);
    LowSix(x, acc % 64, d);
    PendingAfter(v, d, x);
    LastOctet(v + [d]);
    var k := |v|;
    if k % 4 == 1 {
      OctetAboveFour(x, acc % 64, d);
    } else if k % 4 == 2 {
      OctetAboveTwo(x, acc % 64, d);
    } else if k % 4 == 3 {
      OctetAtBottom(x, acc % 64, d);
    }
    assert (v + [d])[..k] == v;
    hide Next, OctetAt;
  }

  lemma PendingAfter(v: seq<Sextet>, d: Sextet, x: nat)
    requires x % 64 == d
    ensures var k := |v| + 1;
            Pending(v + [d], x, if k % 4 == 1 then 6 else if k % 4 == 2 then 4 else if k % 4 == 3 then 2 else 0)
  {
  }

  // The octet that the last of these digits completes, if it completes one.
  lemma LastOctet(w: seq<Sextet>)
    requires w != []
    ensures var k := |w| - 1;
            if k % 4 == 0 then |Octets(w)| == |Octets(w[..k])|
            else |Octets(w)| == |Octets(w[..k])| + 1
    ensures var k, m := |w| - 1, |Octets(w[..|w| - 1])|;
            && (k % 4 == 1 ==> OctetAt(w, m) == w[k - 1] as int * 4 + w[k] / 16)
            && (k % 4 == 2 ==> OctetAt(w, m) == w[k - 1] as int % 16 * 16 + w[k] / 4)
            && (k % 4 == 3 ==> OctetAt(w, m) == w[k - 1] as int % 4 * 64 + w[k])
  {
    var g := (|w| - 1) / 4;
  }

  lemma OctetsSnoc(v: seq<Sextet>, d: Sextet)
    ensures Octets(v) <= Octets(v + [d])
  {
    forall m: nat | m < OctetCount(|v|) ensures OctetAt(v + [d], m) == OctetAt(v, m) {
    }
  }

  // One digit into the accumulator, and the octet it completes into out if there is room.
  method Absorb(ghost v: seq<Sextet>, d: Sextet, acc0: nat, bits0: nat, out: array<Byte>, o0: nat)
    returns (acc: nat, bits: nat, o: nat, full: bool)
    requires Pending(v, acc0, bits0) && o0 <= out.Length && out[..o0] == Octets(v)
    modifies out
    ensures full ==> |Octets(v + [d])| == |Octets(v)| + 1 && |Octets(v)| == out.Length
    ensures !full ==> Pending(v + [d], acc, bits) && o <= out.Length && out[..o] == Octets(v + [d])
  {
    hide OctetAt, Shifted, Next;
    ShiftIn(v, acc0, bits0, d);
    OctetsSnoc(v, d);
    acc, bits, o, full := Next(acc0, d), bits0 + 6, o0, false;
    if bits >= 8 {
      bits := bits - 8;
      if o >= out.Length {
        full := true;
        return;
      }
      out[o] := Shifted(acc, bits) % 256;
      o := o + 1;
    }
  }

  method B64Dec(s: string, out: array<Byte>) returns (o: int)
    modifies out
    ensures o >= 0 <==> Decodable(s, out.Length)
    ensures o < 0 ==> o == -1
    ensures o >= 0 ==> o <= out.Length && out[..o] == Octets(Sextets(Body(s)))
  {
    hide OctetAt, Shifted, Next, ValueOf, Body, Sextets;
    var acc: nat := 0;
    var bits: nat := 0;
    var i := 0;
    o := 0;
    ghost var b := Body(s);
    ghost var v: seq<Sextet> := [];
    assert b[..0] == [] && Sextets([]) == [];
    while i < |s| && s[i] != '\0' && s[i] != '='
      invariant 0 <= i <= |b| <= |s| && b[..i] == s[..i]
      invariant AllDigits(b[..i]) && v == Sextets(b[..i])
      invariant Pending(v, acc, bits)
      invariant 0 <= o <= out.Length && out[..o] == Octets(v)
    {
      assert i < |b| && b[i] == s[i];
      var t := ValueOf(s[i]);
      if t == NotADigit { return -1; }
      ghost var w := v + [t.v];
      SextetsSnoc(b, i);
      var full;
      acc, bits, o, full := Absorb(v, t.v, acc, bits, out, o);
      if full {
        Longer(v, t.v, |b| - i - 1);
        return -1;
      }
      i := i + 1;
      v := w;
    }
    assert b[..i] == b;
  }

  lemma SextetsSnoc(b: string, i: nat)
    requires i < |b| && AllDigits(b[..i]) && ValueOf(b[i]).Value?
    ensures AllDigits(b[..i + 1]) && Sextets(b[..i + 1]) == Sextets(b[..i]) + [ValueOf(b[i]).v]
  {
    hide ValueOf;
    assert b[..i + 1] == b[..i] + [b[i]];
  }

  lemma Longer(v: seq<Sextet>, d: Sextet, rest: nat)
    requires |Octets(v + [d])| == |Octets(v)| + 1
    ensures OctetCount(|v| + 1 + rest) >= |Octets(v)| + 1
  {
  }

  // ---------------------------------------------------------------------------- round trip

  lemma {:induction false} BodyLength(t: string, n: nat)
    requires n <= |t| && (forall k :: 0 <= k < n ==> t[k] != '=' && t[k] != '\0')
    requires n < |t| ==> t[n] == '='
    ensures |Body(t)| == n
  {
    if n > 0 {
      BodyLength(t[1..], n - 1);
    }
  }

  lemma BodyOfEncoding(s: seq<Byte>)
    ensures |Body(Encode(s))| == Digits(|s|)
  {
    BodyLength(Encode(s), Digits(|s|));
  }

  lemma Recombine(a: Byte, b: Byte, c: Byte)
    ensures a / 4 * 4 + (a % 4 * 16 + b / 16) / 16 == a
    ensures (a % 4 * 16 + b / 16) % 16 * 16 + (b % 16 * 4 + c / 64) / 4 == b
    ensures (b % 16 * 4 + c / 64) % 4 * 64 + c % 64 == c
  {
  }

  lemma OctetOfSextets(s: seq<Byte>, v: seq<Sextet>, g: nat, c: nat)
    requires c < 3 && 3 * g + c < |s| == OctetCount(|v|)
    requires forall k: nat :: k < |v| ==> v[k] == SextetAt(s, k)
    ensures OctetAt(v, 3 * g + c) == s[3 * g + c]
  {
    OctetsOfGroup(v, g);
    SextetsOfGroup(s, g);
    hide SextetAt, OctetAt, OctetCount;
    Recombine(At(s, 3 * g), At(s, 3 * g + 1), At(s, 3 * g + 2));
  }

  lemma CountsMatch(n: nat)
    ensures OctetCount(Digits(n)) == n
  {
  }

  lemma OctetsOfGroup(v: seq<Sextet>, g: nat)
    ensures var n := OctetCount(|v|);
            && (3 * g < n ==> 4 * g + 1 < |v| && OctetAt(v, 3 * g) == v[4 * g] as int * 4 + v[4 * g + 1] / 16)
            && (3 * g + 1 < n ==>
                  4 * g + 2 < |v| && OctetAt(v, 3 * g + 1) == v[4 * g + 1] as int % 16 * 16 + v[4 * g + 2] / 4)
            && (3 * g + 2 < n ==>
                  4 * g + 3 < |v| && OctetAt(v, 3 * g + 2) == v[4 * g + 2] as int % 4 * 64 + v[4 * g + 3])
  {
  }

  lemma SextetsOfGroup(s: seq<Byte>, g: nat)
    ensures SextetAt(s, 4 * g) == At(s, 3 * g) / 4
    ensures SextetAt(s, 4 * g + 1) == At(s, 3 * g) % 4 * 16 + At(s, 3 * g + 1) / 16
    ensures SextetAt(s, 4 * g + 2) == At(s, 3 * g + 1) % 16 * 4 + At(s, 3 * g + 2) / 64
    ensures SextetAt(s, 4 * g + 3) == At(s, 3 * g + 2) % 64
  {
  }

  // The licence decoder inverts the handshake encoder on every octet string that fits.
  lemma DecodeEncode(s: seq<Byte>, cap: nat)
    ensures AllDigits(Body(Encode(s))) && Octets(Sextets(Body(Encode(s)))) == s
    ensures Decodable(Encode(s), cap) <==> |s| <= cap
  {
    BodyOfEncoding(s);
    var b := Body(Encode(s));
    forall k | 0 <= k < |b| ensures ValueOf(b[k]) == Value(SextetAt(s, k)) {
      assert b[k] == Encode(s)[k] == Digit(SextetAt(s, k));
    }
    var v := Sextets(b);
    CountsMatch(|s|);
    forall m | 0 <= m < |s| ensures OctetAt(v, m) == s[m] {
      OctetOfSextets(s, v, m / 3, m % 3);
    }
  }
}
