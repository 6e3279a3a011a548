// Cleaning a sender's name before it is drawn (src/ff-alert.c, ff_alert_sanitise): UTF-8 taken a
// character at a time, filtered, and cut to fit without splitting one.
module AlertText {
  import opened Bytes

  // ----------------------------------------------------------------------------- characters

  // The length a lead byte announces; 0 for a byte that cannot lead.
  function LeadLength(c: Byte): (n: nat)
    ensures n <= 4
  {
    if c < 0x80 then 1
    else if 0xC0 <= c < 0xE0 then 2
    else if 0xE0 <= c < 0xF0 then 3
    else if 0xF0 <= c < 0xF8 then 4
    else 0
  }

  predicate Continues(b: Byte) { 0x80 <= b < 0xC0 }

  // A lead byte and exactly as many continuation bytes as it announces.
  predicate IsChar(c: seq<Byte>) {
    c != [] && |c| == LeadLength(c[0]) && forall k :: 1 <= k < |c| ==> Continues(c[k])
  }

  // Embeddings, overrides, isolates and marks.
  predicate IsBidi(cp: int) {
    0x202A <= cp <= 0x202E || 0x2066 <= cp <= 0x2069 || cp == 0x200E || cp == 0x200F || cp == 0x061C
  }

  // The number a character of two or three bytes spells.
  function CodePoint(c: seq<Byte>): int
    requires |c| == 2 || |c| == 3
  {
    var a, b: int := c[0], c[1];
    if |c| == 2 then a % 32 * 64 + b % 64 else a % 16 * 4096 + b % 64 * 64 + c[2] as int % 64
  }

  predicate IsControl(c: seq<Byte>) { |c| == 1 && (c[0] < 0x20 || c[0] == 0x7F) }

  predicate IsSafe(c: seq<Byte>) {
    IsChar(c) && !IsControl(c) && !((|c| == 2 || |c| == 3) && IsBidi(CodePoint(c)))
  }

  // ------------------------------------------------------------------------------- filtering

  datatype Piece = Keep(bytes: seq<Byte>) | Drop(count: nat)

  // What stands at the front of s: a character to keep, or bytes to drop as one.
  function Front(s: seq<Byte>): (p: Piece)
    requires s != []
    ensures p.Keep? ==> p.bytes <= s && IsSafe(p.bytes)
    ensures p.Drop? ==> 0 < p.count <= |s|
  {
    var n := LeadLength(s[0]);
    if n == 0 || n > |s| || !IsChar(s[..n]) then Drop(1)
    else if IsSafe(s[..n]) then Keep(s[..n])
    else Drop(n)
  }

  function Filter(s: seq<Byte>): (chars: seq<seq<Byte>>)
    ensures forall c :: c in chars ==> IsSafe(c)
  {
    if s == [] then []
    else match Front(s)
      case Keep(c) => [c] + Filter(s[|c|..])
      case Drop(n) => Filter(s[n..])
  }

  function Join(chars: seq<seq<Byte>>): seq<Byte> { if chars == [] then [] else chars[0] + Join(chars[1..]) }

  // As many of the characters as fit, stopping at the first that does not.
  function Fitting(chars: seq<seq<Byte>>, room: nat): (r: seq<seq<Byte>>)
    ensures r <= chars
  {
    if chars == [] || |chars[0]| > room then [] else [chars[0]] + Fitting(chars[1..], room - |chars[0]|)
  }

  // How much was dropped before the cut.
  function Removed(s: seq<Byte>, room: nat): nat
    decreases |s|
  {
    if s == [] then 0
    else match Front(s)
      case Keep(c) => if |c| > room then 0 else Removed(s[|c|..], room - |c|)
      case Drop(n) => 1 + Removed(s[n..], room)
  }

  // ------------------------------------------------------------------------ the byte loop

  // A C string: everything before its terminator.
  function Body(inp: seq<Byte>): (s: seq<Byte>)
    ensures s <= inp && 0 !in s && (|s| < |inp| ==> inp[|s|] == 0)
  {
    if inp == [] || inp[0] == 0 then [] else [inp[0]] + Body(inp[1..])
  }

  // A lead byte's continuations, looked at one by one; a terminator ends the look.
  method CharLength(inp: seq<Byte>, i: nat, ghost s: seq<Byte>) returns (n: nat)
    requires s == Body(inp) && i < |s| < |inp|
    ensures n == 0 <==> LeadLength(s[i]) == 0 || i + LeadLength(s[i]) > |s| || !IsChar(s[i..i + LeadLength(s[i])])
    ensures n != 0 ==> n == LeadLength(s[i]) && i + n <= |s|
  {
    hide Body;
    n := LeadLength(inp[i]);
    var k := 1;
    while k < n
      invariant n == LeadLength(s[i]) && 1 <= k && (k == 1 || k <= n) && i + k <= |s|
      invariant forall m :: i + 1 <= m < i + k ==> Continues(s[m])
    {
      assert i + k < |s| ==> inp[i + k] == s[i + k];
      if !Continues(inp[i + k]) {
        if i + n <= |s| { assert !Continues(s[i..i + n][k]); }
        return 0;
      }
      k := k + 1;
    }
    if n > 0 {
      ghost var c := s[i..i + n];
      forall m | 1 <= m < |c| ensures Continues(c[m]) { assert c[m] == s[i + m]; }
    }
  }

  method Copy(inp: seq<Byte>, i: nat, n: nat, out: array<Byte>, j: nat)
    requires i + n <= |inp| && j + n <= out.Length
    modifies out
    ensures out[..j + n] == old(out[..j]) + inp[i..i + n]
  {
    forall k | 0 <= k < n { out[j + k] := inp[i + k]; }
  }

  method Sanitise(inp: seq<Byte>, out: array<Byte>) returns (removed: nat, j: nat)
    requires inp == [] || 0 in inp
    modifies out
    ensures out.Length == 0 ==> removed == 0
    ensures out.Length > 0 ==> j < out.Length && out[j] == 0 && removed == Removed(Body(inp), out.Length - 1)
    ensures out.Length > 0 ==> out[..j] == Join(Fitting(Filter(Body(inp)), out.Length - 1))
  {
    hide IsSafe, IsChar, Filter, Join, Fitting, Removed, Body, Front, Left, Lost;
    removed, j := 0, 0;
    if out.Length == 0 { return; }
    out[0] := 0;
    ghost var s, room := Body(inp), out.Length - 1;
    TerminatorThere(inp);
    LeftAll(s, room);
    var i := 0;
    assert out[..0] == [];
    while i < |inp| && inp[i] != 0
      invariant 0 <= i <= |s| && 0 <= j <= room && (i < |s| ==> inp[i] == s[i])
      invariant out[..j] + Left(s, i, room - j) == Left(s, 0, room)
      invariant removed + Lost(s, i, room - j) == Lost(s, 0, room)
      decreases |s| - i
    {
      assert i < |s| by { assert |s| < |inp| && inp[|s|] == 0; }
      var n := CharLength(inp, i, s);
      var drop := Verdict(inp, i, n, s);
      StepOver(s, i, n, drop, room - j);
      if drop > 0 {
        removed := removed + 1;
        i := i + drop;
        continue;
      }
      if j + n + 1 > out.Length { break; }
      assert inp[i..i + n] == s[i..i + n];
      Copy(inp, i, n, out, j);
      j := j + n;
      i := i + n;
    }
    if i >= |s| { LeftNone(s, room - j); }
    out[j] := 0;
  }

  // What is still to come of the output and of the count.
  ghost function Left(s: seq<Byte>, i: nat, room: nat): seq<Byte>
    requires i <= |s|
  {
    Join(Fitting(Filter(s[i..]), room))
  }

  ghost function Lost(s: seq<Byte>, i: nat, room: nat): nat
    requires i <= |s|
  {
    Removed(s[i..], room)
  }

  lemma LeftAll(s: seq<Byte>, room: nat)
    ensures Left(s, 0, room) == Join(Fitting(Filter(s), room)) && Lost(s, 0, room) == Removed(s, room)
  {
    assert s[0..] == s;
  }

  lemma LeftNone(s: seq<Byte>, room: nat)
    ensures Left(s, |s|, room) == [] && Lost(s, |s|, room) == 0
  {
    NothingLeft(room);
    assert s[|s|..] == [];
  }

  lemma StepOver(s: seq<Byte>, i: nat, n: nat, drop: nat, room: nat)
    requires i < |s| && i + drop <= |s| && (drop == 0 ==> 0 < n && i + n <= |s|)
    requires Front(s[i..]) == if drop > 0 then Drop(drop) else Keep(s[i..i + n])
    ensures drop > 0 ==> Left(s, i, room) == Left(s, i + drop, room) && Lost(s, i, room) == 1 + Lost(s, i + drop, room)
    ensures drop == 0 && n > room ==> Left(s, i, room) == [] && Lost(s, i, room) == 0
    ensures drop == 0 && n <= room ==>
              Left(s, i, room) == s[i..i + n] + Left(s, i + n, room - n) && Lost(s, i, room) == Lost(s, i + n, room - n)
  {
    hide IsSafe, Filter, Join, Fitting, Removed, Front;
    FrontStep(s[i..], room);
    if drop > 0 {
      assert s[i..][drop..] == s[i + drop..];
    } else {
      assert s[i..][n..] == s[i + n..];
    }
  }

  lemma TerminatorThere(inp: seq<Byte>)
    requires inp == [] || 0 in inp
    ensures inp != [] ==> |Body(inp)| < |inp| && inp[|Body(inp)|] == 0
  {
  }

  // The checks on one character: how many bytes to drop, or none.
  method Verdict(inp: seq<Byte>, i: nat, n: nat, ghost s: seq<Byte>) returns (drop: nat)
    requires s <= inp && i < |s|
    requires n == 0 <==> LeadLength(s[i]) == 0 || i + LeadLength(s[i]) > |s| || !IsChar(s[i..i + LeadLength(s[i])])
    requires n != 0 ==> n == LeadLength(s[i]) && i + n <= |s|
    ensures Front(s[i..]) == if drop > 0 then Drop(drop) else Keep(s[i..i + n])
    ensures i + drop <= |s| && (drop == 0 ==> n > 0)
  {
    hide IsChar;
    ghost var t := s[i..];
    if n == 0 {
      if i + LeadLength(s[i]) <= |s| { assert t[..LeadLength(s[i])] == s[i..i + LeadLength(s[i])]; }
      return 1;
    }
    assert t[..n] == s[i..i + n] == inp[i..i + n];
    if n == 1 && (inp[i] < 0x20 || inp[i] == 0x7F) { return 1; }
    if (n == 2 || n == 3) && IsBidi(CodePoint(inp[i..i + n])) { return n; }
    return 0;
  }

  // One character's part in the specification.
  lemma FrontStep(s: seq<Byte>, room: nat)
    requires s != []
    ensures match Front(s)
            case Keep(c) =>
              && Removed(s, room) == (if |c| > room then 0 else Removed(s[|c|..], room - |c|))
              && Join(Fitting(Filter(s), room)) ==
                  (if |c| > room then [] else c + Join(Fitting(Filter(s[|c|..]), room - |c|)))
            case Drop(n) =>
              && Removed(s, room) == 1 + Removed(s[n..], room)
              && Filter(s) == Filter(s[n..])
  {
    hide Front;
    match Front(s)
    case Drop(n) =>
    case Keep(c) =>
      var rest := Filter(s[|c|..]);
      assert Filter(s)[0] == c && Filter(s)[1..] == rest;
      if |c| <= room {
        var r := Fitting(Filter(s), room);
        assert r == [c] + Fitting(rest, room - |c|);
        assert r[0] == c && r[1..] == Fitting(rest, room - |c|);
      }
  }

  lemma NothingLeft(room: nat)
    ensures Join(Fitting(Filter([]), room)) == [] && Removed([], room) == 0
  {
  }

  // -------------------------------------------------------------------------- consequences

  // The characters kept are the longest run from the first that fits.
  lemma {:induction false} LongestFit(chars: seq<seq<Byte>>, room: nat, n: nat)
    requires n <= |chars|
    ensures |Join(Fitting(chars, room))| <= room
    ensures n <= |Fitting(chars, room)| <==> |Join(chars[..n])| <= room
  {
    if chars != [] {
      if n > 0 { assert chars[..n][0] == chars[0] && chars[..n][1..] == chars[1..][..n - 1]; }
      if |chars[0]| <= room {
        LongestFit(chars[1..], room - |chars[0]|, if n > 0 then n - 1 else 0);
        var r := Fitting(chars, room);
        assert r[0] == chars[0] && r[1..] == Fitting(chars[1..], room - |chars[0]|);
      }
    }
  }

  lemma SafeAtFront(c: seq<Byte>, rest: seq<Byte>)
    requires IsSafe(c)
    ensures Front(c + rest) == Keep(c)
  {
    assert (c + rest)[..|c|] == c && (c + rest)[0] == c[0];
  }

  // Text made of safe characters is taken apart into just those characters.
  lemma {:induction false} FilterJoin(chars: seq<seq<Byte>>)
    requires forall c :: c in chars ==> IsSafe(c)
    ensures Filter(Join(chars)) == chars
  {
    hide IsSafe, Front;
    if chars != [] {
      var c, rest := chars[0], Join(chars[1..]);
      assert forall d :: d in chars[1..] ==> d in chars;
      FilterJoin(chars[1..]);
      SafeAtFront(c, rest);
      SafeIsSome(c);
      assert (c + rest)[|c|..] == rest;
      assert chars == [c] + chars[1..];
    }
  }

  lemma SafeIsSome(c: seq<Byte>)
    requires IsSafe(c)
    ensures c != []
  {
  }

  lemma {:induction false} NothingRemoved(chars: seq<seq<Byte>>, room: nat)
    requires forall c :: c in chars ==> IsSafe(c)
    ensures Removed(Join(chars), room) == 0
  {
    hide IsSafe, Front;
    if chars != [] {
      var c, rest := chars[0], Join(chars[1..]);
      assert forall d :: d in chars[1..] ==> d in chars;
      SafeAtFront(c, rest);
      SafeIsSome(c);
      assert (c + rest)[|c|..] == rest;
      if |c| <= room { NothingRemoved(chars[1..], room - |c|); }
    }
  }

  lemma {:induction false} AllFit(chars: seq<seq<Byte>>, room: nat)
    requires |Join(chars)| <= room
    ensures Fitting(chars, room) == chars
  {
    if chars != [] {
      AllFit(chars[1..], room - |chars[0]|);
      assert chars == [chars[0]] + chars[1..];
    }
  }

  // A second pass with the same room removes nothing and changes nothing.
  lemma SecondPassChangesNothing(s: seq<Byte>, room: nat)
    ensures var once := Join(Fitting(Filter(s), room));
            && Join(Fitting(Filter(once), room)) == once
            && Removed(once, room) == 0
  {
    hide Filter, Fitting, Join, IsSafe, Removed;
    var kept := Fitting(Filter(s), room);
    KeptAreSafe(Filter(s), room);
    FilterJoin(kept);
    LongestFit(Filter(s), room, 0);
    AllFit(kept, room);
    NothingRemoved(kept, room);
  }

  lemma KeptAreSafe(chars: seq<seq<Byte>>, room: nat)
    requires forall c :: c in chars ==> IsSafe(c)
    ensures forall c :: c in Fitting(chars, room) ==> IsSafe(c)
  {
    hide IsSafe, Fitting;
    var r := Fitting(chars, room);
    assert forall k :: 0 <= k < |r| ==> r[k] == chars[k] && chars[k] in chars;
  }

  // No C0 or DEL byte is left, whole characters or not.
  lemma {:induction false} NoControlByte(chars: seq<seq<Byte>>, b: Byte)
    requires (forall c :: c in chars ==> IsSafe(c)) && b in Join(chars)
    ensures b >= 0x20 && b != 0x7F
  {
    var c := chars[0];
    assert c in chars;
    if b in c {
      var k :| 0 <= k < |c| && c[k] == b;
      assert k > 0 ==> Continues(c[k]);
      assert k == 0 && |c| > 1 ==> c[0] >= 0xC0;
    } else {
      assert forall d :: d in chars[1..] ==> d in chars;
      NoControlByte(chars[1..], b);
    }
  }

  // --------------------------------------------------------- of code points, encoded (RFC 3629)

  type CodePointValue = cp: int | 0 <= cp < 0x11_0000

  // A number in the pattern of one, two, three or four octets.
  function Pattern(v: nat, n: nat): (c: seq<Byte>)
    requires 1 <= n <= 4 && v < [0x80, 0x800, 0x1_0000, 0x20_0000][n - 1]
    ensures |c| == n
  {
    if n == 1 then [v]
    else if n == 2 then [0xC0 + v / 64, 0x80 + v % 64]
    else if n == 3 then [0xE0 + v / 4096, 0x80 + v / 64 % 64, 0x80 + v % 64]
    else [0xF0 + v / 262144, 0x80 + v / 4096 % 64, 0x80 + v / 64 % 64, 0x80 + v % 64]
  }

  // Each code point in the shortest that holds it.
  function Utf8(cp: CodePointValue): (c: seq<Byte>)
    ensures 1 <= |c| <= 4
  {
    Pattern(cp, if cp < 0x80 then 1 else if cp < 0x800 then 2 else if cp < 0x1_0000 then 3 else 4)
  }

  // A character is nothing but such a pattern.
  lemma CharsArePatterns(c: seq<Byte>)
    requires IsChar(c)
    ensures 1 <= |c| <= 4 && exists v: nat :: v < [0x80, 0x800, 0x1_0000, 0x20_0000][|c| - 1] && c == Pattern(v, |c|)
  {
    hide Pattern;
    var a: int := c[0];
    if |c| == 1 {
      OctetsSpell(c, a, 0, 0, 0);
    } else if |c| == 2 {
      OctetsSpell(c, a - 0xC0, c[1] as int - 0x80, 0, 0);
    } else if |c| == 3 {
      OctetsSpell(c, a - 0xE0, c[1] as int - 0x80, c[2] as int - 0x80, 0);
    } else {
      OctetsSpell(c, a - 0xF0, c[1] as int - 0x80, c[2] as int - 0x80, c[3] as int - 0x80);
    }
  }

  lemma OctetsSpell(c: seq<Byte>, w: nat, x: nat, y: nat, z: nat)
    requires 1 <= |c| <= 4 && x < 64 && y < 64 && z < 64
    requires |c| == 1 ==> w < 128 && c == [w]
    requires |c| == 2 ==> w < 32 && c == [0xC0 + w, 0x80 + x]
    requires |c| == 3 ==> w < 16 && c == [0xE0 + w, 0x80 + x, 0x80 + y]
    requires |c| == 4 ==> w < 8 && c == [0xF0 + w, 0x80 + x, 0x80 + y, 0x80 + z]
    ensures exists v: nat :: v < [0x80, 0x800, 0x1_0000, 0x20_0000][|c| - 1] && c == Pattern(v, |c|)
  {
    if |c| == 1 {
      assert c == Pattern(w, 1);
    } else if |c| == 2 {
      TwoOctetsSpell(w, x);
      assert c == Pattern(64 * w + x, 2);
    } else if |c| == 3 {
      ThreeOctetsSpell(w, x, y);
      assert c == Pattern(4096 * w + 64 * x + y, 3);
    } else {
      FourOctetsSpell(w, x, y, z);
      assert c == Pattern(262144 * w + 4096 * x + 64 * y + z, 4);
    }
  }

  lemma TwoOctetsSpell(a: nat, b: nat)
    requires a < 32 && b < 64
    ensures var v := 64 * a + b; v < 0x800 && v / 64 == a && v % 64 == b
  {
  }

  lemma ThreeOctetsSpell(a: nat, b: nat, c: nat)
    requires a < 16 && b < 64 && c < 64
    ensures var v := 4096 * a + 64 * b + c; v < 0x1_0000 && v / 4096 == a && v / 64 % 64 == b && v % 64 == c
  {
    assert (4096 * a + 64 * b + c) / 64 == 64 * a + b;
  }

  lemma FourOctetsSpell(a: nat, b: nat, c: nat, d: nat)
    requires a < 8 && b < 64 && c < 64 && d < 64
    ensures var v := 262144 * a + 4096 * b + 64 * c + d;
            v < 0x20_0000 && v / 262144 == a && v / 4096 % 64 == b && v / 64 % 64 == c && v % 64 == d
  {
    assert (262144 * a + 4096 * b + 64 * c + d) / 64 == 4096 * a + 64 * b + c;
    assert (262144 * a + 4096 * b + 64 * c + d) / 4096 == 64 * a + b;
  }

  // Embeddings, overrides and isolates, and the marks of direction.
  const BIDI: set<int> := {
    0x202A, 0x202B, 0x202C, 0x202D, 0x202E, 0x2066, 0x2067, 0x2068, 0x2069, 0x200E, 0x200F, 0x061C}

  predicate Drawable(cp: CodePointValue) { cp >= 0x20 && cp != 0x7F && cp !in BIDI }

  // Decoding inverts encoding.
  lemma Utf8Reads(cp: CodePointValue)
    ensures IsChar(Utf8(cp)) && (0x80 <= cp < 0x1_0000 ==> CodePoint(Utf8(cp)) == cp)
  {
    if 0x80 <= cp < 0x800 {
      assert cp == 64 * (cp / 64) + cp % 64;
      TwoOctets(cp / 64, cp % 64);
    } else if 0x800 <= cp < 0x1_0000 {
      var hi, mid, lo := cp / 4096, cp / 64 % 64, cp % 64;
      ThreeDigits(cp);
      ThreeOctets(hi, mid, lo);
    }
  }

  lemma TwoOctets(hi: nat, lo: nat)
    requires hi < 32 && lo < 64
    ensures (0xC0 + hi) % 32 == hi && (0x80 + lo) % 64 == lo
  {
  }

  lemma ThreeOctets(hi: nat, mid: nat, lo: nat)
    requires hi < 16 && mid < 64 && lo < 64
    ensures (0xE0 + hi) % 16 == hi && (0x80 + mid) % 64 == mid && (0x80 + lo) % 64 == lo
  {
  }

  lemma ThreeDigits(cp: nat)
    ensures cp == 4096 * (cp / 4096) + 64 * (cp / 64 % 64) + cp % 64
  {
    var q := cp / 64;
    assert cp == 64 * q + cp % 64 && q == 64 * (q / 64) + q % 64;
    assert q / 64 == cp / 4096;
  }

  // A character that spells a code point is let through exactly when that may be drawn.
  lemma SafeExactly(cp: CodePointValue)
    ensures IsSafe(Utf8(cp)) <==> Drawable(cp)
  {
    Utf8Reads(cp);
  }

  // No occurrence of a listed code point is left anywhere, not even across two characters kept.
  lemma NoBidiLeft(s: seq<Byte>, room: nat, cp: CodePointValue, k: nat)
    requires cp in BIDI
    requires k + |Utf8(cp)| <= |Join(Fitting(Filter(s), room))|
    ensures Join(Fitting(Filter(s), room))[k..k + |Utf8(cp)|] != Utf8(cp)
  {
    hide Filter, Fitting, Join, IsSafe;
    KeptAreSafe(Filter(s), room);
    SafeExactly(cp);
    Utf8Reads(cp);
    assert Utf8(cp)[0] >= 0xC0;
    NowhereIn(Fitting(Filter(s), room), Utf8(cp), k);
  }

  // A character that is not safe stands nowhere in safe text: leads stand only at the front of one.
  lemma {:induction false} NowhereIn(chars: seq<seq<Byte>>, u: seq<Byte>, k: nat)
    requires forall c :: c in chars ==> IsSafe(c)
    requires IsChar(u) && !IsSafe(u) && u[0] >= 0xC0 && k + |u| <= |Join(chars)|
    ensures Join(chars)[k..k + |u|] != u
    decreases |chars|
  {
    hide IsSafe;
    if chars != [] {
      var c, rest := chars[0], Join(chars[1..]);
      assert c in chars && forall d :: d in chars[1..] ==> d in chars;
      SafeIsChar(c);
      var t := Join(chars);
      assert t == c + rest;
      if k >= |c| {
        NowhereIn(chars[1..], u, k - |c|);
        assert t[k..k + |u|] == rest[k - |c|..k - |c| + |u|];
      } else if t[k..k + |u|] == u {
        assert c[k] == t[k] == t[k..k + |u|][0] == u[0];
        LeadsStandInFront(c, k);
      }
    } else {
      NoText();
    }
  }

  lemma SafeIsChar(c: seq<Byte>)
    requires IsSafe(c)
    ensures IsChar(c)
  {
  }

  lemma LeadsStandInFront(c: seq<Byte>, k: nat)
    requires IsChar(c) && k < |c| && c[k] >= 0xC0
    ensures k == 0
  {
  }

  lemma NoText()
    ensures Join([]) == []
  {
  }

  function Encoded(cps: seq<CodePointValue>): seq<seq<Byte>> {
    seq(|cps|, i requires 0 <= i < |cps| => Utf8(cps[i]))
  }

  function Drawables(cps: seq<CodePointValue>): seq<CodePointValue> {
    if cps == [] then []
    else (if Drawable(cps[0]) then [cps[0]] else []) + Drawables(cps[1..])
  }

  // Of well-formed text exactly the code points that may not be drawn are taken out.
  lemma {:induction false} TextIsFiltered(cps: seq<CodePointValue>)
    ensures Filter(Join(Encoded(cps))) == Encoded(Drawables(cps))
  {
    hide IsSafe, Front, Utf8, Drawable, Join, Filter;
    if cps == [] {
      NoText();
      FilterOf([], []);
    } else {
      var u, rest := Utf8(cps[0]), Join(Encoded(cps[1..]));
      TextIsFiltered(cps[1..]);
      assert Encoded(cps)[0] == u && Encoded(cps)[1..] == Encoded(cps[1..]);
      JoinStep(Encoded(cps));
      FrontOfText(cps[0], rest);
      FilterOf(u + rest, rest);
      assert Encoded([cps[0]] + Drawables(cps[1..])) == [u] + Encoded(Drawables(cps[1..]));
    }
  }

  // And what is taken out is counted, each as one, however many bytes it was.
  lemma {:induction false} TakenOutAreCounted(cps: seq<CodePointValue>, room: nat)
    requires |Join(Encoded(Drawables(cps)))| <= room
    ensures Removed(Join(Encoded(cps)), room) == |cps| - |Drawables(cps)|
  {
    hide IsSafe, Front, Utf8, Drawable, Join, Filter, Fitting, Removed;
    if cps == [] {
      NoText();
      NothingLeft(room);
    } else {
      var u, rest := Utf8(cps[0]), Join(Encoded(cps[1..]));
      assert Encoded(cps)[0] == u && Encoded(cps)[1..] == Encoded(cps[1..]);
      JoinStep(Encoded(cps));
      FrontOfText(cps[0], rest);
      FrontStep(u + rest, room);
      var kept := Drawables(cps[1..]);
      if Drawable(cps[0]) {
        var more := [cps[0]] + kept;
        assert Drawables(cps) == more;
        assert Encoded(more)[0] == u && Encoded(more)[1..] == Encoded(kept);
        JoinStep(Encoded(more));
        assert |Join(Encoded(Drawables(cps)))| == |Join(Encoded(more))| == |u| + |Join(Encoded(kept))|;
        TakenOutAreCounted(cps[1..], room - |u|);
      } else {
        assert Drawables(cps) == [] + kept == kept;
        TakenOutAreCounted(cps[1..], room);
      }
    }
  }

  lemma JoinStep(chars: seq<seq<Byte>>)
    requires chars != []
    ensures Join(chars) == chars[0] + Join(chars[1..])
  {
  }

  lemma FrontOfText(cp: CodePointValue, rest: seq<Byte>)
    ensures Front(Utf8(cp) + rest) == if Drawable(cp) then Keep(Utf8(cp)) else Drop(|Utf8(cp)|)
    ensures (Utf8(cp) + rest)[|Utf8(cp)|..] == rest
  {
    hide IsSafe, Utf8, Drawable;
    var u := Utf8(cp);
    SafeExactly(cp);
    Utf8Reads(cp);
    assert (u + rest)[..|u|] == u && (u + rest)[0] == u[0];
  }

  lemma FilterOf(s: seq<Byte>, rest: seq<Byte>)
    ensures s == [] ==> Filter(s) == []
    ensures s != [] && Front(s).Keep? && s[|Front(s).bytes|..] == rest ==>
              Filter(s) == [Front(s).bytes] + Filter(rest)
    ensures s != [] && Front(s).Drop? && s[Front(s).count..] == rest ==> Filter(s) == Filter(rest)
  {
    hide Front;
  }

  // When nothing was removed and nothing cut the text is unchanged.
  lemma {:induction false} UnremovedIsUnchanged(s: seq<Byte>, room: nat)
    requires Removed(s, room) == 0 && |Join(Filter(s))| <= room
    ensures Join(Filter(s)) == s
    decreases |s|
  {
    hide IsSafe, Front, Filter, Join, Removed, Fitting;
    if s == [] {
      FilterNothing();
    } else {
      FrontStep(s, room);
      FilterFront(s);
      var p := Front(s);
      if p.Keep? {
        UnremovedIsUnchanged(s[|p.bytes|..], room - |p.bytes|);
        assert s == p.bytes + s[|p.bytes|..];
      }
    }
  }

  lemma FilterNothing()
    ensures Join(Filter([])) == []
  {
  }

  lemma FilterFront(s: seq<Byte>)
    requires s != []
    ensures Front(s).Keep? ==>
              && Front(s).bytes != []
              && Join(Filter(s)) == Front(s).bytes + Join(Filter(s[|Front(s).bytes|..]))
  {
    hide Front;
    match Front(s)
    case Drop(n) =>
    case Keep(c) => assert Filter(s)[0] == c && Filter(s)[1..] == Filter(s[|c|..]);
  }
}
