// The frames this client sends (src/ff-ws.c, ff_ws_build): never fragmented, always masked.
module WsClient {
  import opened Bytes
  import opened WsFrame

  type Mask = m: seq<Byte> | |m| == 4 witness [0, 0, 0, 0]

  const MAX_LENGTH := 0x8000_0000_0000_0000  // section 5.2: the top bit of a 64-bit length is 0

  function Masked(p: seq<Byte>, mask: Mask): (m: seq<Byte>)
    ensures |m| == |p|
  {
    seq(|p|, k requires 0 <= k < |p| => Xor(p[k], mask[k % 4]))
  }

  function EncodeClient(op: Op, p: seq<Byte>, mask: Mask): (s: seq<Byte>)
    ensures |s| == 6 + |p| + (if |p| > 65535 then 8 else if |p| > 125 then 2 else 0)
  {
    [FirstByte(op, true)] + LengthField(|p|, 128) + mask + Masked(p, mask)
  }

  // ff_ws_build refuses a control frame that section 5.5 forbids and a buffer that is too small.
  predicate Buildable(op: Op, n: nat) { op.IsControl() ==> n <= 125 }

  method Build(op: Op, payload: seq<Byte>, mask: Mask, out: array<Byte>) returns (n: nat)
    requires |payload| < MAX_LENGTH
    modifies out
    ensures n == 0 <==> !Buildable(op, |payload|) || out.Length < |EncodeClient(op, payload, mask)|
    ensures n == 0 ==> out[..] == old(out[..])
    ensures n > 0 ==> n <= out.Length && out[..n] == EncodeClient(op, payload, mask)
    ensures forall x :: n <= x < out.Length ==> out[x] == old(out[x])
  {
    var len := |payload|;
    if op.IsControl() && len > 125 { return 0; }
    var header := 2 + 4;
    if len > 65535 {
      header := header + 8;
    } else if len > 125 {
      header := header + 2;
    }
    if out.Length < header + len { return 0; }
    n := Put(FirstByte(op, true), out, 0, []);
    ghost var done := [FirstByte(op, true)];
    n := PutLength(len, out, n, done);
    done := done + LengthField(len, 128);
    n := PutMask(mask, out, n, done);
    done := done + mask;
    n := PutMasked(payload, mask, out, n, done);
  }

  // Appends one octet after the `done` ones.
  method Put(b: Byte, out: array<Byte>, i: nat, ghost done: seq<Byte>) returns (j: nat)
    requires i < out.Length && out[..i] == done
    modifies out
    ensures j == i + 1 && out[..j] == done + [b]
    ensures forall x :: j <= x < out.Length ==> out[x] == old(out[x])
  {
    out[i] := b;
    return i + 1;
  }

  method PutLength(len: nat, out: array<Byte>, i: nat, ghost done: seq<Byte>) returns (j: nat)
    requires len < MAX_LENGTH && i + |LengthField(len, 128)| <= out.Length && out[..i] == done
    modifies out
    ensures j == i + |LengthField(len, 128)| && out[..j] == done + LengthField(len, 128)
    ensures forall x :: j <= x < out.Length ==> out[x] == old(out[x])
  {
    if len > 65535 {
      j := Put(128 + 127, out, i, done);
      j := PutEight(len, out, j, done + [255]);
      assert done + [255] + BigEndian(len, 8) == done + ([255] + BigEndian(len, 8));
    } else if len > 125 {
      BigEndianAt(len, 2, 0);
      BigEndianAt(len, 2, 1);
      var be := [ShiftRight(len, 1) % 256, ShiftRight(len, 0) % 256];
      assert BigEndian(len, 2) == be;
      j := Put(128 + 126, out, i, done);
      j := Put(be[0], out, j, done + [254]);
      j := Put(be[1], out, j, done + [254] + [be[0]]);
      assert done + [254] + [be[0]] + [be[1]] == done + ([254] + be);
    } else {
      j := Put(128 + len, out, i, done);
    }
  }

  method PutEight(len: nat, out: array<Byte>, i: nat, ghost done: seq<Byte>) returns (j: nat)
    requires i + 8 <= out.Length && out[..i] == done
    modifies out
    ensures j == i + 8 && out[..j] == done + BigEndian(len, 8)
    ensures forall x :: j <= x < out.Length ==> out[x] == old(out[x])
  {
    hide BigEndian, ShiftRight;
    j := i;
    ghost var be := BigEndian(len, 8);
    for k := 0 to 8
      invariant j == i + k && out[..j] == done + be[..k]
      invariant forall x :: i + 8 <= x < out.Length ==> out[x] == old(out[x])
    {
      BigEndianAt(len, 8, k);
      j := Put(ShiftRight(len, 7 - k) % 256, out, j, done + be[..k]);
      assert be[..k + 1] == be[..k] + [be[k]];
    }
    assert be[..8] == be;
  }

  method PutMask(mask: Mask, out: array<Byte>, i: nat, ghost done: seq<Byte>) returns (j: nat)
    requires i + 4 <= out.Length && out[..i] == done
    modifies out
    ensures j == i + 4 && out[..j] == done + mask
    ensures forall x :: j <= x < out.Length ==> out[x] == old(out[x])
  {
    j := i;
    for k := 0 to 4
      invariant j == i + k && out[..j] == done + mask[..k]
      invariant forall x :: i + 4 <= x < out.Length ==> out[x] == old(out[x])
    {
      j := Put(mask[k], out, j, done + mask[..k]);
    }
  }

  method PutMasked(payload: seq<Byte>, mask: Mask, out: array<Byte>, i: nat, ghost done: seq<Byte>)
    returns (j: nat)
    requires i + |payload| <= out.Length && out[..i] == done
    modifies out
    ensures j == i + |payload| && out[..j] == done + Masked(payload, mask)
    ensures forall x :: j <= x < out.Length ==> out[x] == old(out[x])
  {
    j := i;
    ghost var masked := Masked(payload, mask);
    for k := 0 to |payload|
      invariant j == i + k && out[..j] == done + masked[..k]
      invariant forall x :: i + |payload| <= x < out.Length ==> out[x] == old(out[x])
    {
      j := Put(Xor(payload[k], mask[k % 4]), out, j, done + masked[..k]);
      assert masked[..k + 1] == masked[..k] + [masked[k]];
    }
    assert masked[..|payload|] == masked;
  }

  // ---------------------------------------------- what a server reads, sections 5.2 and 5.3

  datatype ClientFrame = Unreadable | ClientFrame(op: Op, payload: seq<Byte>, used: nat)

  // Where the masking key starts, and the payload length before it.
  function KeyAt(s: seq<Byte>): nat
    requires |s| >= 2
  {
    if s[1] % 128 == 126 then 4 else if s[1] % 128 == 127 then 10 else 2
  }

  function ReadLength(s: seq<Byte>): nat
    requires |s| >= 2 && |s| >= KeyAt(s)
  {
    if KeyAt(s) == 2 then s[1] % 128 else FromBigEndian(s[2..KeyAt(s)])
  }

  function ReadClient(s: seq<Byte>): (r: ClientFrame)
    ensures r.ClientFrame? ==> 0 < r.used <= |s|
  {
    if |s| < 2 || s[0] / 16 != 8 || s[1] / 128 != 1 || OpOf(s[0] % 16) == NoOp || |s| < KeyAt(s) then Unreadable
    else
      var n, at := ReadLength(s), KeyAt(s) + 4;
      if |s| < at + n then Unreadable
      else ClientFrame(OpOf(s[0] % 16).op, Masked(s[at..at + n], s[at - 4..at]), at + n)
  }

  lemma LengthBuilt(s: seq<Byte>, n: nat)
    requires n < MAX_LENGTH && |s| > |LengthField(n, 128)| && s[1..1 + |LengthField(n, 128)|] == LengthField(n, 128)
    ensures KeyAt(s) == 1 + |LengthField(n, 128)| && ReadLength(s) == n && s[1] / 128 == 1
  {
    assert s[1] == LengthField(n, 128)[0];
    if n > 65535 {
      assert s[2..10] == BigEndian(n, 8);
      Pow256Of8();
      ReadBigEndian(n, 8);
    } else if n > 125 {
      assert s[2..4] == BigEndian(n, 2);
      assert Pow256(2) == 65536;
      ReadBigEndian(n, 2);
    }
  }

  lemma MaskedTwice(p: seq<Byte>, mask: Mask)
    ensures Masked(Masked(p, mask), mask) == p
  {
    forall k | 0 <= k < |p| ensures Masked(Masked(p, mask), mask)[k] == p[k] {
      XorTwice(p[k], mask[k % 4]);
    }
  }

  // Every bit of octet i of the payload goes out flipped exactly where bit and mask octet i modulo 4
  // say so (section 5.3).
  lemma BuiltBits(op: Op, p: seq<Byte>, mask: Mask, i: nat, k: nat)
    requires i < |p| && k < 8
    ensures var s := EncodeClient(op, p, mask);
            Bit(s[|s| - |p| + i], k) == 1 <==> Bit(p[i], k) != Bit(mask[i % 4], k)
  {
    hide Bit;
    XorIsExclusiveOr(p[i], mask[i % 4], k);
    var s := EncodeClient(op, p, mask);
    assert s[|s| - |p| + i] == Masked(p, mask)[i];
  }

  // The masked example of section 5.7.
  lemma MaskedHello()
    ensures EncodeClient(Text, HELLO, [0x37, 0xfa, 0x21, 0x3d]) ==
            [0x81, 0x85, 0x37, 0xfa, 0x21, 0x3d, 0x7f, 0x9f, 0x4d, 0x51, 0x58]
  {
    hide Xor;
    FirstOctet();
    MiddleOctets();
    FourthOctet();
    FifthOctet();
  }

  lemma FirstOctet()
    ensures Xor(0x48, 0x37) == 0x7f
  {
    hide Pow2;
    assert XorBits(0x1, 0x0, 2) == 0x1 && XorBits(0x4, 0x3, 4) == 0x7 && XorBits(0x12, 0xd, 6) == 0x1f;
  }

  lemma MiddleOctets()
    ensures Xor(0x65, 0xfa) == 0x9f && Xor(0x6c, 0x21) == 0x4d
  {
    hide Pow2;
    assert XorBits(0x1, 0x3, 2) == 0x2 && XorBits(0x6, 0xf, 4) == 0x9 && XorBits(0x19, 0x3e, 6) == 0x27;
    assert XorBits(0x1, 0x0, 2) == 0x1 && XorBits(0x6, 0x2, 4) == 0x4 && XorBits(0x1b, 0x8, 6) == 0x13;
  }

  lemma FourthOctet()
    ensures Xor(0x6c, 0x3d) == 0x51
  {
    hide Pow2;
    assert XorBits(0x1, 0x0, 2) == 0x1 && XorBits(0x6, 0x3, 4) == 0x5 && XorBits(0x1b, 0xf, 6) == 0x14;
  }

  lemma FifthOctet()
    ensures Xor(0x6f, 0x37) == 0x58
  {
    hide Pow2;
    assert XorBits(0x1, 0x0, 2) == 0x1 && XorBits(0x6, 0x3, 4) == 0x5 && XorBits(0x1b, 0xd, 6) == 0x16;
  }

  // A server reads back exactly what was asked to be sent, with the frame's end in the right place.
  lemma ReadBuilt(op: Op, p: seq<Byte>, mask: Mask, rest: seq<Byte>)
    requires |p| < MAX_LENGTH
    ensures ReadClient(EncodeClient(op, p, mask) + rest) == ClientFrame(op, p, |EncodeClient(op, p, mask)|)
  {
    var lf := LengthField(|p|, 128);
    var s := EncodeClient(op, p, mask) + rest;
    var at := 5 + |lf|;
    assert s[0] == FirstByte(op, true);
    assert s[1..1 + |lf|] == lf;
    LengthBuilt(s, |p|);
    assert s[at - 4..at] == mask;
    assert s[at..at + |p|] == Masked(p, mask);
    MaskedTwice(p, mask);
  }

  // A frame cut short is not read at all.
  lemma CutFrameIsUnreadable(op: Op, p: seq<Byte>, mask: Mask, t: seq<Byte>)
    requires |p| < MAX_LENGTH && t < EncodeClient(op, p, mask)
    ensures ReadClient(t) == Unreadable
  {
    var lf := LengthField(|p|, 128);
    var s := EncodeClient(op, p, mask);
    assert s[1..1 + |lf|] == lf;
    LengthBuilt(s, |p|);
    if |t| >= 2 {
      assert t[0] == s[0] && t[1] == s[1];
      assert KeyAt(t) == KeyAt(s);
      if |t| >= KeyAt(t) { assert ReadLength(t) == |p| by { SameLength(s, t); } }
    }
  }

  lemma SameLength(s: seq<Byte>, t: seq<Byte>)
    requires t <= s && |t| >= 2 && |t| >= KeyAt(t)
    ensures ReadLength(t) == ReadLength(s)
  {
    assert t[1] == s[1];
    if |t| >= 4 { assert t[2..4] == s[2..4]; }
    if |t| >= 10 { assert t[2..10] == s[2..10]; }
  }

  // Everything a server can make out of a client's bytes, frame by frame.
  function ReadAll(s: seq<Byte>): seq<(Op, seq<Byte>)>
    decreases |s|
  {
    match ReadClient(s)
    case Unreadable => []
    case ClientFrame(op, p, used) => [(op, p)] + ReadAll(s[used..])
  }
}
