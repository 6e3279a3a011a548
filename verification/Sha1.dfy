// SHA-1 (RFC 3174) as the handshake uses it (src/ff-ws.c): streaming, with a 64-octet buffer.
module Sha1 {
  import opened Bytes
  import Base64

  const TWO32 := 0x1_0000_0000
  const TWO64 := 0x1_0000_0000_0000_0000

  type Word = x: int | 0 <= x < 0x1_0000_0000

  // ------------------------------------------------------------------ section 3: words

  lemma Pow2Of32()
    ensures Pow2(32) == TWO32
  {
    assert Pow2(8) == 256;
    assert Pow2(16) == 65536;
    assert Pow2(24) == 0x100_0000;
  }

  function Plus(a: Word, b: Word): Word { (a + b) % TWO32 }
  function And(a: Word, b: Word): Word { Pow2Of32(); AndBits(a, b, 32) }
  function Or(a: Word, b: Word): Word { Pow2Of32(); OrBits(a, b, 32) }
  function Xor32(a: Word, b: Word): Word { Pow2Of32(); XorBits(a, b, 32) }
  function Not(a: Word): Word { TWO32 - 1 - a }

  // rol(v, 1), rol(v, 5) and rol(v, 30).
  function Rol1(v: Word): Word { v * 2 % TWO32 + v / 0x8000_0000 }
  function Rol5(v: Word): Word { v * 32 % TWO32 + v / 0x800_0000 }
  function Rol30(v: Word): Word { v % 4 * 0x4000_0000 + v / 4 }

  // --------------------------------------------------- sections 5 and 6: the block function

  function F(t: nat, b: Word, c: Word, d: Word): Word {
    if t < 20 then Or(And(b, c), And(Not(b), d))
    else if t < 40 then Xor32(Xor32(b, c), d)
    else if t < 60 then Or(Or(And(b, c), And(b, d)), And(c, d))
    else Xor32(Xor32(b, c), d)
  }

  function K(t: nat): Word {
    if t < 20 then 0x5a827999
    else if t < 40 then 0x6ed9eba1
    else if t < 60 then 0x8f1bbcdc
    else 0xca62c1d6
  }

  datatype State = State(a: Word, b: Word, c: Word, d: Word, e: Word)

  const INITIAL := State(0x67452301, 0xefcdab89, 0x98badcfe, 0x10325476, 0xc3d2e1f0)

  type Block = s: seq<Byte> | |s| == 64 witness seq(64, _ => 0)

  function WordAt(p: Block, i: nat): Word
    requires i < 16
  {
    assert Pow256(4) == TWO32;
    FromBigEndian(p[4 * i..4 * i + 4])
  }

  // Word t of the message schedule.
  function Schedule(p: Block, t: nat): Word {
    if t < 16 then WordAt(p, t)
    else Rol1(Xor32(Xor32(Xor32(Schedule(p, t - 3), Schedule(p, t - 8)), Schedule(p, t - 14)), Schedule(p, t - 16)))
  }

  function Round(s: State, t: nat, w: Word): State {
    State(Plus(Plus(Plus(Plus(Rol5(s.a), F(t, s.b, s.c, s.d)), s.e), K(t)), w), s.a, Rol30(s.b), s.c, s.d)
  }

  function Rounds(s: State, p: Block, t: nat): State {
    if t == 0 then s else Round(Rounds(s, p, t - 1), t - 1, Schedule(p, t - 1))
  }

  function Added(s: State, r: State): State {
    State(Plus(s.a, r.a), Plus(s.b, r.b), Plus(s.c, r.c), Plus(s.d, r.d), Plus(s.e, r.e))
  }

  function Compress(s: State, p: Block): State { Added(s, Rounds(s, p, 80)) }

  // ------------------------------------------------------ what the operations do, bit by bit

  lemma WordBits(a: Word, b: Word, k: nat)
    requires k < 32
    ensures Bit(And(a, b), k) == 1 <==> Bit(a, k) == 1 && Bit(b, k) == 1
    ensures Bit(Or(a, b), k) == 1 <==> Bit(a, k) == 1 || Bit(b, k) == 1
    ensures Bit(Xor32(a, b), k) == 1 <==> Bit(a, k) != Bit(b, k)
    ensures Bit(Not(a), k) == 1 <==> Bit(a, k) == 0
  {
    Pow2Of32();
    AndBit(a, b, 32, k);
    OrBit(a, b, 32, k);
    XorBit(a, b, 32, k);
    ComplementBit(a, 32, k);
  }

  // A rotation to the left by n.
  ghost predicate Rotated(v: Word, w: Word, n: nat) {
    forall k: nat :: k < 32 ==> Bit(w, k) == Bit(v, (k + 32 - n) % 32)
  }

  lemma RotationsRotate(v: Word)
    ensures Rotated(v, Rol1(v), 1) && Rotated(v, Rol5(v), 5) && Rotated(v, Rol30(v), 30)
  {
    hide Rol1, Rol5, Rol30, Pow2, Rotated;
    PowersOfTwo();
    PartsOf(v);
    PartsSwap(v, Rol1(v), v / 0x8000_0000, v % 0x8000_0000, 1);
    PartsSwap(v, Rol5(v), v / 0x800_0000, v % 0x800_0000, 5);
    PartsSwap(v, Rol30(v), v / 4, v % 4, 30);
  }

  lemma PartsOf(v: Word)
    ensures v == v / 0x8000_0000 * 0x8000_0000 + v % 0x8000_0000 && Rol1(v) == v % 0x8000_0000 * 2 + v / 0x8000_0000
    ensures v == v / 0x800_0000 * 0x800_0000 + v % 0x800_0000 && Rol5(v) == v % 0x800_0000 * 32 + v / 0x800_0000
    ensures v == v / 4 * 4 + v % 4 && Rol30(v) == v % 4 * 0x4000_0000 + v / 4
    ensures v / 0x8000_0000 < 2 && v / 0x800_0000 < 32 && v / 4 < 0x4000_0000
  {
  }

  lemma PowersOfTwo()
    ensures Pow2(1) == 2 && Pow2(2) == 4 && Pow2(5) == 32
    ensures Pow2(27) == 0x800_0000 && Pow2(30) == 0x4000_0000 && Pow2(31) == 0x8000_0000
  {
    assert Pow2(5) == 32 && Pow2(9) == 512 && Pow2(13) == 8192 && Pow2(17) == 0x2_0000;
    assert Pow2(21) == 0x20_0000 && Pow2(25) == 0x200_0000 && Pow2(28) == 0x1000_0000;
  }

  // The high n bits change places with the rest.
  lemma PartsSwap(v: Word, w: Word, hi: nat, lo: nat, n: nat)
    requires n <= 32 && hi < Pow2(n) && lo < Pow2(32 - n)
    requires v == hi * Pow2(32 - n) + lo && w == lo * Pow2(n) + hi
    ensures Rotated(v, w, n)
  {
    hide Pow2, Bit;
    forall k: nat | k < 32 ensures Bit(w, k) == Bit(v, (k + 32 - n) % 32) {
      BitInParts(lo, hi, n, k);
      BitInParts(hi, lo, 32 - n, (k + 32 - n) % 32);
    }
  }

  // F chooses by b between c and d, or tells whether an odd number of the three is set, or whether most
  // of them are.
  lemma FunctionsOfRounds(t: nat, b: Word, c: Word, d: Word, k: nat)
    requires t < 80 && k < 32
    ensures Bit(F(t, b, c, d), k) ==
            if t < 20 then if Bit(b, k) == 1 then Bit(c, k) else Bit(d, k)
            else if 40 <= t < 60 then (Bit(b, k) + Bit(c, k) + Bit(d, k)) / 2
            else (Bit(b, k) + Bit(c, k) + Bit(d, k)) % 2
  {
    hide And, Or, Xor32, Not, Bit;
    if t < 20 {
      WordBits(b, c, k);
      WordBits(Not(b), d, k);
      WordBits(b, d, k);
      WordBits(And(b, c), And(Not(b), d), k);
    } else if 40 <= t < 60 {
      WordBits(b, c, k);
      WordBits(b, d, k);
      WordBits(c, d, k);
      WordBits(And(b, c), And(b, d), k);
      WordBits(Or(And(b, c), And(b, d)), And(c, d), k);
    } else {
      WordBits(b, c, k);
      WordBits(Xor32(b, c), d, k);
    }
  }

  // The constants are the square roots of 2, 3, 5 and 10, times 2^30 and cut to a whole number; the
  // initial words spell 01 23 .. ef, back down to 10, and f0 e1 d2 c3, each low octet first.
  lemma ConstantsOfRounds(t: nat)
    requires t < 80
    ensures var n := [2, 3, 5, 10][t / 20];
            K(t) * K(t) <= n * 0x1000_0000_0000_0000 < (K(t) + 1) * (K(t) + 1)
  {
    assert 0x5a827999 * 0x5a827999 <= 2 * 0x1000_0000_0000_0000 < 0x5a82799a * 0x5a82799a;
    assert 0x6ed9eba1 * 0x6ed9eba1 <= 3 * 0x1000_0000_0000_0000 < 0x6ed9eba2 * 0x6ed9eba2;
    assert 0x8f1bbcdc * 0x8f1bbcdc <= 5 * 0x1000_0000_0000_0000 < 0x8f1bbcdd * 0x8f1bbcdd;
    assert 0xca62c1d6 * 0xca62c1d6 <= 10 * 0x1000_0000_0000_0000 < 0xca62c1d7 * 0xca62c1d7;
  }

  lemma InitialOctets(i: nat)
    requires i < 20
    ensures var w := [INITIAL.a, INITIAL.b, INITIAL.c, INITIAL.d, INITIAL.e][i / 4];
            ShiftRight(w, i % 4) % 256 == if i < 8 then 0x01 + 0x22 * i else if i < 16 then 0xfe - 0x22 * (i - 8)
                                          else 0xf0 - 0x0f * (i - 16)
  {
    hide ShiftRight;
    if i < 4 {
      FourOctets(0x01, 0x23, 0x45, 0x67, i);
    } else if i < 8 {
      FourOctets(0x89, 0xab, 0xcd, 0xef, i - 4);
    } else if i < 12 {
      FourOctets(0xfe, 0xdc, 0xba, 0x98, i - 8);
    } else if i < 16 {
      FourOctets(0x76, 0x54, 0x32, 0x10, i - 12);
    } else {
      FourOctets(0xf0, 0xe1, 0xd2, 0xc3, i - 16);
    }
  }

  lemma FourOctets(a: Byte, b: Byte, c: Byte, d: Byte, i: nat)
    requires i < 4
    ensures ShiftRight(a + 0x100 * b + 0x1_0000 * c + 0x100_0000 * d, i) % 256 == [a, b, c, d][i]
  {
    var w := a + 0x100 * b + 0x1_0000 * c + 0x100_0000 * d;
    var w1, w2: int := b + 0x100 * c + 0x1_0000 * d, c + 0x100 * d;
    Remainder(w, w1, a, 256);
    Remainder(w1, w2, b, 256);
    Remainder(w2, d, c, 256);
    assert ShiftRight(w, 0) == w && ShiftRight(w1, 0) == w1 && ShiftRight(w2, 0) == w2 && ShiftRight(d, 0) == d;
    assert ShiftRight(w, 1) == w1 && ShiftRight(w1, 1) == w2 && ShiftRight(w2, 1) == d;
    assert ShiftRight(w, 2) == w2 && ShiftRight(w1, 2) == d;
  }

  // ------------------------------- the block function once more, as section 6.2 and as one sequence

  // The sixteen words of section 6.2, of which one is replaced at each step.
  function Queue(p: Block, t: nat): (q: seq<Word>)
    requires t >= 16
    ensures |q| == 16
  {
    if t == 16 then seq(16, i requires 0 <= i < 16 => WordAt(p, i))
    else
      var q, s := Queue(p, t - 1), (t - 1) % 16;
      q[s := Rol1(Xor32(Xor32(Xor32(q[(s + 13) % 16], q[(s + 8) % 16]), q[(s + 2) % 16]), q[s]))]
  }

  // It holds the last sixteen words of the schedule.
  lemma {:induction false} QueueIsSchedule(p: Block, t: nat, i: nat)
    requires t >= 16 && i < t <= i + 16
    ensures Queue(p, t)[i % 16] == Schedule(p, i)
    decreases t
  {
    hide Rol1, Xor32, WordAt, Schedule, Queue;
    if t == 16 {
      FirstSixteen(p, i);
    } else if i == t - 1 {
      QueueIsSchedule(p, t - 1, t - 4);
      QueueIsSchedule(p, t - 1, t - 9);
      QueueIsSchedule(p, t - 1, t - 15);
      QueueIsSchedule(p, t - 1, t - 17);
      QueueStep(p, t);
      ScheduleStep(p, t - 1);
    } else {
      QueueIsSchedule(p, t - 1, i);
      SlotBack(t - 1, t - 1 - i);
      QueueKeeps(p, t, i % 16);
    }
  }

  lemma FirstSixteen(p: Block, i: nat)
    requires i < 16
    ensures Queue(p, 16)[i % 16] == Schedule(p, i)
  {
    hide WordAt;
  }

  lemma QueueStep(p: Block, t: nat)
    requires t > 16
    ensures var q := Queue(p, t - 1);
            Queue(p, t)[(t - 1) % 16] ==
            Rol1(Xor32(Xor32(Xor32(q[(t - 4) % 16], q[(t - 9) % 16]), q[(t - 15) % 16]), q[(t - 17) % 16]))
  {
    hide Rol1, Xor32, WordAt;
    SlotBack(t - 1, 3);
    SlotBack(t - 1, 8);
    SlotBack(t - 1, 14);
    SlotBack(t - 1, 16);
  }

  lemma QueueKeeps(p: Block, t: nat, j: nat)
    requires t > 16 && j < 16 && j != (t - 1) % 16
    ensures Queue(p, t)[j] == Queue(p, t - 1)[j]
  {
    hide Rol1, Xor32, WordAt;
  }

  // The slot k steps back from u.
  lemma SlotBack(u: nat, k: nat)
    requires k <= 16 <= u
    ensures (u - k) % 16 == (u % 16 + (16 - k)) % 16
    ensures (u % 16 + 16) % 16 == u % 16 && (u % 16 + 0) % 16 == u % 16
    ensures 0 < k < 16 ==> (u - k) % 16 != u % 16
  {
    var q, s := u / 16, u % 16;
    assert u == 16 * q + s && u - k == 16 * (q - 1) + (s + (16 - k));
    Multiples(q - 1, s + (16 - k), 16);
  }

  // Only one new word comes out of a round; the other four are the four before it, three of them
  // rotated. Word i of this sequence is the one that round i - 5 made.
  function Chain(s: State, p: Block, t: nat): (x: seq<Word>)
    ensures |x| == t + 5
  {
    if t == 0 then [Rol2(s.e), Rol2(s.d), Rol2(s.c), s.b, s.a]
    else
      var x, n := Chain(s, p, t - 1), t + 3;
      var f := F(t - 1, x[n - 1], Rol30(x[n - 2]), Rol30(x[n - 3]));
      x + [Plus(Plus(Plus(Plus(Rol5(x[n]), f), Rol30(x[n - 4])), K(t - 1)), Schedule(p, t - 1))]
  }

  function Rol2(v: Word): Word { v % 0x4000_0000 * 4 + v / 0x4000_0000 }

  lemma RotatedBack(v: Word)
    ensures Rol30(Rol2(v)) == v
  {
    var hi, lo := v / 0x4000_0000, v % 0x4000_0000;
    assert v == 0x4000_0000 * hi + lo && hi < 4;
    assert (4 * lo + hi) / 4 == lo && (4 * lo + hi) % 4 == hi;
  }

  lemma {:induction false} RoundsAreChain(s: State, p: Block, t: nat)
    ensures var x, n := Chain(s, p, t), t + 4;
            Rounds(s, p, t) == State(x[n], x[n - 1], Rol30(x[n - 2]), Rol30(x[n - 3]), Rol30(x[n - 4]))
  {
    hide Rol5, Rol30, Rol2, F, K, Plus, Schedule;
    if t == 0 {
      RotatedBack(s.c);
      RotatedBack(s.d);
      RotatedBack(s.e);
    } else {
      RoundsAreChain(s, p, t - 1);
    }
  }

  // A block adds to each word of the state what the 80 rounds made of it, modulo 2^32.
  lemma CompressIsChain(s: State, p: Block)
    ensures var x, r := Chain(s, p, 80), Compress(s, p);
            && r.a == (s.a + x[84]) % 0x1_0000_0000 && r.b == (s.b + x[83]) % 0x1_0000_0000
            && r.c == (s.c + Rol30(x[82])) % 0x1_0000_0000 && r.d == (s.d + Rol30(x[81])) % 0x1_0000_0000
            && r.e == (s.e + Rol30(x[80])) % 0x1_0000_0000
  {
    hide Chain, Rounds, Rol30;
    RoundsAreChain(s, p, 80);
  }

  // ------------------------------------------------- sections 4 and 6.1: padding and digest

  function Zeros(n: nat): (z: seq<Byte>)
    ensures |z| == n
  {
    seq(n, _ => 0)
  }

  // How many zero octets bring n octets and the 0x80 after them to 56 modulo 64.
  function Fill(n: nat): (k: nat)
    ensures k < 64 && (n + 1 + k) % 64 == 56
  {
    (119 - n % 64) % 64
  }

  lemma WholeBlocks(x: nat)
    requires x % 64 == 56
    ensures (x + 8) % 64 == 0
  {
    assert x + 8 == 64 * (x / 64 + 1);
  }

  // Adding to a count kept modulo 64.
  lemma BlockRemainder(f: nat, p: nat)
    requires f % 64 + p <= 64
    ensures (f + p) % 64 == if f % 64 + p == 64 then 0 else f % 64 + p
  {
    assert f + p == 64 * (f / 64) + (f % 64 + p);
  }

  function Pad(m: seq<Byte>): (p: seq<Byte>)
    ensures |p| % 64 == 0
  {
    WholeBlocks(|m| + 1 + Fill(|m|));
    m + [0x80] + Zeros(Fill(|m|)) + BigEndian(8 * |m| % TWO64, 8)
  }

  // A message is padded by one bit, the fewest zeros that do, and its length in bits.
  lemma PadExactly(m: seq<Byte>)
    requires 8 * |m| < TWO64
    ensures var p := Pad(m);
            && m < p && p[|m|] == 0x80 && |m| + 9 <= |p| < |m| + 9 + 64
            && (forall i :: |m| < i < |p| - 8 ==> p[i] == 0)
            && FromBigEndian(p[|p| - 8..]) == 8 * |m|
  {
    hide BigEndian, FromBigEndian, Fill;
    var len := BigEndian(8 * |m|, 8);
    assert Pow256(8) == TWO64 by { assert Pow256(4) == TWO32 && Pow256(6) == TWO32 * 0x1_0000; }
    ReadBigEndian(8 * |m|, 8);
    assert Pad(m)[|Pad(m)| - 8..] == len;
  }

  // The block function folded over a whole number of blocks, first block first.
  function Hash(s: seq<Byte>): State
    requires |s| % 64 == 0
  {
    if s == [] then INITIAL else Compress(Hash(s[..|s| - 64]), s[|s| - 64..])
  }

  function Output(s: State): (d: seq<Byte>)
    ensures |d| == 20
  {
    BigEndian(s.a, 4) + BigEndian(s.b, 4) + BigEndian(s.c, 4) + BigEndian(s.d, 4) + BigEndian(s.e, 4)
  }

  // The digest spells the five words in order, each most significant octet first.
  lemma OutputSpells(s: State, i: nat)
    requires i < 5
    ensures FromBigEndian(Output(s)[4 * i..4 * i + 4]) == [s.a, s.b, s.c, s.d, s.e][i]
  {
    hide BigEndian, FromBigEndian;
    var w := [s.a, s.b, s.c, s.d, s.e][i];
    assert Output(s)[4 * i..4 * i + 4] == BigEndian(w, 4);
    assert Pow256(4) == TWO32;
    ReadBigEndian(w, 4);
  }

  function Digest(m: seq<Byte>): (d: seq<Byte>)
    ensures |d| == 20
  {
    Output(Hash(Pad(m)))
  }

  // ---------------------------------------------------------------------- struct sha1

  class Context {
    var h: State
    var bits: nat
    const buf: array<Byte>
    var n: nat
    ghost var fed: seq<Byte>  // every octet passed to Update

    // Everything but the length count, which is brought up to date first.
    ghost predicate Buffered()
      reads `h, `n, `fed, buf
    {
      && buf.Length == 64 && n == |fed| % 64
      && buf[..n] == fed[|fed| - n..]
      && h == Hash(fed[..|fed| - n])
    }

    // The state is a function of the octets fed, whatever pieces they came in.
    ghost predicate Valid()
      reads this, buf
    {
      Buffered() && bits == 8 * |fed| % TWO64
    }

    constructor ()
      ensures Valid() && fed == [] && fresh(buf)
    {
      h := INITIAL;
      bits, n, fed := 0, 0, [];
      buf := new Byte[64];
      new;
      hide Compress;
      assert fed == [] && fed[..|fed| - n] == [] && buf[..n] == [] == fed[|fed| - n..];
      EmptyHash();
    }

    // sha1_block.
    method CompressBlock(p: Block)
      modifies this`h
      ensures h == Compress(old(h), p)
    {
      hide Compress, Rol1, Xor32, FromBigEndian, Schedule, WordAt;
      var w := new Word[80];
      for i := 0 to 16
        invariant h == old(h) && forall t: nat :: t < i ==> w[t] == Schedule(p, t)
      {
        ScheduleStart(p, i);
        w[i] := 0x100_0000 * (p[4 * i] as nat) + 0x1_0000 * (p[4 * i + 1] as nat) + 0x100 * (p[4 * i + 2] as nat) +
            p[4 * i + 3];
      }
      for i := 16 to 80
        invariant h == old(h) && forall t: nat :: t < i ==> w[t] == Schedule(p, t)
      {
        ScheduleStep(p, i);
        w[i] := Rol1(Xor32(Xor32(Xor32(w[i - 3], w[i - 8]), w[i - 14]), w[i - 16]));
      }
      RunRounds(p, w);
    }

    method RunRounds(p: Block, w: array<Word>)
      requires w.Length == 80 && forall t: nat :: t < 80 ==> w[t] == Schedule(p, t)
      modifies this`h
      ensures h == Compress(old(h), p)
    {
      hide Schedule, F, K, Rol5, Rol30, Plus;
      var a, b, d, e, f := h.a, h.b, h.c, h.d, h.e;
      for i := 0 to 80
        invariant State(a, b, d, e, f) == Rounds(h, p, i) && h == old(h)
      {
        var tmp := Plus(Plus(Plus(Plus(Rol5(a), F(i, b, d, e)), f), K(i)), w[i]);
        f := e;
        e := d;
        d := Rol30(b);
        b := a;
        a := tmp;
      }
      h := Added(h, State(a, b, d, e, f));
    }

    // sha1_update.
    method Update(p: seq<Byte>)
      requires Valid()
      modifies this, buf
      ensures Valid() && fed == old(fed) + p
    {
      hide Buffered;
      bits := (bits + |p| * 8) % TWO64;
      LengthCount(|fed|, |p|);
      Feed(p);
    }

    // The loop of sha1_update.
    method Feed(p: seq<Byte>)
      requires Buffered()
      modifies this`h, this`n, this`fed, buf
      ensures Buffered() && fed == old(fed) + p
    {
      hide Hash, Context.Buffered;
      ghost var fed0 := fed;
      var i := 0;
      while i < |p|
        invariant 0 <= i <= |p| && fed == fed0 + p[..i]
        invariant Buffered()
      {
        Room();
        var take := 64 - n;
        if take > |p| - i { take := |p| - i; }
        Take(p[i..i + take]);
        assert p[..i + take] == p[..i] + p[i..i + take];
        i := i + take;
      }
      assert p[..i] == p;
    }

    lemma Room()
      requires Buffered()
      ensures n < 64
    {
    }

    method Store(piece: seq<Byte>, ghost rest: seq<Byte>)
      requires buf.Length == 64 && n + |piece| <= 64 && buf[..n] == rest
      modifies this`n, buf
      ensures n == old(n) + |piece| && buf[..n] == rest + piece
    {
      forall k | 0 <= k < |piece| { buf[n + k] := piece[k]; }
      n := n + |piece|;
    }

    // One turn of it: what fits in the buffer goes in, and a full buffer is hashed.
    method Take(piece: seq<Byte>)
      requires Buffered() && 0 < |piece| <= 64 - n
      modifies this`h, this`n, this`fed, buf
      ensures Buffered() && fed == old(fed) + piece
    {
      hide Hash, Compress;
      ghost var done, rest := fed[..|fed| - n], fed[|fed| - n..];
      assert fed == done + rest && |rest| == n;
      BlockRemainder(|fed|, |piece|);
      Store(piece, rest);
      fed := fed + piece;
      assert fed == done + (rest + piece);
      assert fed[..|fed| - n] == done && fed[|fed| - n..] == rest + piece;
      if n == 64 { HashFull(done); }
    }

    method HashFull(ghost done: seq<Byte>)
      requires buf.Length == 64 == n && |done| % 64 == 0 && fed == done + buf[..] && h == Hash(done)
      modifies this`h, this`n
      ensures Buffered() && n == 0
    {
      hide Hash, Compress;
      CompressBlock(buf[..]);
      HashSnoc(done, buf[..]);
      n := 0;
      assert fed[..|fed| - n] == fed && fed[|fed| - n..] == [] == buf[..n];
    }

    // sha1_final: a one bit, zeros up to 56 modulo 64, and the length in bits.
    method Final() returns (digest: seq<Byte>)
      requires Valid()
      modifies this, buf
      ensures digest == Digest(old(fed))
    {
      hide Hash, Fill, BigEndian, Zeros, Output;
      ghost var m := fed;
      var total := bits;
      PadTo56();
      var len := LengthOctets(total);
      WholeBlocks(|m| + 1 + Fill(|m|));
      digest := Finish(len);
    }

    method Finish(len: seq<Byte>) returns (digest: seq<Byte>)
      requires Buffered() && n == 56 && |len| == 8 && (|fed| + |len|) % 64 == 0
      modifies this, buf
      ensures digest == Output(Hash(old(fed) + len))
    {
      hide Hash, Compress, Output;
      ghost var done, rest := fed[..|fed| - 56], fed[|fed| - 56..];
      assert fed == done + rest && buf[..56] == rest;
      ghost var whole := fed;
      PutLast(len);
      Regroup(whole, done, rest, len);
      CompressBlock(buf[..]);
      HashSnoc(done, buf[..]);
      return Output(h);
    }

    method PutLast(len: seq<Byte>)
      requires buf.Length == 64 && |len| == 8
      modifies buf
      ensures buf[..] == old(buf[..56]) + len
    {
      forall i | 0 <= i < 8 { buf[56 + i] := len[i]; }
    }

    // Terminates because the count of zeros reaches Fill.
    method PadTo56()
      requires Valid()
      modifies this, buf
      ensures Valid() && n == 56 && fed == old(fed) + [0x80] + Zeros(Fill(|old(fed)|))
    {
      hide Hash, Compress, Fill, Context.Valid, Context.Buffered;
      ghost var m := fed;
      Update([0x80]);
      ghost var k: nat := 0;
      assert m + [0x80] + Zeros(0) == m + [0x80];
      FillIsLeast(|m|, k);
      Counted();
      while n != 56
        invariant Valid() && fed == m + [0x80] + Zeros(k) && k <= Fill(|m|)
        invariant n == 56 <==> k == Fill(|m|)
        decreases Fill(|m|) - k
      {
        Update([0]);
        assert Zeros(k + 1) == Zeros(k) + [0];
        k := k + 1;
        FillIsLeast(|m|, k);
        Counted();
      }
    }

    lemma Counted()
      requires Valid()
      ensures n == |fed| % 64
    {
    }
  }

  lemma Regroup(whole: seq<Byte>, done: seq<Byte>, rest: seq<Byte>, len: seq<Byte>)
    requires done + rest == whole
    ensures whole + len == done + (rest + len)
  {
  }

  method LengthOctets(total: nat) returns (len: seq<Byte>)
    ensures len == BigEndian(total, 8)
  {
    hide BigEndian, ShiftRight;
    var a := new Byte[8];
    ghost var be := BigEndian(total, 8);
    for i := 0 to 8
      invariant a[..i] == be[..i]
    {
      BigEndianAt(total, 8, i);
      a[i] := ShiftRight(total, 7 - i) % 256;
      assert be[..i + 1] == be[..i] + [be[i]];
    }
    assert be[..8] == be;
    return a[..8];
  }

  lemma BigWord(a: Byte, b: Byte, c: Byte, d: Byte)
    ensures FromBigEndian([a, b, c, d]) == 0x100_0000 * (a as nat) + 0x1_0000 * (b as nat) + 0x100 * (c as nat) + d
    ensures FromBigEndian([a, b, c, d]) < TWO32
  {
    assert [a, b, c, d][..3] == [a, b, c] && [a, b, c][..2] == [a, b] && [a, b][..1] == [a];
    assert FromBigEndian([a]) == a;
    assert FromBigEndian([a, b]) == 256 * (a as nat) + b;
    assert FromBigEndian([a, b, c]) == 256 * (256 * (a as nat) + b) + c;
  }

  // The first sixteen words are the block's own.
  lemma ScheduleStart(p: Block, i: nat)
    requires i < 16
    ensures Schedule(p, i) ==
            0x100_0000 * (p[4 * i] as nat) + 0x1_0000 * (p[4 * i + 1] as nat) + 0x100 * (p[4 * i + 2] as nat) +
                p[4 * i + 3]
  {
    hide FromBigEndian, Rol1, Xor32;
    BigWord(p[4 * i], p[4 * i + 1], p[4 * i + 2], p[4 * i + 3]);
    assert p[4 * i..4 * i + 4] == [p[4 * i], p[4 * i + 1], p[4 * i + 2], p[4 * i + 3]];
  }

  lemma ScheduleStep(p: Block, t: nat)
    requires t >= 16
    ensures Schedule(p, t) ==
            Rol1(Xor32(Xor32(Xor32(Schedule(p, t - 3), Schedule(p, t - 8)), Schedule(p, t - 14)), Schedule(p, t - 16)))
  {
    hide Rol1, Xor32, WordAt;
  }

  lemma LengthCount(a: nat, b: nat)
    ensures (8 * a % TWO64 + b * 8) % TWO64 == 8 * (a + b) % TWO64
  {
    var q := 8 * a / TWO64;
    assert 8 * (a + b) == TWO64 * q + (8 * a % TWO64 + b * 8);
    Multiples(q, 8 * a % TWO64 + b * 8, TWO64);
  }

  lemma EmptyHash()
    ensures Hash([]) == INITIAL
  {
  }

  lemma HashSnoc(done: seq<Byte>, p: Block)
    requires |done| % 64 == 0
    ensures Hash(done + p) == Compress(Hash(done), p)
  {
    hide Compress;
    assert (done + p)[..|done + p| - 64] == done && (done + p)[|done + p| - 64..] == p;
  }

  // Counting up from the message, 56 modulo 64 is first reached after exactly Fill zeros.
  lemma FillIsLeast(n: nat, k: nat)
    requires k <= Fill(n)
    ensures (n + 1 + k) % 64 == 56 <==> k == Fill(n)
  {
  }

  // However a message is split into updates, contexts that were fed the same octets are the same.
  lemma SplitsDoNotMatter(a: Context, b: Context)
    requires a.Valid() && b.Valid() && a.fed == b.fed
    ensures a.h == b.h && a.bits == b.bits && a.n == b.n && a.buf[..a.n] == b.buf[..b.n]
  {
  }

  // ------------------------------------------------------- Sec-WebSocket-Accept, section 4.2.2

  const GUID: Text := "258EAFA5-E914-47DA-95CA-C5AB0DC85B11"

  function AcceptValue(key: Text): Text { Base64.Encode(Digest(OfText(key) + OfText(GUID))) }

  // The key as it was sent, the GUID of RFC 6455 behind it, their digest, and that in base64.
  lemma AcceptIsDigestOfJoin(key: Text)
    ensures AcceptValue(key) == Base64.Encode(Digest(OfText(key + "258EAFA5-E914-47DA-95CA-C5AB0DC85B11")))
  {
    hide Digest, Base64.Encode;
    assert OfText(key + GUID) == OfText(key) + OfText(GUID);
  }

  method DigestOf(a: seq<Byte>, b: seq<Byte>) returns (digest: seq<Byte>)
    ensures digest == Digest(a + b)
  {
    hide Digest, Hash;
    var c := new Context();
    c.Update(a);
    c.Update(b);
    assert [] + a + b == a + b;
    digest := c.Final();
  }

  method AcceptFor(key: Text, out: array<char>) returns (ok: bool)
    modifies out
    ensures ok <==> out.Length >= 29
    ensures !ok ==> out[..] == old(out[..])
    ensures ok ==> out[..28] == AcceptValue(key) && out[28] == '\0'
  {
    hide Digest, Base64.Encode;
    if out.Length < 29 { return false; }
    var digest := DigestOf(OfText(key), OfText(GUID));
    var j := Base64.B64(digest, out);
    return j != 0;
  }
}
