// Octets, and the arithmetic on them that the wire formats need.
module Bytes {
  type Byte = x: int | 0 <= x < 256

  function Pow2(n: nat): (p: nat)
    ensures p >= 1
  {
    if n == 0 then 1 else 2 * Pow2(n - 1)
  }

  // Exclusive or of the low n bits, bit by bit.
  function XorBits(a: nat, b: nat, n: nat): (r: nat)
    ensures r < Pow2(n)
  {
    if n == 0 then 0 else 2 * XorBits(a / 2, b / 2, n - 1) + (a + b) % 2
  }

  function AndBits(a: nat, b: nat, n: nat): (r: nat)
    ensures r < Pow2(n)
  {
    if n == 0 then 0 else 2 * AndBits(a / 2, b / 2, n - 1) + if a % 2 == 1 && b % 2 == 1 then 1 else 0
  }

  function OrBits(a: nat, b: nat, n: nat): (r: nat)
    ensures r < Pow2(n)
  {
    if n == 0 then 0 else 2 * OrBits(a / 2, b / 2, n - 1) + if a % 2 == 1 || b % 2 == 1 then 1 else 0
  }

  // Bit k of n: n shifted right k times, modulo 2.
  function Bit(n: nat, k: nat): (b: nat)
    ensures b < 2
  {
    if k == 0 then n % 2 else Bit(n / 2, k - 1)
  }

  lemma {:induction false} XorBit(a: nat, b: nat, n: nat, k: nat)
    requires k < n
    ensures Bit(XorBits(a, b, n), k) == 1 <==> Bit(a, k) != Bit(b, k)
  {
    var q, low := XorBits(a / 2, b / 2, n - 1), (a + b) % 2;
    assert XorBits(a, b, n) == 2 * q + low;
    hide XorBits, Bit;
    NextBit(q, low, k);
    BitStep(a, k);
    BitStep(b, k);
    if k > 0 { XorBit(a / 2, b / 2, n - 1, k - 1); }
  }

  lemma {:induction false} AndBit(a: nat, b: nat, n: nat, k: nat)
    requires k < n
    ensures Bit(AndBits(a, b, n), k) == 1 <==> Bit(a, k) == 1 && Bit(b, k) == 1
  {
    var q, low := AndBits(a / 2, b / 2, n - 1), if a % 2 == 1 && b % 2 == 1 then 1 else 0;
    assert AndBits(a, b, n) == 2 * q + low;
    hide AndBits, Bit;
    NextBit(q, low, k);
    BitStep(a, k);
    BitStep(b, k);
    if k > 0 { AndBit(a / 2, b / 2, n - 1, k - 1); }
  }

  lemma {:induction false} OrBit(a: nat, b: nat, n: nat, k: nat)
    requires k < n
    ensures Bit(OrBits(a, b, n), k) == 1 <==> Bit(a, k) == 1 || Bit(b, k) == 1
  {
    var q, low := OrBits(a / 2, b / 2, n - 1), if a % 2 == 1 || b % 2 == 1 then 1 else 0;
    assert OrBits(a, b, n) == 2 * q + low;
    hide OrBits, Bit;
    NextBit(q, low, k);
    BitStep(a, k);
    BitStep(b, k);
    if k > 0 { OrBit(a / 2, b / 2, n - 1, k - 1); }
  }

  lemma BitStep(n: nat, k: nat)
    ensures Bit(n, k) == if k == 0 then n % 2 else Bit(n / 2, k - 1)
  {
  }

  lemma NextBit(q: nat, low: nat, k: nat)
    requires low < 2
    ensures Bit(2 * q + low, k) == if k == 0 then low else Bit(q, k - 1)
  {
    assert (2 * q + low) / 2 == q && (2 * q + low) % 2 == low;
  }

  // Numbers below 2^n with the same n bits are the same.
  lemma {:induction false} BitsDecide(a: nat, b: nat, n: nat)
    requires a < Pow2(n) && b < Pow2(n) && forall k: nat :: k < n ==> Bit(a, k) == Bit(b, k)
    ensures a == b
  {
    if n > 0 {
      forall k: nat | k < n - 1 ensures Bit(a / 2, k) == Bit(b / 2, k) {
        assert Bit(a, k + 1) == Bit(b, k + 1);
      }
      assert Bit(a, 0) == Bit(b, 0);
      BitsDecide(a / 2, b / 2, n - 1);
    }
  }

  // The bits of a number in two parts.
  lemma {:induction false} BitInParts(hi: nat, lo: nat, n: nat, k: nat)
    requires lo < Pow2(n)
    ensures Bit(hi * Pow2(n) + lo, k) == if k < n then Bit(lo, k) else Bit(hi, k - n)
    decreases n
  {
    if n > 0 {
      var x, p := hi * Pow2(n) + lo, Pow2(n - 1);
      assert Pow2(n) == 2 * p;
      Halved(hi, lo, p);
      if k > 0 { BitInParts(hi, lo / 2, n - 1, k - 1); }
    } else {
      assert hi * Pow2(0) == hi;
    }
  }

  lemma Halved(hi: nat, lo: nat, p: nat)
    ensures (hi * (2 * p) + lo) / 2 == hi * p + lo / 2 && (hi * (2 * p) + lo) % 2 == lo % 2
  {
    var x := hi * p;
    assert hi * (2 * p) == 2 * x;
  }

  lemma {:induction false} ComplementBit(a: nat, n: nat, k: nat)
    requires a < Pow2(n) && k < n
    ensures Bit(Pow2(n) - 1 - a, k) != Bit(a, k)
  {
    var p := Pow2(n - 1);
    assert Pow2(n) == 2 * p && (2 * p - 1 - a) / 2 == p - 1 - a / 2 && (2 * p - 1 - a) % 2 == 1 - a % 2;
    if k > 0 { ComplementBit(a / 2, n - 1, k - 1); }
  }

  // The C operator ^ on two octets.
  function Xor(a: Byte, b: Byte): Byte {
    assert Pow2(8) == 256 by { assert Pow2(4) == 16; }
    XorBits(a, b, 8)
  }

  // Each bit of it is set exactly where the two differ.
  lemma XorIsExclusiveOr(a: Byte, b: Byte, k: nat)
    requires k < 8
    ensures Bit(Xor(a, b), k) == 1 <==> Bit(a, k) != Bit(b, k)
  {
    XorBit(a, b, 8, k);
  }

  lemma LowBit(q: nat, a: nat, b: nat)
    ensures var r := 2 * q + (a + b) % 2; r / 2 == q && (r + b) % 2 == a % 2
  {
  }

  // Masking twice with the same mask gives the octet back (RFC 6455 section 5.3).
  lemma {:induction false} XorBitsTwice(a: nat, b: nat, n: nat)
    requires a < Pow2(n)
    ensures XorBits(XorBits(a, b, n), b, n) == a
  {
    if n > 0 {
      var q, r := XorBits(a / 2, b / 2, n - 1), XorBits(a, b, n);
      LowBit(q, a, b);
      XorBitsTwice(a / 2, b / 2, n - 1);
    }
  }

  lemma XorTwice(a: Byte, b: Byte)
    ensures Xor(Xor(a, b), b) == a
  {
    assert Pow2(8) == 256 by { assert Pow2(4) == 16; }
    XorBitsTwice(a, b, 8);
  }

  function Pow256(k: nat): (p: nat)
    ensures p >= 1
  {
    if k == 0 then 1 else 256 * Pow256(k - 1)
  }

  // The low k octets of n, most significant first (network byte order).
  function BigEndian(n: nat, k: nat): (s: seq<Byte>)
    ensures |s| == k
  {
    if k == 0 then [] else BigEndian(n / 256, k - 1) + [n % 256]
  }

  // The number an octet string spells, most significant octet first.
  function FromBigEndian(s: seq<Byte>): (n: nat)
    ensures n < Pow256(|s|)
  {
    if s == [] then 0 else 256 * FromBigEndian(s[..|s| - 1]) + s[|s| - 1]
  }

  lemma {:induction false} ReadBigEndian(n: nat, k: nat)
    requires n < Pow256(k)
    ensures FromBigEndian(BigEndian(n, k)) == n
  {
    if k > 0 {
      var front := BigEndian(n / 256, k - 1);
      assert BigEndian(n, k)[..k - 1] == front;
      assert Pow256(k) == 256 * Pow256(k - 1);
      ReadBigEndian(n / 256, k - 1);
      assert FromBigEndian(BigEndian(n, k)) == 256 * FromBigEndian(front) + n % 256;
    }
  }

  lemma {:induction false} WriteBigEndian(s: seq<Byte>)
    ensures BigEndian(FromBigEndian(s), |s|) == s
  {
    if s != [] {
      var front, last := s[..|s| - 1], s[|s| - 1];
      assert FromBigEndian(s) == 256 * FromBigEndian(front) + last;
      WriteBigEndian(front);
      LastDigit(FromBigEndian(front), last);
      hide FromBigEndian;
      assert s == front + [last];
    }
  }

  lemma LastDigit(n: nat, b: Byte)
    ensures (256 * n + b) / 256 == n && (256 * n + b) % 256 == b
  {
  }

  // The C shift n >> (8 * k).
  function ShiftRight(n: nat, k: nat): nat {
    if k == 0 then n else ShiftRight(n / 256, k - 1)
  }

  lemma {:induction false} ShiftIsDivision(n: nat, k: nat)
    ensures ShiftRight(n, k) == n / Pow256(k)
  {
    if k > 0 {
      ShiftIsDivision(n / 256, k - 1);
      DivideTwice(n, 256, Pow256(k - 1));
    }
  }

  lemma DivideTwice(n: nat, a: nat, b: nat)
    requires a > 0 && b > 0
    ensures a * b > 0 && n / a / b == n / (a * b)
  {
    var u := n / a;
    assert n == a * u + n % a && u == b * (u / b) + u % b;
    TwoRemainders(n, a, b, u, n % a, u / b, u % b);
  }

  lemma TwoRemainders(n: nat, a: nat, b: nat, u: nat, c: nat, q: nat, w: nat)
    requires n == a * u + c && c < a && u == b * q + w && w < b
    ensures a * b > 0 && n / (a * b) == q
  {
    MultiplyOut(a, b, q, w);
    Enough(a, b, w);
    Remainder(n, q, a * w + c, a * b);
  }

  lemma MultiplyOut(a: nat, b: nat, q: nat, w: nat)
    ensures a * (b * q + w) == a * b * q + a * w
  {
    assert a * (b * q) == a * b * q;
  }

  lemma Distributed(a: nat, x: nat, y: nat)
    ensures a * (x + y) == a * x + a * y
  {
  }

  lemma Enough(a: nat, b: nat, w: nat)
    requires w < b
    ensures a * w + a <= a * b
  {
    var k: nat := b - w;
    Distributed(a, w, k);
    AtLeast(a, k);
  }

  // Octet i of the big-endian form is the number shifted right by the octets after it.
  lemma {:induction false} BigEndianAt(n: nat, k: nat, i: nat)
    requires i < k
    ensures BigEndian(n, k)[i] == ShiftRight(n, k - 1 - i) % 256
  {
    if i < k - 1 {
      BigEndianAt(n / 256, k - 1, i);
    }
  }

  // Text as a C program holds it: one octet to a character, and no NUL inside.
  type Text = s: string | forall c :: c in s ==> 0 < c as int < 256 witness []

  function OfText(s: Text): (b: seq<Byte>)
    ensures |b| == |s| && forall i :: 0 <= i < |s| ==> b[i] as char == s[i]
  {
    seq(|s|, i requires 0 <= i < |s| => s[i] as int)
  }

  // A bounded copy, as copy_into and snprintf make it.
  function Cut(s: string, cap: nat): (t: string)
    requires cap > 0
    ensures |t| < cap && t <= s && (t == s || |t| == cap - 1)
  {
    if |s| < cap then s else s[..cap - 1]
  }

  // ---------------------------------------------------------------------------- remainders

  lemma Multiples(p: nat, r: nat, total: nat)
    requires total > 0
    ensures (total * p + r) % total == r % total
  {
    var q := r / total;
    assert total * p + r == total * (p + q) + r % total;
    Remainder(total * p + r, p + q, r % total, total);
  }

  lemma Remainder(x: nat, q: nat, r: nat, total: nat)
    requires r < total && x == total * q + r
    ensures x % total == r && x / total == q
  {
    var q2, r2 := x / total, x % total;
    assert x == total * q2 + r2;
    assert total * (q - q2) == r2 - r && total * (q2 - q) == r - r2;
    if q > q2 { AtLeast(total, q - q2); }
    if q < q2 { AtLeast(total, q2 - q); }
  }

  lemma AtLeast(total: nat, k: nat)
    requires k >= 1
    ensures total * k >= total
  {
  }
}
