// The hand-written reader of licence files (src/ff-licence.c, skip_ws to get_int) and the text it
// reads: a flat JSON object, printed with any white space around its tokens.
module LicenceText {
  const QUOTE := '\"'

  predicate Space(c: char) { c == ' ' || c == '\t' || c == '\n' || c == '\r' }

  predicate AllSpace(s: string) { forall c :: c in s ==> Space(c) }

  predicate Quoteless(s: string) { QUOTE !in s }

  // ---------------------------------------------------------------- what the scanners compute

  // skip_ws: the text from the first character that is not white space.
  function Skip(s: string): (t: string)
    ensures |t| <= |s| && (t != [] ==> !Space(t[0]))
  {
    if s != [] && Space(s[0]) then Skip(s[1..]) else s
  }

  function Quoted(s: string): string { [QUOTE] + s + [QUOTE] }

  datatype Found = NotFound | At(rest: string)

  // find_value: the text from the value on, behind the first `"key"` that a colon follows.
  function ValueOf(s: string, pat: string): (f: Found)
    requires pat != []
    decreases |s|
    ensures f.At? ==> |f.rest| < |s|
  {
    if |s| < |pat| then NotFound
    else if pat <= s then
      var q := Skip(s[|pat|..]);
      if q != [] && q[0] == ':' then At(Skip(q[1..])) else ValueOf(s[|pat|..], pat)
    else ValueOf(s[1..], pat)
  }

  datatype StrResult = NoStr | BadStr | Str(s: string)

  function UpToQuote(s: string): (t: string)
    ensures t <= s && Quoteless(t) && (|t| < |s| ==> s[|t|] == QUOTE)
  {
    if s == [] || s[0] == QUOTE then [] else [s[0]] + UpToQuote(s[1..])
  }

  // get_str into a field of `cap` characters.
  function StrAt(rest: string, cap: nat): StrResult {
    if rest == [] || rest[0] != QUOTE then BadStr
    else
      var t := UpToQuote(rest[1..]);
      if |t| == |rest| - 1 || |t| >= cap then BadStr else Str(t)
  }

  function StrField(j: string, key: string, cap: nat): StrResult {
    match ValueOf(j, Quoted(key))
    case NotFound => NoStr
    case At(rest) => StrAt(rest, cap)
  }

  datatype IntResult = NoInt | BadInt | Int(n: int)

  predicate IsDigit(c: char) { '0' <= c <= '9' }
  predicate IsSign(c: char) { c == '-' || c == '+' }

  function TakeDigits(s: string, n: nat): (d: string)
    ensures d <= s && |d| <= n && (forall c :: c in d ==> IsDigit(c))
  {
    if n == 0 || s == [] || !IsDigit(s[0]) then [] else [s[0]] + TakeDigits(s[1..], n - 1)
  }

  function NatOf(d: string): nat
    requires forall c :: c in d ==> IsDigit(c)
  {
    if d == [] then 0
    else
      var last := d[|d| - 1];
      assert last in d && IsDigit(last);
      10 * NatOf(d[..|d| - 1]) + (last as int - 48)
  }

  const INT64_MAX := 0x7fff_ffff_ffff_ffff
  const INT64_MIN := -0x8000_0000_0000_0000

  predicate Int64(n: int) { INT64_MIN <= n <= INT64_MAX }

  // strtoll keeps to the ends of its range.
  function Clamp(n: int): int { if n > INT64_MAX then INT64_MAX else if n < INT64_MIN then INT64_MIN else n }

  function SignOf(rest: string): string { if rest != [] && IsSign(rest[0]) then rest[..1] else [] }

  const NUM_CHARS := 24  // of char num[25]

  // get_int: a sign, digits, and then nothing but a delimiter.
  function IntAt(rest: string): IntResult {
    var sign := SignOf(rest);
    var d := TakeDigits(rest[|sign|..], NUM_CHARS - |sign|);
    IntRead(sign, d, Skip(rest[|sign| + |d|..]))
  }

  function IntField(j: string, key: string): IntResult {
    match ValueOf(j, Quoted(key))
    case NotFound => NoInt
    case At(rest) => IntAt(rest)
  }

  // ------------------------------------------------------------------------- the scanners

  method SkipSpace(j: string, from: nat) returns (p: nat)
    requires from <= |j|
    ensures from <= p <= |j| && j[p..] == Skip(j[from..])
  {
    p := from;
    while p < |j| && Space(j[p])
      invariant from <= p <= |j| && Skip(j[from..]) == Skip(j[p..])
    {
      assert j[p..][1..] == j[p + 1..];
      p := p + 1;
    }
  }

  lemma NoMatchHere(s: string, pat: string)
    requires pat != [] && |pat| <= |s| && !(pat <= s)
    ensures ValueOf(s, pat) == ValueOf(s[1..], pat)
  {
  }

  lemma MatchHere(s: string, pat: string)
    requires pat != [] && pat <= s
    ensures var q := Skip(s[|pat|..]);
            ValueOf(s, pat) == if q != [] && q[0] == ':' then At(Skip(q[1..])) else ValueOf(s[|pat|..], pat)
  {
  }

  lemma TooShort(s: string, pat: string)
    requires pat != [] && |s| < |pat|
    ensures ValueOf(s, pat) == NotFound
  {
  }

  lemma DropMore(j: string, a: nat, b: nat)
    requires a + b <= |j|
    ensures j[a..][b..] == j[a + b..]
  {
  }

  // memmem: the first place from `from` on where the pattern stands, or the end.
  method Search(j: string, from: nat, pat: string) returns (hit: nat)
    requires from <= |j| && pat != []
    ensures hit == |j| || (from <= hit && hit + |pat| <= |j| && pat <= j[hit..])
    ensures if hit == |j| then ValueOf(j[from..], pat) == NotFound
            else ValueOf(j[from..], pat) == ValueOf(j[hit..], pat)
  {
    hide ValueOf;
    hit := from;
    while hit + |pat| <= |j|
      invariant from <= hit <= |j| && ValueOf(j[from..], pat) == ValueOf(j[hit..], pat)
    {
      assert j[hit..][..|pat|] == j[hit..hit + |pat|];
      if j[hit..hit + |pat|] == pat { return; }
      NoMatchHere(j[hit..], pat);
      DropMore(j, hit, 1);
      hit := hit + 1;
    }
    TooShort(j[hit..], pat);
    return |j|;
  }

  method FindValue(j: string, key: string) returns (found: bool, at: nat)
    ensures found ==> at <= |j| && ValueOf(j, Quoted(key)) == At(j[at..])
    ensures !found ==> ValueOf(j, Quoted(key)) == NotFound
  {
    hide ValueOf, Skip;
    var pat := Quoted(key);
    var p := 0;
    assert j[0..] == j;
    while p < |j|
      invariant p <= |j| && ValueOf(j, pat) == ValueOf(j[p..], pat)
    {
      var hit := Search(j, p, pat);
      if hit == |j| { return false, 0; }
      MatchHere(j[hit..], pat);
      DropMore(j, hit, |pat|);
      var q := SkipSpace(j, hit + |pat|);
      if q < |j| && j[q] == ':' {
        DropMore(j, q, 1);
        at := SkipSpace(j, q + 1);
        return true, at;
      }
      p := hit + |pat|;
    }
    TooShort(j[p..], pat);
    return false, 0;
  }

  lemma {:induction false} UpToQuoteIs(s: string, n: nat)
    requires n <= |s| && Quoteless(s[..n]) && (n < |s| ==> s[n] == QUOTE)
    ensures UpToQuote(s) == s[..n]
    decreases n
  {
    if n > 0 {
      assert s[0] == s[..n][0];
      assert s[1..][..n - 1] == s[..n][1..];
      UpToQuoteIs(s[1..], n - 1);
      assert s[..n] == [s[0]] + s[1..][..n - 1];
    }
  }

  method GetStr(j: string, key: string, cap: nat) returns (r: StrResult)
    ensures r == StrField(j, key, cap)
  {
    hide ValueOf, UpToQuote;
    var found, p := FindValue(j, key);
    if !found { return NoStr; }
    if p >= |j| || j[p] != QUOTE { return BadStr; }
    DropMore(j, p, 1);
    p := p + 1;
    var q := p;
    while q < |j| && j[q] != QUOTE
      invariant p <= q <= |j| && Quoteless(j[p..q])
    {
      q := q + 1;
    }
    assert j[p..][..q - p] == j[p..q];
    UpToQuoteIs(j[p..], q - p);
    if q == |j| || q - p >= cap { return BadStr; }
    return Str(j[p..q]);
  }

  lemma {:induction false} TakeDigitsIs(s: string, n: nat, m: nat)
    requires m <= n && m <= |s| && (forall c :: c in s[..m] ==> IsDigit(c))
    requires m == n || m == |s| || !IsDigit(s[m])
    ensures TakeDigits(s, n) == s[..m]
    decreases m
  {
    if m > 0 {
      assert s[0] == s[..m][0];
      assert s[1..][..m - 1] == s[..m][1..];
      TakeDigitsIs(s[1..], n - 1, m - 1);
      assert s[..m] == [s[0]] + s[1..][..m - 1];
    }
  }

  // Digits, as many as there is room for.
  method PassDigits(j: string, from: nat, room: nat) returns (p: nat)
    requires from <= |j|
    ensures from <= p <= |j| && p - from <= room && forall c :: c in j[from..p] ==> IsDigit(c)
    ensures p - from == room || p == |j| || !IsDigit(j[p])
  {
    p := from;
    while p < |j| && p - from < room && IsDigit(j[p])
      invariant from <= p <= |j| && p - from <= room && forall c :: c in j[from..p] ==> IsDigit(c)
    {
      p := p + 1;
    }
  }

  method GetInt(j: string, key: string) returns (r: IntResult)
    ensures r == IntField(j, key)
  {
    hide ValueOf, TakeDigits, NatOf, Skip, IntRead, IntAt;
    var found, at := FindValue(j, key);
    if !found { return NoInt; }
    var p := at;
    var k := 0;  // characters in num
    if p < |j| && IsSign(j[p]) {
      k := 1;
      p := p + 1;
    }
    var from := p;
    p := PassDigits(j, from, NUM_CHARS - k);
    var q := SkipSpace(j, p);
    SliceOfRest(j, at, from, p);
    IntAtIs(j[at..], from - at, p - from);
    return IntRead(j[at..from], j[from..p], j[q..]);
  }

  lemma SliceOfRest(j: string, at: nat, from: nat, p: nat)
    requires at <= from <= p <= |j|
    ensures j[at..][..from - at] == j[at..from] && j[at..][from - at..p - at] == j[from..p] &&
              j[at..][p - at..] == j[p..]
  {
  }

  // What get_int makes of a sign, the digits and what stands after them.
  function IntRead(sign: string, d: string, after: string): IntResult
    requires forall c :: c in d ==> IsDigit(c)
  {
    if d == [] then BadInt
    else if after != [] && after[0] != ',' && after[0] != '}' && after[0] != ']' then BadInt
    else Int(Clamp(if sign == "-" then -(NatOf(d) as int) else NatOf(d)))
  }

  // A number in range is itself, one beyond it the end of the range on its side; letters behind the digits
  // make it none.
  lemma NumbersSaturate(d: string, after: string)
    requires d != [] && forall c :: c in d ==> IsDigit(c)
    ensures after == [] || after[0] in {',', '}', ']'} ==>
              && IntRead("", d, after) ==
                 Int(if NatOf(d) < 0x8000_0000_0000_0000 then NatOf(d) else 0x7fff_ffff_ffff_ffff)
              && IntRead("-", d, after) ==
                 Int(if NatOf(d) <= 0x8000_0000_0000_0000 then -(NatOf(d) as int) else -0x8000_0000_0000_0000)
              && IntRead("+", d, after) == IntRead("", d, after)
    ensures after != [] && after[0] !in {',', '}', ']'} ==> IntRead("", d, after) == BadInt
  {
    hide NatOf;
  }

  lemma IntAtIs(rest: string, k: nat, m: nat)
    requires k + m <= |rest| && rest[..k] == SignOf(rest) && k + m <= NUM_CHARS
    requires forall c :: c in rest[k..k + m] ==> IsDigit(c)
    requires k + m == NUM_CHARS || k + m == |rest| || !IsDigit(rest[k + m])
    ensures IntAt(rest) == IntRead(rest[..k], rest[k..k + m], Skip(rest[k + m..]))
  {
    hide NatOf, Skip, TakeDigits;
    assert rest[k..][..m] == rest[k..k + m];
    TakeDigitsIs(rest[k..], NUM_CHARS - k, m);
  }
}
