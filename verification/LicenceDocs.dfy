// Licence documents as printed: a flat JSON object of strings and integers, with any JSON white
// space around its tokens. Reading one back finds every field, even where a value spells a key.
module LicenceDocs {
  import opened LicenceText

  datatype Value = Text(s: string) | Number(n: int)

  // One member and the white space in front of it, around its colon and behind it.
  datatype Member = Member(key: string, value: Value, w1: string, w2: string, w3: string, w4: string)

  // --------------------------------------------------------------------------- printing

  function DigitChar(d: int): (c: char)
    requires 0 <= d < 10
    ensures IsDigit(c) && c as int - 48 == d
  {
    (d + 48) as char
  }

  function NatText(n: nat): (t: string)
    ensures t != [] && forall c :: c in t ==> IsDigit(c)
  {
    if n < 10 then [DigitChar(n)] else NatText(n / 10) + [DigitChar(n % 10)]
  }

  // printf's %lld.
  function IntText(n: int): (t: string)
    ensures t != [] && forall c :: c in t ==> IsDigit(c) || IsSign(c)
  {
    if n < 0 then "-" + NatText(-n) else NatText(n)
  }

  // The text of a number is its digits by place, none of them in front without need.
  lemma IntTextPlaces(n: nat, d: nat)
    requires 0 < n && d < 10
    ensures IntText(10 * n + d) == IntText(n) + [(48 + d) as char] && IntText(d) == [(48 + d) as char]
    ensures IntText(-(n as int)) == "-" + IntText(n)
  {
    assert (10 * n + d) / 10 == n && (10 * n + d) % 10 == d;
  }

  function ValueText(v: Value): (t: string)
    ensures t != [] && !Space(t[0])
  {
    match v
    case Text(s) => Quoted(s)
    case Number(n) =>
      var t := IntText(n);
      assert t[0] in t;
      t
  }

  function MemberText(m: Member): string {
    m.w1 + (Quoted(m.key) + (m.w2 + (":" + (m.w3 + (ValueText(m.value) + m.w4)))))
  }

  // The members from here on, and the closing brace with what follows it.
  function MembersText(ms: seq<Member>, post: string): string
    decreases |ms|
  {
    if ms == [] then "}" + post
    else MemberText(ms[0]) + (if |ms| == 1 then MembersText([], post) else "," + MembersText(ms[1..], post))
  }

  function Document(pre: string, ms: seq<Member>, post: string): string {
    pre + ("{" + MembersText(ms, post))
  }

  // No quotes in keys or values, and only white space between the tokens.
  predicate Plain(m: Member) {
    && Quoteless(m.key) && (m.value.Text? ==> Quoteless(m.value.s))
    && AllSpace(m.w1) && AllSpace(m.w2) && AllSpace(m.w3) && AllSpace(m.w4)
  }

  predicate AllPlain(ms: seq<Member>) { forall m :: m in ms ==> Plain(m) }

  // The key of a field: a word that starts with a letter.
  predicate Word(key: string) { key != [] && 'a' <= key[0] <= 'z' && Quoteless(key) }

  // The value of the first member with this key.
  datatype Lookup = Missing | Has(value: Value)

  function First(ms: seq<Member>, key: string): Lookup {
    if ms == [] then Missing else if ms[0].key == key then Has(ms[0].value) else First(ms[1..], key)
  }

  // ------------------------------------------------------------- the scanner over the tokens

  // Text without quotes is passed over.
  lemma {:induction false} PassQuoteless(g: string, rest: string, pat: string)
    requires Quoteless(g) && pat != [] && pat[0] == QUOTE
    ensures ValueOf(g + rest, pat) == ValueOf(rest, pat)
    decreases |g|
  {
    if g == [] {
      assert g + rest == rest;
    } else {
      var s := g + rest;
      assert s[0] == g[0] && g[0] in g;
      assert s[1..] == g[1..] + rest;
      if |s| < |pat| {
        TooShort(s, pat);
        assert |rest| < |pat|;
        TooShort(rest, pat);
      } else {
        assert !(pat <= s) by { assert s[..1][0] == s[0] != pat[0]; }
        NoMatchHere(s, pat);
        PassQuoteless(g[1..], rest, pat);
      }
    }
  }

  lemma SpaceIsQuoteless(w: string)
    requires AllSpace(w)
    ensures Quoteless(w)
  {
  }

  lemma {:induction false} SkipSpaces(w: string, rest: string)
    requires AllSpace(w) && (rest == [] || !Space(rest[0]))
    ensures Skip(w + rest) == rest
    decreases |w|
  {
    if w == [] {
      assert w + rest == rest;
    } else {
      assert w[0] in w && (w + rest)[0] == w[0];
      assert (w + rest)[1..] == w[1..] + rest;
      SkipSpaces(w[1..], rest);
    }
  }

  // A quote that the pattern does not go on from is passed over.
  lemma PassQuote(rest: string, key: string)
    requires Word(key) && (rest != [] ==> rest[0] != key[0])
    ensures ValueOf([QUOTE] + rest, Quoted(key)) == ValueOf(rest, Quoted(key))
  {
    var s, pat := [QUOTE] + rest, Quoted(key);
    assert s[1..] == rest;
    if |s| < |pat| {
      TooShort(s, pat);
      TooShort(rest, pat);
    } else {
      assert pat[1] == key[0] && s[1] == rest[0];
      assert !(pat <= s);
      NoMatchHere(s, pat);
    }
  }

  // A whole string is passed over unless it is the key, standing in front of a colon.
  lemma PassString(t: string, rest: string, key: string)
    requires Word(key) && Quoteless(t) && rest != [] && rest[0] != key[0]
    requires t == key ==> Skip(rest) == [] || Skip(rest)[0] != ':'
    ensures ValueOf(Quoted(t) + rest, Quoted(key)) == ValueOf(rest, Quoted(key))
  {
    var s, pat := Quoted(t) + rest, Quoted(key);
    if t == key {
      assert pat <= s && s[|pat|..] == rest;
      MatchHere(s, pat);
    } else {
      var inner := t + ([QUOTE] + rest);
      assert s == [QUOTE] + inner && s[1..] == inner;
      if |s| < |pat| {
        TooShort(s, pat);
        TooShort(rest, pat);
      } else {
        OtherStringNoMatch(t, rest, key);
        NoMatchHere(s, pat);
        PassQuoteless(t, [QUOTE] + rest, pat);
        PassQuote(rest, key);
      }
    }
  }

  lemma OtherStringNoMatch(t: string, rest: string, key: string)
    requires Quoteless(t) && Quoteless(key) && t != key
    ensures !(Quoted(key) <= Quoted(t) + rest)
  {
    var s, pat := Quoted(t) + rest, Quoted(key);
    var i;
    if |t| < |key| {
      i := |t| + 1;
      assert s[i] == QUOTE && pat[i] == key[|t|] && key[|t|] in key;
    } else if |key| < |t| {
      i := |key| + 1;
      assert pat[i] == QUOTE && s[i] == t[|key|] && t[|key|] in t;
    } else {
      var k :| 0 <= k < |t| && t[k] != key[k];
      i := k + 1;
      assert s[i] == t[k] && pat[i] == key[k];
    }
    assert i < |pat| && i < |s| && s[i] != pat[i];
  }

  // ---------------------------------------------------------------- finding a member's value

  // What stands behind a member: the end of the object, or a comma and more of them.
  predicate Tail(t: string) { t != [] && (t[0] == '}' || t[0] == ',') }

  lemma MemberFound(m: Member, t: string)
    requires Plain(m) && Word(m.key) && Tail(t)
    ensures ValueOf(MemberText(m) + t, Quoted(m.key)) == At(ValueText(m.value) + (m.w4 + t))
  {
    var pat := Quoted(m.key);
    var v := ValueText(m.value) + (m.w4 + t);
    var colon := ":" + (m.w3 + v);
    assert MemberText(m) + t == m.w1 + (pat + (m.w2 + colon));
    SpaceIsQuoteless(m.w1);
    PassQuoteless(m.w1, pat + (m.w2 + colon), pat);
    assert (pat + (m.w2 + colon))[|pat|..] == m.w2 + colon;
    MatchHere(pat + (m.w2 + colon), pat);
    SkipSpaces(m.w2, colon);
    assert colon[1..] == m.w3 + v;
    assert v[0] == ValueText(m.value)[0];
    SkipSpaces(m.w3, v);
  }

  lemma MemberPassed(m: Member, t: string, key: string)
    requires Plain(m) && Word(key) && m.key != key && Tail(t)
    ensures ValueOf(MemberText(m) + t, Quoted(key)) == ValueOf(t, Quoted(key))
  {
    var pat := Quoted(key);
    var behind := m.w4 + t;
    var v := ValueText(m.value) + behind;
    var after := m.w2 + (":" + (m.w3 + v));
    assert MemberText(m) + t == m.w1 + (Quoted(m.key) + after);
    SpaceIsQuoteless(m.w1);
    PassQuoteless(m.w1, Quoted(m.key) + after, pat);
    NotAWord(m.w2, ":" + (m.w3 + v), key);
    PassString(m.key, after, key);
    SpaceIsQuoteless(m.w2);
    SpaceIsQuoteless(m.w3);
    assert after == (m.w2 + ":" + m.w3) + v;
    PassQuoteless(m.w2 + ":" + m.w3, v, pat);
    NotAWord(m.w4, t, key);
    match m.value {
      case Text(s) =>
        SkipSpaces(m.w4, t);
        PassString(s, behind, key);
      case Number(n) =>
        assert Quoteless(IntText(n));
        PassQuoteless(IntText(n), behind, pat);
    }
    SpaceIsQuoteless(m.w4);
    PassQuoteless(m.w4, t, pat);
  }

  lemma NotAWord(w: string, rest: string, key: string)
    requires AllSpace(w) && Word(key) && rest != [] && (rest[0] == ':' || rest[0] == ',' || rest[0] == '}')
    ensures w + rest != [] && (w + rest)[0] != key[0]
  {
    if w != [] { assert w[0] in w && (w + rest)[0] == w[0]; }
  }

  function TailText(ms: seq<Member>, post: string): (t: string)
    requires ms != []
    ensures Tail(t)
  {
    if |ms| == 1 then MembersText([], post) else "," + MembersText(ms[1..], post)
  }

  // The text found starts with this value, then white space, then the rest of the object.
  ghost predicate Stands(f: Found, v: Value, w4: string, t: string) {
    AllSpace(w4) && Tail(t) && f == At(ValueText(v) + (w4 + t))
  }

  ghost predicate StandsAt(f: Found, v: Value) { exists w4: string, t: string :: Stands(f, v, w4, t) }

  // Behind the first member with the key stands its value; without one there is nothing to find.
  lemma {:induction false} MembersFind(ms: seq<Member>, post: string, key: string)
    requires AllPlain(ms) && Word(key) && AllSpace(post)
    ensures First(ms, key) == Missing ==> ValueOf(MembersText(ms, post), Quoted(key)) == NotFound
    ensures First(ms, key).Has? ==> StandsAt(ValueOf(MembersText(ms, post), Quoted(key)), First(ms, key).value)
    decreases |ms|
  {
    hide ValueOf, StandsAt, MemberText;
    var pat := Quoted(key);
    if ms == [] {
      ClosingFindsNothing(post, pat);
    } else {
      var m, t := ms[0], TailText(ms, post);
      assert MembersText(ms, post) == MemberText(m) + t;
      assert m in ms;
      if m.key == key {
        MemberFound(m, t);
        StandsThere(ValueOf(MembersText(ms, post), pat), m.value, m.w4, t);
      } else {
        MemberPassed(m, t, key);
        if |ms| == 1 {
          ClosingFindsNothing(post, pat);
          assert ms[1..] == [];
        } else {
          assert t == "," + MembersText(ms[1..], post);
          PassQuoteless(",", MembersText(ms[1..], post), pat);
          MembersFind(ms[1..], post, key);
        }
      }
    }
  }

  lemma StandsThere(f: Found, v: Value, w4: string, t: string)
    requires Stands(f, v, w4, t)
    ensures StandsAt(f, v)
  {
  }

  lemma ClosingFindsNothing(post: string, pat: string)
    requires AllSpace(post) && pat != [] && pat[0] == QUOTE
    ensures ValueOf("}" + post, pat) == NotFound
  {
    SpaceIsQuoteless(post);
    PassQuoteless("}" + post, "", pat);
    assert "}" + post + "" == "}" + post;
    TooShort("", pat);
  }

  // ------------------------------------------------------------------------- reading it back

  lemma {:induction false} ReadNat(n: nat)
    ensures NatOf(NatText(n)) == n
  {
    if n >= 10 {
      var t := NatText(n);
      assert t[..|t| - 1] == NatText(n / 10);
      ReadNat(n / 10);
    } else {
      assert NatText(n) == [DigitChar(n)];
    }
  }

  function Pow10(k: nat): nat { if k == 0 then 1 else 10 * Pow10(k - 1) }

  lemma {:induction false} NatTextLength(n: nat, k: nat)
    requires k > 0 && n < Pow10(k)
    ensures |NatText(n)| <= k
    decreases k
  {
    if n >= 10 { NatTextLength(n / 10, k - 1); }
  }

  lemma IntTextLength(n: int)
    requires Int64(n)
    ensures |IntText(n)| <= 20 && |NatText(if n < 0 then -n else n)| <= 19
  {
    assert Pow10(5) == 100000;
    assert Pow10(10) == 100000 * Pow10(5);
    assert Pow10(15) == 100000 * Pow10(10);
    assert Pow10(19) == 10000 * Pow10(15);
    NatTextLength(if n < 0 then -n else n, 19);
  }

  // A printed 64-bit integer reads back as itself.
  lemma ReadInt(n: int, w4: string, t: string)
    requires Int64(n) && AllSpace(w4) && Tail(t)
    ensures IntAt(IntText(n) + (w4 + t)) == Int(n)
  {
    hide NatText, NatOf, Skip, TakeDigits;
    IntTextLength(n);
    var behind := w4 + t;
    var d := NatText(if n < 0 then -n else n);
    var rest := IntText(n) + behind;
    var k := if n < 0 then 1 else 0;
    assert rest[..k] == SignOf(rest) by {
      assert d[0] in d;
      if n >= 0 { assert rest[0] == d[0]; }
    }
    assert rest[k..k + |d|] == d && rest[k + |d|..] == behind;
    assert behind[0] == if w4 == [] then t[0] else w4[0];
    assert w4 != [] ==> w4[0] in w4;
    IntAtIs(rest, k, |d|);
    SkipSpaces(w4, t);
    ReadNat(if n < 0 then -n else n);
  }

  lemma ReadStr(s: string, behind: string, cap: nat)
    requires Quoteless(s)
    ensures StrAt(Quoted(s) + behind, cap) == if |s| < cap then Str(s) else BadStr
  {
    var rest := Quoted(s) + behind;
    assert rest[1..] == s + ([QUOTE] + behind);
    assert rest[1..][..|s|] == s && rest[1..][|s|] == QUOTE;
    UpToQuoteIs(rest[1..], |s|);
  }

  lemma StrIsNoInt(s: string, behind: string)
    ensures IntAt(Quoted(s) + behind) == BadInt
  {
    var rest := Quoted(s) + behind;
    assert rest[..0] == SignOf(rest) == [] && rest[0..0] == [];
    IntAtIs(rest, 0, 0);
  }

  lemma IntIsNoStr(n: int, behind: string, cap: nat)
    ensures StrAt(IntText(n) + behind, cap) == BadStr
  {
    assert IntText(n)[0] in IntText(n);
    assert (IntText(n) + behind)[0] == IntText(n)[0];
  }

  // What get_str gives for a field of a printed document: the first member with that key, if it is
  // a string that fits; whatever its value, and the other members, may say.
  lemma StrReadsBack(pre: string, ms: seq<Member>, post: string, key: string, cap: nat)
    requires AllSpace(pre) && AllSpace(post) && AllPlain(ms) && Word(key)
    ensures StrField(Document(pre, ms, post), key, cap) ==
            match First(ms, key)
            case Missing => NoStr
            case Has(Text(s)) => if |s| < cap then Str(s) else BadStr
            case Has(Number(_)) => BadStr
  {
    hide ValueOf, StrAt, MembersText;
    DocumentFinds(pre, ms, post, key);
    if First(ms, key).Has? {
      var v := First(ms, key).value;
      var w4: string, t: string :| Stands(ValueOf(Document(pre, ms, post), Quoted(key)), v, w4, t);
      match v {
        case Text(s) =>
          FirstIsPlain(ms, key);
          ReadStr(s, w4 + t, cap);
        case Number(n) => IntIsNoStr(n, w4 + t, cap);
      }
    }
  }

  lemma IntReadsBack(pre: string, ms: seq<Member>, post: string, key: string)
    requires AllSpace(pre) && AllSpace(post) && AllPlain(ms) && Word(key)
    requires First(ms, key).Has? && First(ms, key).value.Number? ==> Int64(First(ms, key).value.n)
    ensures IntField(Document(pre, ms, post), key) ==
            match First(ms, key)
            case Missing => NoInt
            case Has(Number(n)) => Int(n)
            case Has(Text(_)) => BadInt
  {
    hide ValueOf, IntAt, MembersText;
    DocumentFinds(pre, ms, post, key);
    if First(ms, key).Has? {
      var v := First(ms, key).value;
      var w4: string, t: string :| Stands(ValueOf(Document(pre, ms, post), Quoted(key)), v, w4, t);
      match v {
        case Text(s) => StrIsNoInt(s, w4 + t);
        case Number(n) => ReadInt(n, w4, t);
      }
    }
  }

  lemma DocumentFinds(pre: string, ms: seq<Member>, post: string, key: string)
    requires AllSpace(pre) && AllSpace(post) && AllPlain(ms) && Word(key)
    ensures First(ms, key) == Missing ==> ValueOf(Document(pre, ms, post), Quoted(key)) == NotFound
    ensures First(ms, key).Has? ==> StandsAt(ValueOf(Document(pre, ms, post), Quoted(key)), First(ms, key).value)
  {
    hide ValueOf, MembersText, First;
    var text := MembersText(ms, post);
    assert Document(pre, ms, post) == (pre + "{") + text;
    SpaceIsQuoteless(pre);
    PassQuoteless(pre + "{", text, Quoted(key));
    MembersFind(ms, post, key);
  }

  lemma {:induction false} FirstIsPlain(ms: seq<Member>, key: string)
    requires AllPlain(ms) && First(ms, key).Has?
    ensures First(ms, key).value.Text? ==> Quoteless(First(ms, key).value.s)
  {
    assert ms[0] in ms;
    if ms[0].key != key { FirstIsPlain(ms[1..], key); }
  }
}
