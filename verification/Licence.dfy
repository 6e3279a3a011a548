// Judging a licence file (src/ff-licence.c): read its fields, rebuild the text that was signed,
// check the signature over it, then compare the pack and two fixed dates.
module Licence {
  import opened Bytes
  import Base64
  import opened LicenceText
  import opened LicenceDocs

  const DISCORD_CAP := 32
  const PACK_CAP := 64
  const LICENCE_CAP := 64
  const SIG_CAP := 128
  const CANON_CAP := 512

  datatype Fields = Fields(discord: string, pack: string, licence: string, issued: int, entitled: int)

  // What fits in struct ff_licence, and can have been read from a file.
  predicate Storable(f: Fields) {
    && |f.discord| < DISCORD_CAP && |f.pack| < PACK_CAP && |f.licence| < LICENCE_CAP
    && Quoteless(f.discord) && Quoteless(f.pack) && Quoteless(f.licence)
    && Int64(f.issued) && Int64(f.entitled)
  }

  // ------------------------------------------------------------------------ the signed text

  // The format string of ff_licence_canonical, with its arguments in place.
  function Canonical(f: Fields): string {
    "{\"discord_id\":\"" + (f.discord + ("\",\"entitled_through\":" + (IntText(f.entitled) + (",\"issued\":" +
    (IntText(f.issued) + (",\"licence_id\":\"" + (f.licence + ("\",\"pack_id\":\"" + (f.pack + "\"}")))))))))
  }

  // ff_licence_canonical: snprintf into a buffer of `cap`, and 0 when it does not fit.
  method WriteCanonical(f: Fields, buf: array<char>) returns (n: nat)
    modifies buf
    ensures n == if |Canonical(f)| < buf.Length then |Canonical(f)| else 0
    ensures n > 0 ==> buf[..n] == Canonical(f) && buf[n] == '\0'
  {
    var text := Canonical(f);
    var shown := if |text| < buf.Length then |text| else if buf.Length > 0 then buf.Length - 1 else 0;
    forall i | 0 <= i < shown { buf[i] := text[i]; }
    if buf.Length > 0 { buf[shown] := '\0'; }
    if |text| >= buf.Length { return 0; }
    return |text|;
  }

  function Tight(key: string, v: Value): Member { Member(key, v, "", "", "", "") }

  function CanonicalMembers(f: Fields): (ms: seq<Member>)
    ensures |ms| == 5
  {
    [Tight("discord_id", Text(f.discord)), Tight("entitled_through", Number(f.entitled)),
     Tight("issued", Number(f.issued)), Tight("licence_id", Text(f.licence)), Tight("pack_id", Text(f.pack))]
  }

  // A member printed tightly, and what follows it.
  lemma TightText(key: string, t: string, rest: string)
    ensures MemberText(Tight(key, Text(t))) + rest == ("\"" + key + "\":\"") + (t + ("\"" + rest))
  {
    var m := Quoted(key) + (":" + Quoted(t));
    assert MemberText(Tight(key, Text(t))) == m;
    assert [QUOTE] == "\"";
    assert Quoted(key) == "\"" + key + "\"";
    assert Quoted(t) + rest == "\"" + (t + ("\"" + rest));
    assert m + rest == Quoted(key) + (":" + (Quoted(t) + rest));
    assert "\"" + key + "\":\"" == Quoted(key) + ":" + "\"";
  }

  lemma TightNumber(key: string, n: int, rest: string)
    ensures MemberText(Tight(key, Number(n))) + rest == ("\"" + key + "\":") + (IntText(n) + rest)
  {
    hide IntText;
    var m := Quoted(key) + (":" + IntText(n));
    assert MemberText(Tight(key, Number(n))) == m;
    assert [QUOTE] == "\"";
    assert "\"" + key + "\":" == Quoted(key) + ":";
    assert m + rest == Quoted(key) + ":" + (IntText(n) + rest);
  }

  // Five members, joined from the last one forwards.
  lemma MembersJoin(a: Member, b: Member, c: Member, d: Member, e: Member)
    ensures MembersText([a, b, c, d, e], "") ==
            MemberText(a) + ("," + (MemberText(b) +
            ("," + (MemberText(c) + ("," + (MemberText(d) + ("," + (MemberText(e) + "}"))))))))
  {
    hide MemberText;
    assert MembersText([], "") == "}" + "" == "}";
    assert MembersText([e], "") == MemberText(e) + "}";
    assert [d, e][1..] == [e] && MembersText([d, e], "") == MemberText(d) + ("," + MembersText([e], ""));
    assert [c, d, e][1..] == [d, e] && MembersText([c, d, e], "") == MemberText(c) + ("," + MembersText([d, e], ""));
    assert [b, c, d, e][1..] == [c, d, e];
    assert MembersText([b, c, d, e], "") == MemberText(b) + ("," + MembersText([c, d, e], ""));
    assert [a, b, c, d, e][1..] == [b, c, d, e];
  }

  // Where one literal of the format runs on into the next.
  lemma Seam(a: string, b: string, c: string, whole: string, rest: string)
    requires a + b + c == whole
    ensures a + (b + (c + rest)) == whole + rest
  {
  }

  lemma SeamTwo(b: string, c: string, whole: string, rest: string)
    requires b + c == whole
    ensures b + (c + rest) == whole + rest
  {
  }

  lemma PackPart(p: string)
    ensures MemberText(Tight("pack_id", Text(p))) + "}" == "\"pack_id\":\"" + (p + "\"}")
  {
    TightText("pack_id", p, "}");
    hide MemberText;
    assert "\"" + "pack_id" + "\":\"" == "\"pack_id\":\"" && "\"" + "}" == "\"}";
  }

  lemma LicencePart(l: string, r: string)
    ensures MemberText(Tight("licence_id", Text(l))) + ("," + ("\"pack_id\":\"" + r)) ==
            "\"licence_id\":\"" + (l + ("\",\"pack_id\":\"" + r))
  {
    TightText("licence_id", l, "," + ("\"pack_id\":\"" + r));
    hide MemberText;
    assert "\"" + "licence_id" + "\":\"" == "\"licence_id\":\"";
    Seam("\"", ",", "\"pack_id\":\"", "\",\"pack_id\":\"", r);
  }

  lemma IssuedPart(n: int, r: string)
    ensures MemberText(Tight("issued", Number(n))) + ("," + ("\"licence_id\":\"" + r)) ==
            "\"issued\":" + (IntText(n) + (",\"licence_id\":\"" + r))
  {
    TightNumber("issued", n, "," + ("\"licence_id\":\"" + r));
    hide MemberText, IntText;
    assert "\"" + "issued" + "\":" == "\"issued\":";
    SeamTwo(",", "\"licence_id\":\"", ",\"licence_id\":\"", r);
  }

  lemma EntitledPart(n: int, r: string)
    ensures MemberText(Tight("entitled_through", Number(n))) + ("," + ("\"issued\":" + r)) ==
            "\"entitled_through\":" + (IntText(n) + (",\"issued\":" + r))
  {
    TightNumber("entitled_through", n, "," + ("\"issued\":" + r));
    hide MemberText, IntText;
    assert "\"" + "entitled_through" + "\":" == "\"entitled_through\":";
    SeamTwo(",", "\"issued\":", ",\"issued\":", r);
  }

  lemma DiscordPart(d: string, r: string)
    ensures MemberText(Tight("discord_id", Text(d))) + ("," + ("\"entitled_through\":" + r)) ==
            "\"discord_id\":\"" + (d + ("\",\"entitled_through\":" + r))
  {
    TightText("discord_id", d, "," + ("\"entitled_through\":" + r));
    hide MemberText;
    assert "\"" + "discord_id" + "\":\"" == "\"discord_id\":\"";
    Seam("\"", ",", "\"entitled_through\":", "\",\"entitled_through\":", r);
  }

  // The signed text is itself a printed document, with no white space in it.
  lemma CanonicalIsDocument(f: Fields)
    ensures Canonical(f) == Document("", CanonicalMembers(f), "")
  {
    hide MembersText, MemberText, IntText;
    var ms := CanonicalMembers(f);
    MembersJoin(ms[0], ms[1], ms[2], ms[3], ms[4]);
    assert ms == [ms[0], ms[1], ms[2], ms[3], ms[4]];
    var r4 := f.pack + "\"}";
    PackPart(f.pack);
    var r3 := f.licence + ("\",\"pack_id\":\"" + r4);
    LicencePart(f.licence, r4);
    var r2 := IntText(f.issued) + (",\"licence_id\":\"" + r3);
    IssuedPart(f.issued, r3);
    var r1 := IntText(f.entitled) + (",\"issued\":" + r2);
    EntitledPart(f.entitled, r2);
    var r0 := f.discord + ("\",\"entitled_through\":" + r1);
    DiscordPart(f.discord, r1);
    assert MembersText(ms, "") == "\"discord_id\":\"" + r0;
    SeamTwo("{", "\"discord_id\":\"", "{\"discord_id\":\"", r0);
    assert "" + Canonical(f) == Canonical(f);
  }

  lemma CanonicalIsPlain(f: Fields)
    requires Storable(f)
    ensures AllPlain(CanonicalMembers(f))
  {
    TightIsPlain("discord_id", Text(f.discord));
    TightIsPlain("entitled_through", Number(f.entitled));
    TightIsPlain("issued", Number(f.issued));
    TightIsPlain("licence_id", Text(f.licence));
    TightIsPlain("pack_id", Text(f.pack));
    hide Plain, Tight;
  }

  lemma TightIsPlain(key: string, v: Value)
    requires Quoteless(key) && (v.Text? ==> Quoteless(v.s)) && (v.Number? ==> Int64(v.n))
    ensures Plain(Tight(key, v))
  {
  }

  // No two sets of fields have the same signed text.
  lemma CanonicalIsInjective(f: Fields, g: Fields)
    requires Storable(f) && Storable(g) && Canonical(f) == Canonical(g)
    ensures f == g
  {
    hide StrField, IntField, Document, First;
    CanonicalReads(f);
    CanonicalReads(g);
  }

  // The getters recover the fields from the signed text.
  lemma CanonicalReads(f: Fields)
    requires Storable(f)
    ensures StrField(Canonical(f), "discord_id", DISCORD_CAP) == Str(f.discord)
    ensures StrField(Canonical(f), "pack_id", PACK_CAP) == Str(f.pack)
    ensures StrField(Canonical(f), "licence_id", LICENCE_CAP) == Str(f.licence)
    ensures IntField(Canonical(f), "issued") == Int(f.issued)
    ensures IntField(Canonical(f), "entitled_through") == Int(f.entitled)
  {
    hide StrField, IntField, Document, Canonical, Quoteless;
    var ms := CanonicalMembers(f);
    CanonicalIsDocument(f);
    CanonicalIsPlain(f);
    CanonicalFirsts(f);
    WordsAreWords();
    hide First, AllPlain, Word, CanonicalMembers;
    StrReadsBack("", ms, "", "discord_id", DISCORD_CAP);
    StrReadsBack("", ms, "", "pack_id", PACK_CAP);
    StrReadsBack("", ms, "", "licence_id", LICENCE_CAP);
    IntReadsBack("", ms, "", "issued");
    IntReadsBack("", ms, "", "entitled_through");
  }

  lemma WordsAreWords()
    ensures Word("discord_id") && Word("pack_id") && Word("licence_id")
    ensures Word("issued") && Word("entitled_through") && Word("sig")
  {
  }

  lemma CanonicalFirsts(f: Fields)
    ensures var ms := CanonicalMembers(f);
            && First(ms, "discord_id") == Has(Text(f.discord)) && First(ms, "pack_id") == Has(Text(f.pack))
            && First(ms, "licence_id") == Has(Text(f.licence)) && First(ms, "issued") == Has(Number(f.issued))
            && First(ms, "entitled_through") == Has(Number(f.entitled))
  {
    var ms := CanonicalMembers(f);
    assert "discord_id"[0] == 'd' && "entitled_through"[0] == 'e' && "issued"[0] == 'i';
    assert "licence_id"[0] == 'l' && "pack_id"[0] == 'p';
    FirstStep(ms, "entitled_through");
    FirstStep(ms, "issued");
    FirstStep(ms[1..], "issued");
    FirstStep(ms, "licence_id");
    FirstStep(ms[1..], "licence_id");
    FirstStep(ms[1..][1..], "licence_id");
    FirstStep(ms, "pack_id");
    FirstStep(ms[1..], "pack_id");
    FirstStep(ms[1..][1..], "pack_id");
    FirstStep(ms[1..][1..][1..], "pack_id");
  }

  lemma FirstStep(ms: seq<Member>, key: string)
    requires ms != [] && ms[0].key != key
    ensures First(ms, key) == First(ms[1..], key)
  {
  }

  // The text that was signed always fits the buffer it is rebuilt in.
  lemma CanonicalFits(f: Fields)
    requires Storable(f)
    ensures 0 < |Canonical(f)| < CANON_CAP
  {
    hide IntText;
    IntTextLength(f.issued);
    IntTextLength(f.entitled);
  }

  // ------------------------------------------------------------------------------ judging

  datatype Verdict = Ok | Newer | Invalid
  datatype Reason = NoReason | NoField(key: string) | BadField(key: string) | SigNotSixtyFour | SigFails |
      OtherPack | NewerPack
  datatype Option<T> = None | Some(value: T)

  // A C string stops at its first NUL.
  function CString(s: string): (t: string)
    ensures t <= s && '\0' !in t && ('\0' !in s ==> t == s)
  {
    if s == [] || s[0] == '\0' then [] else [s[0]] + CString(s[1..])
  }

  // What was read of the six fields, or the first one that was missing or unusable.
  datatype Read = Failed(why: Reason) | Read(f: Fields, sig: string)

  function WhyNot(key: string, absent: bool): Read { Failed(if absent then NoField(key) else BadField(key)) }

  function Combine(d: StrResult, p: StrResult, l: StrResult, i: IntResult, e: IntResult, s: StrResult): (r: Read)
  {
    if !d.Str? then WhyNot("discord_id", d == NoStr)
    else if !p.Str? then WhyNot("pack_id", p == NoStr)
    else if !l.Str? then WhyNot("licence_id", l == NoStr)
    else if !i.Int? then WhyNot("issued", i == NoInt)
    else if !e.Int? then WhyNot("entitled_through", e == NoInt)
    else if !s.Str? then WhyNot("sig", s == NoStr)
    else Read(Fields(CString(d.s), CString(p.s), CString(l.s), i.n, e.n), CString(s.s))
  }

  function ReadFields(j: string): (r: Read) {
    Combine(StrField(j, "discord_id", DISCORD_CAP), StrField(j, "pack_id", PACK_CAP),
            StrField(j, "licence_id", LICENCE_CAP), IntField(j, "issued"), IntField(j, "entitled_through"),
            StrField(j, "sig", SIG_CAP))
  }

  lemma StrFieldFits(j: string, key: string, cap: nat)
    ensures StrField(j, key, cap).Str? ==> |StrField(j, key, cap).s| < cap && Quoteless(StrField(j, key, cap).s)
  {
    hide ValueOf;
  }

  lemma IntFieldFits(j: string, key: string)
    ensures IntField(j, key).Int? ==> Int64(IntField(j, key).n)
  {
    hide ValueOf, NatOf;
  }

  lemma ReadIsStorable(j: string)
    requires ReadFields(j).Read?
    ensures Storable(ReadFields(j).f) && |ReadFields(j).sig| < SIG_CAP
  {
    hide StrField, IntField, Combine, CString;
    StrFieldFits(j, "discord_id", DISCORD_CAP);
    StrFieldFits(j, "pack_id", PACK_CAP);
    StrFieldFits(j, "licence_id", LICENCE_CAP);
    IntFieldFits(j, "issued");
    IntFieldFits(j, "entitled_through");
    StrFieldFits(j, "sig", SIG_CAP);
    CombinedIsStorable(StrField(j, "discord_id", DISCORD_CAP), StrField(j, "pack_id", PACK_CAP),
                       StrField(j, "licence_id", LICENCE_CAP), IntField(j, "issued"), IntField(j, "entitled_through"),
                       StrField(j, "sig", SIG_CAP));
  }

  lemma CombinedIsStorable(d: StrResult, p: StrResult, l: StrResult, i: IntResult, e: IntResult, s: StrResult)
    requires (d.Str? ==> |d.s| < DISCORD_CAP && Quoteless(d.s)) && (p.Str? ==> |p.s| < PACK_CAP && Quoteless(p.s))
    requires (l.Str? ==> |l.s| < LICENCE_CAP && Quoteless(l.s)) && (s.Str? ==> |s.s| < SIG_CAP)
    requires (i.Int? ==> Int64(i.n)) && (e.Int? ==> Int64(e.n))
    ensures var r := Combine(d, p, l, i, e, s); r.Read? ==> Storable(r.f) && |r.sig| < SIG_CAP
  {
    hide CString;
  }

  // The 64 signature bytes, if that is what the text decodes to.
  function SigBytes(sig: string): Option<seq<Byte>> {
    if Base64.Decodable(sig, 64) && |Base64.Octets(Base64.Sextets(Base64.Body(sig)))| == 64
    then Some(Base64.Octets(Base64.Sextets(Base64.Body(sig)))) else None
  }

  // From the fields on. `signed` is the Ed25519 check against the public key built in.
  function JudgeFields(f: Fields, sig: string, signed: (seq<Byte>, string) -> bool, expected: Option<string>,
                       released: int)
    : (Verdict, Reason)
  {
    if SigBytes(sig) == None then (Invalid, SigNotSixtyFour)
    else if !signed(SigBytes(sig).value, Canonical(f)) then (Invalid, SigFails)
    else if expected.Some? && f.pack != expected.value then (Invalid, OtherPack)
    else if released <= f.entitled then (Ok, NoReason)
    else (Newer, NewerPack)
  }

  function Judge(j: string, signed: (seq<Byte>, string) -> bool, expected: Option<string>, released: int)
    : (Verdict, Reason)
  {
    match ReadFields(j)
    case Failed(why) => (Invalid, why)
    case Read(f, sig) => JudgeFields(f, sig, signed, expected, released)
  }

  // struct ff_licence, filled in step by step by ff_licence_verify.
  class FfLicence {
    var state: Verdict
    var reason: Reason
    var fields: Fields

    constructor ()
    {
      state, reason, fields := Invalid, NoReason, Fields("", "", "", 0, 0);
    }

    method ReadStr(j: string, key: string, cap: nat) returns (ok: bool, s: string)
      modifies this`reason
      ensures var r := StrField(j, key, cap);
              && (ok ==> r == Str(s) && reason == old(reason))
              && (!ok ==> (r == NoStr && reason == NoField(key)) || (r == BadStr && reason == BadField(key)))
    {
      var r := GetStr(j, key, cap);
      if r.Str? { return true, r.s; }
      reason := if r == NoStr then NoField(key) else BadField(key);
      return false, "";
    }

    method ReadInt(j: string, key: string) returns (ok: bool, n: int)
      modifies this`reason
      ensures var r := IntField(j, key);
              && (ok ==> r == Int(n) && reason == old(reason))
              && (!ok ==> (r == NoInt && reason == NoField(key)) || (r == BadInt && reason == BadField(key)))
    {
      var r := GetInt(j, key);
      if r.Int? { return true, r.n; }
      reason := if r == NoInt then NoField(key) else BadField(key);
      return false, 0;
    }

    // The loop over the field table.
    method FillFields(j: string) returns (ok: bool, sig: string)
      modifies this`fields, this`reason
      ensures ok ==> ReadFields(j) == Read(fields, sig) && reason == old(reason)
      ensures !ok ==> ReadFields(j) == Failed(reason)
    {
      hide StrField, IntField, CString;
      sig := "";
      var s, n;
      ok, s := ReadStr(j, "discord_id", DISCORD_CAP);
      if !ok { return; }
      fields := fields.(discord := CString(s));
      ok, s := ReadStr(j, "pack_id", PACK_CAP);
      if !ok { return; }
      fields := fields.(pack := CString(s));
      ok, s := ReadStr(j, "licence_id", LICENCE_CAP);
      if !ok { return; }
      fields := fields.(licence := CString(s));
      ok, n := ReadInt(j, "issued");
      if !ok { return; }
      fields := fields.(issued := n);
      ok, n := ReadInt(j, "entitled_through");
      if !ok { return; }
      fields := fields.(entitled := n);
      ok, s := ReadStr(j, "sig", SIG_CAP);
      if !ok { return; }
      sig := CString(s);
    }

    // ff_licence_verify
    method Verify(j: string, signed: (seq<Byte>, string) -> bool, expected: Option<string>, released: int)
      modifies this
      ensures (state, reason) == Judge(j, signed, expected, released)
      ensures ReadFields(j).Read? ==> fields == ReadFields(j).f
    {
      hide ReadFields, Canonical, Base64.Octets, Base64.Sextets, Base64.Body;
      fields := Fields("", "", "", 0, 0);
      state, reason := Invalid, NoReason;
      var ok, sig64 := FillFields(j);
      if !ok { return; }
      var sig := new Byte[64];
      var o := Base64.B64Dec(sig64, sig);
      if o != 64 {
        reason := SigNotSixtyFour;
        return;
      }
      assert SigBytes(sig64) == Some(sig[..]) by { assert sig[..64] == sig[..]; }
      var canon := new char[CANON_CAP];
      var cn := WriteCanonical(fields, canon);
      ReadIsStorable(j);
      CanonicalFits(fields);
      if cn == 0 || !signed(sig[..], canon[..cn]) {
        reason := SigFails;
        return;
      }
      if expected.Some? && fields.pack != expected.value {
        reason := OtherPack;
        return;
      }
      if released <= fields.entitled {
        state := Ok;
        return;
      }
      state, reason := Newer, NewerPack;
    }
  }

  // ------------------------------------------------------------------ what it amounts to

  // A document that states these fields, first occurrence of each key, with any other members.
  ghost predicate States(ms: seq<Member>, f: Fields, sig: string) {
    && First(ms, "discord_id") == Has(Text(f.discord)) && First(ms, "pack_id") == Has(Text(f.pack))
    && First(ms, "licence_id") == Has(Text(f.licence)) && First(ms, "issued") == Has(Number(f.issued))
    && First(ms, "entitled_through") == Has(Number(f.entitled)) && First(ms, "sig") == Has(Text(sig))
  }

  ghost predicate NulFree(f: Fields) { '\0' !in f.discord && '\0' !in f.pack && '\0' !in f.licence }

  // For every printed licence, whatever its white space, member order and values: the fields read
  // are the fields printed, so the text checked is the text that was signed.
  lemma PrintedFieldsAreRead(pre: string, ms: seq<Member>, post: string, f: Fields, sig: string)
    requires AllSpace(pre) && AllSpace(post) && AllPlain(ms) && States(ms, f, sig)
    requires Storable(f) && NulFree(f) && |sig| < SIG_CAP && '\0' !in sig
    ensures ReadFields(Document(pre, ms, post)) == Read(f, sig)
  {
    hide StrField, IntField, Document, First, AllPlain, AllSpace, Word;
    WordsAreWords();
    StrReadsBack(pre, ms, post, "discord_id", DISCORD_CAP);
    StrReadsBack(pre, ms, post, "pack_id", PACK_CAP);
    StrReadsBack(pre, ms, post, "licence_id", LICENCE_CAP);
    IntReadsBack(pre, ms, post, "issued");
    IntReadsBack(pre, ms, post, "entitled_through");
    StrReadsBack(pre, ms, post, "sig", SIG_CAP);
  }

  // With a signature that is good for the text its issuer signed, and the pack it was issued for,
  // a printed licence is OK exactly when the pack was released by the end of the entitlement, and
  // "newer" exactly when it was not.
  lemma GenuineLicence(pre: string, ms: seq<Member>, post: string, f: Fields, sigBytes: seq<Byte>,
                       signed: (seq<Byte>, string) -> bool, expected: Option<string>, released: int)
    requires AllSpace(pre) && AllSpace(post) && AllPlain(ms)
    requires States(ms, f, Base64.Encode(sigBytes)) && |sigBytes| == 64
    requires Storable(f) && NulFree(f) && signed(sigBytes, Canonical(f))
    requires expected == None || expected == Some(f.pack)
    ensures var v := Judge(Document(pre, ms, post), signed, expected, released).0;
            && (v == Ok <==> released <= f.entitled)
            && (v == Newer <==> released > f.entitled)
  {
    hide ReadFields, Document, Canonical, States, AllPlain;
    var sig := Base64.Encode(sigBytes);
    assert '\0' !in sig;
    PrintedFieldsAreRead(pre, ms, post, f, sig);
    Base64.DecodeEncode(sigBytes, 64);
  }

  // Nothing but a good signature over the fields read makes a licence pass, and two files that pass
  // on the same signed text say the same thing.
  lemma AcceptedMeansSigned(j: string, signed: (seq<Byte>, string) -> bool, expected: Option<string>, released: int)
    requires Judge(j, signed, expected, released).0 != Invalid
    ensures ReadFields(j).Read?
    ensures var r := ReadFields(j);
            && SigBytes(r.sig).Some? && signed(SigBytes(r.sig).value, Canonical(r.f))
            && (expected.Some? ==> r.f.pack == expected.value)
            && forall g: Fields :: Storable(g) && Canonical(g) == Canonical(r.f) ==> g == r.f
  {
    hide Canonical, StrField, IntField;
    var f := ReadFields(j).f;
    ReadIsStorable(j);
    forall g: Fields | Storable(g) && Canonical(g) == Canonical(f) ensures g == f {
      CanonicalIsInjective(g, f);
    }
  }
}
