// One EventSub session's decisions (src/ff-session.c, the session branches of src/ff-eventsub.c):
// what a message or a silence means, with the clock passed in.
module Session {
  import opened Bytes

  const WELCOME_SECS := 30
  const HANDOVER_SECS := 30

  const ID_CAP := 128
  const URL_CAP := 1024

  // ---------------------------------------------------------------- already decoded messages

  datatype SessionInfo = SessionInfo(id: string, keepalive: int, url: string)

  // What obs_data made of one text message. `session` is absent when the payload carries none.
  datatype Decoded =
    | Unusable                                             // not JSON, no metadata, or no type
    | Welcome(session: seq<SessionInfo>)
    | Reconnect(session: seq<SessionInfo>)
    | Keepalive
    | Notification(event: seq<nat>, readable: bool)        // the alert it carries, if one
    | Revocation
    | Other

  // ------------------------------------------------------------------------------- struct ff_es

  datatype Es = Es(id: string, url: string, keepalive: int, noted: bool)

  const BLANK := Es("", "", 0, false)

  datatype EsResult = Ignored | Welcomed | KeptAlive | Event(alert: nat) | Reconnecting | Revoked | Bad

  datatype Handled = Handled(es: Es, result: EsResult)

  // ff_es_handle.
  function Handle(es: Es, m: Decoded): (r: Handled)
    ensures r.result == Welcomed ==> r.es.id != "" && m.Welcome?
    ensures r.result == Reconnecting ==> r.es.url != "" && m.Reconnect?
    ensures !m.Welcome? && !m.Reconnect? ==> r.es == es.(noted := r.es.noted)
    // a message that carries a session overwrites the keepalive interval, whatever else it says
    ensures (m.Welcome? || m.Reconnect?) && m.session != [] ==> r.es.keepalive == m.session[0].keepalive
  {
    var e := es.(noted := false);
    match m
    case Unusable => Handled(e, Bad)
    case Welcome(s) =>
      if s == [] then Handled(e, Bad)
      else
        var filled := Es(Cut(s[0].id, ID_CAP), Cut(s[0].url, URL_CAP), s[0].keepalive, false);
        if filled.id == "" then Handled(filled, Bad) else Handled(filled, Welcomed)
    case Reconnect(s) =>
      if s == [] then Handled(e, Bad)
      else
        var filled := Es(Cut(s[0].id, ID_CAP), Cut(s[0].url, URL_CAP), s[0].keepalive, false);
        if filled.url == "" then Handled(filled, Bad) else Handled(filled, Reconnecting)
    case Keepalive => Handled(e, KeptAlive)
    case Notification(ev, readable) =>
      if !readable then Handled(e, Bad)
      else if ev == [] then Handled(e.(noted := true), Ignored)
      else Handled(e, Event(ev[0]))
    case Revocation => Handled(e.(noted := true), Revoked)
    case Other => Handled(e.(noted := true), Ignored)
  }

  // What a message says, whatever was heard before: a welcome or a reconnect needs what it is for, and
  // nothing else; a notification that was read may carry an alert.
  predicate Welcomes(m: Decoded) { m.Welcome? && m.session != [] && m.session[0].id != "" }

  predicate Reconnects(m: Decoded) { m.Reconnect? && m.session != [] && m.session[0].url != "" }

  function AlertIn(m: Decoded): (a: seq<nat>)
    ensures |a| <= 1
  {
    if m.Notification? && m.readable && m.event != [] then [m.event[0]] else []
  }

  predicate Remarkable(m: Decoded) {
    m.Other? || m.Revocation? || (m.Notification? && m.readable && m.event == [])
  }

  // The answer is decided by the message alone, and a session it carries is taken over whole.
  lemma AnswersExactly(es: Es, m: Decoded)
    ensures var r := Handle(es, m);
            && (r.result == Welcomed <==> Welcomes(m)) && (r.result == Reconnecting <==> Reconnects(m))
            && (forall a: nat :: r.result == Event(a) <==> AlertIn(m) == [a])
            && (r.result == KeptAlive <==> m.Keepalive?) && (r.result == Revoked <==> m.Revocation?)
            && (r.result == Ignored <==> Remarkable(m) && !m.Revocation?)
            && (r.result == Bad <==>
                  || m.Unusable? || (m.Notification? && !m.readable)
                  || (m.Welcome? && !Welcomes(m)) || (m.Reconnect? && !Reconnects(m)))
            && r.es == if (m.Welcome? || m.Reconnect?) && m.session != [] then
                         Es(Cut(m.session[0].id, ID_CAP), Cut(m.session[0].url, URL_CAP), m.session[0].keepalive, false)
                       else es.(noted := Remarkable(m))
  {
    if (m.Welcome? || m.Reconnect?) && m.session != [] {
      assert Cut(m.session[0].id, ID_CAP) == "" <==> m.session[0].id == "";
      assert Cut(m.session[0].url, URL_CAP) == "" <==> m.session[0].url == "";
    }
  }

  // ff_twitch_is_stale.
  predicate IsStale(lastMessage: int, keepalive: int, now: int) {
    keepalive > 0 && lastMessage > 0 && now > lastMessage + (keepalive * 2 + 2)
  }

  datatype Step = Nothing | Subscribe | Emit(alert: nat) | Open | Drop | Note

  // ------------------------------------------------------------------------- struct ff_session

  class FfSession {
    var es: Es
    var subscribed: bool
    var openedAt: int
    var handoverStarted: int
    var lastMessage: int
    var url: string

    // ff_session_init
    constructor (url: string)
      ensures es == BLANK && !subscribed && handoverStarted == 0 && this.url == Cut(url, URL_CAP)
    {
      es, subscribed, openedAt, handoverStarted, lastMessage := BLANK, false, 0, 0, 0;
      this.url := Cut(url, URL_CAP);
    }

    // ff_session_init_replacement
    constructor Replacement(url: string)
      ensures es == BLANK && subscribed && handoverStarted == 0 && this.url == Cut(url, URL_CAP)
    {
      es, subscribed, openedAt, handoverStarted, lastMessage := BLANK, true, 0, 0, 0;
      this.url := Cut(url, URL_CAP);
    }

    // ff_session_opened: the clocks are the socket's; `subscribed` and the handover are not.
    method Opened(now: int)
      modifies this`es, this`openedAt, this`lastMessage
      ensures es == BLANK && openedAt == now == lastMessage
    {
      es := BLANK;
      openedAt := now;
      lastMessage := now;
    }

    // ff_session_idle
    method Idle(now: int) returns (step: Step)
      ensures step == Nothing || step == Drop
      ensures step == Drop <==> Silent(now)
    {
      if es.keepalive == 0 {
        if now - openedAt > WELCOME_SECS { return Drop; }
        return Nothing;
      }
      if IsStale(lastMessage, es.keepalive, now) { return Drop; }
      return Nothing;
    }

    // Nothing heard for longer than was agreed, or than a welcome may take.
    predicate Silent(now: int)
      reads this
    {
      if es.keepalive == 0 then now - openedAt > WELCOME_SECS else IsStale(lastMessage, es.keepalive, now)
    }

    // ff_session_message
    method Message(m: Decoded, now: int) returns (step: Step)
      modifies this`es, this`lastMessage, this`url, this`handoverStarted
      ensures lastMessage == now && es == Handle(old(es), m).es
      ensures step == Subscribe <==> Welcomes(m) && !subscribed
      ensures step == Open <==> Reconnects(m)
      ensures forall a: nat :: step == Emit(a) <==> AlertIn(m) == [a]
      ensures step == Nothing <==> m.Keepalive?
      ensures step != Drop
      ensures step == Open ==> handoverStarted == now && url == es.url != ""
      ensures step != Open ==> handoverStarted == old(handoverStarted) && url == old(url)
    {
      AnswersExactly(es, m);
      lastMessage := now;
      var h := Handle(es, m);
      es := h.es;
      match h.result
      case Welcomed => return if subscribed then Note else Subscribe;
      case KeptAlive => return Nothing;
      case Event(a) => return Emit(a);
      case Reconnecting =>
        url := Cut(es.url, URL_CAP);
        handoverStarted := now;
        return Open;
      case Revoked => return Note;
      case Bad => return Note;
      case Ignored => return if es.noted then Note else Nothing;
    }

    // ff_session_subscribed
    method Subscribed(accepted: int, total: int) returns (step: Step)
      modifies this`subscribed
      ensures subscribed
      ensures step == if accepted <= 0 then Drop else if accepted < total then Note else Nothing
    {
      subscribed := true;
      if accepted <= 0 { return Drop; }
      if accepted < total { return Note; }
      return Nothing;
    }

    // ff_session_welcomed
    predicate IsWelcomed()
      reads this
    {
      es.id != ""
    }

    // ff_session_handover_expired
    predicate HandoverExpired(now: int)
      reads this
    {
      handoverStarted != 0 && now - handoverStarted > HANDOVER_SECS
    }

    // ff_session_adopt
    method Adopt(pending: FfSession, now: int)
      modifies this`es, this`openedAt, this`lastMessage, this`handoverStarted, this`subscribed
      ensures es == old(pending.es) && openedAt == now == lastMessage && handoverStarted == 0 && subscribed
    {
      es := pending.es;
      openedAt := now;
      lastMessage := now;
      handoverStarted := 0;
      subscribed := true;
    }
  }

  // ---------------------------------------------------------------------- what it amounts to

  // A silent connection is noticed in the end exactly when the interval is not negative: 0 stands
  // for "none agreed yet" and has a timeout of its own, and a negative one has none.
  lemma SilenceIsNoticed(s: FfSession, when: int)
    requires s.lastMessage > 0
    ensures s.es.keepalive >= 0 <==> exists now: int :: now >= when && s.Silent(now)
  {
    if s.es.keepalive >= 0 {
      var last := s.lastMessage + (s.es.keepalive * 2 + 2);
      var far := if last > when then last + 1 else when + 1;
      var now := if far > s.openedAt + WELCOME_SECS then far else s.openedAt + WELCOME_SECS + 1;
      assert s.Silent(now);
    }
  }

  // Once silence counts as the end of the connection it goes on doing so.
  lemma SilenceLasts(s: FfSession, now: int, later: int)
    requires s.Silent(now) && later >= now
    ensures s.Silent(later)
  {
  }

  // Whether a message names its session. Welcomes and reconnects both fill in the id.
  predicate Names(m: Decoded) { (m.Welcome? || m.Reconnect?) && m.session != [] && m.session[0].id != "" }

  // A session that has no id gets one from exactly these messages, whatever ff_es_handle answers.
  lemma NamedExactly(es: Es, m: Decoded)
    requires es.id == ""
    ensures Handle(es, m).es.id != "" <==> Names(m)
  {
    if (m.Welcome? || m.Reconnect?) && m.session != [] {
      assert Cut(m.session[0].id, ID_CAP) == "" <==> m.session[0].id == "";
    }
  }

  // A session that has just been told to reconnect: the interval is the one in that message, and
  // without one the silence is measured from when the socket opened, not from the message.
  ghost predicate ToldToReconnect(s: FfSession, es: Es, info: SessionInfo, now: int)
    reads s
  {
    s.es == Handle(es, Reconnect([info])).es && s.lastMessage == now > 0
  }

  lemma SilentAfterReconnect(s: FfSession, es: Es, info: SessionInfo, now: int, t: int)
    requires ToldToReconnect(s, es, info, now)
    ensures s.Silent(t) <==>
              || (info.keepalive == 0 && t - s.openedAt > WELCOME_SECS)
              || (info.keepalive > 0 && t > now + 2 * info.keepalive + 2)
  {
  }

  // The old socket is kept for all of the thirty seconds exactly when the message carried an interval
  // of at least 14 seconds or a negative one, or carried none on a socket that opened that moment.
  lemma OldSocketLastsExactly(s: FfSession, es: Es, info: SessionInfo, now: int)
    requires ToldToReconnect(s, es, info, now)
    ensures (forall t: int :: now <= t <= now + HANDOVER_SECS ==> !s.Silent(t)) <==>
              info.keepalive >= 14 || info.keepalive < 0 || (info.keepalive == 0 && s.openedAt >= now)
  {
    var last := now + HANDOVER_SECS;
    SilentAfterReconnect(s, es, info, now, last);
    forall t: int | now <= t <= last ensures s.Silent(t) ==> s.Silent(last) {
      SilentAfterReconnect(s, es, info, now, t);
    }
  }

  // The same of the two calls in a row.
  method ReconnectThenIdle(s: FfSession, info: SessionInfo, now: int, t: int) returns (told: Step, idle: Step)
    requires now > 0
    modifies s
    ensures told == Open <==> info.url != ""
    ensures idle == Drop <==>
              || (info.keepalive == 0 && t - s.openedAt > WELCOME_SECS)
              || (info.keepalive > 0 && t > now + 2 * info.keepalive + 2)
    ensures s.openedAt == old(s.openedAt)
  {
    ghost var es := s.es;
    told := s.Message(Reconnect([info]), now);
    assert Cut(info.url, URL_CAP) == "" <==> info.url == "";
    SilentAfterReconnect(s, es, info, now, t);
    idle := s.Idle(t);
  }
}
