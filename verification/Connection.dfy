// The loop that keeps one EventSub connection going (src/ff-twitch.c, run_once): one socket, a
// second one during a changeover, and every socket closed on every way out.
module Connection {
  import opened Bytes
  import opened Session

  const SUB_COUNT := 7

  datatype Option<T> = None | Some(value: T)

  // ------------------------------------------------------------------- what the loop does

  // What ff_ws_conn_poll gave; `read` is whether there was memory to look at the message.
  datatype Polled = Dead | Quiet | Got(m: Decoded, read: bool)

  // Whether an answer was a message that named its session, and was read.
  predicate Naming(p: Polled) { p.Got? && p.read && Names(p.m) }

  datatype Act =
    | OpenedMain(id: nat)
    | OpenedPending(id: nat, since: int)  // with the time the handover began
    | Refused                             // an opening that failed
    | PassBegan
    | PolledPending(id: nat, answer: Polled)
    | Kept(now: int)                      // the replacement was looked at and left in place
    | GaveUp(now: int)                    // or abandoned for want of time
    | PolledMain(id: nat, answer: Polled)
    | CloseSent(id: nat)
    | Closed(id: nat)
    | Fanout(id: nat)                     // the subscriptions were asked for
    | Emitted(alert: nat)

  // A replacement, and the message that named its session, once there was one.
  datatype Held = Held(id: nat, since: int, named: Option<Decoded>)

  // Where the subscriptions came from.
  datatype Subs = NotAsked | Asked | TakenOver

  // Which sockets are held, as a record of acts shows it, and what the message just read calls for at
  // once. Broken: a rule was not kept.
  datatype Wires =
    | Broken
    | Wires(main: Option<nat>, pending: Option<Held>, looked: bool, next: nat, subs: Subs, due: Due)

  datatype Due = NothingDue | FanoutDue | AlertDue(alert: nat)

  const NOTHING_HELD := Wires(None, None, true, 0, NotAsked, NothingDue)

  // A welcome on the main socket calls for the subscriptions if there are none, and an alert for being
  // shown.
  function Called(subscribed: bool, p: Polled): Due {
    if !p.Got? || !p.read then NothingDue
    else if Welcomes(p.m) && !subscribed then FanoutDue
    else if AlertIn(p.m) != [] then AlertDue(AlertIn(p.m)[0])
    else NothingDue
  }

  predicate Settles(due: Due, a: Act) {
    match due
    case NothingDue => true
    case FanoutDue => a.Fanout?
    case AlertDue(alert) => a == Emitted(alert)
  }

  // The rules. A second socket opens only beside a first; in each pass the replacement is looked at
  // before the main socket is polled; it stays only inside its thirty seconds and is abandoned for want
  // of time only after them. Once a message has named its session nothing is polled until the main
  // socket has been closed and the replacement has taken its place. The subscriptions are asked for
  // only by a connection that has neither asked for them nor taken them over. What a message calls for
  // is the next act, and an alert is shown for no other reason.
  function Follow(w: Wires, a: Act): Wires {
    if w.Broken? || !Settles(w.due, a) then Broken
    else
      match a
      case OpenedMain(id) =>
        if w.main == None && w.pending == None && id == w.next
        then w.(main := Some(id), looked := true, next := id + 1) else Broken
      case OpenedPending(id, since) =>
        if w.main.Some? && w.pending == None && id == w.next
        then w.(pending := Some(Held(id, since, None)), next := id + 1) else Broken
      case PassBegan =>
        if w.main.Some? && !Named(w) then w.(looked := w.pending == None) else Broken
      case PolledPending(id, p) =>
        if w.pending.Some? && w.pending.value.id == id && !Named(w)
        then if Naming(p) then w.(pending := Some(w.pending.value.(named := Some(p.m)))) else w
        else Broken
      case Kept(now) =>
        if w.pending.Some? && !Named(w) && now - w.pending.value.since <= HANDOVER_SECS then w.(looked := true)
        else Broken
      case GaveUp(now) =>
        if w.pending.Some? && !Named(w) && now - w.pending.value.since > HANDOVER_SECS then w else Broken
      case Refused => if w.pending == None then w else Broken
      case PolledMain(id, p) =>
        if w.main == Some(id) && w.looked && !Named(w) then w.(due := Called(w.subs != NotAsked, p)) else Broken
      case CloseSent(id) =>
        if w.main == Some(id) && (w.pending == None || Named(w)) then w else Broken
      case Closed(id) =>
        if w.pending.Some? && w.pending.value.id == id then
          if Named(w) then Broken else w.(pending := None, looked := true)
        else if w.main != Some(id) then Broken
        else if w.pending == None then w.(main := None)
        else if Named(w) then
          w.(main := Some(w.pending.value.id), pending := None,
             subs := if w.subs == NotAsked then TakenOver else w.subs)
        else Broken
      case Fanout(id) =>
        if w.due == FanoutDue && w.main == Some(id) && w.subs == NotAsked
        then w.(subs := Asked, due := NothingDue) else Broken
      case Emitted(_) => if w.due.AlertDue? && w.main.Some? then w.(due := NothingDue) else Broken
  }

  // What the polls in a record were answered, and which openings succeeded.
  function AnswersOf(log: seq<Act>): seq<Polled> {
    if log == [] then []
    else
      var a := log[|log| - 1];
      AnswersOf(log[..|log| - 1]) + if a.PolledPending? || a.PolledMain? then [a.answer] else []
  }

  function OpeningsOf(log: seq<Act>): seq<bool> {
    if log == [] then []
    else
      var a := log[|log| - 1];
      OpeningsOf(log[..|log| - 1]) + if IsOpening(a) then [!a.Refused?] else []
  }

  predicate IsOpening(a: Act) { a.OpenedMain? || a.OpenedPending? || a.Refused? }

  // Neither a poll nor an opening.
  predicate Plain(a: Act) { !a.PolledPending? && !a.PolledMain? && !IsOpening(a) }

  // What was laid down has been given out in order, up to what is left of it.
  ghost predicate GivenOut<T>(given: seq<T>, left: seq<T>, laid: seq<T>) {
    if left == [] then laid <= given else given + left == laid
  }

  lemma GiveOut<T>(given: seq<T>, left: seq<T>, laid: seq<T>, t: T)
    requires GivenOut(given, left, laid) && (left != [] ==> t == left[0])
    ensures GivenOut(given + [t], if left == [] then [] else left[1..], laid)
  {
    if left != [] { assert given + [t] + left[1..] == given + left; }
  }

  lemma AnswersSnoc(log: seq<Act>, a: Act)
    ensures AnswersOf(log + [a]) == AnswersOf(log) + if a.PolledPending? || a.PolledMain? then [a.answer] else []
    ensures OpeningsOf(log + [a]) == OpeningsOf(log) + if IsOpening(a) then [!a.Refused?] else []
  {
    assert (log + [a])[..|log|] == log;
  }

  predicate Named(w: Wires) { w.Wires? && w.pending.Some? && w.pending.value.named.Some? }

  function Trail(log: seq<Act>): Wires {
    if log == [] then NOTHING_HELD else Follow(Trail(log[..|log| - 1]), log[|log| - 1])
  }

  function Fanouts(log: seq<Act>): nat {
    if log == [] then 0 else Fanouts(log[..|log| - 1]) + if log[|log| - 1].Fanout? then 1 else 0
  }

  function OpenedIds(log: seq<Act>): multiset<nat> {
    if log == [] then multiset{}
    else
      var a := log[|log| - 1];
      OpenedIds(log[..|log| - 1]) + Opening(a)
  }

  function ClosedIds(log: seq<Act>): multiset<nat> {
    if log == [] then multiset{}
    else
      var a := log[|log| - 1];
      ClosedIds(log[..|log| - 1]) + Closing(a)
  }

  function HeldIds(w: Wires): multiset<nat>
    requires w.Wires?
  {
    (if w.main.Some? then multiset{w.main.value} else multiset{}) +
    (if w.pending.Some? then multiset{w.pending.value.id} else multiset{})
  }

  lemma TrailSnoc(log: seq<Act>, a: Act)
    ensures Trail(log + [a]) == Follow(Trail(log), a)
    ensures Fanouts(log + [a]) == Fanouts(log) + if a.Fanout? then 1 else 0
  {
    assert (log + [a])[..|log|] == log;
  }

  // In any record that keeps the rules, what is open is what was opened and not closed; no socket
  // is opened twice or closed without being open; and at most two are open.
  lemma {:induction false} SocketsBalance(log: seq<Act>)
    requires Trail(log).Wires?
    ensures OpenedIds(log) == ClosedIds(log) + HeldIds(Trail(log)) && |HeldIds(Trail(log))| <= 2
    ensures forall id: nat :: OpenedIds(log)[id] == if id < Trail(log).next then 1 else 0
    ensures Numbered(Trail(log))
  {
    hide Trail, OpenedIds, ClosedIds, Follow, HeldIds, Numbered, Opening, Closing;
    if log == [] {
      NothingBalances();
    } else {
      var front, a := log[..|log| - 1], log[|log| - 1];
      assert log == front + [a];
      IdsSnoc(front, a);
      TrailSnoc(front, a);
      FrontKeepsRules(front, a);
      SocketsBalance(front);
      BalanceOneMore(Trail(front), a, OpenedIds(front), ClosedIds(front));
    }
  }

  lemma FrontKeepsRules(log: seq<Act>, a: Act)
    requires Trail(log + [a]).Wires?
    ensures Trail(log).Wires?
  {
    TrailSnoc(log, a);
  }

  lemma NothingBalances()
    ensures HeldIds(Trail([])) == multiset{} == OpenedIds([]) == ClosedIds([]) && Trail([]).next == 0
    ensures OpenedIds([]) == ClosedIds([]) + HeldIds(Trail([])) && |HeldIds(Trail([]))| == 0 && Numbered(Trail([]))
  {
  }

  lemma IdsSnoc(log: seq<Act>, a: Act)
    ensures OpenedIds(log + [a]) == OpenedIds(log) + Opening(a)
    ensures ClosedIds(log + [a]) == ClosedIds(log) + Closing(a)
  {
    hide Opening, Closing;
    assert (log + [a])[..|log|] == log;
  }

  lemma BalanceOneMore(w: Wires, a: Act, o: multiset<nat>, c: multiset<nat>)
    requires w.Wires? && Follow(w, a).Wires? && Numbered(w) && o == c + HeldIds(w)
    requires forall id: nat :: o[id] == if id < w.next then 1 else 0
    ensures var v := Follow(w, a);
            && o + Opening(a) == (c + Closing(a)) + HeldIds(v) && |HeldIds(v)| <= 2 && Numbered(v)
            && forall id: nat :: (o + Opening(a))[id] == if id < v.next then 1 else 0
  {
    StepNumbers(w, a);
    hide Follow, HeldIds, Numbered, Closing;
    BalanceStep(w, a);
    Balanced(o, c, HeldIds(w), Opening(a), Closing(a), HeldIds(Follow(w, a)));
    NextNumber(o, w.next, Opening(a), Follow(w, a).next);
    HeldAtMostTwo(Follow(w, a));
  }

  lemma HeldAtMostTwo(w: Wires)
    requires w.Wires?
    ensures |HeldIds(w)| <= 2
  {
  }

  // Socket numbers below the next one are in use, once each, and two held sockets differ.
  ghost predicate Numbered(w: Wires) {
    w.Wires? ==>
      && (w.main.Some? ==> w.main.value < w.next) && (w.pending.Some? ==> w.pending.value.id < w.next)
      && (w.main.Some? && w.pending.Some? ==> w.main.value != w.pending.value.id)
  }

  function Opening(a: Act): multiset<nat> {
    if a.OpenedMain? || a.OpenedPending? then multiset{a.id} else multiset{}
  }

  function Closing(a: Act): multiset<nat> { if a.Closed? then multiset{a.id} else multiset{} }

  lemma StepNumbers(w: Wires, a: Act)
    requires w.Wires? && Follow(w, a).Wires? && Numbered(w)
    ensures Numbered(Follow(w, a))
    ensures if a.OpenedMain? || a.OpenedPending? then a.id == w.next && Follow(w, a).next == w.next + 1
            else Follow(w, a).next == w.next
  {
  }

  lemma StepHeld(w: Wires, a: Act)
    requires w.Wires? && Follow(w, a).Wires? && !a.Closed?
    ensures HeldIds(Follow(w, a)) == HeldIds(w) + Opening(a)
  {
    hide Follow;
    OpenSocket(w, a);
  }

  lemma OpenSocket(w: Wires, a: Act)
    requires w.Wires? && Follow(w, a).Wires? && !a.Closed?
    ensures var v := Follow(w, a);
            if a.OpenedMain? then w.main == None && w.pending == None && v.main == Some(a.id) && v.pending == None
            else if a.OpenedPending? then
              w.pending == None && v.main == w.main && v.pending.Some? && v.pending.value.id == a.id
            else
              && v.main == w.main && v.pending.Some? == w.pending.Some?
              && (w.pending.Some? ==> v.pending.value.id == w.pending.value.id)
  {
  }

  lemma StepClosed(w: Wires, id: nat)
    requires w.Wires? && Follow(w, Closed(id)).Wires?
    ensures HeldIds(w) == multiset{id} + HeldIds(Follow(w, Closed(id)))
  {
    hide Follow;
    ClosedSocket(w, id);
  }

  lemma ClosedSocket(w: Wires, id: nat)
    requires w.Wires? && Follow(w, Closed(id)).Wires?
    ensures var v := Follow(w, Closed(id));
            || (w.pending.Some? && w.pending.value.id == id && v.main == w.main && v.pending == None)
            || (w.main == Some(id) && w.pending == None && v.main == None && v.pending == None)
            || (w.main == Some(id) && w.pending.Some? && v.main == Some(w.pending.value.id) && v.pending == None)
  {
  }

  lemma BalanceStep(w: Wires, a: Act)
    requires w.Wires? && Follow(w, a).Wires?
    ensures Opening(a) + HeldIds(w) == Closing(a) + HeldIds(Follow(w, a))
  {
    hide Follow, HeldIds;
    if a.Closed? {
      StepClosed(w, a.id);
      assert multiset{} + HeldIds(w) == HeldIds(w);
    } else {
      StepHeld(w, a);
      assert multiset{} + HeldIds(Follow(w, a)) == HeldIds(Follow(w, a));
    }
  }

  lemma Balanced(o: multiset<nat>, c: multiset<nat>, h: multiset<nat>, op: multiset<nat>, cl: multiset<nat>,
                 h': multiset<nat>)
    requires o == c + h && op + h == cl + h'
    ensures o + op == (c + cl) + h'
  {
    assert o + op == c + (op + h);
    assert c + (cl + h') == (c + cl) + h';
  }

  lemma NextNumber(o: multiset<nat>, next: nat, op: multiset<nat>, next': nat)
    requires forall id: nat :: o[id] == if id < next then 1 else 0
    requires (op == multiset{} && next' == next) || (op == multiset{next} && next' == next + 1)
    ensures forall id: nat :: (o + op)[id] == if id < next' then 1 else 0
  {
  }

  // The rules hold of every part of the record up to some moment, not only of the whole.
  lemma {:induction false} RulesHoldThroughout(log: seq<Act>, n: nat)
    requires Trail(log).Wires? && n <= |log|
    ensures Trail(log[..n]).Wires?
    decreases |log| - n
  {
    if n < |log| {
      RulesHoldThroughout(log, n + 1);
      assert log[..n + 1][..n] == log[..n];
    } else {
      assert log[..n] == log;
    }
  }

  // ---------------------------------------------------------------------- the outside world

  // Sockets, the clock and Twitch's answers. What polls and openings answer can be laid down
  // beforehand, for as long as wanted; past that, and for everything else, nothing is determined.
  class World {
    ghost var log: seq<Act>
    ghost const laidPolls: seq<Polled>
    ghost const laidOpens: seq<bool>
    var next: nat
    var polls: seq<Polled>
    var opens: seq<bool>

    constructor (polls: seq<Polled>, opens: seq<bool>)
      ensures log == [] && next == 0 && this.polls == laidPolls == polls && this.opens == laidOpens == opens
      ensures AsLaid()
    {
      log, next, this.polls, this.opens, laidPolls, laidOpens := [], 0, polls, opens, polls, opens;
    }

    // The record shows the answers that were laid down, in order.
    ghost predicate AsLaid()
      reads this`log, this`polls, this`opens
    {
      GivenOut(AnswersOf(log), polls, laidPolls) && GivenOut(OpeningsOf(log), opens, laidOpens)
    }

    lemma OutInOrder()
      requires AsLaid()
      ensures AnswersOf(log) <= laidPolls || laidPolls <= AnswersOf(log)
      ensures OpeningsOf(log) <= laidOpens || laidOpens <= OpeningsOf(log)
    {
    }

    ghost method Record(a: Act)
      requires AsLaid() && Plain(a)
      modifies this`log
      ensures AsLaid() && log == old(log) + [a]
    {
      AnswersSnoc(log, a);
      assert AnswersOf(log) + [] == AnswersOf(log) && OpeningsOf(log) + [] == OpeningsOf(log);
      log := log + [a];
    }

    // ff_net_ws_open; `since` is recorded for a replacement.
    method Open(pending: bool, ghost since: int) returns (id: Option<nat>)
      requires AsLaid()
      modifies `log, `next, `opens
      ensures AsLaid()
      ensures old(opens) != [] ==> id.Some? == old(opens)[0] && opens == old(opens)[1..]
      ensures id == None ==> log == old(log) + [Refused] && next == old(next)
      ensures id.Some? ==> id.value == old(next) && next == old(next) + 1
      ensures id.Some? ==> log == old(log) + [if pending then OpenedPending(id.value, since) else OpenedMain(id.value)]
    {
      hide AnswersOf, OpeningsOf, GivenOut;
      var ok: bool := *;
      if opens != [] { ok := opens[0]; }
      ghost var a := if !ok then Refused else if pending then OpenedPending(next, since) else OpenedMain(next);
      AnswersSnoc(log, a);
      GiveOut(OpeningsOf(log), opens, laidOpens, ok);
      assert AnswersOf(log) + [] == AnswersOf(log);
      if opens != [] { opens := opens[1..]; }
      log := log + [a];
      if !ok { return None; }
      id := Some(next);
      next := next + 1;
    }

    method Close(id: nat)
      requires AsLaid()
      modifies this`log
      ensures AsLaid() && log == old(log) + [Closed(id)]
    {
      Record(Closed(id));
    }

    method SendClose(id: nat)
      requires AsLaid()
      modifies this`log
      ensures AsLaid() && log == old(log) + [CloseSent(id)]
    {
      Record(CloseSent(id));
    }

    method Poll(id: nat, pending: bool) returns (p: Polled)
      requires AsLaid()
      modifies `log, `polls
      ensures AsLaid()
      ensures old(polls) != [] ==> p == old(polls)[0] && polls == old(polls)[1..]
      ensures log == old(log) + [if pending then PolledPending(id, p) else PolledMain(id, p)]
    {
      hide AnswersOf, OpeningsOf, GivenOut;
      p := *;
      if polls != [] { p := polls[0]; }
      ghost var a := if pending then PolledPending(id, p) else PolledMain(id, p);
      AnswersSnoc(log, a);
      GiveOut(AnswersOf(log), polls, laidPolls, p);
      assert OpeningsOf(log) + [] == OpeningsOf(log);
      if polls != [] { polls := polls[1..]; }
      log := log + [a];
    }

    // time(NULL), on a clock that has been set.
    method Now() returns (t: int)
      ensures t > 0
    {
      t :| t > 0;
    }

    // One request for each alert type.
    method SubscribeAll(id: nat) returns (accepted: nat)
      requires AsLaid()
      modifies this`log
      ensures AsLaid() && log == old(log) + [Fanout(id)] && accepted <= SUB_COUNT
    {
      Record(Fanout(id));
      accepted := 0;
      for i := 0 to SUB_COUNT
        invariant accepted <= i && log == old(log) + [Fanout(id)] && AsLaid()
      {
        var ok: bool := *;
        if ok { accepted := accepted + 1; }
      }
    }
  }

  // ------------------------------------------------------------------- the locals of run_once

  datatype Flow = GoOn | NextPass | Leave(reconnecting: bool)

  class Locals {
    const world: World
    const sess: FfSession
    var main: nat                 // net
    var pending: Option<nat>
    var psess: FfSession
    var started: int
    var ranLong: bool

    constructor (world: World, sess: FfSession)
      ensures this.world == world && this.sess == sess && psess != sess && fresh(psess) && pending == None && !ranLong
    {
      this.world := world;
      this.sess := sess;
      main, pending, started, ranLong := 0, None, 0, false;
      psess := new FfSession("");
    }

    // The record keeps the rules and shows the sockets these variables name; a replacement's session
    // has no id yet; and the session knows whether the subscriptions were asked for or taken over.
    ghost predicate SocketsOk()
      reads this, world, sess, psess
    {
      SocketsDue(NothingDue)
    }

    ghost predicate SocketsDue(due: Due)
      reads this, world, sess, psess
    {
      && psess != sess && world.AsLaid()
      && var w := Trail(world.log);
      && w.Wires? && w.main == Some(main) && w.next == world.next && w.due == due
      && (pending == None <==> w.pending == None)
      && (pending.Some? ==> w.pending.value.id == pending.value && !Named(w) && psess.es.id == "")
      && (sess.subscribed <==> w.subs != NotAsked)
    }

    // The handover clock the session keeps is the one the replacement was opened under.
    ghost predicate ClockOk()
      reads this, world, sess
    {
      pending.Some? && Trail(world.log).Wires? && Trail(world.log).pending.Some? ==>
        Trail(world.log).pending.value.since == sess.handoverStarted != 0
    }

    ghost predicate Ok()
      reads this, world, sess, psess
    {
      SocketsOk() && ClockOk()
    }

    ghost predicate Looked()
      reads this, world
    {
      Trail(world.log).Wires? && Trail(world.log).looked
    }

    // The replacement is polled, and its session reads what was said.
    method HearPending() returns (p: Polled)
      requires Ok() && pending.Some?
      modifies world`log, world`polls, psess
      ensures old(world.polls) != [] ==> p == old(world.polls)[0] && world.polls == old(world.polls)[1..]
      ensures world.AsLaid() && world.log == old(world.log) + [PolledPending(pending.value, p)]
      ensures psess.es.id != "" <==> Naming(p)
      ensures if Naming(p) then Named(Trail(world.log)) && psess.es == Handle(old(psess.es), p.m).es else Ok()
      ensures Trail(world.log).Wires? && Trail(world.log).(pending := None) == Trail(old(world.log)).(pending := None)
      ensures Trail(world.log).pending.Some? && Trail(world.log).pending.value.id == pending.value
    {
      hide Trail, World.AsLaid;
      ghost var log := world.log;
      p := world.Poll(pending.value, true);
      TrailSnoc(log, PolledPending(pending.value, p));
      if p.Got? && p.read {
        NamedExactly(psess.es, p.m);
        var now := world.Now();
        var _ := psess.Message(p.m, now);
      }
    }

    // The replacement first. A message that names its session makes the swap, whatever kind of
    // message it is; a dead socket is dropped; otherwise it stays inside its thirty seconds.
    method LookAtPending() returns (flow: Flow, ghost p: Polled)
      requires Ok() && pending.Some?
      modifies `pending, `main, `started, world`log, world`polls, sess, psess
      ensures Ok() && (flow == GoOn ==> Looked())
      ensures old(world.polls) != [] ==> p == old(world.polls)[0] && world.polls == old(world.polls)[1..]
      ensures flow == NextPass <==> Naming(p)
      ensures Naming(p) ==>
                && main == old(pending.value) && pending == None && sess.subscribed
                && world.log ==
                   old(world.log) + [PolledPending(old(pending.value), p), CloseSent(old(main)), Closed(old(main))]
      ensures !Naming(p) ==> main == old(main) && sess.subscribed == old(sess.subscribed)
      ensures p == Dead ==> flow == GoOn && pending == None
      ensures p != Dead && !Naming(p) ==>
                (if pending == None then flow == Leave(true) else flow == GoOn && pending == old(pending))
      ensures p == Dead ==>
                world.log == old(world.log) + [PolledPending(old(pending.value), p)] + [Closed(old(pending.value))]
      ensures p != Dead && !Naming(p) ==>
                && |world.log| >= |old(world.log)| + 2
                && var now := world.log[|old(world.log)| + 1];
                var polled := old(world.log) + [PolledPending(old(pending.value), p)];
                if pending == None then
                  && now.GaveUp? && now.now - sess.handoverStarted > HANDOVER_SECS
                  && world.log == polled + [now] + [Closed(old(pending.value))]
                else
                  now.Kept? && now.now - sess.handoverStarted <= HANDOVER_SECS && world.log == polled + [now]
    {
      hide Trail, Follow, World.AsLaid;
      var q := HearPending();
      p := q;
      if q == Dead {
        GiveUpPending();
        return GoOn, p;
      }
      if q.Got? {
        if psess.IsWelcomed() {
          SwapTo(pending.value);
          return NextPass, p;
        }
      }
      flow := KeepOrGiveUp();
    }

    // A replacement that has not been named: is there time left for it?
    method KeepOrGiveUp() returns (flow: Flow)
      requires Ok() && pending.Some?
      modifies `pending, world`log
      ensures Ok() && Looked()
      ensures if pending == None then flow == Leave(true) else flow == GoOn && pending == old(pending)
      ensures |world.log| > |old(world.log)|
      ensures var now := world.log[|old(world.log)|];
              if pending == None then
                && now.GaveUp? && now.now - sess.handoverStarted > HANDOVER_SECS
                && world.log == old(world.log) + [now] + [Closed(old(pending.value))]
              else now.Kept? && now.now - sess.handoverStarted <= HANDOVER_SECS && world.log == old(world.log) + [now]
    {
      hide Trail, World.AsLaid;
      var now := world.Now();
      if sess.HandoverExpired(now) {
        NoteTime(GaveUp(now));
        GiveUpPending();
        return Leave(true);
      }
      NoteTime(Kept(now));
      return GoOn;
    }

    // What was decided, and when.
    ghost method NoteTime(a: Act)
      requires Ok() && pending.Some? && (a.Kept? || a.GaveUp?)
      requires a.Kept? <==> a.now - sess.handoverStarted <= HANDOVER_SECS
      modifies world`log
      ensures Ok() && world.log == old(world.log) + [a] && (a.Kept? ==> Looked())
    {
      hide Trail, World.AsLaid;
      ghost var log := world.log;
      world.Record(a);
      TrailSnoc(log, a);
    }

    method GiveUpPending()
      requires Ok() && pending.Some?
      modifies `pending, world`log
      ensures Ok() && pending == None && Looked() && world.log == old(world.log) + [Closed(old(pending.value))]
    {
      hide Trail, World.AsLaid;
      ghost var log := world.log;
      world.Close(pending.value);
      TrailSnoc(log, Closed(pending.value));
      pending := None;
    }

    // A message has named the replacement's session, and the old socket still stands.
    ghost predicate ReadyToSwap(id: nat)
      reads this, world, sess
    {
      && world.AsLaid() && psess != sess && pending == Some(id) && Named(Trail(world.log))
      && var w := Trail(world.log);
      && w.main == Some(main) && w.next == world.next && w.due == NothingDue && w.pending.value.id == id
      && (sess.subscribed <==> w.subs != NotAsked)
    }

    // The old socket goes, once a message has named the replacement's session.
    method SwapTo(id: nat)
      requires ReadyToSwap(id)
      modifies `main, `pending, `started, world`log, sess
      ensures Ok() && pending == None && main == id && sess.subscribed && sess.es == psess.es
      ensures world.log == old(world.log) + [CloseSent(old(main)), Closed(old(main))]
    {
      hide Trail, World.AsLaid;
      LeaveOld(id);
      ghost var log := world.log;
      SocketsDiffer(log);
      world.Close(main);
      TrailSnoc(log, Closed(main));
      main := id;
      pending := None;
      var now := world.Now();
      sess.Adopt(psess, now);
      started := world.Now();
    }

    method LeaveOld(id: nat)
      requires ReadyToSwap(id)
      modifies world`log
      ensures ReadyToSwap(id) && world.log == old(world.log) + [CloseSent(main)]
    {
      hide Trail, World.AsLaid;
      ghost var log := world.log;
      SocketsDiffer(log);
      world.SendClose(main);
      TrailSnoc(log, CloseSent(main));
    }

    // The main socket: what it says, or that it says nothing.
    method HearMain() returns (flow: Flow, ghost p: Polled)
      requires Ok() && Looked()
      modifies this, world, sess
      ensures Ok() && (psess == old(psess) || fresh(psess)) && main == old(main)
      ensures flow != GoOn && (flow == Leave(true) ==> pending == None)
      ensures old(world.polls) != [] ==> p == old(world.polls)[0] && world.polls == old(world.polls)[1..]
      ensures p == Dead || (p.Got? && !p.read) ==> flow == Leave(false)
      ensures !(p.Got? && p.read) ==>
                world.log == old(world.log) + [PolledMain(main, p)] && flow in {NextPass, Leave(false)}
      ensures p.Got? && p.read ==>
                var m, polled := p.m, old(world.log) + [PolledMain(main, p)];
                && (Reconnects(m) ==> Replaced(polled, old(pending)) && (flow == NextPass <==> pending.Some?))
                && (Reconnects(m) && old(world.opens) != [] ==> pending.Some? == old(world.opens)[0])
                && (Reconnects(m) && pending.Some? ==> pending.value == old(world.next))
                && (Welcomes(m) && !old(sess.subscribed) ==> world.log == polled + [Fanout(main)])
                && (AlertIn(m) != [] ==> world.log == polled + [Emitted(AlertIn(m)[0])] && flow == NextPass)
                && (AlertIn(m) == [] && !Reconnects(m) && !(Welcomes(m) && !old(sess.subscribed)) ==>
                      world.log == polled && flow == NextPass)
                && sess.subscribed == (old(sess.subscribed) || Welcomes(m))
    {
      hide Trail, World.AsLaid;
      var polled := PollMain();
      p := polled;
      if polled == Dead { return Leave(false), p; }
      if polled == Quiet {
        var now := world.Now();
        var step := sess.Idle(now);
        if step == Nothing { return NextPass, p; }
        flow := ActOn(step);
        return;
      }
      if !polled.read { return Leave(false), p; }
      flow := HearMessage(polled.m);
    }

    // A message on the main socket.
    method HearMessage(m: Decoded) returns (flow: Flow)
      requires SocketsDue(Called(sess.subscribed, Got(m, true))) && ClockOk()
      modifies this, world, sess
      ensures Ok() && (psess == old(psess) || fresh(psess)) && main == old(main) && world.polls == old(world.polls)
      ensures flow != GoOn && (flow == Leave(true) ==> pending == None)
      ensures var before := old(world.log);
              && (Reconnects(m) ==> Replaced(before, old(pending)) && (flow == NextPass <==> pending.Some?))
              && (Reconnects(m) && old(world.opens) != [] ==> pending.Some? == old(world.opens)[0])
              && (Reconnects(m) && pending.Some? ==> pending.value == old(world.next))
              && (Welcomes(m) && !old(sess.subscribed) ==> world.log == before + [Fanout(main)])
              && (AlertIn(m) != [] ==> world.log == before + [Emitted(AlertIn(m)[0])] && flow == NextPass)
              && (AlertIn(m) == [] && !Reconnects(m) && !(Welcomes(m) && !old(sess.subscribed)) ==>
                    world.log == before && flow == NextPass)
              && sess.subscribed == (old(sess.subscribed) || Welcomes(m))
    {
      hide Trail, World.AsLaid;
      var now := world.Now();
      var step := sess.Message(m, now);
      if step == Subscribe { step := AskForAll(); }
      flow := ActOn(step);
    }

    method PollMain() returns (p: Polled)
      requires Ok() && Looked()
      modifies world`log, world`polls
      ensures SocketsDue(Called(sess.subscribed, p)) && ClockOk()
      ensures world.log == old(world.log) + [PolledMain(main, p)]
      ensures old(world.polls) != [] ==> p == old(world.polls)[0] && world.polls == old(world.polls)[1..]
    {
      hide Trail, World.AsLaid;
      ghost var log := world.log;
      p := world.Poll(main, false);
      TrailSnoc(log, PolledMain(main, p));
    }

    // The fan-out, for a session that was welcomed and has no subscriptions.
    method AskForAll() returns (step: Step)
      requires SocketsDue(FanoutDue) && ClockOk() && !sess.subscribed
      modifies world`log, sess`subscribed
      ensures Ok() && sess.subscribed && world.log == old(world.log) + [Fanout(main)]
      ensures step in {Drop, Note, Nothing}
    {
      hide Trail, World.AsLaid;
      ghost var log := world.log;
      var accepted := world.SubscribeAll(main);
      TrailSnoc(log, Fanout(main));
      step := sess.Subscribed(accepted, SUB_COUNT);
    }

    // What opening a replacement adds to a record: an earlier one goes first.
    ghost predicate Replaced(before: seq<Act>, earlier: Option<nat>)
      reads this, world, sess, psess
    {
      && world.log == before + (if earlier.Some? then [Closed(earlier.value)] else [])
                             + [if pending.Some? then OpenedPending(pending.value, sess.handoverStarted) else Refused]
      && (pending.Some? ==> psess.subscribed && psess.es == BLANK && psess.url == Cut(sess.url, URL_CAP))
    }

    // The end of a pass: show the alert, open the replacement, or leave.
    method ActOn(step: Step) returns (flow: Flow)
      requires SocketsDue(if step.Emit? then AlertDue(step.alert) else NothingDue)
      requires (step == Open ==> sess.handoverStarted != 0) && (step != Open ==> ClockOk())
      modifies this, world
      ensures Ok() && (psess == old(psess) || fresh(psess)) && main == old(main) && world.polls == old(world.polls)
      ensures step == Open ==>
                && Replaced(old(world.log), old(pending))
                && flow == if pending.Some? then NextPass else Leave(true)
      ensures step == Open && old(world.opens) != [] ==> pending.Some? == old(world.opens)[0]
      ensures step == Open && pending.Some? ==> pending.value == old(world.next)
      ensures step != Open ==> pending == old(pending) && psess == old(psess) && world.opens == old(world.opens)
      ensures step != Open ==> world.log == old(world.log) + if step.Emit? then [Emitted(step.alert)] else []
      ensures step != Open ==> flow == if step == Drop then Leave(false) else NextPass
    {
      hide Trail, World.AsLaid;
      flow := NextPass;
      if step.Emit? {
        ghost var log := world.log;
        world.Record(Emitted(step.alert));
        TrailSnoc(log, Emitted(step.alert));
      } else if step == Open {
        OpenReplacement();
        if pending == None { return Leave(true); }
      } else if step == Drop {
        return Leave(false);
      }
      var now := world.Now();
      if now - started > 60 { ranLong := true; }
    }

    // A second socket next to the first; one opened for an earlier reconnect goes.
    method OpenReplacement()
      requires SocketsOk() && sess.handoverStarted != 0
      modifies `pending, `psess, world`log, world`next, world`opens
      ensures Ok() && (psess == old(psess) || fresh(psess)) && Replaced(old(world.log), old(pending))
      ensures old(world.opens) != [] ==> pending.Some? == old(world.opens)[0]
      ensures pending.Some? ==> pending.value == old(world.next)
    {
      hide Trail, World.AsLaid;
      if pending.Some? { DropEarlier(); }
      ghost var log := world.log;
      pending := world.Open(true, sess.handoverStarted);
      if pending == None {
        TrailSnoc(log, Refused);
        return;
      }
      TrailSnoc(log, OpenedPending(pending.value, sess.handoverStarted));
      psess := new FfSession.Replacement(sess.url);
      var now := world.Now();
      psess.Opened(now);
    }

    method DropEarlier()
      requires SocketsOk() && pending.Some?
      modifies `pending, world`log
      ensures SocketsOk() && pending == None && world.log == old(world.log) + [Closed(old(pending.value))]
    {
      hide Trail, World.AsLaid;
      ghost var log := world.log;
      world.Close(pending.value);
      TrailSnoc(log, Closed(pending.value));
      pending := None;
    }

    ghost predicate Unconnected()
      reads this, world, sess
    {
      && psess != sess && pending == None && world.AsLaid()
      && var w := Trail(world.log);
      && w.Wires? && w.main == None && w.pending == None && w.next == world.next && w.due == NothingDue
      && (sess.subscribed <==> w.subs != NotAsked)
    }

    // The top of the outer loop.
    method OpenMain() returns (connected: bool)
      requires Unconnected()
      modifies `main, `started, world`log, world`next, world`opens, sess
      ensures if connected then Ok() else Unconnected()
      ensures old(world.opens) != [] ==> connected == old(world.opens)[0] && world.opens == old(world.opens)[1..]
      ensures world.log == old(world.log) + [if connected then OpenedMain(main) else Refused]
      ensures connected ==> main == old(world.next) && world.next == main + 1
      ensures pending == None && sess.subscribed == old(sess.subscribed) && (connected ==> sess.es == BLANK)
    {
      hide Trail, World.AsLaid;
      ghost var before := world.log;
      var first := world.Open(false, 0);
      if first == None {
        TrailSnoc(before, Refused);
        return false;
      }
      TrailSnoc(before, OpenedMain(first.value));
      main := first.value;
      var now := world.Now();
      sess.Opened(now);
      started := world.Now();
      return true;
    }

    // Out of the inner loop: the replacement goes, then the main socket, with a close frame.
    method CloseAll()
      requires Ok()
      modifies this`pending, world`log
      ensures Unconnected() && world.log != []
    {
      hide Trail, World.AsLaid;
      if pending.Some? { GiveUpPending(); }
      SayGoodbye();
      ghost var log := world.log;
      world.Close(main);
      TrailSnoc(log, Closed(main));
    }

    method SayGoodbye()
      requires Ok() && pending == None
      modifies world`log
      ensures Ok() && world.log == old(world.log) + [CloseSent(main)]
    {
      hide Trail, World.AsLaid;
      ghost var log := world.log;
      world.SendClose(main);
      TrailSnoc(log, CloseSent(main));
    }

    method BeginPass()
      requires Ok()
      modifies world`log
      ensures Ok() && world.log == old(world.log) + [PassBegan] && (pending == None ==> Looked())
    {
      ghost var log := world.log;
      world.Record(PassBegan);
      TrailSnoc(log, PassBegan);
    }

    // One pass of the inner loop.
    method OnePass() returns (flow: Flow)
      requires Ok()
      modifies this, world, sess, psess
      ensures Ok() && (psess == old(psess) || fresh(psess))
      ensures flow != GoOn && (flow == Leave(true) ==> pending == None)
    {
      ghost var p: Polled;
      BeginPass();
      if pending.Some? {
        flow, p := LookAtPending();
        if flow != GoOn { return; }
      }
      flow, p := HearMain();
    }
  }

  lemma SocketsDiffer(log: seq<Act>)
    requires Trail(log).Wires? && Trail(log).main.Some? && Trail(log).pending.Some?
    ensures Trail(log).main.value != Trail(log).pending.value.id
  {
    SocketsBalance(log);
  }

  lemma NothingDone()
    ensures Trail([]) == NOTHING_HELD && Fanouts([]) == 0
  {
  }

  lemma NoneHeld(w: Wires)
    requires w.Wires? && w.main == None && w.pending == None
    ensures HeldIds(w) == multiset{}
  {
  }

  // ---------------------------------------------------------- what named the replacement

  // The messages on socket id, while it was a replacement, that named its session.
  function NamedBy(log: seq<Act>, id: nat): seq<Decoded> {
    if log == [] then []
    else
      var a := log[|log| - 1];
      NamedBy(log[..|log| - 1], id) + if a.PolledPending? && a.id == id && Naming(a.answer) then [a.answer.m] else []
  }

  // A welcome with an id was heard on socket id while it was a replacement.
  ghost predicate WelcomeHeard(log: seq<Act>, id: nat) {
    exists j :: 0 <= j < |log| && log[j].PolledPending? && log[j].id == id && Naming(log[j].answer) &&
        log[j].answer.m.Welcome?
  }

  // The main socket is closed and the replacement takes its place.
  predicate SwapAt(log: seq<Act>, k: nat)
    requires k < |log|
  {
    && log[k].Closed? && Trail(log[..k]).Wires? && Trail(log[..k]).pending.Some?
    && Trail(log[..k]).main == Some(log[k].id) && Trail(log[..k]).pending.value.id != log[k].id
  }

  lemma NamedBySnoc(log: seq<Act>, a: Act, id: nat)
    ensures NamedBy(log + [a], id) ==
            NamedBy(log, id) + if a.PolledPending? && a.id == id && Naming(a.answer) then [a.answer.m] else []
  {
    assert (log + [a])[..|log|] == log;
  }

  lemma {:induction false} WelcomeIsNamed(log: seq<Act>, id: nat)
    ensures WelcomeHeard(log, id) <==> exists m :: m in NamedBy(log, id) && m.Welcome?
    decreases |log|
  {
    if log != [] {
      var front, a := log[..|log| - 1], log[|log| - 1];
      WelcomeIsNamed(front, id);
      NamedBySnoc(front, a, id);
      assert log == front + [a];
      assert forall j :: 0 <= j < |front| ==> log[j] == front[j];
      hide NamedBy;
      assert forall m :: m in NamedBy(log, id) ==>
        m in NamedBy(front, id) || (a.PolledPending? && a.id == id && Naming(a.answer) && m == a.answer.m);
    }
  }

  // In a record that keeps the rules, a replacement is named by at most one message, and a number
  // not given out yet by none.
  lemma {:induction false} NamedAtMostOnce(log: seq<Act>, id: nat)
    requires Trail(log).Wires?
    ensures NamesAgree(Trail(log), id, NamedBy(log, id))
    decreases |log|
  {
    if log != [] {
      var front, a := log[..|log| - 1], log[|log| - 1];
      assert log == front + [a];
      FrontKeepsRules(front, a);
      TrailSnoc(front, a);
      NamedAtMostOnce(front, id);
      NamedBySnoc(front, a, id);
      SocketsBalance(front);
      NamedStep(Trail(front), a, id, NamedBy(front, id));
      hide Trail, NamedBy, Numbered;
    }
  }

  ghost predicate NamesAgree(w: Wires, id: nat, ms: seq<Decoded>)
    requires w.Wires?
  {
    && (id >= w.next ==> ms == [])
    && (w.pending.Some? && w.pending.value.id == id ==>
          ms == if w.pending.value.named.Some? then [w.pending.value.named.value] else [])
  }

  lemma NamedStep(w: Wires, a: Act, id: nat, ms: seq<Decoded>)
    requires w.Wires? && Follow(w, a).Wires? && Numbered(w) && NamesAgree(w, id, ms)
    ensures NamesAgree(Follow(w, a), id,
              ms + if a.PolledPending? && a.id == id && Naming(a.answer) then [a.answer.m] else [])
  {
    hide Naming;
  }

  // Over every run: a swap comes exactly one message after which the replacement has a name, and it
  // comes after a welcome exactly when that message, the first to name it, is a welcome.
  lemma SwapsHearWelcomeExactly(log: seq<Act>, k: nat)
    requires Trail(log).Wires? && k < |log| && SwapAt(log, k)
    ensures var id := Trail(log[..k]).pending.value.id;
            && |NamedBy(log[..k], id)| == 1
            && (WelcomeHeard(log[..k], id) <==> NamedBy(log[..k], id)[0].Welcome?)
  {
    var upTo, id := log[..k], Trail(log[..k]).pending.value.id;
    RulesHoldThroughout(log, k + 1);
    assert log[..k + 1] == upTo + [log[k]];
    TrailSnoc(upTo, log[k]);
    NamedAtMostOnce(upTo, id);
    WelcomeIsNamed(upTo, id);
    hide NamedBy, WelcomeHeard, Trail;
    assert NamedBy(upTo, id)[0] in NamedBy(upTo, id);
  }

  // -------------------------------------------------------- where the subscriptions came from

  // A replacement took over before any fan-out.
  ghost predicate SwapFirst(log: seq<Act>) {
    exists k :: 0 <= k < |log| && SwapAt(log, k) && Fanouts(log[..k]) == 0
  }

  lemma {:induction false} SubscriptionsExactly(log: seq<Act>)
    requires Trail(log).Wires?
    ensures Fanouts(log) == if Trail(log).subs == Asked then 1 else 0
    ensures Trail(log).subs == TakenOver <==> SwapFirst(log)
    decreases |log|
  {
    if log == [] {
      NothingDone();
    } else {
      var front, a := log[..|log| - 1], log[|log| - 1];
      assert log == front + [a];
      FrontKeepsRules(front, a);
      SubscriptionsExactly(front);
      SwapFirstSnoc(front, a);
      SubsStep(front, a);
    }
  }

  lemma SwapFirstSnoc(log: seq<Act>, a: Act)
    ensures SwapFirst(log + [a]) <==> SwapFirst(log) || (SwapAt(log + [a], |log|) && Fanouts(log) == 0)
  {
    hide Trail, Fanouts, SwapAt;
    var more := log + [a];
    assert more[..|log|] == log;
    forall k | 0 <= k < |log|
      ensures SwapAt(more, k) == SwapAt(log, k) && Fanouts(more[..k]) == Fanouts(log[..k])
    {
      SwapAtPrefix(log, a, k);
    }
  }

  lemma SwapAtPrefix(log: seq<Act>, a: Act, k: nat)
    requires k < |log|
    ensures (log + [a])[..k] == log[..k] && SwapAt(log + [a], k) == SwapAt(log, k)
  {
    assert (log + [a])[..k] == log[..k] && (log + [a])[k] == log[k];
    hide Trail;
  }

  lemma SubsStep(log: seq<Act>, a: Act)
    requires Trail(log + [a]).Wires? && Trail(log).Wires?
    ensures var w, v := Trail(log), Trail(log + [a]);
            && (v.subs == Asked <==> w.subs == Asked || a.Fanout?) && (a.Fanout? ==> w.subs == NotAsked)
            && (v.subs == TakenOver <==> w.subs == TakenOver || (SwapAt(log + [a], |log|) && w.subs == NotAsked))
            && Fanouts(log + [a]) == Fanouts(log) + if a.Fanout? then 1 else 0
  {
    TrailSnoc(log, a);
    assert (log + [a])[..|log|] == log && (log + [a])[|log|] == a;
    var w := Trail(log);
    if w.main.Some? && w.pending.Some? { SocketsDiffer(log); }
    hide Trail, Fanouts;
    SubsFollow(w, a);
    hide Follow;
  }

  lemma SubsFollow(w: Wires, a: Act)
    requires w.Wires? && Follow(w, a).Wires? && (w.main.Some? && w.pending.Some? ==> w.main.value != w.pending.value.id)
    ensures var v := Follow(w, a);
            var swap := a.Closed? && w.pending.Some? && w.main == Some(a.id);
            && (a.Fanout? ==> w.subs == NotAsked)
            && v.subs == if a.Fanout? then Asked else if swap && w.subs == NotAsked then TakenOver else w.subs
  {
  }

  // ------------------------------------------------------------- what is done about a message

  // The alerts read on the main socket, and those shown.
  function Heard(log: seq<Act>): seq<nat> {
    if log == [] then []
    else
      var a := log[|log| - 1];
      Heard(log[..|log| - 1]) + if a.PolledMain? && a.answer.Got? && a.answer.read then AlertIn(a.answer.m) else []
  }

  function Shown(log: seq<Act>): seq<nat> {
    if log == [] then []
    else
      var a := log[|log| - 1];
      Shown(log[..|log| - 1]) + if a.Emitted? then [a.alert] else []
  }

  // Over every run: each alert read on the main socket is shown, once and in order, and nothing else
  // is; only the one read last may still be due.
  lemma {:induction false} AlertsAreShown(log: seq<Act>)
    requires Trail(log).Wires?
    ensures Heard(log) == Shown(log) + if Trail(log).due.AlertDue? then [Trail(log).due.alert] else []
    decreases |log|
  {
    if log == [] {
      NothingDone();
    } else {
      var front, a := log[..|log| - 1], log[|log| - 1];
      assert log == front + [a];
      FrontKeepsRules(front, a);
      TrailSnoc(front, a);
      AlertsAreShown(front);
      AlertStep(Trail(front), a);
    }
  }

  lemma AlertStep(w: Wires, a: Act)
    requires w.Wires? && Follow(w, a).Wires?
    ensures var heard := if a.PolledMain? && a.answer.Got? && a.answer.read then AlertIn(a.answer.m) else [];
            var v := Follow(w, a);
            && (w.due.AlertDue? ==> a == Emitted(w.due.alert) && v.due == NothingDue && heard == [])
            && (!w.due.AlertDue? ==> !a.Emitted?)
            && (!w.due.AlertDue? ==> if heard != [] then v.due == AlertDue(heard[0]) else !v.due.AlertDue?)
  {
  }

  // A welcome read on the main socket while there were no subscriptions.
  ghost predicate WelcomedAt(log: seq<Act>, k: nat)
    requires k < |log|
  {
    && log[k].PolledMain? && log[k].answer.Got? && log[k].answer.read && Welcomes(log[k].answer.m)
    && Trail(log[..k]).Wires? && Trail(log[..k]).subs == NotAsked
  }

  // What follows such a welcome at once is the fan-out on its socket, and what follows an alert is that
  // it is shown.
  lemma NextActAnswers(log: seq<Act>, k: nat)
    requires Trail(log).Wires? && k + 1 < |log| && log[k].PolledMain? && log[k].answer.Got? && log[k].answer.read
    ensures WelcomedAt(log, k) ==> log[k + 1] == Fanout(log[k].id)
    ensures AlertIn(log[k].answer.m) != [] ==> log[k + 1] == Emitted(AlertIn(log[k].answer.m)[0])
  {
    hide Trail, Follow, Called;
    RulesHoldThroughout(log, k + 2);
    RulesHoldThroughout(log, k + 1);
    RulesHoldThroughout(log, k);
    assert log[..k + 1] == log[..k] + [log[k]] && log[..k + 2] == log[..k + 1] + [log[k + 1]];
    TrailSnoc(log[..k], log[k]);
    TrailSnoc(log[..k + 1], log[k + 1]);
    NextStepAnswers(Trail(log[..k]), log[k], log[k + 1]);
  }

  lemma NextStepAnswers(w: Wires, a: Act, b: Act)
    requires w.Wires? && Follow(w, a).Wires? && Follow(Follow(w, a), b).Wires?
    requires a.PolledMain? && a.answer.Got? && a.answer.read
    ensures Welcomes(a.answer.m) && w.subs == NotAsked ==> b == Fanout(a.id)
    ensures AlertIn(a.answer.m) != [] ==> b == Emitted(AlertIn(a.answer.m)[0])
  {
  }

  // The subscriptions are asked for exactly if there was such a welcome.
  lemma {:induction false} FanoutExactly(log: seq<Act>)
    requires Trail(log).Wires?
    ensures Trail(log).subs == Asked || Trail(log).due == FanoutDue <==>
              exists k :: 0 <= k < |log| && WelcomedAt(log, k)
    ensures Trail(log).due == FanoutDue ==> Trail(log).subs == NotAsked
    decreases |log|
  {
    if log == [] {
      NothingDone();
    } else {
      var front, a := log[..|log| - 1], log[|log| - 1];
      assert log == front + [a];
      FrontKeepsRules(front, a);
      TrailSnoc(front, a);
      FanoutExactly(front);
      FanoutStep(Trail(front), a);
      hide Trail;
      forall k | 0 <= k < |front| ensures WelcomedAt(log, k) == WelcomedAt(front, k) {
        assert log[..k] == front[..k] && log[k] == front[k];
      }
      assert log[..|front|] == front;
      if k :| 0 <= k < |front| && WelcomedAt(front, k) { assert WelcomedAt(log, k); }
      if Trail(log).due == FanoutDue { assert WelcomedAt(log, |front|); }
    }
  }

  lemma FanoutStep(w: Wires, a: Act)
    requires w.Wires? && Follow(w, a).Wires? && (w.due == FanoutDue ==> w.subs == NotAsked)
    ensures var v := Follow(w, a);
            var read := a.PolledMain? && a.answer.Got? && a.answer.read;
            var welcome := read && Welcomes(a.answer.m) && w.subs == NotAsked;
            && (v.due == FanoutDue <==> welcome) && (v.due == FanoutDue ==> v.subs == NotAsked)
            && (v.subs == Asked <==> w.subs == Asked || w.due == FanoutDue)
  {
  }

  // Nothing can come before the first opening.
  lemma FirstAct(log: seq<Act>)
    requires Trail(log).Wires? && log != []
    ensures log[0] in {OpenedMain(0), Refused}
    ensures OpeningsOf(log) != [] && OpeningsOf(log)[0] == !log[0].Refused?
  {
    RulesHoldThroughout(log, 1);
    assert log[..1] == [] + [log[0]] && log[..1][..0] == [];
    TrailSnoc([], log[0]);
    AnswersSnoc([], log[0]);
    hide Trail;
    OpeningsGrow(log, 1);
  }

  lemma {:induction false} OpeningsGrow(log: seq<Act>, n: nat)
    requires n <= |log|
    ensures OpeningsOf(log[..n]) <= OpeningsOf(log)
    decreases |log| - n
  {
    if n < |log| {
      OpeningsGrow(log, n + 1);
      assert log[..n + 1][..n] == log[..n];
    } else {
      assert log[..n] == log;
    }
  }

  const TWITCH_URL := "wss://eventsub.wss.twitch.tv/ws"

  // run_once, from the first socket on. `passes` bounds how long the thread is left running; it may
  // be stopped earlier, at any pass. Whatever happens, every socket is closed exactly once by the
  // end, polls and openings were answered as laid down, never more than two sockets are open, and the
  // subscriptions are asked for at most once; a session
  // that counts as subscribed without their having been asked for is exactly one that was swapped
  // onto a replacement first.
  method RunOnce(passes: nat, polls: seq<Polled>, opens: seq<bool>)
    returns (ranLong: bool, subscribed: bool, ghost log: seq<Act>)
    ensures Trail(log).Wires? && Trail(log).main == None && Trail(log).pending == None
    ensures log != [] && log[0] in {OpenedMain(0), Refused} && (opens != [] ==> (log[0] == OpenedMain(0) <==> opens[0]))
    ensures AnswersOf(log) <= polls || polls <= AnswersOf(log)
    ensures OpeningsOf(log) <= opens || opens <= OpeningsOf(log)
    ensures OpenedIds(log) == ClosedIds(log)
    ensures Shown(log) == Heard(log)
    ensures Fanouts(log) <= 1 && (Fanouts(log) == 1 <==> exists k :: 0 <= k < |log| && WelcomedAt(log, k))
    ensures subscribed && Fanouts(log) == 0 <==> SwapFirst(log)
  {
    hide Trail, Follow, Fanouts, OpenedIds, ClosedIds, SwapFirst, AnswersOf, OpeningsOf, World.AsLaid;
    var world := new World(polls, opens);
    var sess := new FfSession(TWITCH_URL);
    var l := new Locals(world, sess);
    NothingDone();
    var left := passes;
    ghost var tried := false;
    while true
      invariant l.world == world && l.sess == sess && l.psess != sess
      invariant fresh(world) && fresh(sess) && fresh(l) && fresh(l.psess)
      invariant l.Unconnected() && (tried ==> world.log != [])
      decreases left
    {
      var connected := l.OpenMain();
      tried := true;
      if !connected { break; }
      var reconnecting := false;
      ghost var at := left;
      while left > 0
        invariant l.world == world && l.sess == sess && l.Ok() && !reconnecting && left <= at
        invariant fresh(world) && fresh(sess) && fresh(l) && fresh(l.psess)
        decreases left
      {
        var running: bool := *;
        if !running { break; }
        left := left - 1;
        var flow := l.OnePass();
        if flow.Leave? {
          reconnecting := flow.reconnecting;
          break;
        }
      }
      l.CloseAll();
      if !reconnecting { break; }
    }
    AllTold(world.log);
    world.OutInOrder();
    return l.ranLong, sess.subscribed, world.log;
  }

  // What a record shows in which every socket is closed again.
  lemma AllTold(log: seq<Act>)
    requires Trail(log).Wires? && Trail(log).main == None && Trail(log).pending == None && log != []
    ensures OpenedIds(log) == ClosedIds(log) && Fanouts(log) <= 1
    ensures Trail(log).subs != NotAsked && Fanouts(log) == 0 <==> SwapFirst(log)
    ensures Trail(log).due == NothingDue ==>
              Shown(log) == Heard(log) && (Fanouts(log) == 1 <==> exists k :: 0 <= k < |log| && WelcomedAt(log, k))
    ensures log[0] in {OpenedMain(0), Refused}
    ensures OpeningsOf(log) != [] && OpeningsOf(log)[0] == !log[0].Refused?
  {
    hide Trail, Follow, Fanouts, OpenedIds, ClosedIds, SwapFirst, OpeningsOf;
    SocketsBalance(log);
    NoneHeld(Trail(log));
    SubscriptionsExactly(log);
    AlertsAreShown(log);
    FanoutExactly(log);
    FirstAct(log);
  }

  const AGAIN := Got(Reconnect([SessionInfo("AQ", 10, "wss://r2")]), true)

  function NeverWelcomedRecord(since: int): seq<Act> {
    [OpenedMain(0), PassBegan, PolledMain(0, AGAIN), OpenedPending(1, since),
     PassBegan, PolledPending(1, AGAIN), CloseSent(0), Closed(0)]
  }

  lemma NeverWelcomedStart(since: int)
    ensures var log := NeverWelcomedRecord(since);
            && Trail(log[..4]) == Wires(Some(0), Some(Held(1, since, None)), true, 2, NotAsked, NothingDue)
            && Fanouts(log[..4]) == 0
  {
    hide Trail, Fanouts;
    var log, w := NeverWelcomedRecord(since), Wires(Some(0), None, true, 1, NotAsked, NothingDue);
    assert log[..0] == [];
    NothingDone();
    Unroll(log, 0, NOTHING_HELD, w);
    Unroll(log, 1, w, w);
    Unroll(log, 2, w, w);
    Unroll(log, 3, w, Wires(Some(0), Some(Held(1, since, None)), true, 2, NotAsked, NothingDue));
  }

  lemma NeverWelcomedTrail(since: int)
    ensures var log := NeverWelcomedRecord(since);
            && Trail(log[..7]) == Wires(Some(0), Some(Held(1, since, Some(AGAIN.m))), false, 2, NotAsked, NothingDue)
            && Trail(log).Wires? && Fanouts(log) == 0
  {
    hide Trail, Fanouts;
    ReconnectAnswer();
    var log := NeverWelcomedRecord(since);
    var h := Wires(Some(0), Some(Held(1, since, None)), false, 2, NotAsked, NothingDue);
    var n := h.(pending := Some(Held(1, since, Some(AGAIN.m))));
    NeverWelcomedStart(since);
    Unroll(log, 4, h.(looked := true), h);
    Unroll(log, 5, h, n);
    Unroll(log, 6, n, n);
    Unroll(log, 7, n, Wires(Some(1), None, false, 2, TakenOver, NothingDue));
    assert log[..8] == log;
  }

  lemma NeverWelcomedRules(since: int)
    ensures var log := NeverWelcomedRecord(since);
            && Trail(log).Wires? && SwapAt(log, 7) && Trail(log[..7]).pending.value.id == 1
            && !WelcomeHeard(log[..7], 1) && Fanouts(log) == 0
  {
    hide Trail, Fanouts;
    NeverWelcomedTrail(since);
  }

  lemma Unroll(log: seq<Act>, k: nat, w: Wires, v: Wires)
    requires k < |log| && Trail(log[..k]) == w && Fanouts(log[..k]) == 0 && !log[k].Fanout? && Follow(w, log[k]) == v
    ensures Trail(log[..k + 1]) == v && Fanouts(log[..k + 1]) == 0
  {
    assert log[..k + 1] == log[..k] + [log[k]];
    TrailSnoc(log[..k], log[k]);
    hide Follow;
  }

  // Two passes in which the old socket is given up for a replacement that was never welcomed, and
  // the session ends up subscribed without a fan-out: a reconnect message comes before any welcome,
  // and the first message on the replacement is another one.
  method NeverWelcomed() returns (subscribed: bool, ghost log: seq<Act>)
    ensures Trail(log).Wires? && |log| == 8 && SwapAt(log, 7) && Trail(log[..7]).pending.value.id == 1
    ensures !WelcomeHeard(log[..7], 1) && subscribed && Fanouts(log) == 0
  {
    hide Trail, Follow, Fanouts, WelcomeHeard, SwapAt, NeverWelcomedRecord, Locals.SocketsOk, Locals.ClockOk;
    hide World.AsLaid;
    var world := new World([AGAIN, AGAIN], [true, true]);
    var sess := new FfSession(TWITCH_URL);
    var l := new Locals(world, sess);
    NothingDone();
    ghost var p: Polled;
    var flow: Flow;
    var _ := l.OpenMain();
    l.BeginPass();
    flow, p := l.HearMain();
    ReconnectAnswer();
    ghost var since := sess.handoverStarted;
    l.BeginPass();
    flow, p := l.LookAtPending();
    log, subscribed := world.log, sess.subscribed;
    SameRecord(log, since);
    NeverWelcomedRules(since);
  }

  lemma ReconnectAnswer()
    ensures Naming(AGAIN) && Reconnects(AGAIN.m) && Called(false, AGAIN) == NothingDue
  {
    assert AGAIN.m.session[0].url != "" && AGAIN.m.session[0].id != "";
  }

  lemma SameRecord(log: seq<Act>, since: int)
    requires log == [OpenedMain(0)] + [PassBegan] + [PolledMain(0, AGAIN)] + [] + [OpenedPending(1, since)]
                    + [PassBegan] + [PolledPending(1, AGAIN), CloseSent(0), Closed(0)]
    ensures log == NeverWelcomedRecord(since)
  {
  }
}
