/** The network that really loses: messages and acknowledgements are copies, which arrive once, get lost,
    or are duplicated. Every run here is a run of LrNetwork, so what holds there over every run holds here;
    and after the loss of everything in transit the session's timer makes it all arrive. */
module LrLossy {
  import opened Ascii
  import opened Wrappers
  import opened Decimal
  import opened LrMessage
  import opened LineReversal
  import opened LrState
  import opened LrSends
  import opened LrNetwork

  /** The copies in transit: messages on their way to the peer, acknowledgements on their way back. */
  datatype Lossy = Lossy(sys: System, toPeer: multiset<LRMessage>, toSession: multiset<int>)

  datatype LossyEvent =
    | Does(event: Event)
    | LosesMessage(message: LRMessage)
    | LosesAck(length: int)
    | CopiesMessage(message: LRMessage)
    | CopiesAck(length: int)

  function LossyStart(id: int): Lossy {
    Lossy(Start(id), multiset{}, multiset{})
  }

  /** Only a copy in transit can arrive, get lost or be duplicated. */
  predicate Possible(l: Lossy, e: LossyEvent) {
    match e
    case Does(PeerGets(m)) => Enabled(l.sys, e.event) && m in l.toPeer
    case Does(AckArrives(length)) => Enabled(l.sys, e.event) && length in l.toSession
    case Does(_) => Enabled(l.sys, e.event)
    case LosesMessage(m) => m in l.toPeer
    case LosesAck(length) => length in l.toSession
    case CopiesMessage(m) => m in l.toPeer
    case CopiesAck(length) => length in l.toSession
  }

  /** What arrives is no longer in transit. */
  function Arrived(l: Lossy, e: Event): Lossy {
    match e
    case PeerGets(m) => l.(toPeer := l.toPeer - multiset{m})
    case AckArrives(length) => l.(toSession := l.toSession - multiset{length})
    case _ => l
  }

  /** What has been sent by the step to next is in transit. */
  function Sent(l: Lossy, e: Event, next: System): Lossy {
    var start := |l.sys.session.sent|;
    Lossy(next,
          if start <= |next.session.sent| then l.toPeer + multiset(next.session.sent[start..]) else l.toPeer,
          if e.PeerAcks? then l.toSession + multiset{e.length} else l.toSession)
  }

  /** None when the session panics. */
  function LossyStep(l: Lossy, e: LossyEvent): Option<Lossy> {
    match e
    case Does(event) =>
      (match Step(l.sys, event)
       case None => None
       case Some(next) => Some(Sent(Arrived(l, event), event, next)))
    case LosesMessage(m) => Some(l.(toPeer := l.toPeer - multiset{m}))
    case LosesAck(length) => Some(l.(toSession := l.toSession - multiset{length}))
    case CopiesMessage(m) => Some(l.(toPeer := l.toPeer + multiset{m}))
    case CopiesAck(length) => Some(l.(toSession := l.toSession + multiset{length}))
  }

  datatype LossyOutcome = Impossible | Crashed | At(now: Lossy)

  function LossyRun(l: Lossy, events: seq<LossyEvent>): LossyOutcome
    decreases |events|
  {
    if events == [] then At(l)
    else if !Possible(l, events[0]) then Impossible
    else
      match LossyStep(l, events[0])
      case None => Crashed
      case Some(next) => LossyRun(next, events[1..])
  }

  // ---------- Every run is a run of the network without losses ----------

  /** The events without what the network does to the copies. */
  function Deeds(events: seq<LossyEvent>): seq<Event> {
    if events == [] then []
    else (if events[0].Does? then [events[0].event] else []) + Deeds(events[1..])
  }

  /** A network with losses does nothing to the session and the peer that one without cannot do. */
  lemma {:induction false} LossyIsRun(l: Lossy, events: seq<LossyEvent>)
    requires LossyRun(l, events) != Impossible
    ensures match LossyRun(l, events)
            case At(now) => Run(l.sys, Deeds(events)) == Reached(now.sys)
            case _ => Run(l.sys, Deeds(events)) == Panicked
    decreases |events|
  {
    hide Enabled, Step;
    if events != [] {
      var e, rest := events[0], events[1..];
      if e.Does? {
        assert ([e.event] + Deeds(rest))[1..] == Deeds(rest);
        assert Enabled(l.sys, e.event);
      } else {
        assert [] + Deeds(rest) == Deeds(rest);
      }
      if LossyStep(l, e).Some? {
        LossyIsRun(LossyStep(l, e).value, rest);
      }
    }
  }

  /** Only what was sent is in transit. */
  predicate InTransit(l: Lossy) {
    && (forall m :: m in l.toPeer ==> m in l.sys.session.sent)
    && (forall a :: a in l.toSession ==> a in l.sys.acks)
  }

  lemma InTransitStep(l: Lossy, e: LossyEvent)
    requires SysInv(l.sys) && InTransit(l) && Possible(l, e)
    ensures LossyStep(l, e).Some? && InTransit(LossyStep(l, e).value)
  {
    hide SysInv, Step, Enabled, Arrived, Sent;
    if e.Does? {
      SentGrows(l.sys, e.event);
      InTransitSent(l, e.event, Step(l.sys, e.event).value);
    }
  }

  lemma InTransitSent(l: Lossy, e: Event, next: System)
    requires InTransit(l) && l.sys.session.sent <= next.session.sent && l.sys.acks <= next.acks
    requires e.PeerAcks? ==> e.length in next.acks
    ensures InTransit(Sent(Arrived(l, e), e, next))
  {
    var t := Arrived(l, e);
    assert forall m :: m in t.toPeer ==> m in l.toPeer;
    assert forall a :: a in t.toSession ==> a in l.toSession;
    JustSent(t.toPeer, l.sys.session.sent, next.session.sent);
  }

  lemma JustSent(toPeer: multiset<LRMessage>, before: seq<LRMessage>, after: seq<LRMessage>)
    requires before <= after && forall m :: m in toPeer ==> m in before
    ensures forall m :: m in toPeer + multiset(after[|before|..]) ==> m in after
  {
  }

  /** Nothing is ever taken back from what was sent. */
  lemma SentGrows(sys: System, e: Event)
    requires SysInv(sys) && Enabled(sys, e)
    ensures Step(sys, e).Some?
    ensures sys.session.sent <= Step(sys, e).value.session.sent && sys.acks <= Step(sys, e).value.acks
    ensures e.PeerAcks? ==> e.length in Step(sys, e).value.acks
  {
    hide Inv, OnConnect, OnData, OnTimer, OnAck, Close, Assemble;
    match e
    case Connect => OnConnectInv(sys.session);
    case ClientData(data, position) => OnDataInv(sys.session, data, position);
    case Timer => OnTimerInv(sys.session);
    case PeerGets(m) =>
    case PeerAcks(length, m) =>
    case AckArrives(length) => OnAckInv(sys.session, length);
    case CloseArrives => ConnectSends(sys.session);
  }

  lemma {:induction false} LossyRunInv(l: Lossy, events: seq<LossyEvent>)
    requires SysInv(l.sys) && InTransit(l)
    ensures LossyRun(l, events) != Crashed
    ensures LossyRun(l, events).At? ==>
              SysInv(LossyRun(l, events).now.sys) && InTransit(LossyRun(l, events).now)
    decreases |events|
  {
    hide SysInv, Enabled, Step, InTransit;
    if events != [] && Possible(l, events[0]) {
      var e := events[0];
      InTransitStep(l, e);
      if e.Does? {
        StepInv(l.sys, e.event);
      }
      LossyRunInv(LossyStep(l, e).value, events[1..]);
    }
  }

  // ---------- Recovery ----------

  /** Nothing of what is in transit is left. */
  function AllLost(l: Lossy): Lossy {
    Lossy(l.sys, multiset{}, multiset{})
  }

  predicate OnlyLosses(events: seq<LossyEvent>) {
    forall e :: e in events ==> e.LosesMessage? || e.LosesAck?
  }

  lemma Member<T>(all: multiset<T>) returns (x: T)
    requires all != multiset{}
    ensures x in all
  {
    x :| x in all;
  }

  /** The network can lose everything. */
  lemma {:induction false} LoseAll(l: Lossy) returns (losses: seq<LossyEvent>)
    ensures OnlyLosses(losses) && LossyRun(l, losses) == At(AllLost(l))
    decreases |l.toPeer| + |l.toSession|
  {
    if l.toPeer != multiset{} {
      var m := Member(l.toPeer);
      var rest := LoseAll(l.(toPeer := l.toPeer - multiset{m}));
      losses := [LosesMessage(m)] + rest;
      assert losses[1..] == rest;
    } else if l.toSession != multiset{} {
      var a := Member(l.toSession);
      var rest := LoseAll(l.(toSession := l.toSession - multiset{a}));
      losses := [LosesAck(a)] + rest;
      assert losses[1..] == rest;
    } else {
      losses := [];
    }
  }

  /** What the session, the timer and the peer do by themselves: nothing new comes from the client, and the
      network neither loses nor duplicates. */
  predicate ByThemselves(events: seq<LossyEvent>) {
    forall e :: e in events ==>
      e.Does? && (e.event.Timer? || e.event.PeerGets? || e.event.PeerAcks? || e.event.AckArrives?)
  }

  lemma RunHead(sys: System, e: Event, rest: seq<Event>)
    requires Run(sys, [e] + rest).Reached?
    ensures Enabled(sys, e) && Step(sys, e).Some?
    ensures Run(Step(sys, e).value, rest) == Run(sys, [e] + rest)
  {
    assert ([e] + rest)[1..] == rest;
  }

  lemma LossyCons(l: Lossy, e: LossyEvent, next: Lossy, rest: seq<LossyEvent>)
    requires Possible(l, e) && LossyStep(l, e) == Some(next)
    ensures LossyRun(l, [e] + rest) == LossyRun(next, rest)
  {
    assert ([e] + rest)[1..] == rest;
  }

  lemma {:induction false} LossyAppend(l: Lossy, a: seq<LossyEvent>, b: seq<LossyEvent>)
    requires LossyRun(l, a).At?
    ensures LossyRun(l, a + b) == LossyRun(LossyRun(l, a).now, b)
    decreases |a|
  {
    if a == [] {
      assert a + b == b;
    } else {
      assert (a + b)[1..] == a[1..] + b;
      LossyAppend(LossyStep(l, a[0]).value, a[1..], b);
    }
  }

  lemma DoesTimer(l: Lossy, m: LRMessage) returns (next: Lossy)
    requires Enabled(l.sys, Timer) && OnTimer(l.sys.session).sent == l.sys.session.sent + [m]
    ensures Possible(l, Does(Timer)) && LossyStep(l, Does(Timer)) == Some(next)
    ensures Step(l.sys, Timer) == Some(next.sys) && m in next.toPeer
  {
    hide Enabled, OnTimer;
    next := LossyStep(l, Does(Timer)).value;
    assert next.sys.session.sent[|l.sys.session.sent|..] == [m];
  }

  lemma DoesPeerGets(l: Lossy, m: LRMessage) returns (next: Lossy)
    requires Enabled(l.sys, PeerGets(m)) && m in l.toPeer
    ensures Possible(l, Does(PeerGets(m))) && LossyStep(l, Does(PeerGets(m))) == Some(next)
    ensures Step(l.sys, PeerGets(m)) == Some(next.sys)
  {
    hide Enabled, Assemble;
    next := LossyStep(l, Does(PeerGets(m))).value;
  }

  lemma DoesPeerAcks(l: Lossy, length: int, m: LRMessage) returns (next: Lossy)
    requires Enabled(l.sys, PeerAcks(length, m))
    ensures Possible(l, Does(PeerAcks(length, m))) && LossyStep(l, Does(PeerAcks(length, m))) == Some(next)
    ensures Step(l.sys, PeerAcks(length, m)) == Some(next.sys) && length in next.toSession
  {
    hide Enabled;
    next := LossyStep(l, Does(PeerAcks(length, m))).value;
  }

  lemma DoesAckArrives(l: Lossy, length: int) returns (next: Lossy)
    requires Enabled(l.sys, AckArrives(length)) && Step(l.sys, AckArrives(length)).Some? && length in l.toSession
    ensures Possible(l, Does(AckArrives(length))) && LossyStep(l, Does(AckArrives(length))) == Some(next)
    ensures Step(l.sys, AckArrives(length)) == Some(next.sys)
  {
    hide Enabled, OnAck;
    next := LossyStep(l, Does(AckArrives(length))).value;
  }

  /** An acknowledgement of the peer reaches the session. */
  lemma AckArrivesNext(l: Lossy, m: LRMessage, top: int) returns (events: seq<LossyEvent>)
    requires Run(l.sys, [PeerAcks(top, m)] + [AckArrives(top)]).Reached?
    ensures ByThemselves(events) && LossyRun(l, events).At?
    ensures LossyRun(l, events).now.sys == Run(l.sys, [PeerAcks(top, m)] + [AckArrives(top)]).sys
  {
    hide Enabled, Step, Possible, LossyStep;
    RunHead(l.sys, PeerAcks(top, m), [AckArrives(top)]);
    var acked := DoesPeerAcks(l, top, m);
    assert [AckArrives(top)] == [AckArrives(top)] + [];
    RunHead(acked.sys, AckArrives(top), []);
    var last := DoesAckArrives(acked, top);
    LossyCons(acked, Does(AckArrives(top)), last, []);
    events := [Does(PeerAcks(top, m))] + ([Does(AckArrives(top))] + []);
    LossyCons(l, Does(PeerAcks(top, m)), acked, [Does(AckArrives(top))] + []);
  }

  /** What the timer sends reaches the peer. */
  lemma TimerArrives(l: Lossy, m: LRMessage, rest: seq<Event>) returns (events: seq<LossyEvent>)
    requires Run(l.sys, [Timer] + ([PeerGets(m)] + rest)).Reached?
    requires OnTimer(l.sys.session).sent == l.sys.session.sent + [m]
    ensures ByThemselves(events) && LossyRun(l, events).At?
    ensures Run(LossyRun(l, events).now.sys, rest) == Run(l.sys, [Timer] + ([PeerGets(m)] + rest))
  {
    hide Enabled, Step, Possible, LossyStep, OnTimer;
    RunHead(l.sys, Timer, [PeerGets(m)] + rest);
    var resent := DoesTimer(l, m);
    RunHead(resent.sys, PeerGets(m), rest);
    var got := DoesPeerGets(resent, m);
    LossyCons(resent, Does(PeerGets(m)), got, []);
    events := [Does(Timer)] + ([Does(PeerGets(m))] + []);
    LossyCons(l, Does(Timer), resent, [Does(PeerGets(m))] + []);
  }

  /** One round, whatever is in transit: the timer sends the pending message, it reaches the peer, and the
      acknowledgement comes back. */
  lemma LossyRound(l: Lossy) returns (round: seq<LossyEvent>)
    requires HonestInv(l.sys) && !l.sys.session.isClosed && l.sys.session.pending.Some?
    ensures ByThemselves(round) && LossyRun(l, round).At?
    ensures var s, next := l.sys.session, LossyRun(l, round).now.sys;
            && HonestInv(next) && !next.session.isClosed
            && next.session.accepted == s.accepted && next.session.writePosition > s.writePosition
  {
    hide Inv, OnTimer;
    var m, top := l.sys.session.pending.value.payload, l.sys.session.maxAck;
    var events := DeliverPending(l.sys);
    PendingIs(l.sys.session);
    TimerSends(l.sys.session);
    assert events == [Timer] + ([PeerGets(m)] + ([PeerAcks(top, m)] + [AckArrives(top)]));
    var sending := TimerArrives(l, m, [PeerAcks(top, m)] + [AckArrives(top)]);
    var acking := AckArrivesNext(LossyRun(l, sending).now, m, top);
    round := sending + acking;
    LossyAppend(l, sending, acking);
  }

  /** Rounds deliver everything, whatever is in transit. */
  lemma {:induction false} LossyDeliverAll(l: Lossy) returns (events: seq<LossyEvent>)
    requires HonestInv(l.sys) && !l.sys.session.isClosed
    ensures ByThemselves(events) && LossyRun(l, events).At?
    ensures LossyRun(l, events).now.sys.session.accepted == l.sys.session.accepted
    ensures LossyRun(l, events).now.sys.assembled == Output(l.sys.session)
    decreases |Output(l.sys.session)| - l.sys.session.writePosition
  {
    if l.sys.session.pending.None? {
      events := [];
    } else {
      var round := LossyRound(l);
      var rest := LossyDeliverAll(LossyRun(l, round).now);
      events := round + rest;
      LossyAppend(l, round, rest);
    }
  }

  /** The network may lose everything in transit, at any moment of any run with an honest peer that has not
      closed: the timer's messages and their acknowledgements alone, none of which was in transit then,
      bring the peer to the reversal of all accepted lines. */
  lemma RecoversFromLoss(id: int, events: seq<LossyEvent>)
    returns (losses: seq<LossyEvent>, more: seq<LossyEvent>)
    requires 0 <= id <= MAX_INTEGER
    requires LossyRun(LossyStart(id), events).At?
    requires Honest(Start(id), Deeds(events)) && CloseArrives !in Deeds(events)
    ensures OnlyLosses(losses) && ByThemselves(more)
    ensures var lost := LossyRun(LossyStart(id), events + losses);
            lost.At? && lost.now.toPeer == multiset{} && lost.now.toSession == multiset{}
    ensures var last := LossyRun(LossyStart(id), events + losses + more);
            last.At? && last.now.sys.assembled == Reversal(LossyRun(LossyStart(id), events).now.sys.session.accepted)
  {
    var start := LossyStart(id);
    InitialInv(id);
    LossyIsRun(start, events);
    RunInv(Start(id), Deeds(events));
    HonestRunInv(Start(id), Deeds(events));
    hide HonestInv, SysInv, Honest;
    var now := LossyRun(start, events).now;
    losses := LoseAll(now);
    more := LossyDeliverAll(AllLost(now));
    LossyAppend(start, events, losses);
    LossyAppend(start, events + losses, more);
  }

  /** What holds over every run without losses holds with them: no panic, the peer has a prefix of the
      reversed lines, no acknowledgement in transit exceeds maxAck, and no message is in transit that the
      session has not sent. */
  lemma LossySafety(id: int, events: seq<LossyEvent>)
    requires 0 <= id <= MAX_INTEGER
    ensures LossyRun(LossyStart(id), events) != Crashed
    ensures LossyRun(LossyStart(id), events).At? ==>
              var now := LossyRun(LossyStart(id), events).now;
              && now.sys.assembled <= Reversal(now.sys.session.accepted)
              && (forall a :: a in now.toSession ==> a <= now.sys.session.maxAck)
              && (forall m :: m in now.toPeer ==> m in now.sys.session.sent)
              && (now.sys.session.isClosed <==> CloseArrives in Deeds(events))
  {
    InitialInv(id);
    LossyRunInv(LossyStart(id), events);
    if LossyRun(LossyStart(id), events).At? {
      LossyIsRun(LossyStart(id), events);
      Safety(id, Deeds(events));
    }
  }
}
