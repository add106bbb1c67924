/** One session, a network that may lose, duplicate and reorder, and a peer. A run is any sequence
    of events, each taken when it is enabled. Messages in both directions stay deliverable for
    ever, so losing one is never delivering it and duplicating one is delivering it twice. */
module LrNetwork {
  import opened Ascii
  import opened Wrappers
  import opened Decimal
  import opened LrMessage
  import opened LrDecoder
  import opened LineReversal
  import opened LrState

  /** acks are the lengths the peer has acknowledged so far; assembled is what the peer has put
      together from the data messages that reached it. */
  datatype System = System(session: State, acks: set<int>, assembled: seq<Byte>)

  datatype Event =
    | Connect
    | ClientData(data: seq<Byte>, position: int)  // arrives at the session
    | Timer
    | PeerGets(message: LRMessage)                // a data message arrives at the peer
    | PeerAcks(length: int, message: LRMessage)   // the peer acknowledges up to length
    | AckArrives(length: int)                     // arrives at the session
    | CloseArrives

  function Start(id: int): System {
    System(Initial(id), {}, [])
  }

  predicate Enabled(sys: System, e: Event) {
    match e
    case Connect => !sys.session.isClosed
    // what Validate lets through
    case ClientData(data, position) =>
      !sys.session.isClosed && 0 <= position && position + |data| <= MAX_INTEGER
    // a tick that a stopped timer leaves behind finds nothing pending
    case Timer => !sys.session.isClosed && (sys.session.timerArmed || sys.session.pending.None?)
    case PeerGets(m) => m in sys.session.sent && m.kind == DATA
    // the peer acknowledges only lengths covered by a data message the session did send
    case PeerAcks(length, m) =>
      m in sys.session.sent && m.kind == DATA && Unescape(m.data).Some? && 0 <= length <= End(m)
    case AckArrives(length) => !sys.session.isClosed && length in sys.acks
    case CloseArrives => !sys.session.isClosed
  }

  /** The peer appends what is new in a data message that starts within what it already has. */
  function Assemble(assembled: seq<Byte>, m: LRMessage): seq<Byte> {
    if Unescape(m.data).Some? && 0 <= m.position <= |assembled| < End(m)
    then assembled + Unescape(m.data).value[|assembled| - m.position..]
    else assembled
  }

  /** None when the session panics. */
  function Step(sys: System, e: Event): Option<System> {
    match e
    case Connect => Some(sys.(session := OnConnect(sys.session)))
    case ClientData(data, position) => Some(sys.(session := OnData(sys.session, data, position)))
    case Timer => Some(sys.(session := OnTimer(sys.session)))
    case PeerGets(m) => Some(sys.(assembled := Assemble(sys.assembled, m)))
    case PeerAcks(length, _) => Some(sys.(acks := sys.acks + {length}))
    case AckArrives(length) =>
      (match OnAck(sys.session, length)
       case None => None
       case Some(session) => Some(sys.(session := session)))
    case CloseArrives => Some(sys.(session := Close(sys.session)))
  }

  /** What every reachable system satisfies. */
  predicate SysInv(sys: System) {
    && Inv(sys.session)
    && sys.assembled <= Output(sys.session)
    && |sys.assembled| <= sys.session.maxAck
    && forall a :: a in sys.acks ==> a <= sys.session.maxAck
  }

  lemma ExtendPrefix(a: seq<Byte>, output: seq<Byte>, start: nat, end: nat)
    requires a <= output && start <= |a| <= end <= |output|
    ensures a + output[start..end][|a| - start..] == output[..end]
  {
  }

  lemma AssembleInv(sys: System, m: LRMessage)
    requires SysInv(sys) && m in sys.session.sent && m.kind == DATA
    ensures SysInv(sys.(assembled := Assemble(sys.assembled, m)))
  {
    var output := Output(sys.session);
    assert SentOk(m, sys.session.id, output, sys.session.maxAck);
    var have := |sys.assembled|;
    if m.position <= have < End(m) {
      ExtendPrefix(sys.assembled, output, m.position, End(m));
    }
  }

  lemma DataStepInv(sys: System, data: seq<Byte>, position: int)
    requires SysInv(sys) && position + |data| <= MAX_INTEGER
    ensures SysInv(sys.(session := OnData(sys.session, data, position)))
  {
    OnDataInv(sys.session, data, position);
    var next := OnData(sys.session, data, position);
    OutputGrows(sys.session.accepted, next.accepted);
  }

  lemma OutputGrows(a: seq<Byte>, b: seq<Byte>)
    requires a <= b
    ensures Reversal(a) <= Reversal(b)
  {
    assert b == a + b[|a|..];
    ReversalAppend(a, b[|a|..]);
  }

  lemma PeerAckInv(sys: System, length: int, m: LRMessage)
    requires SysInv(sys) && Enabled(sys, PeerAcks(length, m))
    ensures SysInv(sys.(acks := sys.acks + {length}))
  {
    assert SentOk(m, sys.session.id, Output(sys.session), sys.session.maxAck);
  }

  /** Every enabled step keeps the invariant, without a panic; maxAck never moves back and the
      session is closed by nothing but the client's close. */
  lemma StepInv(sys: System, e: Event)
    requires SysInv(sys) && Enabled(sys, e)
    ensures Step(sys, e).Some?
    ensures var next := Step(sys, e).value;
            && SysInv(next)
            && next.session.id == sys.session.id
            && next.session.maxAck >= sys.session.maxAck
            && (next.session.isClosed <==> sys.session.isClosed || e == CloseArrives)
  {
    hide Inv, OnConnect, OnData, OnTimer, OnAck, Close, Assemble;
    match e
    case Connect => OnConnectInv(sys.session);
    case ClientData(data, position) =>
      OnDataInv(sys.session, data, position);
      DataStepInv(sys, data, position);
    case Timer => OnTimerInv(sys.session);
    case PeerGets(m) => AssembleInv(sys, m);
    case PeerAcks(length, m) => PeerAckInv(sys, length, m);
    case AckArrives(length) => OnAckInv(sys.session, length);
    case CloseArrives => CloseInv(sys.session);
  }

  // ---------- Runs ----------

  datatype Outcome = Disabled | Panicked | Reached(sys: System)

  /** Takes the events one after the other. */
  function Run(sys: System, events: seq<Event>): Outcome
    decreases |events|
  {
    if events == [] then Reached(sys)
    else if !Enabled(sys, events[0]) then Disabled
    else
      match Step(sys, events[0])
      case None => Panicked
      case Some(next) => Run(next, events[1..])
  }

  lemma {:induction false} RunInv(sys: System, events: seq<Event>)
    requires SysInv(sys)
    ensures Run(sys, events) != Panicked
    ensures Run(sys, events).Reached? ==>
              var last := Run(sys, events).sys;
              && SysInv(last)
              && last.session.id == sys.session.id
              && last.session.maxAck >= sys.session.maxAck
              && (last.session.isClosed <==> sys.session.isClosed || CloseArrives in events)
    decreases |events|
  {
    hide SysInv, Enabled, Step;
    if events != [] && Enabled(sys, events[0]) {
      StepInv(sys, events[0]);
      RunInv(Step(sys, events[0]).value, events[1..]);
      assert events == [events[0]] + events[1..];
    }
  }

  /** Safety, over every run of a session: no slice expression panics; what the peer has assembled
      is a prefix of the reversal of the accepted lines; no acknowledgement in the network exceeds
      maxAck, so HandleAck never closes the session: it is closed exactly when a close arrived. */
  lemma Safety(id: int, events: seq<Event>)
    requires 0 <= id <= MAX_INTEGER
    ensures Run(Start(id), events) != Panicked
    ensures Run(Start(id), events).Reached? ==>
              var last := Run(Start(id), events).sys;
              && last.assembled <= Reversal(last.session.accepted)
              && (forall a :: a in last.acks ==> a <= last.session.maxAck)
              && (last.session.isClosed <==> CloseArrives in events)
  {
    InitialInv(id);
    RunInv(Start(id), events);
  }

  /** Along every run maxAck only grows, although every repack assigns it. */
  lemma MaxAckMonotone(id: int, events: seq<Event>, later: seq<Event>)
    requires 0 <= id <= MAX_INTEGER
    requires Run(Start(id), events).Reached? && Run(Run(Start(id), events).sys, later).Reached?
    ensures var s := Run(Start(id), events).sys.session;
            s.maxAck <= Run(Run(Start(id), events).sys, later).sys.session.maxAck
  {
    InitialInv(id);
    RunInv(Start(id), events);
    RunInv(Run(Start(id), events).sys, later);
  }

  /** Any two data messages ever sent in a run, first sends, retransmissions or repacks, carry the
      same byte at every position both cover; that byte is the one of the reversed lines. */
  lemma SentMessagesAgree(id: int, events: seq<Event>, m: LRMessage, n: LRMessage, p: int)
    requires 0 <= id <= MAX_INTEGER
    requires Run(Start(id), events).Reached?
    requires m in Run(Start(id), events).sys.session.sent && m.kind == DATA
    requires n in Run(Start(id), events).sys.session.sent && n.kind == DATA
    ensures Unescape(m.data).Some? && Unescape(n.data).Some?
    ensures m.position <= p < End(m) && n.position <= p < End(n) ==>
              var output := Reversal(Run(Start(id), events).sys.session.accepted);
              && 0 <= p < |output|
              && Unescape(m.data).value[p - m.position] == Unescape(n.data).value[p - n.position] == output[p]
    ensures |Wire(m).value| <= MAX_MESSAGE_SIZE
  {
    InitialInv(id);
    RunInv(Start(id), events);
    OutputBytes(Run(Start(id), events).sys.session, m, p);
    OutputBytes(Run(Start(id), events).sys.session, n, p);
  }

  /** Every byte of a sent data message is the output byte at its position. */
  lemma OutputBytes(s: State, m: LRMessage, p: int)
    requires Inv(s) && m in s.sent && m.kind == DATA
    ensures Unescape(m.data).Some? && 0 <= m.position && |Wire(m).value| <= MAX_MESSAGE_SIZE
    ensures m.position <= p < End(m) ==>
              p < |Output(s)| && Unescape(m.data).value[p - m.position] == Output(s)[p]
  {
    hide Reversal, Escape, PendingInv;
    assert SentOk(m, s.id, Output(s), s.maxAck);
  }

  /** The decoder of this server, reading back a data message that a session has sent, recovers the
      output bytes exactly when they do not end in a backslash, and rejects the message otherwise. */
  lemma SentDecodes(s: State, m: LRMessage)
    requires Inv(s) && m in s.sent && m.kind == DATA && m.data != []
    ensures Unescape(m.data).Some? && 0 <= m.position < End(m) <= |Output(s)|
    ensures Decode(Wire(m).value) ==
            if Output(s)[End(m) - 1] != BACKSLASH
            then Some(LRMessage(DATA, s.id, m.position, Output(s)[m.position..End(m)], 0))
            else None
  {
    hide Escape, Unescape;
    assert SentOk(m, s.id, Output(s), s.maxAck);
    PositionInRange(s);
    RoundTripData(s.id, m.position, Unescape(m.data).value);
  }

  // ---------- End to end ----------

  /** The data events deliver pieces of the client's stream, each at its position and clean. */
  predicate FromStream(events: seq<Event>, stream: seq<Byte>) {
    forall e :: e in events && e.ClientData? ==>
      && 0 <= e.position && e.position + |e.data| <= |stream|
      && e.data == stream[e.position..e.position + |e.data|]
      && Clean(e.data)
  }

  lemma NextPiece(a: seq<Byte>, stream: seq<Byte>, n: nat)
    requires a <= stream && |a| + n <= |stream|
    ensures a + stream[|a|..|a| + n] <= stream
  {
  }

  /** A clean piece of the stream extends what has been accepted along the stream. */
  lemma AcceptedPiece(s: State, data: seq<Byte>, position: int, stream: seq<Byte>)
    requires s.recievedPosition == |s.accepted| && s.accepted <= stream
    requires 0 <= position <= position + |data| <= |stream|
    requires data == stream[position..position + |data|] && Clean(data)
    ensures OnData(s, data, position).accepted <= stream
  {
    hide Unescape, Clean, Reversal, Rest, PackCount;
    SecondUnescape(data);
    if position == s.recievedPosition {
      NextPiece(s.accepted, stream, |data|);
    }
  }

  lemma AcceptedStep(sys: System, e: Event, stream: seq<Byte>)
    requires SysInv(sys) && Enabled(sys, e) && sys.session.accepted <= stream
    requires FromStream([e], stream)
    ensures Step(sys, e).Some? && Step(sys, e).value.session.accepted <= stream
  {
    hide SentInv, PendingInv, Reversal, OnData;
    assert e in [e];
    if e.ClientData? {
      AcceptedPiece(sys.session, e.data, e.position, stream);
    } else if e.AckArrives? {
      OnAckInv(sys.session, e.length);
    }
  }

  lemma {:induction false} AcceptedIsPrefix(sys: System, events: seq<Event>, stream: seq<Byte>)
    requires SysInv(sys) && sys.session.accepted <= stream
    requires FromStream(events, stream)
    requires Run(sys, events).Reached?
    ensures Run(sys, events).sys.session.accepted <= stream
    decreases |events|
  {
    hide Inv;
    if events != [] {
      StepInv(sys, events[0]);
      AcceptedStep(sys, events[0], stream);
      AcceptedIsPrefix(Step(sys, events[0]).value, events[1..], stream);
    }
  }

  /** End to end: whatever the network does to the messages of both directions, what the peer
      assembles is a prefix of the reversal of the client's stream, provided no delivered piece
      contains what looks like an escape. */
  lemma EndToEnd(id: int, events: seq<Event>, stream: seq<Byte>)
    requires 0 <= id <= MAX_INTEGER
    requires FromStream(events, stream)
    requires Run(Start(id), events).Reached?
    ensures Run(Start(id), events).sys.assembled <= Reversal(stream)
  {
    InitialInv(id);
    RunInv(Start(id), events);
    AcceptedIsPrefix(Start(id), events, stream);
    OutputGrows(Run(Start(id), events).sys.session.accepted, stream);
  }

  /** For a message that arrives in order, the client's bytes are accepted unchanged exactly when
      they are clean. */
  lemma AcceptedUnchanged(s: State, data: seq<Byte>)
    requires Inv(s) && s.recievedPosition + |data| <= MAX_INTEGER
    ensures OnData(s, data, s.recievedPosition).accepted == s.accepted + data <==> Clean(data)
  {
    hide Clean, Reversal, Rest, Flush;
    SecondUnescape(data);
    if Unescape(data).Some? {
      AcceptInv(s, Unescape(data).value);
      assert (s.accepted + Unescape(data).value)[|s.accepted|..] == Unescape(data).value;
    } else {
      assert (s.accepted + data)[|s.accepted|..] == data;
    }
    assert (s.accepted + data)[|s.accepted|..] == data;
  }

  /** Without clean pieces end to end delivery fails: of the line backslash, slash the peer gets
      only the slash. */
  lemma EscapePairIsLost()
    ensures var stream := [BACKSLASH, SLASH, NEWLINE];
            var outcome := Run(Start(0), [ClientData(stream, 0)]);
            outcome.Reached? && outcome.sys.session.accepted == [SLASH, NEWLINE]
  {
    hide Accept, Inv, Unescape;
    var stream := [BACKSLASH, SLASH, NEWLINE];
    InitialInv(0);
    PairUnescapes();
    AcceptInv(Initial(0), [SLASH, NEWLINE]);
    assert [] + [SLASH, NEWLINE] == [SLASH, NEWLINE];
    assert [ClientData(stream, 0)][1..] == [];
  }

  /** The bytes backslash, slash become one byte. */
  lemma PairUnescapes()
    ensures Unescape([BACKSLASH, SLASH, NEWLINE]) == Some([SLASH, NEWLINE])
  {
    var stream := [BACKSLASH, SLASH, NEWLINE];
    assert EscapePairAt(stream, 0);
    assert stream[2..] == [NEWLINE];
    assert [NEWLINE][1..] == [];
    assert [NEWLINE] + [] == [NEWLINE];
    assert Unescape([NEWLINE]) == Some([NEWLINE]);
    assert [SLASH] + [NEWLINE] == [SLASH, NEWLINE];
  }

  // ---------- Everything can still be delivered ----------

  /** The peer only acknowledges what it has assembled. */
  predicate Honest(sys: System, events: seq<Event>)
    decreases |events|
  {
    events != [] && Enabled(sys, events[0]) && Step(sys, events[0]).Some? ==>
      && (events[0].PeerAcks? ==> events[0].length <= |sys.assembled|)
      && Honest(Step(sys, events[0]).value, events[1..])
  }

  predicate HonestInv(sys: System) {
    && SysInv(sys)
    && sys.session.writePosition <= |sys.assembled|
    && forall a :: a in sys.acks ==> a <= |sys.assembled|
  }

  lemma {:induction false} HonestRunInv(sys: System, events: seq<Event>)
    requires HonestInv(sys) && Honest(sys, events)
    requires Run(sys, events).Reached?
    ensures HonestInv(Run(sys, events).sys)
    decreases |events|
  {
    hide Inv;
    if events != [] {
      var e, next := events[0], Step(sys, events[0]).value;
      StepInv(sys, e);
      if e.AckArrives? {
        OnAckInv(sys.session, e.length);
        assert HonestInv(next);
      } else if e.ClientData? {
        OnDataInv(sys.session, e.data, e.position);
      }
      HonestRunInv(next, events[1..]);
    }
  }

  lemma {:induction false} RunAppend(sys: System, a: seq<Event>, b: seq<Event>)
    requires Run(sys, a).Reached?
    ensures Run(sys, a + b) == Run(Run(sys, a).sys, b)
    decreases |a|
  {
    if a == [] {
      assert a + b == b;
    } else {
      assert (a + b)[1..] == a[1..] + b;
      RunAppend(Step(sys, a[0]).value, a[1..], b);
    }
  }

  /** One round: the timer fires, the message it sends reaches the peer, and its acknowledgement comes back. */
  lemma DeliverPending(sys: System) returns (round: seq<Event>)
    requires HonestInv(sys) && !sys.session.isClosed && sys.session.pending.Some?
    ensures var m, top := sys.session.pending.value.payload, sys.session.maxAck;
            round == [Timer, PeerGets(m), PeerAcks(top, m), AckArrives(top)]
    ensures Run(sys, round).Reached?
    ensures var next := Run(sys, round).sys;
            && HonestInv(next) && !next.session.isClosed
            && next.session.accepted == sys.session.accepted
            && next.session.writePosition > sys.session.writePosition
  {
    hide Escape, Reversal, Rest, PackCount, Budget;
    var s := sys.session;
    var m, top := s.pending.value.payload, s.maxAck;
    assert SentOk(m, s.id, Output(s), top);
    UnescapeEscape(s.outgoing[..s.pending.value.length]);
    StepInv(sys, Timer);
    OnTimerInv(s);
    var resent := sys.(session := OnTimer(s));
    DeliverResent(resent, m);
    round := [Timer] + [PeerGets(m), PeerAcks(top, m), AckArrives(top)];
    RunCons(sys, Timer, resent, [PeerGets(m), PeerAcks(top, m), AckArrives(top)]);
  }

  lemma DeliverResent(sys: System, m: LRMessage)
    requires HonestInv(sys) && !sys.session.isClosed && sys.session.pending.Some?
    requires m in sys.session.sent && m.kind == DATA && Unescape(m.data).Some?
    requires 0 <= sys.session.lastAck <= m.position == sys.session.writePosition < End(m) == sys.session.maxAck
    ensures var top := sys.session.maxAck;
            var outcome := Run(sys, [PeerGets(m), PeerAcks(top, m), AckArrives(top)]);
            && outcome.Reached? && HonestInv(outcome.sys) && !outcome.sys.session.isClosed
            && outcome.sys.session.accepted == sys.session.accepted
            && outcome.sys.session.writePosition == top
  {
    hide Inv, OnAck, Unescape, Reversal;
    var s, top := sys.session, sys.session.maxAck;
    var got := sys.(assembled := Assemble(sys.assembled, m));
    StepInv(sys, PeerGets(m));
    assert |got.assembled| == top;
    var acked := got.(acks := got.acks + {top});
    StepInv(got, PeerAcks(top, m));
    StepInv(acked, AckArrives(top));
    OnAckInv(s, top);
    var last := Step(acked, AckArrives(top)).value;
    RunCons(acked, AckArrives(top), last, []);
    RunCons(got, PeerAcks(top, m), acked, [AckArrives(top)]);
    assert [AckArrives(top)] + [] == [AckArrives(top)];
    assert [PeerAcks(top, m)] + [AckArrives(top)] == [PeerAcks(top, m), AckArrives(top)];
    assert [PeerGets(m)] + [PeerAcks(top, m), AckArrives(top)] == [PeerGets(m), PeerAcks(top, m), AckArrives(top)];
    RunCons(sys, PeerGets(m), got, [PeerAcks(top, m), AckArrives(top)]);
  }

  lemma RunCons(sys: System, e: Event, next: System, rest: seq<Event>)
    requires Enabled(sys, e) && Step(sys, e) == Some(next)
    ensures Run(sys, [e] + rest) == Run(next, rest)
  {
    assert ([e] + rest)[1..] == rest;
  }

  lemma {:induction false} DeliverAll(sys: System) returns (events: seq<Event>)
    requires HonestInv(sys) && !sys.session.isClosed
    ensures Run(sys, events).Reached? && forall e :: e in events ==> !e.ClientData?
    ensures Run(sys, events).sys.session.accepted == sys.session.accepted
    ensures Run(sys, events).sys.assembled == Output(sys.session)
    decreases |Output(sys.session)| - sys.session.writePosition
  {
    if sys.session.pending.None? {
      events := [];
    } else {
      var round := DeliverPending(sys);
      var rest := DeliverAll(Run(sys, round).sys);
      events := round + rest;
      RunAppend(sys, round, rest);
    }
  }

  /** From every state that a run with an honest peer can reach before the client closes, the run
      can go on so that the peer ends up with the reversal of all accepted lines. */
  lemma AlwaysDeliverable(id: int, events: seq<Event>)
    requires 0 <= id <= MAX_INTEGER
    requires Honest(Start(id), events) && CloseArrives !in events
    requires Run(Start(id), events).Reached?
    ensures exists more ::
              && Run(Start(id), events + more).Reached?
              && Run(Start(id), events + more).sys.assembled == Reversal(Run(Start(id), events).sys.session.accepted)
  {
    InitialInv(id);
    RunInv(Start(id), events);
    HonestRunInv(Start(id), events);
    var more := DeliverAll(Run(Start(id), events).sys);
    RunAppend(Start(id), events, more);
  }

  /** The data events deliver clean pieces of the stream of at most two bytes. */
  predicate ShortPieces(events: seq<Event>, stream: seq<Byte>) {
    FromStream(events, stream) && forall e :: e in events && e.ClientData? ==> |e.data| <= 2
  }

  /** A clean stream can be cut into clean pieces: a backslash stays together with the byte after it. */
  lemma NextShortPiece(stream: seq<Byte>, p: nat) returns (n: nat)
    requires Clean(stream) && p < |stream|
    ensures 1 <= n <= 2 && p + n <= |stream| && Clean(stream[p..p + n])
  {
    if stream[p] == BACKSLASH {
      assert !EscapePairAt(stream, p);
      assert p + 1 < |stream|;
      n := 2;
    } else {
      n := 1;
    }
  }

  /** One more piece of a clean stream is accepted. */
  lemma TakePiece(sys: System, stream: seq<Byte>) returns (e: Event)
    requires HonestInv(sys) && !sys.session.isClosed
    requires Clean(stream) && |stream| <= MAX_INTEGER
    requires sys.session.accepted <= stream && sys.session.accepted != stream
    ensures Enabled(sys, e) && Step(sys, e).Some? && ShortPieces([e], stream)
    ensures var next := Step(sys, e).value;
            && HonestInv(next) && !next.session.isClosed
            && next.session.accepted <= stream && |next.session.accepted| > |sys.session.accepted|
  {
    hide SentInv, PendingInv, Reversal, Rest, Flush, Unescape, Clean, PackCount;
    var s := sys.session;
    var p := |s.accepted|;
    var n := NextShortPiece(stream, p);
    var data := stream[p..p + n];
    e := ClientData(data, p);
    StepInv(sys, e);
    OnDataInv(s, data, p);
    AcceptedUnchanged(s, data);
    NextPiece(s.accepted, stream, n);
  }

  lemma {:induction false} TakeAll(sys: System, stream: seq<Byte>) returns (events: seq<Event>)
    requires HonestInv(sys) && !sys.session.isClosed
    requires Clean(stream) && |stream| <= MAX_INTEGER && sys.session.accepted <= stream
    ensures Run(sys, events).Reached? && ShortPieces(events, stream)
    ensures var last := Run(sys, events).sys;
            HonestInv(last) && !last.session.isClosed && last.session.accepted == stream
    decreases |stream| - |sys.session.accepted|
  {
    if sys.session.accepted == stream {
      events := [];
    } else {
      hide HonestInv, Enabled, Step, Clean;
      var e := TakePiece(sys, stream);
      var next := Step(sys, e).value;
      var rest := TakeAll(next, stream);
      events := [e] + rest;
      RunCons(sys, e, next, rest);
    }
  }

  /** From every state that a run with an honest peer can reach before the client closes, having accepted
      a beginning of a clean stream, the run can go on with short pieces of the stream so that the peer
      ends up with the reversal of the whole stream. */
  lemma WholeStreamDeliverable(id: int, events: seq<Event>, stream: seq<Byte>) returns (more: seq<Event>)
    requires 0 <= id <= MAX_INTEGER && Clean(stream) && |stream| <= MAX_INTEGER
    requires Honest(Start(id), events) && CloseArrives !in events
    requires Run(Start(id), events).Reached?
    requires Run(Start(id), events).sys.session.accepted <= stream
    ensures ShortPieces(more, stream) && Run(Start(id), events + more).Reached?
    ensures Run(Start(id), events + more).sys.assembled == Reversal(stream)
  {
    InitialInv(id);
    RunInv(Start(id), events);
    HonestRunInv(Start(id), events);
    hide HonestInv, Enabled, Step, Clean, Inv, SysInv;
    var now := Run(Start(id), events).sys;
    var pieces := TakeAll(now, stream);
    var acks := DeliverAll(Run(now, pieces).sys);
    more := pieces + acks;
    RunAppend(now, pieces, acks);
    RunAppend(Start(id), events, more);
  }
}
