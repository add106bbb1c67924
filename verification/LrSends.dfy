/** What a session puts on the wire. For every handler: which messages it sends, stated through what the
    session has accepted and what has been acknowledged to it, not through its buffers. Over every run:
    which messages it has sent at all. */
module LrSends {
  import opened Ascii
  import opened Wrappers
  import opened Decimal
  import opened LrMessage
  import opened LineReversal
  import opened LrState
  import opened LrNetwork

  /** From start to end is the longest piece of the output that fits a datagram of 999 bytes. */
  predicate LongestPiece(id: int, output: seq<Byte>, start: int, end: int) {
    && 0 <= start < end <= |output|
    && |Wire(DataMessage(id, start, output[start..end])).value| <= 999
    && (end < |output| ==> |Wire(DataMessage(id, start, output[start..end + 1])).value| > 999)
  }

  /** What goes out when nothing is pending: the longest piece of output from start on, if there is any. */
  predicate SendsFrom(id: int, output: seq<Byte>, start: int, end: int, sent: seq<LRMessage>) {
    if start == |output| then sent == [] && end == start
    else LongestPiece(id, output, start, end) && sent == [DataMessage(id, start, output[start..end])]
  }

  /** The pending message is the longest piece of the output after what has been acknowledged. It is
      missing exactly when all output has been acknowledged. */
  lemma FlushSends(s: State)
    requires Unpacked(s)
    ensures var t := Flush(s);
            && s.sent <= t.sent
            && SendsFrom(s.id, Output(s), s.writePosition, t.maxAck, t.sent[|s.sent|..])
            && (s.writePosition < |Output(s)| ==> t.timerArmed)
  {
    hide Escape, Reversal, Rest, Wire, PackCount, SentInv;
    var output := Output(s);
    if s.outgoing != [] {
      var n := PackCount(s.outgoing, Budget(s.id, s.writePosition));
      PositionInRange(s);
      PackedOk(s);
      assert s.outgoing[..n] == output[s.writePosition..s.writePosition + n];
      PackedIsLongest(s.id, s.writePosition, s.outgoing, n);
      if n < |s.outgoing| {
        PackedIsLongest(s.id, s.writePosition, s.outgoing, n + 1);
        assert s.outgoing[..n + 1] == output[s.writePosition..s.writePosition + n + 1];
      }
    }
  }

  /** Between handlers there is something pending exactly when not all output has been acknowledged; then
      the pending message carries the output from the acknowledged position to maxAck. */
  lemma PendingIs(s: State)
    requires Inv(s)
    ensures s.pending.Some? <==> s.writePosition < |Output(s)|
    ensures s.pending.Some? ==>
              && s.writePosition < s.maxAck <= |Output(s)| && s.timerArmed
              && s.pending.value.payload == DataMessage(s.id, s.writePosition, Output(s)[s.writePosition..s.maxAck])
  {
    hide Escape, Reversal, Rest, SentInv;
    if s.pending.Some? {
      assert s.outgoing[..s.pending.value.length] == Output(s)[s.writePosition..s.maxAck];
    }
  }

  /** A timeout sends the output from the acknowledged position to maxAck once more, unless all output has
      been acknowledged. Nothing else changes. */
  lemma TimerSends(s: State)
    requires Inv(s)
    ensures s.writePosition < |Output(s)| ==>
              && s.writePosition < s.maxAck
              && OnTimer(s) ==
                 s.(sent := s.sent + [DataMessage(s.id, s.writePosition, Output(s)[s.writePosition..s.maxAck])])
    ensures s.writePosition == |Output(s)| ==> OnTimer(s) == s.(timerArmed := false)
  {
    hide Inv;
    PendingIs(s);
  }

  /** A connect is answered with the acknowledgement of nothing. */
  lemma ConnectSends(s: State)
    ensures OnConnect(s) == s.(sent := s.sent + [AckMessage(s.id, 0)])
    ensures Close(s) == s.(sent := s.sent + [CloseMessage(s.id)], isClosed := true)
  {
  }

  /** An acknowledgement below what has been acknowledged is ignored; one above maxAck closes the session;
      any other is taken, and the longest piece of output after it is sent if there is any. */
  lemma AckSends(s: State, length: int)
    requires Inv(s)
    ensures OnAck(s, length).Some?
    ensures var t := OnAck(s, length).value;
            if length < s.writePosition then t == s
            else if length > s.maxAck then t == s.(sent := s.sent + [CloseMessage(s.id)], isClosed := true)
            else
              && t.writePosition == t.lastAck == length && t.accepted == s.accepted && s.sent <= t.sent
              && t.isClosed == s.isClosed && t.maxAck >= s.maxAck
              && SendsFrom(s.id, Output(s), length, t.maxAck, t.sent[|s.sent|..])
  {
    hide Flush, Unpacked, SentInv, Escape, Reversal, Rest;
    OnAckInv(s, length);
    if s.writePosition <= length <= s.maxAck {
      AckInRange(s, length);
      if s.pending.Some? {
        AcknowledgeUnpacked(s, length);
        FlushSends(Acked(s, length));
      }
    }
  }

  lemma FlushWaits(s: State)
    requires s.pending.Some?
    ensures Flush(s) == s
  {
  }

  /** Data at another position than the next one expected is answered with an acknowledgement of all bytes
      accepted so far. Data at the expected position that unescapes is accepted and acknowledged, and when
      all earlier output has been acknowledged the longest piece of the new output is sent. Anything else
      is ignored. */
  lemma DataSends(s: State, data: seq<Byte>, position: int)
    requires Inv(s) && position + |data| <= MAX_INTEGER
    ensures var t := OnData(s, data, position);
            if position != |s.accepted| then t == s.(sent := s.sent + [AckMessage(s.id, |s.accepted|)])
            else if Unescape(data) == None then t == s
            else
              && t.accepted == s.accepted + Unescape(data).value
              && t.writePosition == s.writePosition && t.isClosed == s.isClosed
              && s.sent + [AckMessage(s.id, |t.accepted|)] <= t.sent
              && if s.writePosition < |Output(s)|
                 then t.sent == s.sent + [AckMessage(s.id, |t.accepted|)] && t.maxAck == s.maxAck
                 else SendsFrom(s.id, Output(t), t.writePosition, t.maxAck, t.sent[|s.sent| + 1..])
  {
    hide Flush, Unpacked, SentInv, Escape, Unescape, Reversal, Rest;
    SecondUnescape(data);
    if position == |s.accepted| && Unescape(data).Some? {
      var bytes := Unescape(data).value;
      TakenInv(s, bytes);
      AcceptInv(s, bytes);
      PendingIs(s);
      assert Accept(s, bytes) == Flush(Taken(s, bytes));
      if s.pending.None? {
        FlushSends(Taken(s, bytes));
      } else {
        FlushWaits(Taken(s, bytes));
      }
    }
  }

  // ---------- Over every run ----------

  /** A message without data that the session may have sent. */
  predicate Covered(s: State, m: LRMessage) {
    || (m == CloseMessage(s.id) && s.isClosed)
    || (m == AckMessage(s.id, m.length) && 0 <= m.length <= |s.accepted|)
  }

  predicate WireInv(s: State) {
    && (forall m :: m in s.sent && m.kind != DATA ==> Covered(s, m))
    && (s.isClosed ==> CloseMessage(s.id) in s.sent)
  }

  /** More messages that may be sent. */
  lemma WireGrows(s: State, t: State, more: seq<LRMessage>)
    requires WireInv(s) && t.id == s.id && t.sent == s.sent + more && |s.accepted| <= |t.accepted|
    requires forall m :: m in more && m.kind != DATA ==> Covered(t, m)
    requires s.isClosed ==> t.isClosed
    requires t.isClosed ==> s.isClosed || CloseMessage(t.id) in more
    ensures WireInv(t)
  {
    forall m | m in t.sent && m.kind != DATA
      ensures Covered(t, m)
    {
      assert m in s.sent || m in more;
    }
  }

  lemma SendsOnlyData(id: int, output: seq<Byte>, start: int, end: int, sent: seq<LRMessage>)
    requires SendsFrom(id, output, start, end, sent)
    ensures forall m :: m in sent ==> m.kind == DATA
  {
    hide LongestPiece, Escape;
  }

  lemma Suffix(a: seq<LRMessage>, b: seq<LRMessage>)
    requires a <= b
    ensures b == a + b[|a|..]
  {
  }

  lemma AckWire(s: State, length: int)
    requires Inv(s) && WireInv(s)
    ensures OnAck(s, length).Some? && WireInv(OnAck(s, length).value)
  {
    hide Inv, WireInv, OnAck, SendsFrom;
    AckSends(s, length);
    OnAckInv(s, length);
    var t := OnAck(s, length).value;
    if length > s.maxAck && length >= s.writePosition {
      WireGrows(s, t, [CloseMessage(s.id)]);
    } else if length >= s.writePosition {
      Suffix(s.sent, t.sent);
      SendsOnlyData(s.id, Output(s), length, t.maxAck, t.sent[|s.sent|..]);
      WireGrows(s, t, t.sent[|s.sent|..]);
    }
  }

  lemma DataWire(s: State, data: seq<Byte>, position: int)
    requires Inv(s) && WireInv(s) && position + |data| <= MAX_INTEGER
    ensures WireInv(OnData(s, data, position))
  {
    hide Inv, WireInv, OnData, SendsFrom, Unescape, Output;
    DataSends(s, data, position);
    OnDataInv(s, data, position);
    var t := OnData(s, data, position);
    if position != |s.accepted| {
      WireGrows(s, t, [AckMessage(s.id, |s.accepted|)]);
    } else if Unescape(data).Some? {
      Suffix(s.sent + [AckMessage(s.id, |t.accepted|)], t.sent);
      var more := t.sent[|s.sent| + 1..];
      if s.writePosition < |Output(s)| {
        assert more == [];
      } else {
        SendsOnlyData(s.id, Output(t), t.writePosition, t.maxAck, more);
      }
      Assoc(s.sent, [AckMessage(s.id, |t.accepted|)], more);
      WireGrows(s, t, [AckMessage(s.id, |t.accepted|)] + more);
    }
  }

  lemma StepWire(sys: System, e: Event)
    requires SysInv(sys) && Enabled(sys, e) && WireInv(sys.session)
    ensures Step(sys, e).Some? && WireInv(Step(sys, e).value.session)
  {
    hide Inv, WireInv, OnAck, OnData, Carries, Escape;
    var s := sys.session;
    StepInv(sys, e);
    match e
    case Connect => WireGrows(s, OnConnect(s), [AckMessage(s.id, 0)]);
    case ClientData(data, position) => DataWire(s, data, position);
    case Timer =>
      PendingIs(s);
      TimerSends(s);
      WireGrows(s, OnTimer(s), if s.pending.None? then [] else [s.pending.value.payload]);
    case PeerGets(m) =>
    case PeerAcks(length, m) =>
    case AckArrives(length) => AckWire(s, length);
    case CloseArrives => WireGrows(s, Close(s), [CloseMessage(s.id)]);
  }

  lemma {:induction false} RunWire(sys: System, events: seq<Event>)
    requires SysInv(sys) && WireInv(sys.session)
    requires Run(sys, events).Reached?
    ensures WireInv(Run(sys, events).sys.session)
    decreases |events|
  {
    hide SysInv, WireInv, Enabled, Step;
    if events != [] {
      StepInv(sys, events[0]);
      StepWire(sys, events[0]);
      RunWire(Step(sys, events[0]).value, events[1..]);
    }
  }

  /** Over every run: every acknowledgement that the session has sent is for no more bytes than it has
      accepted; it has sent a close exactly when it is closed, which it is exactly when the client closed
      it; and every other message carries the reversed lines at its position. */
  lemma OnlyTheseAreSent(id: int, events: seq<Event>, m: LRMessage)
    requires 0 <= id <= MAX_INTEGER
    requires Run(Start(id), events).Reached?
    requires m in Run(Start(id), events).sys.session.sent
    ensures var s := Run(Start(id), events).sys.session;
            || (m == AckMessage(id, m.length) && 0 <= m.length <= |s.accepted|)
            || (m == CloseMessage(id) && CloseArrives in events)
            || (m.kind == DATA && Carries(m, Reversal(s.accepted)))
    ensures CloseArrives in events ==> CloseMessage(id) in Run(Start(id), events).sys.session.sent
  {
    hide Carries;
    InitialInv(id);
    RunInv(Start(id), events);
    RunWire(Start(id), events);
    var s := Run(Start(id), events).sys.session;
    assert SentOk(m, s.id, Output(s), s.maxAck);
  }
}
