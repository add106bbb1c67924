/** The state of one line reversal session and what each of its handlers does to it, as functions
    on values. The class in LrSession.dfy is proved to compute exactly these functions; the runs in
    LrNetwork.dfy are runs of them. Models internal/linereversal/session.go. */
module LrState {
  import opened Ascii
  import opened Wrappers
  import opened Decimal
  import opened LrMessage
  import opened LineReversal

  datatype Pending = Pending(length: nat, payload: LRMessage)

  /** accepted and sent are histories: every byte taken from the client and every message sent. */
  datatype State = State(
    id: int,
    isClosed: bool,
    lastAck: int,
    maxAck: int,
    recievedPosition: int,
    pending: Option<Pending>,
    timerArmed: bool,
    outgoing: seq<Byte>,
    writePosition: int,
    dataStore: seq<Byte>,
    accepted: seq<Byte>,
    sent: seq<LRMessage>)

  function Initial(id: int): State {
    State(id, false, 0, 0, 0, None, true, [], 0, [], [], [])
  }

  /** Everything the session will ever have to deliver for what it has accepted so far. */
  function Output(s: State): seq<Byte> {
    Reversal(s.accepted)
  }

  // ---------- Handlers ----------

  function Send(s: State, m: LRMessage): State {
    s.(sent := s.sent + [m])
  }

  function Close(s: State): State {
    Send(s, CloseMessage(s.id)).(isClosed := true)
  }

  /** HandleOutgoingBuffer */
  function Flush(s: State): State {
    if s.outgoing == [] || s.pending.Some? then s
    else
      var n := PackCount(s.outgoing, Budget(s.id, s.writePosition));
      var m := DataMessage(s.id, s.writePosition, s.outgoing[..n]);
      Send(s, m).(maxAck := s.writePosition + n, pending := Some(Pending(n, m)), timerArmed := true)
  }

  /** Go's slice expression outgoing[length - writePosition:] panics outside this range. */
  predicate AckSliceInRange(s: State, length: int) {
    0 <= length - s.writePosition <= |s.outgoing|
  }

  /** The state of HandleAck just before it packs. */
  function Acked(s: State, length: int): State
    requires AckSliceInRange(s, length)
  {
    s.(outgoing := s.outgoing[length - s.writePosition..], writePosition := length, pending := None,
       timerArmed := false, lastAck := length)
  }

  /** The part of HandleAck that takes an acknowledgement for pending data. */
  function Acknowledge(s: State, length: int): State
    requires AckSliceInRange(s, length)
  {
    Flush(Acked(s, length))
  }

  /** HandleAck; None when the slice expression panics. */
  function OnAck(s: State, length: int): Option<State> {
    if length < s.lastAck then Some(s)
    else if length > s.maxAck then Some(Close(s))
    else if s.pending.None? then Some(s)
    else if length <= s.writePosition + s.pending.value.length then
      if AckSliceInRange(s, length) then Some(Acknowledge(s, length)) else None
    else Some(s)
  }

  /** CheckDataStore */
  function Process(s: State): State {
    Flush(s.(outgoing := s.outgoing + Reversal(s.dataStore), dataStore := Rest(s.dataStore)))
  }

  /** HandleRecieveData for data that is in order and unescapes to bytes. */
  function Accept(s: State, bytes: seq<Byte>): State {
    var position := s.recievedPosition + |bytes|;
    Process(Send(s, AckMessage(s.id, position)).(
            recievedPosition := position, dataStore := s.dataStore + bytes, accepted := s.accepted + bytes))
  }

  /** HandleRecieveData */
  function OnData(s: State, data: seq<Byte>, position: int): State {
    if position != s.recievedPosition then Send(s, AckMessage(s.id, s.recievedPosition))
    else
      match Unescape(data)
      case None => s
      case Some(bytes) => Accept(s, bytes)
  }

  /** The retransmission arm of RecieveMessage: the timer is set again only when something is pending. */
  function OnTimer(s: State): State {
    if s.pending.None? then s.(timerArmed := false) else Send(s, s.pending.value.payload).(timerArmed := true)
  }

  function OnConnect(s: State): State {
    Send(s, AckMessage(s.id, 0))
  }

  // ---------- Invariant ----------

  /** The data message carries the escaping of the bytes of output at its position. */
  predicate Carries(m: LRMessage, output: seq<Byte>) {
    && Unescape(m.data).Some?
    && m == DataMessage(m.session, m.position, Unescape(m.data).value)
    && 0 <= m.position <= End(m) <= |output|
    && Unescape(m.data).value == output[m.position..End(m)]
  }

  /** The first position after the bytes a data message carries. */
  function End(m: LRMessage): int
    requires Unescape(m.data).Some?
  {
    m.position + |Unescape(m.data).value|
  }

  /** What is promised of every message on the wire: it fits a datagram, and a data message carries
      output up to at most maxAck. */
  predicate SentOk(m: LRMessage, id: int, output: seq<Byte>, maxAck: int) {
    && m.session == id
    && Wire(m).Some? && |Wire(m).value| <= MAX_MESSAGE_SIZE
    && (m.kind == DATA ==> Carries(m, output) && End(m) <= maxAck)
  }

  predicate SentInv(s: State) {
    forall m :: m in s.sent ==> SentOk(m, s.id, Output(s), s.maxAck)
  }

  /** What was sent stays right when output and maxAck grow. */
  lemma SentOkGrows(m: LRMessage, id: int, output: seq<Byte>, more: seq<Byte>, low: int, high: int)
    requires SentOk(m, id, output, low) && low <= high
    ensures SentOk(m, id, output + more, high)
  {
    if m.kind == DATA {
      assert (output + more)[m.position..End(m)] == output[m.position..End(m)];
    }
  }

  predicate PendingInv(s: State)
    requires 0 <= s.writePosition
  {
    && (s.pending.None? <==> s.outgoing == [])
    && (s.pending.None? ==> s.maxAck == s.writePosition)
    && (s.pending.Some? ==> s.timerArmed)
    && (s.pending.Some? ==>
          var n := s.pending.value.length;
          && 1 <= n <= |s.outgoing|
          && s.maxAck == s.writePosition + n
          && s.pending.value.payload == DataMessage(s.id, s.writePosition, s.outgoing[..n])
          && |Escape(s.outgoing[..n])| <= Budget(s.id, s.writePosition)
          && s.pending.value.payload in s.sent)
  }

  /** What holds between any two handlers of a session. */
  predicate Inv(s: State) {
    && 0 <= s.id <= MAX_INTEGER
    && |s.accepted| <= MAX_INTEGER
    && s.recievedPosition == |s.accepted|
    && s.dataStore == Rest(s.accepted)
    && 0 <= s.lastAck == s.writePosition <= |Output(s)|
    && s.outgoing == Output(s)[s.writePosition..]
    && PendingInv(s)
    && SentInv(s)
  }

  lemma InitialInv(id: int)
    requires 0 <= id <= MAX_INTEGER
    ensures Inv(Initial(id))
  {
  }

  /** Under the invariant an acknowledgement that is not refused indexes the outgoing buffer in
      range, and always passes the comparison with the pending length. */
  lemma AckInRange(s: State, length: int)
    requires Inv(s)
    requires s.lastAck <= length <= s.maxAck
    ensures AckSliceInRange(s, length)
    ensures s.pending.Some? ==> length <= s.writePosition + s.pending.value.length
    ensures s.pending.None? ==> length == s.lastAck
  {
  }

  /** The invariant without a pending message: what Flush starts from. maxAck may be ahead of
      writePosition, but the next pack reaches it. */
  predicate Unpacked(s: State) {
    && 0 <= s.id <= MAX_INTEGER
    && |s.accepted| <= MAX_INTEGER
    && s.recievedPosition == |s.accepted|
    && s.dataStore == Rest(s.accepted)
    && 0 <= s.lastAck == s.writePosition <= |Output(s)|
    && s.outgoing == Output(s)[s.writePosition..]
    && s.pending == None
    && SentInv(s)
    && s.maxAck <= s.writePosition + PackCount(s.outgoing, Budget(s.id, s.writePosition))
    && (s.outgoing == [] ==> s.maxAck == s.writePosition)
  }

  lemma PositionInRange(s: State)
    requires |s.accepted| <= MAX_INTEGER
    ensures |Output(s)| <= MAX_INTEGER
  {
    ReversalLength(s.accepted);
  }

  /** The message that is packed next makes progress, fits, and carries the output at its position. */
  lemma PackedOk(s: State)
    requires Unpacked(s) && s.outgoing != []
    ensures var n := PackCount(s.outgoing, Budget(s.id, s.writePosition));
            && 1 <= n <= |s.outgoing| && |Escape(s.outgoing[..n])| <= Budget(s.id, s.writePosition)
            && SentOk(DataMessage(s.id, s.writePosition, s.outgoing[..n]), s.id, Output(s), s.writePosition + n)
  {
    hide Escape, Unescape, Reversal, PackCount, SentInv;
    var n := PackCount(s.outgoing, Budget(s.id, s.writePosition));
    PositionInRange(s);
    PackMakesProgress(s.outgoing, s.id, s.writePosition);
    PackCountFits(s.outgoing, Budget(s.id, s.writePosition));
    PackedFits(s.id, s.writePosition, s.outgoing);
    UnescapeEscape(s.outgoing[..n]);
    assert s.outgoing[..n] == Output(s)[s.writePosition..s.writePosition + n];
  }

  /** Sending one more message, with maxAck moved ahead. */
  lemma SentPush(sent: seq<LRMessage>, m: LRMessage, id: int, output: seq<Byte>, low: int, high: int)
    requires forall x :: x in sent ==> SentOk(x, id, output, low)
    requires low <= high && SentOk(m, id, output, high)
    ensures forall x :: x in sent + [m] ==> SentOk(x, id, output, high)
  {
    forall x | x in sent + [m]
      ensures SentOk(x, id, output, high)
    {
      assert x in sent || x == m;
    }
  }

  /** Packing the next message restores the invariant and never moves maxAck back. */
  lemma FlushInv(s: State)
    requires Unpacked(s)
    ensures Inv(Flush(s))
    ensures Flush(s).maxAck >= s.maxAck
    ensures Flush(s).writePosition == s.writePosition && Flush(s).isClosed == s.isClosed
    ensures Flush(s).accepted == s.accepted && s.sent <= Flush(s).sent && Flush(s).id == s.id
  {
    hide Escape, Reversal, Rest;
    if s.outgoing != [] {
      var n := PackCount(s.outgoing, Budget(s.id, s.writePosition));
      var m := DataMessage(s.id, s.writePosition, s.outgoing[..n]);
      PackedOk(s);
      SentPush(s.sent, m, s.id, Output(s), s.maxAck, s.writePosition + n);
    }
  }

  /** An acknowledgement inside the pending message leaves a state from which to pack again. */
  lemma AcknowledgeUnpacked(s: State, length: int)
    requires Inv(s) && s.pending.Some?
    requires s.lastAck <= length <= s.maxAck
    ensures Unpacked(Acked(s, length))
  {
    hide Escape, Reversal, PackCount, SentOk;
    var k := length - s.writePosition;
    RepackReachesOldEnd(s.outgoing, s.id, s.writePosition, s.pending.value.length, k);
    assert s.outgoing[k..] == Output(s)[length..];
  }

  /** Sending one more good message keeps what is promised of the sent ones. */
  lemma SendInv(s: State, m: LRMessage)
    requires Inv(s) && SentOk(m, s.id, Output(s), s.maxAck)
    ensures Inv(Send(s, m))
  {
    assert forall x :: x in Send(s, m).sent ==> x in s.sent || x == m;
  }

  lemma CloseInv(s: State)
    requires Inv(s)
    ensures Inv(Close(s)) && Close(s) == s.(sent := Close(s).sent, isClosed := true)
  {
    AckFits(s.id, 0);
    SendInv(s, CloseMessage(s.id));
  }

  /** HandleAck never panics, keeps the invariant, and never decreases maxAck. */
  lemma OnAckInv(s: State, length: int)
    requires Inv(s)
    ensures OnAck(s, length).Some?
    ensures var t := OnAck(s, length).value;
            && Inv(t)
            && t.id == s.id && t.maxAck >= s.maxAck && t.accepted == s.accepted && s.sent <= t.sent
            && (t.isClosed <==> s.isClosed || length > s.maxAck)
            && (s.lastAck <= length <= s.maxAck ==> t.writePosition == length)
  {
    hide Flush, Unpacked, SentInv;
    if length > s.maxAck {
      CloseInv(s);
    } else if s.lastAck <= length {
      AckInRange(s, length);
      if s.pending.Some? {
        AcknowledgeUnpacked(s, length);
        FlushInv(Acked(s, length));
      }
    }
  }

  /** The state of Accept just before it packs. */
  function Taken(s: State, bytes: seq<Byte>): State {
    var position := s.recievedPosition + |bytes|;
    Send(s, AckMessage(s.id, position)).(
      recievedPosition := position, dataStore := Rest(s.dataStore + bytes),
      accepted := s.accepted + bytes, outgoing := s.outgoing + Reversal(s.dataStore + bytes))
  }

  lemma TakenSentInv(s: State, bytes: seq<Byte>)
    requires Inv(s)
    requires |s.accepted| + |bytes| <= MAX_INTEGER
    ensures Output(Taken(s, bytes)) == Output(s) + Reversal(s.dataStore + bytes)
    ensures SentInv(Taken(s, bytes))
  {
    var t, more := Taken(s, bytes), Reversal(s.dataStore + bytes);
    ReversalAppend(s.accepted, bytes);
    AckFits(s.id, |s.accepted| + |bytes|);
    forall m | m in t.sent
      ensures SentOk(m, t.id, Output(s) + more, t.maxAck)
    {
      if m in s.sent {
        SentOkGrows(m, s.id, Output(s), more, s.maxAck, s.maxAck);
      }
    }
  }

  lemma TailOfAppend(a: seq<Byte>, b: seq<Byte>, n: nat)
    requires n <= |a|
    ensures (a + b)[n..] == a[n..] + b
  {
  }

  /** Everything but the packing is in order before Accept packs. */
  lemma TakenInv(s: State, bytes: seq<Byte>)
    requires Inv(s)
    requires |s.accepted| + |bytes| <= MAX_INTEGER
    ensures if s.pending.None? then Unpacked(Taken(s, bytes)) else Inv(Taken(s, bytes))
  {
    hide Escape, Reversal, Rest, PackCount, SentOk;
    var t := Taken(s, bytes);
    ReversalAppend(s.accepted, bytes);
    TakenSentInv(s, bytes);
    TailOfAppend(Output(s), Reversal(s.dataStore + bytes), s.writePosition);
    if s.pending.Some? {
      assert t.outgoing[..s.pending.value.length] == s.outgoing[..s.pending.value.length];
    }
  }

  /** Accepting bytes keeps the invariant; the output only grows at its end. */
  lemma AcceptInv(s: State, bytes: seq<Byte>)
    requires Inv(s)
    requires |s.accepted| + |bytes| <= MAX_INTEGER
    ensures Inv(Accept(s, bytes))
    ensures Accept(s, bytes).accepted == s.accepted + bytes
    ensures Accept(s, bytes).maxAck >= s.maxAck && Accept(s, bytes).writePosition == s.writePosition
    ensures Accept(s, bytes).isClosed == s.isClosed
    ensures s.sent <= Accept(s, bytes).sent
  {
    hide Unpacked, Reversal, Rest, PackCount, SentInv, Unescape;
    TakenInv(s, bytes);
    assert Accept(s, bytes) == Flush(Taken(s, bytes));
    if s.pending.None? {
      FlushInv(Taken(s, bytes));
    }
  }

  /** HandleRecieveData keeps the invariant for every message the decoder lets through. */
  lemma OnDataInv(s: State, data: seq<Byte>, position: int)
    requires Inv(s)
    requires position + |data| <= MAX_INTEGER
    ensures Inv(OnData(s, data, position))
    ensures OnData(s, data, position).maxAck >= s.maxAck
    ensures OnData(s, data, position).writePosition == s.writePosition
    ensures OnData(s, data, position).isClosed == s.isClosed && OnData(s, data, position).id == s.id
    ensures s.accepted <= OnData(s, data, position).accepted && s.sent <= OnData(s, data, position).sent
  {
    SecondUnescape(data);
    if position != s.recievedPosition {
      AckFits(s.id, s.recievedPosition);
      SendInv(s, AckMessage(s.id, s.recievedPosition));
    } else if Unescape(data).Some? {
      AcceptInv(s, Unescape(data).value);
    }
  }

  lemma OnTimerInv(s: State)
    requires Inv(s)
    ensures Inv(OnTimer(s)) && s.sent <= OnTimer(s).sent
    ensures OnTimer(s) == s.(sent := OnTimer(s).sent, timerArmed := s.pending.Some?)
    ensures s.pending.Some? ==> s.pending.value.payload in OnTimer(s).sent
  {
  }

  lemma OnConnectInv(s: State)
    requires Inv(s)
    ensures Inv(OnConnect(s))
    ensures OnConnect(s) == s.(sent := OnConnect(s).sent) && s.sent <= OnConnect(s).sent
  {
    AckFits(s.id, 0);
    SendInv(s, AckMessage(s.id, 0));
  }
}
