/** The session behind its datagrams: what arrives is decoded, and the decoded message is handed to the
    session. Composes the decoder, the second unescape, the session and the network.
    Models incomingBuffer and handleRequest of internal/linereversal/linereversal.go for one session. */
module LrDatagram {
  import opened Ascii
  import opened Wrappers
  import opened Decimal
  import opened LrMessage
  import opened LrDecoder
  import opened LineReversal
  import opened LrState
  import opened LrNetwork

  /** What the session with this id is told of a datagram; nothing when it cannot be decoded, is for
      another session, or is of no known type. */
  function EventsOfDatagram(id: int, buffer: seq<Byte>): seq<Event> {
    match Decode(buffer)
    case None => []
    case Some(m) =>
      if m.session != id then []
      else if m.kind == CONNECT then [Connect]
      else if m.kind == DATA then [ClientData(m.data, m.position)]
      else if m.kind == ACK then [AckArrives(m.length)]
      else if m.kind == CLOSE then [CloseArrives]
      else []
  }

  /** A datagram arrives, or something happens that the client's datagrams have no part in. */
  datatype Arrival = Datagram(buffer: seq<Byte>) | Elsewhere(event: Event)

  function EventsOf(id: int, a: Arrival): seq<Event> {
    match a
    case Datagram(buffer) => EventsOfDatagram(id, buffer)
    case Elsewhere(event) => if event.Timer? || event.PeerGets? || event.PeerAcks? then [event] else []
  }

  /** The datagram encodes the clean piece of the stream that starts at position. */
  predicate IsPiece(id: int, stream: seq<Byte>, buffer: seq<Byte>, position: int, raw: seq<Byte>) {
    && 0 <= position && position + |raw| <= |stream| && raw == stream[position..position + |raw|]
    && Clean(raw) && buffer == Wire(DataMessage(id, position, raw)).value
  }

  /** The datagram encodes a message without data. */
  predicate IsControl(session: int, length: int, buffer: seq<Byte>) {
    || buffer == Wire(ConnectMessage(session)).value
    || buffer == Wire(CloseMessage(session)).value
    || buffer == Wire(AckMessage(session, length)).value
  }

  ghost predicate SentByClient(id: int, stream: seq<Byte>, buffer: seq<Byte>) {
    || (exists position, raw :: IsPiece(id, stream, buffer, position, raw))
    || (exists session, length :: IsControl(session, length, buffer))
  }

  /** A piece that was encoded and decoded is the piece, or nothing when it cannot be read back or is for
      another session. */
  lemma PieceArrives(id: int, session: int, position: int, raw: seq<Byte>)
    requires 0 <= id <= 2147483647 && 0 <= position && position + |raw| <= 2147483647
    ensures EventsOfDatagram(id, Wire(DataMessage(session, position, raw)).value) ==
            if session == id && raw != [] && raw[|raw| - 1] != BACKSLASH then [ClientData(raw, position)] else []
  {
    hide Escape, Itoa;
    RoundTripData(session, position, raw);
  }

  /** Connect, close and every acknowledgement of an allowed length arrive at the session they name, and
      at no other. */
  lemma ControlArrives(id: int, session: int, length: int)
    requires 0 <= id <= 2147483647
    ensures EventsOfDatagram(id, Wire(ConnectMessage(session)).value) == if session == id then [Connect] else []
    ensures EventsOfDatagram(id, Wire(CloseMessage(session)).value) == if session == id then [CloseArrives] else []
    ensures EventsOfDatagram(id, Wire(AckMessage(session, length)).value) ==
            if session == id && 0 <= length <= 2147483647 then [AckArrives(length)] else []
  {
    hide Itoa;
    RoundTripControl(session, length);
  }

  /** Every acknowledgement that a session can be waiting for is within the allowed lengths, so its
      datagram reaches the session as that acknowledgement. */
  lemma AwaitedAckArrives(s: State, length: int)
    requires Inv(s) && 0 <= length <= s.maxAck
    ensures EventsOfDatagram(s.id, Wire(AckMessage(s.id, length)).value) == [AckArrives(length)]
  {
    PositionInRange(s);
    ControlArrives(s.id, s.id, length);
  }

  lemma CleanPieceArrives(id: int, stream: seq<Byte>, buffer: seq<Byte>, position: int, raw: seq<Byte>)
    requires 0 <= id <= MAX_INTEGER && |stream| <= MAX_INTEGER
    requires IsPiece(id, stream, buffer, position, raw)
    ensures FromStream(EventsOfDatagram(id, buffer), stream)
  {
    PieceArrives(id, id, position, raw);
  }

  /** What the session is told of the client's datagrams are clean pieces of the stream. */
  lemma DatagramFromStream(id: int, stream: seq<Byte>, buffer: seq<Byte>)
    requires 0 <= id <= MAX_INTEGER && |stream| <= MAX_INTEGER
    requires SentByClient(id, stream, buffer)
    ensures FromStream(EventsOfDatagram(id, buffer), stream)
  {
    if position, raw :| IsPiece(id, stream, buffer, position, raw) {
      CleanPieceArrives(id, stream, buffer, position, raw);
    } else {
      var session, length :| IsControl(session, length, buffer);
      ControlArrives(id, session, length);
    }
  }

  lemma {:induction false} ArrivalsFromStream(id: int, stream: seq<Byte>, arrivals: seq<Arrival>)
    requires 0 <= id <= MAX_INTEGER && |stream| <= MAX_INTEGER
    requires forall i :: 0 <= i < |arrivals| && arrivals[i].Datagram? ==> SentByClient(id, stream, arrivals[i].buffer)
    ensures FromStream(FlatMap(arrivals, a => EventsOf(id, a)), stream)
  {
    if arrivals != [] {
      var n := |arrivals| - 1;
      ArrivalsFromStream(id, stream, arrivals[..n]);
      if arrivals[n].Datagram? {
        DatagramFromStream(id, stream, arrivals[n].buffer);
      }
    }
  }

  /** End to end, from datagram to datagram: the client encodes pieces of its stream, the network
      duplicates, reorders and loses the datagrams of both directions, the server decodes and unescapes
      twice, reverses and packs: what the peer has assembled is a prefix of the reversal of the stream. */
  lemma DatagramsEndToEnd(id: int, arrivals: seq<Arrival>, stream: seq<Byte>)
    requires 0 <= id <= MAX_INTEGER && |stream| <= MAX_INTEGER
    requires forall i :: 0 <= i < |arrivals| && arrivals[i].Datagram? ==> SentByClient(id, stream, arrivals[i].buffer)
    ensures var outcome := Run(Start(id), FlatMap(arrivals, a => EventsOf(id, a)));
            outcome != Panicked && (outcome.Reached? ==> outcome.sys.assembled <= Reversal(stream))
  {
    var events := FlatMap(arrivals, a => EventsOf(id, a));
    Safety(id, events);
    ArrivalsFromStream(id, stream, arrivals);
    if Run(Start(id), events).Reached? {
      EndToEnd(id, events, stream);
    }
  }

  /** The session after a datagram that carries data. */
  function AfterData(s: State, buffer: seq<Byte>): State {
    var events := EventsOfDatagram(s.id, buffer);
    if |events| == 1 && events[0].ClientData? then OnData(s, events[0].data, events[0].position) else s
  }

  /** Bytes that the client encodes at the position the session is waiting for are accepted unchanged if
      and only if they are clean. */
  lemma DatagramAcceptedUnchanged(s: State, raw: seq<Byte>)
    requires Inv(s) && s.recievedPosition + |raw| <= MAX_INTEGER
    ensures AfterData(s, Wire(DataMessage(s.id, s.recievedPosition, raw)).value).accepted == s.accepted + raw <==>
            Clean(raw)
  {
    PieceArrives(s.id, s.id, s.recievedPosition, raw);
    if raw == [] {
      assert s.accepted + raw == s.accepted;
    } else if raw[|raw| - 1] == BACKSLASH {
      assert |s.accepted + raw| != |s.accepted|;
    } else {
      AcceptedUnchanged(s, raw);
    }
  }
}
