/** The session object of the line reversal service. Every method is proved to do to the session's
    fields exactly what the function of the same handler in LrState does, and to keep the invariant.
    Models internal/linereversal/session.go. */
module LrSession {
  import opened Ascii
  import opened Wrappers
  import opened Decimal
  import opened Lines
  import opened LrMessage
  import opened LineReversal
  import opened LrState
  import opened LrSends

  const SEND_CAPACITY := 1000

  /** What HandleAck needs of the invariant: the slice is in range, positions stay in range. */
  lemma AckRange(s: State, length: int)
    requires Inv(s)
    ensures 0 <= s.id <= MAX_INTEGER && 0 <= s.writePosition <= MAX_INTEGER
    ensures s.lastAck <= length <= s.maxAck ==> AckSliceInRange(s, length) && 0 <= length <= MAX_INTEGER
  {
    PositionInRange(s);
  }

  lemma DataRange(s: State, data: seq<Byte>)
    requires Inv(s)
    ensures 0 <= s.id <= MAX_INTEGER && 0 <= s.writePosition <= MAX_INTEGER
    ensures 0 <= s.recievedPosition <= MAX_INTEGER
    ensures |Wire(AckMessage(s.id, s.recievedPosition)).value| <= MAX_MESSAGE_SIZE
    ensures Unescape(data).Some? ==> |Unescape(data).value| <= |data|
  {
    PositionInRange(s);
    AckFits(s.id, s.recievedPosition);
    SecondUnescape(data);
  }

  /** The loop that fills one reversed line, newline last. */
  method ReversedLine(line: seq<Byte>) returns (r: seq<Byte>)
    ensures r == Reverse(line) + [NEWLINE]
  {
    var reversed := new Byte[|line| + 1](_ => 0);
    for i := 0 to |line|
      invariant forall k :: 0 <= k < i ==> reversed[|line| - 1 - k] == line[k]
    {
      reversed[|line| - 1 - i] := line[i];
    }
    reversed[|line|] := NEWLINE;
    r := reversed[..];
    assert forall k :: 0 <= k < |line| ==> r[k] == line[|line| - 1 - k] by {
      forall k | 0 <= k < |line| ensures r[k] == line[|line| - 1 - k] {
        assert reversed[|line| - 1 - (|line| - 1 - k)] == line[|line| - 1 - k];
      }
    }
  }

  class Session {
    const id: int
    var isClosed: bool
    var lastAck: int
    var maxAck: int
    var recievedPosition: int
    var pendingData: Option<Pending>
    var timerArmed: bool
    var outgoingBuffer: seq<Byte>
    var writePosition: int
    var dataStore: seq<Byte>

    /** Histories: the bytes taken from the client, the messages given to the network. */
    ghost var accepted: seq<Byte>
    ghost var sent: seq<LRMessage>

    ghost function View(): State
      reads this
    {
      State(id, isClosed, lastAck, maxAck, recievedPosition, pendingData, timerArmed, outgoingBuffer,
            writePosition, dataStore, accepted, sent)
    }

    ghost predicate Valid()
      reads this
    {
      Inv(View())
    }

    /** Ids and positions of at most ten digits. */
    ghost predicate InRange()
      reads this
    {
      0 <= id <= MAX_INTEGER && 0 <= writePosition <= MAX_INTEGER
    }

    constructor (id: int)
      requires 0 <= id <= MAX_INTEGER
      ensures Valid() && View() == Initial(id)
    {
      this.id := id;
      isClosed, pendingData, timerArmed := false, None, true;
      lastAck, maxAck, recievedPosition, writePosition := 0, 0, 0, 0;
      outgoingBuffer, dataStore, accepted, sent := [], [], [], [];
      new;
      InitialInv(id);
    }

    /** SendDataMessage, SendAckMessage and SendCloseMessage. The encoded message is copied into a
        buffer of 1000 bytes, which is then resliced to the message's length: a longer message
        would be out of the slice's range. */
    method Transmit(message: LRMessage)
      requires Wire(message).Some? && |Wire(message).value| <= SEND_CAPACITY
      modifies this`sent
      ensures View() == Send(old(View()), message)
    {
      sent := sent + [message];
    }

    method CloseSession()
      requires Valid()
      modifies this
      ensures View() == Close(old(View()))
      ensures sent == old(sent) + [CloseMessage(id)] && isClosed
    {
      AckFits(id, 0);
      Transmit(CloseMessage(id));
      isClosed := true;
    }

    /** The retransmission arm of RecieveMessage; timeouts are not modelled. */
    method TimerFires()
      requires Valid()
      modifies this
      ensures View() == OnTimer(old(View()))
      ensures var output := Reversal(accepted);
              sent == old(sent) +
                      if writePosition == |output| then []
                      else [DataMessage(id, writePosition, output[writePosition..maxAck])]
    {
      TimerSends(View());
      timerArmed := false;
      if pendingData == None {
        return;
      }
      assert SentOk(pendingData.value.payload, id, Output(View()), maxAck);
      Transmit(pendingData.value.payload);
      timerArmed := true;
    }

    /** The connect_client arm of RecieveMessage. */
    method Connect()
      requires Valid()
      modifies this
      ensures View() == OnConnect(old(View()))
      ensures sent == old(sent) + [AckMessage(id, 0)]
    {
      AckFits(id, 0);
      Transmit(AckMessage(id, 0));
    }

    method HandleAck(length: int)
      requires Valid()
      modifies this
      ensures Valid() && Some(View()) == OnAck(old(View()), length)
      ensures isClosed <==> old(isClosed) || length > old(maxAck)
      ensures old(lastAck) <= length <= old(maxAck) ==>
                old(sent) <= sent && writePosition == length &&
                SendsFrom(id, Reversal(accepted), length, maxAck, sent[|old(sent)|..])
    {
      hide Flush, SentInv, PendingInv, Reversal, Rest, SendsFrom;
      OnAckInv(View(), length);
      AckSends(View(), length);
      AckRange(View(), length);
      if length < lastAck {
        return;
      }
      if length > maxAck {
        CloseSession();
        return;
      }
      if pendingData == None {
        return;
      }
      var expectedLength := writePosition + pendingData.value.length;
      if length <= expectedLength {
        TakeAck(length);
      }
    }

    /** The part of HandleAck that removes acknowledged data and goes on sending. */
    method TakeAck(length: int)
      requires AckSliceInRange(View(), length)
      requires 0 <= id <= MAX_INTEGER && 0 <= length <= MAX_INTEGER
      modifies this
      ensures View() == Acknowledge(old(View()), length)
    {
      timerArmed := false;
      outgoingBuffer := outgoingBuffer[length - writePosition..];
      writePosition := writePosition + (length - writePosition);
      pendingData := None;
      lastAck := length;
      HandleOutgoingBuffer();
    }

    method HandleOutgoingBuffer()
      requires InRange()
      modifies this
      ensures View() == Flush(old(View()))
    {
      if |outgoingBuffer| == 0 || pendingData != None {
        return;
      }
      PackedFits(id, writePosition, outgoingBuffer);
      var newDataMessage := LRMessage(DATA, id, writePosition, [], 0);
      var packed, bytesUsed := PackDataMessage(newDataMessage, outgoingBuffer, writePosition);
      assert packed == DataMessage(id, writePosition, outgoingBuffer[..bytesUsed]);
      maxAck := writePosition + bytesUsed;
      pendingData := Some(Pending(bytesUsed, packed));
      Transmit(packed);
      timerArmed := true;
    }

    method HandleRecieveData(data: seq<Byte>, position: int)
      requires Valid()
      requires position + |data| <= MAX_INTEGER
      modifies this
      ensures Valid() && View() == OnData(old(View()), data, position)
      ensures position != |old(accepted)| ==>
                accepted == old(accepted) && sent == old(sent) + [AckMessage(id, |accepted|)]
      ensures position == |old(accepted)| && Unescape(data).None? ==> accepted == old(accepted) && sent == old(sent)
      ensures position == |old(accepted)| && Unescape(data).Some? ==>
                accepted == old(accepted) + Unescape(data).value &&
                old(sent) + [AckMessage(id, |accepted|)] <= sent
    {
      DataSends(View(), data, position);
      hide Flush, SentInv, PendingInv, Reversal, Rest, Unescape;
      OnDataInv(View(), data, position);
      DataRange(View(), data);
      if position != recievedPosition {
        Transmit(AckMessage(id, recievedPosition));
        return;
      }
      var unescaped := UnescapeData(data);
      if unescaped == None {
        return;
      }
      TakeInOrder(unescaped.value);
    }

    /** The part of HandleRecieveData after the data has been unescaped. */
    method TakeInOrder(unescaped: seq<Byte>)
      requires InRange()
      requires 0 <= recievedPosition && recievedPosition + |unescaped| <= MAX_INTEGER
      modifies this
      ensures View() == Accept(old(View()), unescaped)
    {
      AcknowledgeData(unescaped);
      CheckDataStore();
    }

    /** Counts the bytes, acknowledges them and stores them. */
    method AcknowledgeData(unescaped: seq<Byte>)
      requires 0 <= id <= MAX_INTEGER
      requires 0 <= recievedPosition && recievedPosition + |unescaped| <= MAX_INTEGER
      modifies this`recievedPosition, this`sent, this`dataStore, this`accepted
      ensures View() ==
              var s, position := old(View()), old(recievedPosition) + |unescaped|;
              Send(s, AckMessage(id, position)).(
                recievedPosition := position, dataStore := s.dataStore + unescaped, accepted := s.accepted + unescaped)
    {
      recievedPosition := recievedPosition + |unescaped|;
      AckFits(id, recievedPosition);
      Transmit(AckMessage(id, recievedPosition));
      dataStore := dataStore + unescaped;
      accepted := accepted + unescaped;
    }

    method CheckDataStore()
      requires InRange()
      modifies this
      ensures View() == LrState.Process(old(View()))
    {
      hide Join, ReverseEach, Complete, Unfinished, Flush;
      while true
        invariant unchanged(`isClosed, `lastAck, `maxAck, `recievedPosition, `pendingData, `timerArmed, `writePosition)
        invariant unchanged(`accepted, `sent)
        invariant outgoingBuffer + Reversal(dataStore) == old(outgoingBuffer + Reversal(dataStore))
        invariant Rest(dataStore) == old(Rest(dataStore))
        decreases |dataStore|
      {
        ReversalStep(dataStore);
        if |dataStore| == 0 {
          break;
        }
        var newLineIndex := IndexOf(dataStore, NEWLINE);
        if newLineIndex == -1 {
          break;
        }
        var reversed := ReversedLine(dataStore[..newLineIndex]);
        Assoc(outgoingBuffer, reversed, Reversal(dataStore[newLineIndex + 1..]));
        outgoingBuffer := outgoingBuffer + reversed;
        dataStore := dataStore[newLineIndex + 1..];
      }
      assert outgoingBuffer + [] == outgoingBuffer;
      HandleOutgoingBuffer();
    }
  }
}
