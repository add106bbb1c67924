/** The reader and writer objects of the speed daemon and its connection buffer, proved against
    SdFormat and SdStream. Models internal/speeddaemon/codec.go, codec_primatives.go, the Encode
    methods of messages.go, and the buffer loop of speeddaemon.go. */
module SdCodec {
  import opened Wrappers
  import opened SdTypes
  import opened SdFormat
  import opened SdStream

  /** bytes.Buffer */
  class Buffer {
    var bytes: seq<U8>

    constructor ()
      ensures bytes == []
    {
      bytes := [];
    }

    method WriteU8(value: U8)
      modifies this
      ensures bytes == old(bytes) + [value]
    {
      bytes := bytes + [value];
    }

    method WriteU16(value: U16)
      modifies this
      ensures bytes == old(bytes) + Big16(value)
    {
      bytes := bytes + [value / 0x100, value % 0x100];
    }

    method WriteU32(value: U32)
      modifies this
      ensures bytes == old(bytes) + Big32(value)
    {
      bytes := bytes + [value / 0x100_0000, value / 0x1_0000 % 0x100, value / 0x100 % 0x100, value % 0x100];
    }

    /** Fails on a string whose length does not fit its byte. */
    method WriteStr(value: Str) returns (ok: bool)
      modifies this
      ensures ok <==> |value| <= 255
      ensures ok ==> bytes == old(bytes) + Text(value)
    {
      var length := |value|;
      if length > 255 {
        return false;
      }
      WriteU8(length);
      bytes := bytes + value;
      return true;
    }

    method WriteRoads(roads: seq<U16>)
      modifies this
      ensures bytes == old(bytes) + Roads(roads)
    {
      assert roads[0..] == roads;
      for i := 0 to |roads|
        invariant bytes + Roads(roads[i..]) == old(bytes) + Roads(roads)
      {
        assert roads[i..][1..] == roads[i + 1..];
        Assoc(bytes, Big16(roads[i]), Roads(roads[i + 1..]));
        WriteU16(roads[i]);
      }
      assert bytes + [] == bytes;
    }
  }

  /** The Encode methods, field by field; None is their error. */
  method Encode(m: Message) returns (r: Option<seq<U8>>)
    ensures r == if TextFits(m) then Some(Encoding(m)) else None
  {
    var buffer := new Buffer();
    buffer.WriteU8(TypeOf(m));
    assert buffer.bytes == [TypeOf(m)];
    match m {
    case ErrorMessage(content) =>
      var ok := buffer.WriteStr(content);
      if !ok { return None; }
    case PlateMessage(plate, timestamp) =>
      var ok := buffer.WriteStr(plate);
      if !ok { return None; }
      buffer.WriteU32(timestamp);
      Assoc([TypeOf(m)], Text(plate), Big32(timestamp));
    case TicketMessage(_, _, _, _, _, _, _) =>
      var ok := WriteTicket(buffer, m);
      if !ok { return None; }
    case WantHeartbeat(interval) => buffer.WriteU32(interval);
    case Heartbeat =>
    case IAmCamera(road, mile, limit) =>
      buffer.WriteU16(road);
      buffer.WriteU16(mile);
      buffer.WriteU16(limit);
      Assoc([TypeOf(m)], Big16(road), Big16(mile) + Big16(limit));
      Assoc([TypeOf(m)] + Big16(road), Big16(mile), Big16(limit));
    case IAmDispatcher(numroads, roads) =>
      buffer.WriteU8(numroads);
      buffer.WriteRoads(roads);
      Assoc([TypeOf(m)], [numroads], Roads(roads));
    }
    assert [TypeOf(m)] + [] == [TypeOf(m)];
    return Some(buffer.bytes);
  }

  method WriteTicket(buffer: Buffer, m: Message) returns (ok: bool)
    requires m.TicketMessage?
    modifies buffer
    ensures ok <==> TextFits(m)
    ensures ok ==> buffer.bytes == old(buffer.bytes) + Body(m)
  {
    ok := buffer.WriteStr(m.plate);
    if !ok {
      return;
    }
    ghost var start := buffer.bytes;
    buffer.WriteU16(m.road);
    buffer.WriteU16(m.mileOne);
    buffer.WriteU32(m.timeStampOne);
    buffer.WriteU16(m.mileTwo);
    buffer.WriteU32(m.timeStampTwo);
    buffer.WriteU16(m.speed);
    SixParts(start, Big16(m.road), Big16(m.mileOne), Big32(m.timeStampOne), Big16(m.mileTwo), Big32(m.timeStampTwo),
             Big16(m.speed));
    Assoc(old(buffer.bytes), Text(m.plate),
          Big16(m.road) + (Big16(m.mileOne) + (Big32(m.timeStampOne) +
            (Big16(m.mileTwo) + (Big32(m.timeStampTwo) + Big16(m.speed))))));
  }

  lemma SixParts(s: seq<U8>, a: seq<U8>, b: seq<U8>, c: seq<U8>, d: seq<U8>, e: seq<U8>, f: seq<U8>)
    ensures s + a + b + c + d + e + f == s + (a + (b + (c + (d + (e + f)))))
  {
    Assoc(s, a, b + (c + (d + (e + f))));
    Assoc(s + a, b, c + (d + (e + f)));
    Assoc(s + a + b, c, d + (e + f));
    Assoc(s + a + b + c, d, e + f);
    Assoc(s + a + b + c + d, e, f);
  }

  /** ErrIncompleteMessage and ErrInvalidMessage. */
  datatype DecodeError = IncompleteError | InvalidError

  datatype Decoded = Success(message: Message) | Failure(error: DecodeError)

  /** A reader over a copy of the connection's buffer that counts the bytes of complete values. */
  class SdBuffer {
    const data: seq<U8>
    var position: nat
    var validBytes: int

    ghost predicate Valid()
      reads this
    {
      position <= |data|
    }

    function Remaining(): seq<U8>
      requires Valid()
      reads this
    {
      data[position..]
    }

    constructor (data: seq<U8>)
      ensures Valid() && Remaining() == data && this.data == data && validBytes == 0
    {
      this.data := data;
      position, validBytes := 0, 0;
    }

    /** The read agrees with the parser on what remained, and a value is counted by its length. */
    ghost predicate Reads<T>(before: seq<U8>, counted: int, parsed: Parsed<T>, r: Option<T>)
      reads this
    {
      && Valid()
      && match parsed
         case Incomplete => r == None
         case Got(value, rest) =>
           r == Some(value) && Remaining() == rest && validBytes == counted + |before| - |rest|
    }

    /** io.ReadFull: takes n bytes, or what is left and fails. */
    method ReadFull(n: nat) returns (r: Option<seq<U8>>)
      requires Valid()
      modifies this`position
      ensures Valid()
      ensures if |old(Remaining())| < n then r == None
              else r == Some(old(Remaining())[..n]) && Remaining() == old(Remaining())[n..]
    {
      if |data| - position < n {
        position := |data|;
        return None;
      }
      assert data[position..][..n] == data[position..position + n];
      assert data[position..][n..] == data[position + n..];
      r := Some(data[position..position + n]);
      position := position + n;
    }

    method ReadU8() returns (r: Option<U8>)
      requires Valid()
      modifies this
      ensures Reads(old(Remaining()), old(validBytes), ParseU8(old(Remaining())), r)
    {
      var buffer := ReadFull(1);
      if buffer == None {
        return None;
      }
      validBytes := validBytes + 1;
      return Some(buffer.value[0]);
    }

    method ReadU16() returns (r: Option<U16>)
      requires Valid()
      modifies this
      ensures Reads(old(Remaining()), old(validBytes), ParseU16(old(Remaining())), r)
    {
      var buffer := ReadFull(2);
      if buffer == None {
        return None;
      }
      validBytes := validBytes + 2;
      return Some(buffer.value[0] as int * 0x100 + buffer.value[1]);
    }

    method ReadU32() returns (r: Option<U32>)
      requires Valid()
      modifies this
      ensures Reads(old(Remaining()), old(validBytes), ParseU32(old(Remaining())), r)
    {
      var buffer := ReadFull(4);
      if buffer == None {
        return None;
      }
      validBytes := validBytes + 4;
      var b := buffer.value;
      return Some(b[0] as int * 0x100_0000 + b[1] as int * 0x1_0000 + b[2] as int * 0x100 + b[3]);
    }

    method ReadStr() returns (r: Option<Str>)
      requires Valid()
      modifies this
      ensures Reads(old(Remaining()), old(validBytes), ParseStr(old(Remaining())), r)
    {
      ghost var before := Remaining();
      var length := ReadU8();
      if length == None {
        return None;
      }
      if length.value == 0 {
        assert before[1..1] == [];
        return Some([]);
      }
      var buffer := ReadFull(length.value);
      if buffer == None {
        return None;
      }
      assert before[1..][..length.value] == before[1..1 + length.value];
      assert before[1..][length.value..] == before[1 + length.value..];
      validBytes := validBytes + length.value;
      return buffer;
    }
  
    /** The loop of decodeIAmDispatcher. */
    method ReadRoads(n: nat) returns (r: Option<seq<U16>>)
      requires Valid()
      modifies this
      ensures Reads(old(Remaining()), old(validBytes), ParseRoads(old(Remaining()), n), r)
    {
      var roads: seq<U16> := [];
      PrependNone(ParseRoads(Remaining(), n));
      for i := 0 to n
        invariant Valid()
        invariant ParseRoads(old(Remaining()), n) == Prepend(roads, ParseRoads(Remaining(), n - i))
        invariant validBytes == old(validBytes) + |old(Remaining())| - |Remaining()|
      {
        ghost var left := Remaining();
        var road := ReadU16();
        if road == None {
          return None;
        }
        PrependOne(roads, road.value, ParseRoads(Remaining(), n - i - 1));
        roads := roads + [road.value];
      }
      assert roads + [] == roads;
      return Some(roads);
    }

    /** One method for each kind of message in the source. */
    method ReadBody(kind: U8) returns (r: Option<Message>)
      requires Valid() && IsType(kind)
      modifies this
      ensures Reads(old(Remaining()), old(validBytes), ParseBody(kind, old(Remaining())), r)
    {
      if kind == ERROR_TYPE {
        var content := ReadStr();
        return if content == None then None else Some(ErrorMessage(content.value));
      } else if kind == PLATE_TYPE {
        var plate := ReadStr();
        if plate == None { return None; }
        var timestamp := ReadU32();
        return if timestamp == None then None else Some(PlateMessage(plate.value, timestamp.value));
      } else if kind == TICKET_TYPE {
        r := ReadTicket();
      } else if kind == WANT_HEARTBEAT_TYPE {
        var interval := ReadU32();
        return if interval == None then None else Some(WantHeartbeat(interval.value));
      } else if kind == HEARTBEAT_TYPE {
        return Some(Heartbeat);
      } else if kind == CAMERA_TYPE {
        r := ReadCamera();
      } else {
        var numroads := ReadU8();
        if numroads == None { return None; }
        var roads := ReadRoads(numroads.value);
        return if roads == None then None else Some(IAmDispatcher(numroads.value, roads.value));
      }
    }

    method ReadCamera() returns (r: Option<Message>)
      requires Valid()
      modifies this
      ensures Reads(old(Remaining()), old(validBytes), ParseCamera(old(Remaining())), r)
    {
      var road := ReadU16();
      if road == None { return None; }
      var mile := ReadU16();
      if mile == None { return None; }
      var limit := ReadU16();
      return if limit == None then None else Some(IAmCamera(road.value, mile.value, limit.value));
    }

    method ReadPoint() returns (r: Option<(U16, U32)>)
      requires Valid()
      modifies this
      ensures Reads(old(Remaining()), old(validBytes), ParsePoint(old(Remaining())), r)
    {
      var mile := ReadU16();
      if mile == None { return None; }
      var time := ReadU32();
      return if time == None then None else Some((mile.value, time.value));
    }

    method ReadTicket() returns (r: Option<Message>)
      requires Valid()
      modifies this
      ensures Reads(old(Remaining()), old(validBytes), ParseTicket(old(Remaining())), r)
    {
      var plate := ReadStr();
      if plate == None { return None; }
      var road := ReadU16();
      if road == None { return None; }
      var one := ReadPoint();
      if one == None { return None; }
      var two := ReadPoint();
      if two == None { return None; }
      var speed := ReadU16();
      if speed == None { return None; }
      return Some(TicketMessage(plate.value, road.value, one.value.0, one.value.1, two.value.0, two.value.1,
                                speed.value));
    }

    /** Decode: the next message, or the reason there is none. */
    method Decode() returns (r: Decoded)
      requires Valid()
      modifies this
      ensures Valid()
      ensures var s := old(Remaining());
              if Invalid(s) then r == Failure(InvalidError)
              else match Parse(s)
                   case Incomplete => r == Failure(IncompleteError)
                   case Got(m, rest) =>
                     r == Success(m) && Remaining() == rest && validBytes == old(validBytes) + |s| - |rest|
    {
      if |data| - position < 1 {
        return Failure(IncompleteError);
      }
      var msgType := ReadU8();
      if msgType == None {
        return Failure(IncompleteError);
      }
      if !IsType(msgType.value) {
        return Failure(InvalidError);
      }
      var msg := ReadBody(msgType.value);
      if msg == None {
        return Failure(IncompleteError);
      }
      return Success(msg.value);
    }
  }

  function Prepend<T>(first: seq<T>, p: Parsed<seq<T>>): Parsed<seq<T>> {
    match p
    case Incomplete => Incomplete
    case Got(value, rest) => Got(first + value, rest)
  }

  lemma PrependNone<T>(p: Parsed<seq<T>>)
    ensures Prepend([], p) == p
  {
    if p.Got? {
      assert [] + p.value == p.value;
    }
  }

  lemma PrependOne<T>(first: seq<T>, x: T, p: Parsed<seq<T>>)
    ensures Prepend(first, Prepend([x], p)) == Prepend(first + [x], p)
  {
    if p.Got? {
      Assoc(first, [x], p.value);
    }
  }

  /** ExtractFromSbBuffer */
  method ExtractFromSbBuffer(buffer: SdBuffer) returns (messages: seq<Message>, extractedBytes: int)
    requires buffer.Valid() && buffer.position == 0 && buffer.validBytes == 0
    modifies buffer
    ensures messages == Messages(buffer.data)
    ensures 0 <= extractedBytes <= |buffer.data| && buffer.data[extractedBytes..] == Leftover(buffer.data)
  {
    messages, extractedBytes := [], 0;
    assert buffer.Remaining() == buffer.data;
    while buffer.position < |buffer.data|
      invariant buffer.Valid() && buffer.validBytes == 0 && extractedBytes == buffer.position
      invariant Messages(buffer.data) == messages + Messages(buffer.Remaining())
      invariant Leftover(buffer.data) == Leftover(buffer.Remaining())
      decreases |buffer.Remaining()|
    {
      ghost var s := buffer.Remaining();
      var msg := buffer.Decode();
      if msg == Failure(InvalidError) {
        messages := messages + [INVALID_MESSAGE];
        break;
      }
      if msg.Failure? {
        assert messages + [] == messages;
        break;
      }
      ParseShrinks(s);
      ExtractStep(s, msg.message, buffer.Remaining());
      Assoc(messages, [msg.message], Messages(buffer.Remaining()));
      messages := messages + [msg.message];
      extractedBytes := extractedBytes + buffer.validBytes;
      buffer.validBytes := 0;
    }
    assert messages + [] == messages;
  }

  /** The buffer loop of handleConnection over the reads of a connection. */
  method HandleReads(chunks: seq<seq<U8>>) returns (messages: seq<Message>, buffer: seq<U8>)
    ensures (messages, buffer) == Feed([], chunks)
  {
    messages, buffer := [], [];
    assert chunks[0..] == chunks && [] + Feed([], chunks).0 == Feed([], chunks).0;
    for i := 0 to |chunks|
      invariant Feed([], chunks) == (messages + Feed(buffer, chunks[i..]).0, Feed(buffer, chunks[i..]).1)
    {
      buffer := buffer + chunks[i];
      var sdBuffer := new SdBuffer(buffer);
      var some, extractedBytes := ExtractFromSbBuffer(sdBuffer);
      buffer := buffer[extractedBytes..];
      assert chunks[i..][1..] == chunks[i + 1..];
      Assoc(messages, some, Feed(buffer, chunks[i + 1..]).0);
      messages := messages + some;
    }
    assert chunks[|chunks|..] == [] && messages + [] == messages;
  }
}
