/** The binary format of the speed daemon's messages: what Encode writes, what the decoders read
    from the front of a byte string, and how the two fit together. Models
    internal/speeddaemon/messages.go and codec_primatives.go on values. */
module SdFormat {
  import opened Wrappers
  import opened SdTypes

  datatype Message =
    | ErrorMessage(content: Str)
    | PlateMessage(plate: Str, timestamp: U32)
    | TicketMessage(plate: Str, road: U16, mileOne: U16, timeStampOne: U32, mileTwo: U16, timeStampTwo: U32, speed: U16)
    | WantHeartbeat(interval: U32)
    | Heartbeat
    | IAmCamera(road: U16, mile: U16, limit: U16)
    | IAmDispatcher(numroads: U8, roads: seq<U16>)

  const ERROR_TYPE: U8 := 0x10
  const PLATE_TYPE: U8 := 0x20
  const TICKET_TYPE: U8 := 0x21
  const WANT_HEARTBEAT_TYPE: U8 := 0x40
  const HEARTBEAT_TYPE: U8 := 0x41
  const CAMERA_TYPE: U8 := 0x80
  const DISPATCHER_TYPE: U8 := 0x81

  // ---------- Writing ----------

  function TypeOf(m: Message): U8 {
    match m
    case ErrorMessage(_) => ERROR_TYPE
    case PlateMessage(_, _) => PLATE_TYPE
    case TicketMessage(_, _, _, _, _, _, _) => TICKET_TYPE
    case WantHeartbeat(_) => WANT_HEARTBEAT_TYPE
    case Heartbeat => HEARTBEAT_TYPE
    case IAmCamera(_, _, _) => CAMERA_TYPE
    case IAmDispatcher(_, _) => DISPATCHER_TYPE
  }

  function Big16(n: U16): seq<U8> {
    [n / 0x100, n % 0x100]
  }

  function Big32(n: U32): seq<U8> {
    [n / 0x100_0000, n / 0x1_0000 % 0x100, n / 0x100 % 0x100, n % 0x100]
  }

  function Text(s: Str): seq<U8>
    requires |s| <= 255
  {
    [|s|] + s
  }

  function Roads(roads: seq<U16>): seq<U8> {
    if roads == [] then [] else Big16(roads[0]) + Roads(roads[1..])
  }

  /** The strings fit their length byte; otherwise Encode fails. */
  predicate TextFits(m: Message) {
    match m
    case ErrorMessage(content) => |content| <= 255
    case PlateMessage(plate, _) => |plate| <= 255
    case TicketMessage(plate, _, _, _, _, _, _) => |plate| <= 255
    case _ => true
  }

  /** The count of a dispatcher message is the number of its roads. */
  predicate RoadsCounted(m: Message) {
    m.IAmDispatcher? ==> m.numroads == |m.roads|
  }

  /** The bytes after the type byte. */
  function Body(m: Message): seq<U8>
    requires TextFits(m)
  {
    match m
    case ErrorMessage(content) => Text(content)
    case PlateMessage(plate, timestamp) => Text(plate) + Big32(timestamp)
    case TicketMessage(plate, road, mileOne, timeOne, mileTwo, timeTwo, speed) =>
      Text(plate) + (Big16(road) + (Big16(mileOne) + (Big32(timeOne) +
        (Big16(mileTwo) + (Big32(timeTwo) + Big16(speed))))))
    case WantHeartbeat(interval) => Big32(interval)
    case Heartbeat => []
    case IAmCamera(road, mile, limit) => Big16(road) + (Big16(mile) + Big16(limit))
    case IAmDispatcher(numroads, roads) => [numroads] + Roads(roads)
  }

  function Encoding(m: Message): seq<U8>
    requires TextFits(m)
  {
    [TypeOf(m)] + Body(m)
  }

  // ---------- Reading ----------

  datatype Parsed<+T> = Incomplete | Got(value: T, rest: seq<U8>)

  function ParseU8(s: seq<U8>): Parsed<U8> {
    if |s| < 1 then Incomplete else Got(s[0], s[1..])
  }

  function ParseU16(s: seq<U8>): Parsed<U16> {
    if |s| < 2 then Incomplete else Got(s[0] as int * 0x100 + s[1], s[2..])
  }

  function ParseU32(s: seq<U8>): Parsed<U32> {
    if |s| < 4 then Incomplete
    else Got(s[0] as int * 0x100_0000 + s[1] as int * 0x1_0000 + s[2] as int * 0x100 + s[3], s[4..])
  }

  function ParseStr(s: seq<U8>): Parsed<Str> {
    if |s| < 1 || |s| - 1 < s[0] then Incomplete else Got(s[1..1 + s[0]], s[1 + s[0]..])
  }

  function ParseRoads(s: seq<U8>, n: nat): Parsed<seq<U16>> {
    if n == 0 then Got([], s)
    else
      match ParseU16(s)
      case Incomplete => Incomplete
      case Got(road, rest) =>
        match ParseRoads(rest, n - 1)
        case Incomplete => Incomplete
        case Got(roads, rest') => Got([road] + roads, rest')
  }

  function ParseError(s: seq<U8>): Parsed<Message> {
    match ParseStr(s)
    case Incomplete => Incomplete
    case Got(content, rest) => Got(ErrorMessage(content), rest)
  }

  function ParsePlate(s: seq<U8>): Parsed<Message> {
    match ParseStr(s)
    case Incomplete => Incomplete
    case Got(plate, s1) =>
      match ParseU32(s1)
      case Incomplete => Incomplete
      case Got(timestamp, rest) => Got(PlateMessage(plate, timestamp), rest)
  }

  /** One end of a ticket: the mile and the time. */
  function ParsePoint(s: seq<U8>): Parsed<(U16, U32)> {
    match ParseU16(s)
    case Incomplete => Incomplete
    case Got(mile, s1) =>
      match ParseU32(s1)
      case Incomplete => Incomplete
      case Got(time, rest) => Got((mile, time), rest)
  }

  function ParseTicket(s: seq<U8>): Parsed<Message> {
    match ParseStr(s)
    case Incomplete => Incomplete
    case Got(plate, s1) =>
      match ParseU16(s1)
      case Incomplete => Incomplete
      case Got(road, s2) =>
        match ParsePoint(s2)
        case Incomplete => Incomplete
        case Got(one, s3) =>
          match ParsePoint(s3)
          case Incomplete => Incomplete
          case Got(two, s4) =>
            match ParseU16(s4)
            case Incomplete => Incomplete
            case Got(speed, rest) => Got(TicketMessage(plate, road, one.0, one.1, two.0, two.1, speed), rest)
  }

  function ParseWantHeartbeat(s: seq<U8>): Parsed<Message> {
    match ParseU32(s)
    case Incomplete => Incomplete
    case Got(interval, rest) => Got(WantHeartbeat(interval), rest)
  }

  function ParseCamera(s: seq<U8>): Parsed<Message> {
    match ParseU16(s)
    case Incomplete => Incomplete
    case Got(road, s1) =>
      match ParseU16(s1)
      case Incomplete => Incomplete
      case Got(mile, s2) =>
        match ParseU16(s2)
        case Incomplete => Incomplete
        case Got(limit, rest) => Got(IAmCamera(road, mile, limit), rest)
  }

  function ParseDispatcher(s: seq<U8>): Parsed<Message> {
    match ParseU8(s)
    case Incomplete => Incomplete
    case Got(numroads, s1) =>
      match ParseRoads(s1, numroads)
      case Incomplete => Incomplete
      case Got(roads, rest) => Got(IAmDispatcher(numroads, roads), rest)
  }

  predicate IsType(b: U8) {
    b in {ERROR_TYPE, PLATE_TYPE, TICKET_TYPE, WANT_HEARTBEAT_TYPE, HEARTBEAT_TYPE, CAMERA_TYPE, DISPATCHER_TYPE}
  }

  function ParseBody(kind: U8, s: seq<U8>): Parsed<Message>
    requires IsType(kind)
  {
    if kind == ERROR_TYPE then ParseError(s)
    else if kind == PLATE_TYPE then ParsePlate(s)
    else if kind == TICKET_TYPE then ParseTicket(s)
    else if kind == WANT_HEARTBEAT_TYPE then ParseWantHeartbeat(s)
    else if kind == HEARTBEAT_TYPE then Got(Heartbeat, s)
    else if kind == CAMERA_TYPE then ParseCamera(s)
    else ParseDispatcher(s)
  }

  /** The front of s is no message of any type. */
  predicate Invalid(s: seq<U8>) {
    s != [] && !IsType(s[0])
  }

  /** The message at the front of s; Incomplete when more bytes are needed. */
  function Parse(s: seq<U8>): Parsed<Message>
    requires !Invalid(s)
  {
    if s == [] then Incomplete else ParseBody(s[0], s[1..])
  }

  // ---------- Reading back what was written ----------

  lemma ParseBig16(n: U16, t: seq<U8>)
    ensures ParseU16(Big16(n) + t) == Got(n, t)
  {
    assert (Big16(n) + t)[2..] == t;
  }

  lemma ParseBig32(n: U32, t: seq<U8>)
    ensures ParseU32(Big32(n) + t) == Got(n, t)
  {
    assert (Big32(n) + t)[4..] == t;
    assert n / 0x1_0000 == (n / 0x100_0000) * 0x100 + n / 0x1_0000 % 0x100;
    assert n / 0x100 == (n / 0x1_0000) * 0x100 + n / 0x100 % 0x100;
  }

  lemma ParseText(s: Str, t: seq<U8>)
    requires |s| <= 255
    ensures ParseStr(Text(s) + t) == Got(s, t)
  {
    assert (Text(s) + t)[1..1 + |s|] == s;
    assert (Text(s) + t)[1 + |s|..] == t;
  }

  lemma {:induction false} ParseRoadsBack(roads: seq<U16>, t: seq<U8>)
    ensures ParseRoads(Roads(roads) + t, |roads|) == Got(roads, t)
  {
    if roads == [] {
      assert Roads(roads) + t == t;
    } else {
      Assoc(Big16(roads[0]), Roads(roads[1..]), t);
      ParseBig16(roads[0], Roads(roads[1..]) + t);
      ParseRoadsBack(roads[1..], t);
      assert roads == [roads[0]] + roads[1..];
    }
  }

  lemma ParseTicketBack(m: Message, t: seq<U8>)
    requires m.TicketMessage? && TextFits(m)
    ensures ParseTicket(Body(m) + t) == Got(m, t)
  {
    hide ParseU16, ParseU32, ParseStr, Big16, Big32, Text;
    var r6 := Big16(m.speed) + t;
    var r5 := Big32(m.timeStampTwo) + r6;
    var r4 := Big16(m.mileTwo) + r5;
    var r3 := Big32(m.timeStampOne) + r4;
    var r2 := Big16(m.mileOne) + r3;
    var r1 := Big16(m.road) + r2;
    TicketBytes(m, t);
    ParseText(m.plate, r1);
    ParseBig16(m.road, r2);
    ParseBig16(m.mileOne, r3);
    ParseBig32(m.timeStampOne, r4);
    ParseBig16(m.mileTwo, r5);
    ParseBig32(m.timeStampTwo, r6);
    ParseBig16(m.speed, t);
  }

  lemma TicketBytes(m: Message, t: seq<U8>)
    requires m.TicketMessage? && TextFits(m)
    ensures Body(m) + t ==
            Text(m.plate) + (Big16(m.road) + (Big16(m.mileOne) + (Big32(m.timeStampOne) +
              (Big16(m.mileTwo) + (Big32(m.timeStampTwo) + (Big16(m.speed) + t))))))
  {
    var b5 := Big32(m.timeStampTwo) + Big16(m.speed);
    var b4 := Big16(m.mileTwo) + b5;
    var b3 := Big32(m.timeStampOne) + b4;
    var b2 := Big16(m.mileOne) + b3;
    var b1 := Big16(m.road) + b2;
    Assoc(Text(m.plate), b1, t);
    Assoc(Big16(m.road), b2, t);
    Assoc(Big16(m.mileOne), b3, t);
    Assoc(Big32(m.timeStampOne), b4, t);
    Assoc(Big16(m.mileTwo), b5, t);
    Assoc(Big32(m.timeStampTwo), Big16(m.speed), t);
  }

  lemma ParsePlateBack(plate: Str, timestamp: U32, t: seq<U8>)
    requires |plate| <= 255
    ensures ParsePlate(Text(plate) + Big32(timestamp) + t) == Got(PlateMessage(plate, timestamp), t)
  {
    Assoc(Text(plate), Big32(timestamp), t);
    ParseText(plate, Big32(timestamp) + t);
    ParseBig32(timestamp, t);
  }

  lemma ParseCameraBack(road: U16, mile: U16, limit: U16, t: seq<U8>)
    ensures ParseCamera(Big16(road) + (Big16(mile) + Big16(limit)) + t) == Got(IAmCamera(road, mile, limit), t)
  {
    Assoc(Big16(road), Big16(mile) + Big16(limit), t);
    Assoc(Big16(mile), Big16(limit), t);
    ParseBig16(road, Big16(mile) + (Big16(limit) + t));
    ParseBig16(mile, Big16(limit) + t);
    ParseBig16(limit, t);
  }

  lemma ParseDispatcherBack(numroads: U8, roads: seq<U16>, t: seq<U8>)
    requires numroads == |roads|
    ensures ParseDispatcher([numroads] + Roads(roads) + t) == Got(IAmDispatcher(numroads, roads), t)
  {
    Assoc([numroads], Roads(roads), t);
    assert ([numroads] + (Roads(roads) + t))[1..] == Roads(roads) + t;
    ParseRoadsBack(roads, t);
  }

  lemma ParseBodyBack(m: Message, t: seq<U8>)
    requires TextFits(m) && RoadsCounted(m)
    ensures ParseBody(TypeOf(m), Body(m) + t) == Got(m, t)
  {
    match m
    case ErrorMessage(content) => ParseText(content, t);
    case PlateMessage(plate, timestamp) =>
      ParsePlateBack(plate, timestamp, t);
    case TicketMessage(_, _, _, _, _, _, _) => ParseTicketBack(m, t);
    case WantHeartbeat(interval) => ParseBig32(interval, t);
    case Heartbeat => assert [] + t == t;
    case IAmCamera(road, mile, limit) =>
      ParseCameraBack(road, mile, limit, t);
    case IAmDispatcher(numroads, roads) =>
      ParseDispatcherBack(numroads, roads, t);
  }

  /** Whatever follows it, an encoded message is read back, with the following bytes left over,
      exactly when a dispatcher message counts its roads right. */
  lemma RoundTrip(m: Message, t: seq<U8>)
    requires TextFits(m)
    ensures !Invalid(Encoding(m) + t)
    ensures Parse(Encoding(m) + t) == Got(m, t) <==> RoadsCounted(m)
  {
    Assoc([TypeOf(m)], Body(m), t);
    assert ([TypeOf(m)] + (Body(m) + t))[1..] == Body(m) + t;
    if RoadsCounted(m) {
      ParseBodyBack(m, t);
    } else {
      ParsedRoadsCounted(Body(m) + t);
    }
  }

  lemma {:induction false} ParseRoadsLength(s: seq<U8>, n: nat)
    ensures ParseRoads(s, n).Got? ==> |ParseRoads(s, n).value| == n
  {
    if n > 0 && ParseU16(s).Got? {
      ParseRoadsLength(ParseU16(s).rest, n - 1);
    }
  }

  /** The decoder only produces dispatcher messages that count their roads right. */
  lemma ParsedRoadsCounted(s: seq<U8>)
    ensures ParseDispatcher(s).Got? ==> RoadsCounted(ParseDispatcher(s).value)
  {
    if ParseU8(s).Got? {
      ParseRoadsLength(s[1..], s[0]);
    }
  }

  // ---------- More bytes ----------

  /** p reads the same value when t follows, and leaves t. */
  predicate Extends<T(==)>(p: Parsed<T>, q: Parsed<T>, t: seq<U8>) {
    p.Got? ==> q == Got(p.value, p.rest + t)
  }

  lemma ExtendU16(s: seq<U8>, t: seq<U8>)
    ensures Extends(ParseU16(s), ParseU16(s + t), t)
  {
    if |s| >= 2 { assert (s + t)[2..] == s[2..] + t; }
  }

  lemma ExtendU32(s: seq<U8>, t: seq<U8>)
    ensures Extends(ParseU32(s), ParseU32(s + t), t)
  {
    if |s| >= 4 { assert (s + t)[4..] == s[4..] + t; }
  }

  lemma ExtendStr(s: seq<U8>, t: seq<U8>)
    ensures Extends(ParseStr(s), ParseStr(s + t), t)
  {
    if ParseStr(s).Got? {
      assert (s + t)[1..1 + s[0]] == s[1..1 + s[0]];
      assert (s + t)[1 + s[0]..] == s[1 + s[0]..] + t;
    }
  }

  lemma {:induction false} ExtendRoads(s: seq<U8>, n: nat, t: seq<U8>)
    ensures Extends(ParseRoads(s, n), ParseRoads(s + t, n), t)
  {
    if n > 0 {
      ExtendU16(s, t);
      if ParseU16(s).Got? {
        ExtendRoads(ParseU16(s).rest, n - 1, t);
      }
    }
  }

  lemma ExtendPoint(s: seq<U8>, t: seq<U8>)
    ensures Extends(ParsePoint(s), ParsePoint(s + t), t)
  {
    ExtendU16(s, t);
    if ParseU16(s).Got? {
      ExtendU32(ParseU16(s).rest, t);
    }
  }

  lemma ExtendTicket(s: seq<U8>, t: seq<U8>)
    ensures Extends(ParseTicket(s), ParseTicket(s + t), t)
  {
    ExtendStr(s, t);
    if ParseStr(s).Got? {
      var s1 := ParseStr(s).rest;
      ExtendU16(s1, t);
      if ParseU16(s1).Got? {
        var s2 := ParseU16(s1).rest;
        ExtendPoint(s2, t);
        if ParsePoint(s2).Got? {
          var s3 := ParsePoint(s2).rest;
          ExtendPoint(s3, t);
          if ParsePoint(s3).Got? {
            ExtendU16(ParsePoint(s3).rest, t);
          }
        }
      }
    }
  }

  lemma ExtendCamera(s: seq<U8>, t: seq<U8>)
    ensures Extends(ParseCamera(s), ParseCamera(s + t), t)
  {
    ExtendU16(s, t);
    if ParseU16(s).Got? {
      var s1 := ParseU16(s).rest;
      ExtendU16(s1, t);
      if ParseU16(s1).Got? {
        ExtendU16(ParseU16(s1).rest, t);
      }
    }
  }

  lemma ExtendBody(kind: U8, s: seq<U8>, t: seq<U8>)
    requires IsType(kind)
    ensures Extends(ParseBody(kind, s), ParseBody(kind, s + t), t)
  {
    if kind == ERROR_TYPE {
      ExtendStr(s, t);
    } else if kind == PLATE_TYPE {
      ExtendStr(s, t);
      if ParseStr(s).Got? { ExtendU32(ParseStr(s).rest, t); }
    } else if kind == TICKET_TYPE {
      ExtendTicket(s, t);
    } else if kind == WANT_HEARTBEAT_TYPE {
      ExtendU32(s, t);
    } else if kind == CAMERA_TYPE {
      ExtendCamera(s, t);
    } else if kind == DISPATCHER_TYPE && s != [] {
      assert (s + t)[1..] == s[1..] + t;
      ExtendRoads(s[1..], s[0], t);
    }
  }

  /** A message that is read from s is read from any longer string too. */
  lemma ParseExtend(s: seq<U8>, t: seq<U8>)
    requires s != []
    ensures Invalid(s) <==> Invalid(s + t)
    ensures !Invalid(s) ==> Extends(Parse(s), Parse(s + t), t)
  {
    if !Invalid(s) {
      assert (s + t)[1..] == s[1..] + t;
      ExtendBody(s[0], s[1..], t);
    }
  }

  lemma {:induction false} RoadsShrink(s: seq<U8>, n: nat)
    ensures ParseRoads(s, n).Got? ==> |ParseRoads(s, n).rest| <= |s|
  {
    if n > 0 && ParseU16(s).Got? {
      RoadsShrink(ParseU16(s).rest, n - 1);
    }
  }

  /** Reading a message uses at least its type byte. */
  lemma ParseShrinks(s: seq<U8>)
    requires !Invalid(s) && Parse(s).Got?
    ensures |Parse(s).rest| < |s|
  {
    if s[0] == DISPATCHER_TYPE && |s| > 1 {
      RoadsShrink(s[2..], s[1]);
      assert s[1..][1..] == s[2..];
    }
  }

  /** A message cut off anywhere is incomplete, never another message and never invalid. */
  lemma CutOffIsIncomplete(m: Message, n: nat)
    requires TextFits(m) && RoadsCounted(m) && n < |Encoding(m)|
    ensures !Invalid(Encoding(m)[..n]) && Parse(Encoding(m)[..n]) == Incomplete
  {
    var cut, more := Encoding(m)[..n], Encoding(m)[n..];
    assert Encoding(m) == cut + more;
    ParseWhole(m);
    if cut != [] {
      ParseExtend(cut, more);
    }
  }

  /** No encoding is the beginning of another message's encoding. */
  lemma PrefixFree(m: Message, n: Message)
    requires TextFits(m) && RoadsCounted(m) && TextFits(n) && RoadsCounted(n)
    requires Encoding(m) <= Encoding(n)
    ensures m == n
  {
    hide Parse, Encoding;
    var more := Encoding(n)[|Encoding(m)|..];
    RoundTrip(m, more);
    ParseWhole(n);
    assert Encoding(n) == Encoding(m) + more;
  }

  lemma ParseWhole(m: Message)
    requires TextFits(m) && RoadsCounted(m)
    ensures !Invalid(Encoding(m)) && Parse(Encoding(m)) == Got(m, [])
  {
    RoundTrip(m, []);
    assert Encoding(m) + [] == Encoding(m);
  }
}
