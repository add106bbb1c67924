/** The other direction of the speed daemon's codec: whatever is read was written by the encoder, and
    whatever the decoder waits for is the beginning of a message. */
module SdConverse {
  import opened Wrappers
  import opened SdTypes
  import opened SdFormat

  /** Encode does not fail, and the message can be read back. */
  predicate Encodable(m: Message) {
    TextFits(m) && RoadsCounted(m)
  }

  /** The beginning of some message, cut off before its end. */
  predicate Unfinished(tail: seq<U8>, m: Message) {
    Encodable(m) && tail < Encoding(m)
  }

  // ---------- What is read was written ----------

  lemma Bytes16(s: seq<U8>)
    ensures ParseU16(s).Got? ==> s == Big16(ParseU16(s).value) + ParseU16(s).rest
  {
  }

  lemma Bytes32(s: seq<U8>)
    ensures ParseU32(s).Got? ==> s == Big32(ParseU32(s).value) + ParseU32(s).rest
  {
    if |s| >= 4 {
      var n := ParseU32(s).value;
      Quotients(s[0], s[1], s[2], s[3], n);
      assert s == s[..4] + s[4..];
      assert s[..4] == [s[0], s[1], s[2], s[3]];
    }
  }

  lemma Quotients(a: U8, b: U8, c: U8, d: U8, n: U32)
    requires n == a as int * 0x100_0000 + b as int * 0x1_0000 + c as int * 0x100 + d
    ensures Big32(n) == [a, b, c, d]
  {
    assert n / 0x1_0000 == a as int * 0x100 + b;
    assert n / 0x100 == a as int * 0x1_0000 + b as int * 0x100 + c;
  }

  lemma BytesStr(s: seq<U8>)
    ensures ParseStr(s).Got? ==> |ParseStr(s).value| <= 255 && s == Text(ParseStr(s).value) + ParseStr(s).rest
  {
    if ParseStr(s).Got? {
      var n := s[0];
      assert s == [n] + s[1..1 + n] + s[1 + n..];
    }
  }

  lemma {:induction false} BytesRoads(s: seq<U8>, n: nat)
    ensures ParseRoads(s, n).Got? ==> s == Roads(ParseRoads(s, n).value) + ParseRoads(s, n).rest
  {
    if ParseRoads(s, n).Got? {
      if n == 0 {
        assert s == [] + s;
      } else {
        Bytes16(s);
        var road, rest := ParseU16(s).value, ParseU16(s).rest;
        BytesRoads(rest, n - 1);
        var roads := ParseRoads(rest, n - 1).value;
        assert ([road] + roads)[1..] == roads;
        Assoc(Big16(road), Roads(roads), ParseRoads(s, n).rest);
      }
    }
  }

  lemma BytesPoint(s: seq<U8>)
    ensures ParsePoint(s).Got? ==>
              s == Big16(ParsePoint(s).value.0) + (Big32(ParsePoint(s).value.1) + ParsePoint(s).rest)
  {
    Bytes16(s);
    if ParseU16(s).Got? {
      Bytes32(ParseU16(s).rest);
    }
  }

  /** The decoder's result is a message that encodes to the bytes that were read. */
  predicate Wrote(s: seq<U8>, p: Parsed<Message>, kind: U8) {
    p.Got? ==> TypeOf(p.value) == kind && Encodable(p.value) && s == Body(p.value) + p.rest
  }

  lemma WrotePlate(s: seq<U8>)
    ensures Wrote(s, ParsePlate(s), PLATE_TYPE)
  {
    BytesStr(s);
    if ParsePlate(s).Got? {
      var s1 := ParseStr(s).rest;
      Bytes32(s1);
      Assoc(Text(ParseStr(s).value), Big32(ParseU32(s1).value), ParsePlate(s).rest);
    }
  }

  lemma WroteTicket(s: seq<U8>)
    ensures Wrote(s, ParseTicket(s), TICKET_TYPE)
  {
    BytesStr(s);
    if ParseTicket(s).Got? {
      var s1 := ParseStr(s).rest;
      Bytes16(s1);
      var s2 := ParseU16(s1).rest;
      BytesPoint(s2);
      var s3 := ParsePoint(s2).rest;
      BytesPoint(s3);
      Bytes16(ParsePoint(s3).rest);
      TicketBytes(ParseTicket(s).value, ParseTicket(s).rest);
    }
  }

  lemma WroteCamera(s: seq<U8>)
    ensures Wrote(s, ParseCamera(s), CAMERA_TYPE)
  {
    Bytes16(s);
    if ParseCamera(s).Got? {
      var s1 := ParseU16(s).rest;
      Bytes16(s1);
      var s2 := ParseU16(s1).rest;
      Bytes16(s2);
      var m, rest := ParseCamera(s).value, ParseCamera(s).rest;
      Assoc(Big16(m.road), Big16(m.mile) + Big16(m.limit), rest);
      Assoc(Big16(m.mile), Big16(m.limit), rest);
    }
  }

  lemma WroteDispatcher(s: seq<U8>)
    ensures Wrote(s, ParseDispatcher(s), DISPATCHER_TYPE)
  {
    if ParseDispatcher(s).Got? {
      ParsedRoadsCounted(s);
      BytesRoads(s[1..], s[0]);
      assert s == [s[0]] + s[1..];
      Assoc([s[0]], Roads(ParseDispatcher(s).value.roads), ParseDispatcher(s).rest);
    }
  }

  lemma WroteBody(kind: U8, s: seq<U8>)
    requires IsType(kind)
    ensures Wrote(s, ParseBody(kind, s), kind)
  {
    if kind == ERROR_TYPE {
      BytesStr(s);
    } else if kind == PLATE_TYPE {
      WrotePlate(s);
    } else if kind == TICKET_TYPE {
      WroteTicket(s);
    } else if kind == WANT_HEARTBEAT_TYPE {
      Bytes32(s);
    } else if kind == HEARTBEAT_TYPE {
      assert s == [] + s;
    } else if kind == CAMERA_TYPE {
      WroteCamera(s);
    } else {
      WroteDispatcher(s);
    }
  }

  /** A message that is read from the front of s was encoded there, and the rest follows it. */
  lemma ReadWasWritten(s: seq<U8>)
    requires !Invalid(s) && Parse(s).Got?
    ensures Encodable(Parse(s).value) && s == Encoding(Parse(s).value) + Parse(s).rest
  {
    WroteBody(s[0], s[1..]);
    var m, rest := Parse(s).value, Parse(s).rest;
    assert s == [s[0]] + s[1..];
    Assoc([s[0]], Body(m), rest);
  }

  // ---------- What is waited for can come ----------

  /** No message needs more bytes than this. */
  const LONGEST := 520

  lemma {:induction false} RoadsComplete(s: seq<U8>, n: nat)
    requires |s| >= 2 * n
    ensures ParseRoads(s, n).Got?
  {
    if n > 0 {
      RoadsComplete(ParseU16(s).rest, n - 1);
    }
  }

  lemma LongIsComplete(s: seq<U8>)
    requires !Invalid(s) && |s| >= LONGEST
    ensures Parse(s).Got?
  {
    var body := s[1..];
    if s[0] == DISPATCHER_TYPE {
      RoadsComplete(body[1..], body[0]);
    }
  }

  /** Bytes that are incomplete are the beginning of some message. */
  lemma IncompleteIsCutOff(s: seq<U8>) returns (m: Message)
    requires !Invalid(s) && Parse(s) == Incomplete
    ensures Unfinished(s, m)
  {
    if s == [] {
      return Heartbeat;
    }
    var zeros: seq<U8> := seq(LONGEST, _ => 0);
    LongIsComplete(s + zeros);
    ReadWasWritten(s + zeros);
    m := Parse(s + zeros).value;
    LongerThan(s, zeros, m, Parse(s + zeros).rest);
  }

  /** An encoding at the front of s and more bytes is longer than s, when s is incomplete. */
  lemma LongerThan(s: seq<U8>, more: seq<U8>, m: Message, rest: seq<U8>)
    requires !Invalid(s) && Parse(s) == Incomplete
    requires Encodable(m) && s + more == Encoding(m) + rest
    ensures Unfinished(s, m)
  {
    hide Parse, Encoding;
    var e := Encoding(m);
    if |e| <= |s| {
      var tail := s[|e|..];
      PrefixOf(e, rest, s, more);
      RoundTrip(m, tail);
      assert false;
    } else {
      PrefixOf(s, more, e, rest);
    }
  }

  lemma PrefixOf(a: seq<U8>, x: seq<U8>, b: seq<U8>, y: seq<U8>)
    requires a + x == b + y && |a| <= |b|
    ensures b == a + b[|a|..] && a <= b
  {
    assert a == (a + x)[..|a|] && b == (b + y)[..|b|];
  }
}
