/** The bytes of each kind of message, position by position. Models the types and the Encode methods of
    internal/speeddaemon/messages.go. */
module SdLayout {
  import opened Wrappers
  import opened SdTypes
  import opened SdFormat

  /** Numbers are written with the most significant byte first. */
  lemma BigEndian16(n: U16, a: U8, b: U8)
    ensures Big16(n) == [a, b] <==> n == 256 * a as int + b as int
  {
  }

  lemma BigEndian32(n: U32, a: U8, b: U8, c: U8, d: U8)
    ensures Big32(n) == [a, b, c, d] <==>
            n == 16777216 * a as int + 65536 * b as int + 256 * c as int + d as int
  {
    WeightedSum(n);
    var digits := Big32(n);
    if n == 16777216 * a as int + 65536 * b as int + 256 * c as int + d as int {
      DigitsUnique(digits[0], digits[1], digits[2], digits[3], a, b, c, d);
    }
  }

  lemma WeightedSum(n: U32)
    ensures var x := Big32(n); n == 16777216 * x[0] as int + 65536 * x[1] as int + 256 * x[2] as int + x[3] as int
  {
    assert n / 0x1_0000 == (n / 0x100_0000) * 0x100 + n / 0x1_0000 % 0x100;
    assert n / 0x100 == (n / 0x1_0000) * 0x100 + n / 0x100 % 0x100;
  }

  lemma DigitsUnique(a: U8, b: U8, c: U8, d: U8, e: U8, f: U8, g: U8, h: U8)
    requires 16777216 * a as int + 65536 * b as int + 256 * c as int + d as int ==
             16777216 * e as int + 65536 * f as int + 256 * g as int + h as int
    ensures a == e && b == f && c == g && d == h
  {
  }

  /** Two bytes for each road, in order. */
  lemma {:induction false} RoadAt(roads: seq<U16>, k: nat)
    ensures |Roads(roads)| == 2 * |roads|
    ensures k < |roads| ==> Roads(roads)[2 * k..2 * k + 2] == Big16(roads[k])
  {
    if roads != [] {
      RoadAt(roads[1..], if k == 0 then 0 else k - 1);
    }
  }

  /** A message starts with the byte of its type; a text has its length before it. */
  lemma TextLayout(text: Str, time: U32)
    requires |text| <= 255
    ensures Encoding(ErrorMessage(text)) == [0x10, |text|] + text
    ensures Encoding(PlateMessage(text, time)) == [0x20, |text|] + text + Big32(time)
  {
    hide Big32;
    Assoc([0x20], Text(text), Big32(time));
    assert [0x20] + Text(text) == [0x20, |text|] + text;
  }

  lemma HeartbeatLayout(interval: U32)
    ensures Encoding(WantHeartbeat(interval)) == [0x40] + Big32(interval)
    ensures Encoding(Heartbeat) == [0x41]
  {
    hide Big32;
  }

  lemma CameraLayout(road: U16, mile: U16, limit: U16)
    ensures Encoding(IAmCamera(road, mile, limit)) == [0x80] + Big16(road) + Big16(mile) + Big16(limit)
  {
    hide Big16;
    Assoc([0x80], Big16(road), Big16(mile) + Big16(limit));
    Assoc([0x80] + Big16(road), Big16(mile), Big16(limit));
  }

  lemma DispatcherLayout(count: U8, roads: seq<U16>)
    ensures Encoding(IAmDispatcher(count, roads)) == [0x81, count] + Roads(roads)
  {
    hide Roads;
    Assoc([0x81], [count], Roads(roads));
    assert [0x81] + [count] == [0x81, count];
  }

  lemma TicketLayout(plate: Str, road: U16, mile: U16, time: U32, mileTwo: U16, timeTwo: U32, speed: U16)
    requires |plate| <= 255
    ensures Encoding(TicketMessage(plate, road, mile, time, mileTwo, timeTwo, speed)) ==
            [0x21, |plate|] + plate + Big16(road) + Big16(mile) + Big32(time) + Big16(mileTwo) + Big32(timeTwo) +
            Big16(speed)
  {
    hide Big16, Big32;
    SixInARow([0x21, |plate|] + plate, Big16(road), Big16(mile), Big32(time), Big16(mileTwo), Big32(timeTwo),
              Big16(speed));
    assert [0x21] + ([|plate|] + plate) == [0x21, |plate|] + plate;
    Assoc([0x21], Text(plate), Big16(road) + (Big16(mile) + (Big32(time) + (Big16(mileTwo) + (Big32(timeTwo) +
          Big16(speed))))));
  }

  lemma SixInARow(s: seq<U8>, a: seq<U8>, b: seq<U8>, c: seq<U8>, d: seq<U8>, e: seq<U8>, f: seq<U8>)
    ensures s + a + b + c + d + e + f == s + (a + (b + (c + (d + (e + f)))))
  {
    Assoc(s, a, b + (c + (d + (e + f))));
    Assoc(s + a, b, c + (d + (e + f)));
    Assoc(s + a + b, c, d + (e + f));
    Assoc(s + a + b + c, d, e + f);
    Assoc(s + a + b + c + d, e, f);
  }

  /** These seven bytes and no others start a message. */
  lemma TypeBytes(b: U8)
    ensures IsType(b) <==> b == 0x10 || b == 0x20 || b == 0x21 || b == 0x40 || b == 0x41 || b == 0x80 || b == 0x81
  {
  }
}
