/** What the messages that the central dispatcher has processed amount to: the limits they set, the
    channels they register and the records they leave, and when a ticket is due to them.
    Models the three Process methods of internal/speeddaemon/central_dispatcher.go over a whole queue. */
module MessageHistory {
  import opened Wrappers
  import opened SdTypes
  import opened TicketBook
  import opened Offences

  // ---------- The first n messages ----------

  /** The limit that the last camera of the road has set; None before the road's first camera. */
  function LimitSet(messages: seq<Message>, n: nat, road: U16): Option<U16>
    requires n <= |messages|
  {
    if n == 0 then None
    else if messages[n - 1].RegisterCamera? && messages[n - 1].road == road then Some(messages[n - 1].limit)
    else LimitSet(messages, n - 1, road)
  }

  /** The record that a message adds for a plate on a road, which is known if a camera came before. */
  function Adds(message: Message, known: bool, road: U16, plate: Plate): multiset<Record> {
    match message
    case Observation(r, p, mile, time) =>
      if known && r == road && p == plate then multiset{Record(mile, time)} else multiset{}
    case _ => multiset{}
  }

  /** The records of a plate on a road: its observations there, each once, from the road's first camera on. */
  function Seen(messages: seq<Message>, n: nat, road: U16, plate: Plate): multiset<Record>
    requires n <= |messages|
  {
    if n == 0 then multiset{}
    else
      Seen(messages, n - 1, road, plate) +
      Adds(messages[n - 1], LimitSet(messages, n - 1, road).Some?, road, plate)
  }

  /** The channels registered for a road, once for each time that a message lists the road. */
  function Registrations(messages: seq<Message>, n: nat, road: U16): seq<Channel>
    requires n <= |messages|
  {
    if n == 0 then []
    else
      Registrations(messages, n - 1, road) +
      match messages[n - 1]
      case RegisterDispatcher(roads, channel) => Copies(channel, multiset(roads)[road])
      case _ => []
  }

  /** A limit is set exactly when there was a camera for the road, and it is the limit of one of them. */
  lemma {:induction false} LimitFromCamera(messages: seq<Message>, n: nat, road: U16)
    requires n <= |messages|
    ensures LimitSet(messages, n, road).Some? <==>
            exists i :: 0 <= i < n && messages[i].RegisterCamera? && messages[i].road == road
    ensures LimitSet(messages, n, road).Some? ==>
            exists i :: 0 <= i < n && messages[i] == RegisterCamera(road, LimitSet(messages, n, road).value)
  {
    if n > 0 {
      LimitFromCamera(messages, n - 1, road);
    }
  }

  /** It is the limit of the last camera of the road. */
  lemma {:induction false} LimitIsLast(messages: seq<Message>, n: nat, road: U16) returns (i: nat)
    requires n <= |messages| && LimitSet(messages, n, road).Some?
    ensures i < n && messages[i] == RegisterCamera(road, LimitSet(messages, n, road).value)
    ensures forall k :: i < k < n && messages[k].RegisterCamera? ==> messages[k].road != road
  {
    if messages[n - 1].RegisterCamera? && messages[n - 1].road == road {
      i := n - 1;
    } else {
      i := LimitIsLast(messages, n - 1, road);
    }
  }

  predicate ObservedAt(messages: seq<Message>, i: nat, road: U16, plate: Plate, r: Record)
    requires i < |messages|
  {
    messages[i] == Observation(road, plate, r.mile, r.time) && LimitSet(messages, i, road).Some?
  }

  lemma AddsObserved(message: Message, known: bool, road: U16, plate: Plate, r: Record)
    ensures r in Adds(message, known, road, plate) <==>
            message == Observation(road, plate, r.mile, r.time) && known
  {
  }

  lemma {:induction false} SeenAt(messages: seq<Message>, n: nat, road: U16, plate: Plate, r: Record)
    requires n <= |messages|
    ensures r in Seen(messages, n, road, plate) <==>
            exists i: nat :: i < n && ObservedAt(messages, i, road, plate, r)
  {
    hide Adds, LimitSet;
    if n > 0 {
      SeenAt(messages, n - 1, road, plate, r);
      AddsObserved(messages[n - 1], LimitSet(messages, n - 1, road).Some?, road, plate, r);
      assert r in Seen(messages, n, road, plate) <==>
             r in Seen(messages, n - 1, road, plate) || ObservedAt(messages, n - 1, road, plate, r);
    }
  }

  /** A record is there exactly for an observation that came after some camera of the road. */
  lemma SeenIsObserved(messages: seq<Message>, n: nat, road: U16, plate: Plate, r: Record)
    requires n <= |messages|
    ensures r in Seen(messages, n, road, plate) <==>
            exists c, i :: 0 <= c < i < n && messages[c].RegisterCamera? && messages[c].road == road &&
                           messages[i] == Observation(road, plate, r.mile, r.time)
  {
    hide Seen, LimitSet;
    SeenAt(messages, n, road, plate, r);
    forall i: nat | i < n
      ensures ObservedAt(messages, i, road, plate, r) <==>
              messages[i] == Observation(road, plate, r.mile, r.time) &&
              exists c :: 0 <= c < i && messages[c].RegisterCamera? && messages[c].road == road
    {
      LimitFromCamera(messages, i, road);
    }
  }

  /** A channel is registered exactly when a message registers it for the road. */
  lemma {:induction false} RegisteredByMessage(messages: seq<Message>, n: nat, road: U16, channel: Channel)
    requires n <= |messages|
    ensures channel in Registrations(messages, n, road) <==>
            exists i, roads :: 0 <= i < n && messages[i] == RegisterDispatcher(roads, channel) && road in roads
  {
    if n > 0 {
      RegisteredByMessage(messages, n - 1, road, channel);
      var m := messages[n - 1];
      if m.RegisterDispatcher? {
        CopiesOf(m.channel, multiset(m.roads)[road], channel);
      }
    }
  }

  lemma CopiesOf(channel: Channel, n: nat, c: Channel)
    ensures c in Copies(channel, n) <==> n > 0 && c == channel
  {
    assert n > 0 ==> Copies(channel, n)[0] == channel;
  }

  // ---------- One message ----------

  /** How a message changes the limits. */
  predicate SetsLimit(message: Message, before: map<U16, U16>, after: map<U16, U16>) {
    after == if message.RegisterCamera? then before[message.road := message.limit] else before
  }

  /** How a message changes the registered channels. */
  ghost predicate Registers(message: Message, before: map<U16, seq<Channel>>, after: map<U16, seq<Channel>>) {
    if message.RegisterDispatcher? then forall r :: AddedTo(before, after, message.roads, message.channel, r)
    else after == before
  }

  /** How a message changes the records: a camera adds a road without records, an observation on a known
      road adds exactly one record, and nothing else changes any. */
  predicate AddsRecord(message: Message, before: map<U16, map<Plate, seq<Record>>>,
                       after: map<U16, map<Plate, seq<Record>>>) {
    match message
    case RegisterCamera(road, _) => after == if road in before then before else before[road := map[]]
    case RegisterDispatcher(_, _) => after == before
    case Observation(road, plate, mile, time) =>
      if road !in before then after == before
      else
        && road in after && plate in after[road]
        && after == before[road := before[road][plate := after[road][plate]]]
        && multiset(after[road][plate]) == multiset(RecordsOf(before[road], plate)) + multiset{Record(mile, time)}
  }

  // ---------- The dispatcher's maps are those of the history ----------

  function RecordsAt(records: map<U16, map<Plate, seq<Record>>>, road: U16, plate: Plate): seq<Record> {
    if road in records then RecordsOf(records[road], plate) else []
  }

  ghost predicate LimitsAfter(messages: seq<Message>, n: nat, limits: map<U16, U16>)
    requires n <= |messages|
  {
    forall road :: LimitSet(messages, n, road) == if road in limits then Some(limits[road]) else None
  }

  ghost predicate RecordsAfter(messages: seq<Message>, n: nat, records: map<U16, map<Plate, seq<Record>>>)
    requires n <= |messages|
  {
    && (forall road :: road in records <==> LimitSet(messages, n, road).Some?)
    && (forall road, plate :: multiset(RecordsAt(records, road, plate)) == Seen(messages, n, road, plate))
  }

  ghost predicate ChannelsAfter(messages: seq<Message>, n: nat, before: map<U16, seq<Channel>>,
                                after: map<U16, seq<Channel>>)
    requires n <= |messages|
  {
    forall road :: ChannelsIn(after, road) == ChannelsIn(before, road) + Registrations(messages, n, road)
  }

  /** Before the first message there is nothing. */
  lemma HistoryStarts(messages: seq<Message>, limits: map<U16, U16>,
                      records: map<U16, map<Plate, seq<Record>>>, dispatchers: map<U16, seq<Channel>>)
    requires records == map[] && limits == map[]
    ensures LimitsAfter(messages, 0, limits) && RecordsAfter(messages, 0, records)
    ensures ChannelsAfter(messages, 0, dispatchers, dispatchers)
  {
    forall road
      ensures ChannelsIn(dispatchers, road) == ChannelsIn(dispatchers, road) + Registrations(messages, 0, road)
    {
    }
  }

  lemma LimitsNext(messages: seq<Message>, n: nat, before: map<U16, U16>, after: map<U16, U16>)
    requires n < |messages| && LimitsAfter(messages, n, before) && SetsLimit(messages[n], before, after)
    ensures LimitsAfter(messages, n + 1, after)
  {
  }

  lemma RecordsNext(messages: seq<Message>, n: nat, before: map<U16, map<Plate, seq<Record>>>,
                    after: map<U16, map<Plate, seq<Record>>>)
    requires n < |messages| && RecordsAfter(messages, n, before) && AddsRecord(messages[n], before, after)
    ensures RecordsAfter(messages, n + 1, after)
  {
    hide AddsRecord, RecordsAt, Adds;
    KnownNext(messages, n, before, after);
    forall road, plate
      ensures multiset(RecordsAt(after, road, plate)) == Seen(messages, n + 1, road, plate)
    {
      assert multiset(RecordsAt(before, road, plate)) == Seen(messages, n, road, plate);
      RecordNext(messages[n], before, after, road, plate);
    }
  }

  lemma KnownNext(messages: seq<Message>, n: nat, before: map<U16, map<Plate, seq<Record>>>,
                  after: map<U16, map<Plate, seq<Record>>>)
    requires n < |messages| && AddsRecord(messages[n], before, after)
    requires forall road :: road in before <==> LimitSet(messages, n, road).Some?
    ensures forall road :: road in after <==> LimitSet(messages, n + 1, road).Some?
  {
  }

  lemma RecordNext(message: Message, before: map<U16, map<Plate, seq<Record>>>,
                   after: map<U16, map<Plate, seq<Record>>>, road: U16, plate: Plate)
    requires AddsRecord(message, before, after)
    ensures multiset(RecordsAt(after, road, plate)) ==
            multiset(RecordsAt(before, road, plate)) + Adds(message, road in before, road, plate)
  {
  }

  lemma ChannelsNext(messages: seq<Message>, n: nat, start: map<U16, seq<Channel>>,
                     before: map<U16, seq<Channel>>, after: map<U16, seq<Channel>>)
    requires n < |messages| && ChannelsAfter(messages, n, start, before) && Registers(messages[n], before, after)
    ensures ChannelsAfter(messages, n + 1, start, after)
  {
    forall road
      ensures ChannelsIn(after, road) == ChannelsIn(start, road) + Registrations(messages, n + 1, road)
    {
      var earlier := Registrations(messages, n, road);
      if messages[n].RegisterDispatcher? {
        assert AddedTo(before, after, messages[n].roads, messages[n].channel, road);
        Assoc(ChannelsIn(start, road), earlier, Copies(messages[n].channel, multiset(messages[n].roads)[road]));
      } else {
        assert earlier + [] == earlier;
      }
    }
  }

  /** When no limit is ever lowered, the next camera does not lower one. */
  lemma NotLowered(messages: seq<Message>, n: nat, limits: map<U16, U16>,
                   records: map<U16, map<Plate, seq<Record>>>)
    requires n < |messages| && NeverLowered(messages)
    requires LimitsAfter(messages, n, limits) && RecordsAfter(messages, n, records)
    ensures messages[n].RegisterCamera? && messages[n].road in records ==>
              LimitIn(limits, messages[n].road) <= LimitHundredths(messages[n].limit)
  {
    if messages[n].RegisterCamera? {
      LimitFromCamera(messages, n, messages[n].road);
    }
  }

  // ---------- Tickets ----------

  /** After n messages the ticket is due: among the records of its plate on its road, in the order of
      time, it is for two neighbours whose speed exceeds the limit that is set then. */
  ghost predicate DueAfter(speedOf: (Record, Record) -> U16, messages: seq<Message>, n: nat, t: Ticket)
    requires n <= |messages|
  {
    && LimitSet(messages, n, t.road).Some?
    && exists records :: Sorted(records) && multiset(records) == Seen(messages, n, t.road, t.plate) &&
                         Justified(speedOf, LimitHundredths(LimitSet(messages, n, t.road).value), records, t)
  }

  /** After n messages the ticket is due, and the channel is registered for its road. */
  ghost predicate IssuedAfter(speedOf: (Record, Record) -> U16, messages: seq<Message>, n: nat,
                              start: map<U16, seq<Channel>>, t: Ticket, channel: Channel)
    requires n <= |messages|
  {
    && DueAfter(speedOf, messages, n, t)
    && channel in ChannelsIn(start, t.road) + Registrations(messages, n, t.road)
  }

  /** That was so after some of the first n messages. */
  ghost predicate IssuedWithin(speedOf: (Record, Record) -> U16, messages: seq<Message>, n: nat,
                               start: map<U16, seq<Channel>>, t: Ticket, channel: Channel)
    requires n <= |messages|
  {
    exists m: nat :: m <= n && IssuedAfter(speedOf, messages, m, start, t, channel)
  }

  ghost predicate AllIssuedWithin(speedOf: (Record, Record) -> U16, messages: seq<Message>, n: nat,
                                  start: map<U16, seq<Channel>>, sent: seq<Ticket>, sentTo: seq<Channel>)
    requires n <= |messages|
  {
    && |sentTo| == |sent|
    && forall k :: 0 <= k < |sent| ==> IssuedWithin(speedOf, messages, n, start, sent[k], sentTo[k])
  }

  /** Tickets that are justified by the records and limits of the moment, and were delivered, are issued
      after the message that is being processed. */
  lemma IssuedNow(speedOf: (Record, Record) -> U16, messages: seq<Message>, n: nat,
                  limits: map<U16, U16>, records: map<U16, map<Plate, seq<Record>>>,
                  start: map<U16, seq<Channel>>, dispatchers: map<U16, seq<Channel>>,
                  sent: seq<Ticket>, sentTo: seq<Channel>, from: nat, k: nat)
    requires n <= |messages| && from <= k < |sent|
    requires LimitsAfter(messages, n, limits) && RecordsAfter(messages, n, records)
    requires ChannelsAfter(messages, n, start, dispatchers) && Delivered(dispatchers, sent, sentTo)
    requires forall road, plate :: road in records && plate in records[road] ==> Sorted(records[road][plate])
    requires AllJustifiedFrom(speedOf, limits, records, sent, from)
    ensures IssuedAfter(speedOf, messages, n, start, sent[k], sentTo[k])
  {
    var t := sent[k];
    assert LimitSet(messages, n, t.road) == Some(limits[t.road]);
    var byTime := records[t.road][t.plate];
    assert multiset(RecordsAt(records, t.road, t.plate)) == Seen(messages, n, t.road, t.plate);
    assert Sorted(byTime) && Justified(speedOf, LimitIn(limits, t.road), byTime, t);
  }

  lemma NoneIssuedYet(speedOf: (Record, Record) -> U16, messages: seq<Message>, start: map<U16, seq<Channel>>)
    ensures AllIssuedWithin(speedOf, messages, 0, start, [], [])
  {
  }

  lemma StillIssued(speedOf: (Record, Record) -> U16, messages: seq<Message>, n: nat,
                    start: map<U16, seq<Channel>>, earlier: seq<Ticket>, earlierTo: seq<Channel>,
                    sent: seq<Ticket>, sentTo: seq<Channel>)
    requires n < |messages| && AllIssuedWithin(speedOf, messages, n, start, earlier, earlierTo)
    requires earlier <= sent && earlierTo <= sentTo && |sentTo| == |sent|
    requires forall k :: |earlier| <= k < |sent| ==>
               IssuedAfter(speedOf, messages, n + 1, start, sent[k], sentTo[k])
    ensures AllIssuedWithin(speedOf, messages, n + 1, start, sent, sentTo)
  {
    forall k | 0 <= k < |sent|
      ensures IssuedWithin(speedOf, messages, n + 1, start, sent[k], sentTo[k])
    {
      if k < |earlier| {
        assert sent[k] == earlier[k] && sentTo[k] == earlierTo[k];
        assert IssuedWithin(speedOf, messages, n, start, earlier[k], earlierTo[k]);
      }
    }
  }

  /** The message is a camera of the road, whose limit the speed exceeds. */
  predicate Speeding(message: Message, road: U16, speed: U16) {
    message.RegisterCamera? && message.road == road && speed > message.limit * 100 % 65536
  }

  /** What a ticket means in terms of the messages alone: both its records were observed for its plate on
      its road, in this order of time and with nothing between them; its speed is theirs, and exceeds the
      limit that the road's last camera stated, in sixteen bits; and its channel was registered before the
      first message or by a message that lists its road. */
  lemma IssuedMeans(speedOf: (Record, Record) -> U16, messages: seq<Message>, n: nat,
                    start: map<U16, seq<Channel>>, t: Ticket, channel: Channel)
    requires n <= |messages| && IssuedAfter(speedOf, messages, n, start, t, channel)
    ensures t.speed == speedOf(t.first, t.second) && t.first.time <= t.second.time
    ensures exists i :: 0 <= i < n && Speeding(messages[i], t.road, t.speed) &&
                        forall k :: i < k < n && messages[k].RegisterCamera? ==> messages[k].road != t.road
    ensures Observation(t.road, t.plate, t.first.mile, t.first.time) in messages[..n]
    ensures Observation(t.road, t.plate, t.second.mile, t.second.time) in messages[..n]
    ensures forall r :: r in Seen(messages, n, t.road, t.plate) ==> r.time <= t.first.time || t.second.time <= r.time
    ensures || channel in ChannelsIn(start, t.road)
            || exists i, roads :: 0 <= i < n && messages[i] == RegisterDispatcher(roads, channel) && t.road in roads
  {
    hide Seen, LimitSet, Registrations, Sorted, Justified;
    RegisteredByMessage(messages, n, t.road, channel);
    var i := LimitIsLast(messages, n, t.road);
    var limit := LimitSet(messages, n, t.road).value;
    var records :| Sorted(records) && multiset(records) == Seen(messages, n, t.road, t.plate) &&
                   Justified(speedOf, LimitHundredths(limit), records, t);
    JustifiedMeans(speedOf, LimitHundredths(limit), records, t);
    SeenIsObserved(messages, n, t.road, t.plate, t.first);
    SeenIsObserved(messages, n, t.road, t.plate, t.second);
    assert Speeding(messages[i], t.road, t.speed);
  }

  lemma JustifiedMeans(speedOf: (Record, Record) -> U16, limit: U16, records: seq<Record>, t: Ticket)
    requires Sorted(records) && Justified(speedOf, limit, records, t)
    ensures t.first in multiset(records) && t.second in multiset(records)
    ensures t.speed == speedOf(t.first, t.second) > limit && t.first.time <= t.second.time
    ensures forall r: Record :: r in multiset(records) ==> r.time <= t.first.time || t.second.time <= r.time
  {
    var i :| OffenceAt(speedOf, limit, records, i) &&
             t.first == records[i - 1] && t.second == records[i] && t.speed == speedOf(t.first, t.second);
    forall r: Record | r in multiset(records)
      ensures r.time <= t.first.time || t.second.time <= r.time
    {
      var k :| 0 <= k < |records| && records[k] == r;
      assert k <= i - 1 || i <= k;
    }
  }

  // ---------- The promises, in seconds and messages ----------

  /** Of two tickets of a plate one ends on a day before the other one starts. */
  predicate NeverTwiceADay(sent: seq<Ticket>) {
    forall i, j :: 0 <= i < j < |sent| && sent[i].plate == sent[j].plate ==>
      || sent[i].second.time / 86400 < sent[j].first.time / 86400
      || sent[j].second.time / 86400 < sent[i].first.time / 86400
  }

  /** The ticket is for two observations of its plate on its road, whose speed it states, and which exceeds
      the limit of a camera of the road. */
  ghost predicate ForSpeeding(speedOf: (Record, Record) -> U16, messages: seq<Message>, t: Ticket) {
    && t.speed == speedOf(t.first, t.second) && t.first.time <= t.second.time
    && Observation(t.road, t.plate, t.first.mile, t.first.time) in messages
    && Observation(t.road, t.plate, t.second.mile, t.second.time) in messages
    && exists c :: c in messages && c.RegisterCamera? && c.road == t.road && t.speed > c.limit * 100 % 65536
  }

  /** No camera states less than an earlier one of its road, in sixteen bits. */
  predicate NoCameraLowers(messages: seq<Message>) {
    forall i, j :: 0 <= i < j < |messages| && messages[i].RegisterCamera? && messages[j].RegisterCamera? &&
                   messages[i].road == messages[j].road ==>
      messages[i].limit * 100 % 65536 <= messages[j].limit * 100 % 65536
  }

  /** A ticket of the plate has a day in common with the time from r1 to r2. */
  ghost predicate Ticketed(sent: seq<Ticket>, plate: Plate, r1: Record, r2: Record) {
    exists t :: t in sent && t.plate == plate &&
                t.first.time / 86400 <= r2.time / 86400 && r1.time / 86400 <= t.second.time / 86400
  }

  /** Every two neighbouring records over the limit, on a road with a dispatcher, are ticketed. */
  ghost predicate OffencesTicketed(speedOf: (Record, Record) -> U16, limits: map<U16, U16>,
                                   records: map<U16, map<Plate, seq<Record>>>,
                                   dispatchers: map<U16, seq<Channel>>, sent: seq<Ticket>) {
    forall road, plate, i ::
      && road in records && plate in records[road] && road in limits && 0 < i < |records[road][plate]|
      && ChannelsIn(dispatchers, road) != []
      && speedOf(records[road][plate][i - 1], records[road][plate][i]) > (limits[road] as int) * 100 % 65536 ==>
      Ticketed(sent, plate, records[road][plate][i - 1], records[road][plate][i])
  }

  predicate InOrderOfTime(records: map<U16, map<Plate, seq<Record>>>) {
    forall road, plate, i, j ::
      road in records && plate in records[road] && 0 <= i < j < |records[road][plate]| ==>
        records[road][plate][i].time <= records[road][plate][j].time
  }

  /** Tickets that were due when they were sent are for speeding. */
  lemma IssuedForSpeeding(speedOf: (Record, Record) -> U16, messages: seq<Message>, start: map<U16, seq<Channel>>,
                          sent: seq<Ticket>, sentTo: seq<Channel>)
    requires AllIssuedWithin(speedOf, messages, |messages|, start, sent, sentTo)
    ensures forall t :: t in sent ==> ForSpeeding(speedOf, messages, t)
  {
    hide IssuedAfter;
    forall t | t in sent
      ensures ForSpeeding(speedOf, messages, t)
    {
      var k :| 0 <= k < |sent| && sent[k] == t;
      assert IssuedWithin(speedOf, messages, |messages|, start, sent[k], sentTo[k]);
      var n: nat :| n <= |messages| && IssuedAfter(speedOf, messages, n, start, t, sentTo[k]);
      IssuedMeans(speedOf, messages, n, start, t, sentTo[k]);
      var i :| 0 <= i < n && Speeding(messages[i], t.road, t.speed);
      assert messages[i] in messages;
    }
  }

  /** A clear road is one whose offences are ticketed. */
  lemma ClearMeansTicketed(speedOf: (Record, Record) -> U16, limits: map<U16, U16>,
                           records: map<U16, map<Plate, seq<Record>>>, dispatchers: map<U16, seq<Channel>>,
                           tickets: map<Plate, seq<U32>>, sent: seq<Ticket>)
    requires BookInv(tickets, sent) && InOrderOfTime(records)
    requires forall road :: road in records && ChannelsIn(dispatchers, road) != [] ==>
               RoadClear(speedOf, LimitIn(limits, road), records[road], tickets)
    ensures OffencesTicketed(speedOf, limits, records, dispatchers, sent)
  {
    hide BookInv;
    forall road, plate, i |
      && road in records && plate in records[road] && road in limits && 0 < i < |records[road][plate]|
      && ChannelsIn(dispatchers, road) != []
      && speedOf(records[road][plate][i - 1], records[road][plate][i]) > (limits[road] as int) * 100 % 65536
      ensures Ticketed(sent, plate, records[road][plate][i - 1], records[road][plate][i])
    {
      var byTime := records[road][plate];
      assert NoneMissed(speedOf, LimitIn(limits, road), byTime, Days(tickets, plate));
      assert OffenceAt(speedOf, LimitIn(limits, road), byTime, i);
      HeldBackExactly(tickets, sent, plate, byTime[i - 1], byTime[i]);
    }
  }

  lemma AllApart(tickets: map<Plate, seq<U32>>, sent: seq<Ticket>)
    requires BookInv(tickets, sent)
    ensures NeverTwiceADay(sent)
  {
    forall i, j | 0 <= i < j < |sent| && sent[i].plate == sent[j].plate
      ensures || sent[i].second.time / 86400 < sent[j].first.time / 86400
              || sent[j].second.time / 86400 < sent[i].first.time / 86400
    {
      TicketsApart(tickets, sent, i, j);
    }
  }
}
