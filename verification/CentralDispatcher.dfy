/** The speed daemon's central dispatcher: cameras, ticket dispatchers and observations arrive in any
    order; no plate may be ticketed twice on a day and no offence that can be ticketed may be missed.
    Models internal/speeddaemon/central_dispatcher.go. */
module CentralDispatcher {
  import opened SdTypes
  import opened Sorting
  import opened TicketBook
  import opened Offences
  import opened MessageHistory

  /** sort.Slice by time; records of equal time may come in any order. */
  method SortByTime(records: seq<Record>) returns (sorted: seq<Record>)
    ensures Sorted(sorted) && multiset(sorted) == multiset(records)
  {
    var time := (r: Record) => r.time;
    sorted := SortBy(records, time);
    assert forall i :: 0 <= i < |sorted| ==> time(sorted[i]) == sorted[i].time;
  }

  class CentralDispatcher {
    /** CalculateSpeed; any function of the two records will do. */
    const speedOf: (Record, Record) -> U16
    var records: map<U16, map<Plate, seq<Record>>>
    var dispatchers: map<U16, seq<Channel>>
    var speedLimits: map<U16, U16>
    var tickets: map<Plate, seq<U32>>

    /** Histories: the tickets sent and the channel each one went to. */
    ghost var sent: seq<Ticket>
    ghost var sentTo: seq<Channel>

    /** The histories agree with the tickets' days and with the registered channels. */
    ghost predicate Books()
      reads this
    {
      BookInv(tickets, sent) && Delivered(dispatchers, sent, sentTo)
    }

    ghost predicate Valid()
      reads this
    {
      && Books()
      && (forall road :: road in speedLimits <==> road in records)
      && (forall road, plate :: road in records && plate in records[road] ==> Sorted(records[road][plate]))
    }

    function LimitOf(road: U16): U16
      reads this`speedLimits
    {
      LimitIn(speedLimits, road)
    }

    function DispatchersOf(road: U16): seq<Channel>
      reads this`dispatchers
    {
      ChannelsIn(dispatchers, road)
    }

    ghost predicate RoadOk(road: U16)
      reads this
    {
      road in records && DispatchersOf(road) != [] ==>
        RoadClear(speedOf, LimitOf(road), records[road], tickets)
    }

    /** On every road with a ticket dispatcher, every offence is ticketed on some day of its range. */
    ghost predicate NothingMissed()
      reads this
    {
      forall road :: RoadOk(road)
    }

    constructor (speedOf: (Record, Record) -> U16)
      ensures Valid() && NothingMissed() && sent == [] && records == map[] && dispatchers == map[]
      ensures this.speedOf == speedOf
    {
      this.speedOf := speedOf;
      records, dispatchers, speedLimits, tickets := map[], map[], map[], map[];
      sent, sentTo := [], [];
    }

    /** Sends a ticket unless one of its days is taken or nobody can receive it. */
    method GenerateTicket(plate: Plate, road: U16, r1: Record, r2: Record, speed: U16)
      requires Books() && r1.time <= r2.time
      modifies this`tickets, this`sent, this`sentTo
      ensures Books() && Grows(old(tickets), tickets)
      ensures DispatchersOf(road) != [] ==> PairCovered(Days(tickets, plate), r1, r2)
      ensures if PairCovered(Days(old(tickets), plate), r1, r2) || DispatchersOf(road) == []
              then tickets == old(tickets) && sent == old(sent)
              else sent == old(sent) + [Ticket(plate, road, r1, r2, speed)] &&
                   (exists c :: c in DispatchersOf(road) && sentTo == old(sentTo) + [c])
      ensures old(sentTo) <= sentTo
      ensures DispatchersOf(road) != [] ==>
                (sent == old(sent) <==> Ticketed(old(sent), plate, r1, r2))
    {
      HeldBackExactly(tickets, sent, plate, r1, r2);
      var taken := AnyDayTaken(plate, r1, r2);
      if taken {
        return;
      }
      if |DispatchersOf(road)| == 0 {
        return;
      }
      SendTicket(Ticket(plate, road, r1, r2, speed));
    }

    /** Sends the ticket to some dispatcher of its road and takes its days. */
    method SendTicket(ticket: Ticket)
      requires Books() && ticket.first.time <= ticket.second.time
      requires !PairCovered(Days(tickets, ticket.plate), ticket.first, ticket.second)
      requires DispatchersOf(ticket.road) != []
      modifies this`tickets, this`sent, this`sentTo
      ensures Books() && Grows(old(tickets), tickets)
      ensures PairCovered(Days(tickets, ticket.plate), ticket.first, ticket.second)
      ensures sent == old(sent) + [ticket]
      ensures exists c :: c in DispatchersOf(ticket.road) && sentTo == old(sentTo) + [c]
    {
      var startDay := Day(ticket.first.time);
      var endDay := Day(ticket.second.time);
      var channel := AnyDispatcher(ticket.road);
      IssueKeepsBook(tickets, sent, ticket);
      GrowsOne(tickets, ticket.plate, DayRange(startDay, endDay));
      DeliveredPush(dispatchers, sent, sentTo, ticket, channel);
      sent, sentTo := sent + [ticket], sentTo + [channel];
      AddDays(ticket.plate, startDay, endDay);
    }

    /** A random dispatcher of the road. */
    method AnyDispatcher(road: U16) returns (channel: Channel)
      requires DispatchersOf(road) != []
      ensures channel in DispatchersOf(road)
    {
      var random :| 0 <= random < |dispatchers[road]|;
      channel := dispatchers[road][random];
    }

    /** The first loop of generateTicket. */
    method AnyDayTaken(plate: Plate, r1: Record, r2: Record) returns (taken: bool)
      ensures taken <==> exists day :: day in Days(tickets, plate) && r1.time / 86400 <= day <= r2.time / 86400
      ensures taken <==> PairCovered(Days(tickets, plate), r1, r2)
    {
      var startDay, endDay := Day(r1.time), Day(r2.time);
      var i: int := startDay;
      while i <= endDay
        invariant startDay <= i
        invariant forall day :: startDay <= day < i && day <= endDay ==> day !in Days(tickets, plate)
      {
        if i in Days(tickets, plate) {
          return true;
        }
        i := i + 1;
      }
      return false;
    }

    /** The second loop of generateTicket. */
    method AddDays(plate: Plate, startDay: U32, endDay: U32)
      requires startDay <= endDay
      modifies this`tickets
      ensures tickets == old(tickets)[plate := Days(old(tickets), plate) + DayRange(startDay, endDay)]
    {
      var i: int := startDay;
      ghost var before := Days(tickets, plate);
      while i <= endDay
        invariant startDay <= i <= endDay + 1
        invariant if i == startDay then tickets == old(tickets)
                  else tickets == old(tickets)[plate := before + DayRange(startDay, i - 1)]
      {
        AppendDay(before, startDay, i);
        tickets := tickets[plate := Days(tickets, plate) + [i]];
        i := i + 1;
      }
    }

    method CalculateTickets(road: U16, plate: Plate, plateRecords: seq<Record>)
      requires Books() && Sorted(plateRecords)
      modifies this`tickets, this`sent, this`sentTo
      ensures Books() && Grows(old(tickets), tickets)
      ensures DispatchersOf(road) != [] ==> NoneMissed(speedOf, LimitOf(road), plateRecords, Days(tickets, plate))
      ensures old(sent) <= sent && old(sentTo) <= sentTo
      ensures JustifiedFrom(speedOf, LimitOf(road), plateRecords, plate, road, sent, |old(sent)|)
    {
      var speedLimit := LimitOf(road);
      var i := 1;
      while i < |plateRecords|
        invariant 1 <= i && Books() && Grows(old(tickets), tickets) && old(sent) <= sent && old(sentTo) <= sentTo
        invariant DispatchersOf(road) != [] ==>
                    NoneMissedBefore(speedOf, speedLimit, plateRecords, Days(tickets, plate), i)
        invariant JustifiedFrom(speedOf, speedLimit, plateRecords, plate, road, sent, |old(sent)|)
      {
        CheckPair(road, plate, plateRecords, i, speedLimit, |old(sent)|);
        i := i + 1;
      }
    }

    /** One turn of calculateTickets' loop: start is the number of tickets sent before it. */
    method CheckPair(road: U16, plate: Plate, plateRecords: seq<Record>, i: nat, speedLimit: U16, ghost start: nat)
      requires Books() && Sorted(plateRecords) && 0 < i < |plateRecords| && start <= |sent|
      requires DispatchersOf(road) != [] ==>
                 NoneMissedBefore(speedOf, speedLimit, plateRecords, Days(tickets, plate), i)
      requires JustifiedFrom(speedOf, speedLimit, plateRecords, plate, road, sent, start)
      modifies this`tickets, this`sent, this`sentTo
      ensures Books() && Grows(old(tickets), tickets) && old(sent) <= sent && old(sentTo) <= sentTo
      ensures DispatchersOf(road) != [] ==>
                NoneMissedBefore(speedOf, speedLimit, plateRecords, Days(tickets, plate), i + 1)
      ensures JustifiedFrom(speedOf, speedLimit, plateRecords, plate, road, sent, start)
    {
      var lastRecord, currentRecord := plateRecords[i - 1], plateRecords[i];
      var speed := speedOf(lastRecord, currentRecord);
      if speed > speedLimit {
        GenerateTicket(plate, road, lastRecord, currentRecord, speed);
        assert Days(old(tickets), plate) <= Days(tickets, plate);
        if sent != old(sent) {
          JustifiedPush(speedOf, speedLimit, plateRecords, plate, road, old(sent), start, i);
        }
        if DispatchersOf(road) != [] {
          PairDone(speedOf, speedLimit, plateRecords, Days(old(tickets), plate), Days(tickets, plate), i);
        }
      }
    }

    /** Process of RegisterCamera. Nothing becomes an offence when the road's limit is not lowered. */
    method ProcessCamera(road: U16, limit: U16)
      requires Valid()
      modifies this`speedLimits, this`records
      ensures Valid() && speedLimits == old(speedLimits)[road := limit]
      ensures records == if road in old(records) then old(records) else old(records)[road := map[]]
      ensures old(NothingMissed()) && (road in old(records) ==> old(LimitOf(road)) <= LimitHundredths(limit)) ==>
                NothingMissed()
    {
      speedLimits := speedLimits[road := limit];
      if road !in records {
        records := records[road := map[]];
      }
      forall r | old(RoadOk(r)) && (road in old(records) ==> old(LimitOf(road)) <= LimitHundredths(limit))
        ensures RoadOk(r)
      {
        if r in old(records) && DispatchersOf(r) != [] {
          RoadClearGrows(speedOf, old(LimitOf(r)), LimitOf(r), records[r], tickets, tickets);
        }
      }
    }

    /** Process of Observation. */
    method ProcessObservation(road: U16, plate: Plate, mile: U16, time: U32)
      requires Valid()
      modifies this`records, this`tickets, this`sent, this`sentTo
      ensures Valid() && Grows(old(tickets), tickets) && old(sent) <= sent && old(sentTo) <= sentTo
      ensures old(NothingMissed()) ==> NothingMissed()
      ensures road !in old(records) ==> records == old(records) && sent == old(sent)
      ensures road in old(records) ==>
                && plate in records[road]
                && records == old(records)[road := old(records)[road][plate := records[road][plate]]]
                && multiset(records[road][plate]) ==
                   multiset(RecordsOf(old(records)[road], plate)) + multiset{Record(mile, time)}
                && JustifiedFrom(speedOf, LimitOf(road), records[road][plate], plate, road, sent, |old(sent)|)
    {
      if road !in records {
        return;
      }
      var roadRecords := records[road];
      var plateRecords := RecordsOf(roadRecords, plate) + [Record(mile, time)];
      plateRecords := SortByTime(plateRecords);
      records := records[road := roadRecords[plate := plateRecords]];
      CalculateTickets(road, plate, plateRecords);
      forall r | old(RoadOk(r))
        ensures RoadOk(r)
      {
        ObservedRoadOk(r, road, plate, old(records), old(tickets));
      }
    }

    lemma ObservedRoadOk(r: U16, road: U16, plate: Plate, before: map<U16, map<Plate, seq<Record>>>,
                         oldTickets: map<Plate, seq<U32>>)
      requires r in before && DispatchersOf(r) != [] ==> RoadClear(speedOf, LimitOf(r), before[r], oldTickets)
      requires road in before && road in records && plate in records[road]
      requires records == before[road := before[road][plate := records[road][plate]]]
      requires Grows(oldTickets, tickets)
      requires DispatchersOf(road) != [] ==>
                 NoneMissed(speedOf, LimitOf(road), records[road][plate], Days(tickets, plate))
      ensures RoadOk(r)
    {
      if r in records && DispatchersOf(r) != [] {
        RoadClearGrows(speedOf, LimitOf(r), LimitOf(r), before[r], oldTickets, tickets);
      }
    }

    /** Process of RegisterDispatcher: the dispatcher gets the tickets that were waiting for one. */
    method ProcessDispatcher(roads: seq<U16>, channel: Channel)
      requires Valid()
      modifies this`dispatchers, this`tickets, this`sent, this`sentTo
      ensures Valid() && Grows(old(tickets), tickets) && old(sent) <= sent && old(sentTo) <= sentTo
      ensures forall r :: AddedTo(old(dispatchers), dispatchers, roads, channel, r)
      ensures AllJustifiedFrom(speedOf, speedLimits, records, sent, |old(sent)|)
      ensures old(NothingMissed()) ==> NothingMissed()
    {
      AddDispatcher(roads, channel);
      DeliveredGrows(old(dispatchers), dispatchers, roads, channel, sent, sentTo);
      CheckRoads(roads);
      forall r | old(RoadOk(r))
        ensures RoadOk(r)
      {
        if r !in roads && r in records && DispatchersOf(r) != [] {
          NotAdded(old(dispatchers), dispatchers, roads, channel, r);
          RoadClearGrows(speedOf, LimitOf(r), LimitOf(r), records[r], old(tickets), tickets);
        }
      }
    }

    method AddDispatcher(roads: seq<U16>, channel: Channel)
      modifies this`dispatchers
      ensures forall r :: AddedTo(old(dispatchers), dispatchers, roads, channel, r)
    {
      forall r ensures AddedTo(dispatchers, dispatchers, [], channel, r) { AddedNone(dispatchers, channel, r); }
      assert roads[..0] == [];
      for i := 0 to |roads|
        invariant forall r :: AddedTo(old(dispatchers), dispatchers, roads[..i], channel, r)
      {
        ghost var now, next := dispatchers, roads[..i + 1];
        assert next == roads[..i] + [roads[i]];
        dispatchers := dispatchers[roads[i] := ChannelsIn(dispatchers, roads[i]) + [channel]];
        forall r
          ensures AddedTo(old(dispatchers), dispatchers, next, channel, r)
        {
          AddedOne(old(dispatchers), now, roads[..i], roads[i], channel, r);
        }
      }
      assert roads[..|roads|] == roads;
    }

    method CheckRoads(roads: seq<U16>)
      requires Valid()
      modifies this`tickets, this`sent, this`sentTo
      ensures Valid() && Grows(old(tickets), tickets) && old(sent) <= sent && old(sentTo) <= sentTo
      ensures AllJustifiedFrom(speedOf, speedLimits, records, sent, |old(sent)|)
      ensures forall r :: r in roads ==> RoadOk(r)
    {
      for i := 0 to |roads|
        invariant Valid() && Grows(old(tickets), tickets) && old(sent) <= sent && old(sentTo) <= sentTo
        invariant AllJustifiedFrom(speedOf, speedLimits, records, sent, |old(sent)|)
        invariant forall r :: r in roads[..i] ==> RoadOk(r)
      {
        assert roads[..i + 1] == roads[..i] + [roads[i]];
        CheckRoad(roads[i], |old(sent)|);
      }
      assert roads[..|roads|] == roads;
    }

    /** Recalculates every plate of a road, in any order; start is the number of tickets sent before. */
    method CheckRoad(road: U16, ghost start: nat)
      requires Valid() && AllJustifiedFrom(speedOf, speedLimits, records, sent, start)
      modifies this`tickets, this`sent, this`sentTo
      ensures Valid() && Grows(old(tickets), tickets) && old(sent) <= sent && old(sentTo) <= sentTo
      ensures AllJustifiedFrom(speedOf, speedLimits, records, sent, start)
      ensures RoadOk(road)
      ensures forall r :: old(RoadOk(r)) ==> RoadOk(r)
    {
      if road in records {
        var plates := records[road].Keys;
        while plates != {}
          invariant plates <= records[road].Keys
          invariant Valid() && Grows(old(tickets), tickets) && old(sent) <= sent && old(sentTo) <= sentTo
          invariant AllJustifiedFrom(speedOf, speedLimits, records, sent, start)
          invariant DispatchersOf(road) != [] ==>
                      RoadClear(speedOf, LimitOf(road), map p | p in records[road] && p !in plates :: records[road][p],
                                tickets)
        {
          var plate :| plate in plates;
          ghost var before, sentBefore := tickets, sent;
          CalculateTickets(road, plate, records[road][plate]);
          MoreJustified(speedOf, speedLimits, records, road, plate, sentBefore, sent, start);
          if DispatchersOf(road) != [] {
            RoadClearGrows(speedOf, LimitOf(road), LimitOf(road),
                           map p | p in records[road] && p !in plates :: records[road][p], before, tickets);
          }
          plates := plates - {plate};
        }
        assert (map p | p in records[road] && p !in plates :: records[road][p]) == records[road];
      }
      forall r | old(RoadOk(r))
        ensures RoadOk(r)
      {
        if r in records && DispatchersOf(r) != [] {
          RoadClearGrows(speedOf, LimitOf(r), LimitOf(r), records[r], old(tickets), tickets);
        }
      }
    }

    /** A camera that lowers the limit of a road. */
    ghost predicate Lowers(message: Message)
      reads this
    {
      message.RegisterCamera? && message.road in records && LimitOf(message.road) > LimitHundredths(message.limit)
    }

    /** No ticket is made up: both its records were observed, and the speed is theirs. */
    ghost predicate NothingMadeUp()
      reads this
    {
      AllGenuine(speedOf, records, sent)
    }

    /** One message of any kind. Every ticket it sends is for an offence, under the limit now in force,
        between neighbours in time among the records of a plate. */
    method Process(message: Message)
      requires Valid()
      modifies this
      ensures Valid() && Grows(old(tickets), tickets) && old(sent) <= sent && old(sentTo) <= sentTo
      ensures SetsLimit(message, old(speedLimits), speedLimits)
      ensures Registers(message, old(dispatchers), dispatchers)
      ensures AddsRecord(message, old(records), records)
      ensures AllJustifiedFrom(speedOf, speedLimits, records, sent, |old(sent)|)
      ensures old(NothingMadeUp()) ==> NothingMadeUp()
      ensures old(NothingMissed() && !Lowers(message)) ==> NothingMissed()
    {
      ghost var recordsBefore, sentBefore := records, sent;
      match message
      case RegisterCamera(road, limit) =>
        ProcessCamera(road, limit);
      case RegisterDispatcher(roads, channel) =>
        ProcessDispatcher(roads, channel);
        if AllGenuine(speedOf, recordsBefore, sentBefore) {
          GenuineAfter(speedOf, speedLimits, records, sentBefore, sent);
        }
      case Observation(road, plate, mile, time) =>
        ProcessObservation(road, plate, mile, time);
        if road in recordsBefore {
          Observed(speedOf, speedLimits, recordsBefore, records, road, plate, Record(mile, time), sentBefore, sent);
        }
    }

    /** Start: the messages of the queue, one after the other. For every run the limits, the channels and
        the records, in the order of time, are those that the messages amount to; of two tickets of a plate
        one ends on a day before the other one starts; every ticket was due after one of the messages, and
        went to a channel registered by then; both its records were observed, and its speed exceeds the limit
        of a camera; and if no camera states less than an earlier one of its road, every offence on a road
        with a dispatcher has a day on which its plate is ticketed. */
    method Start(messages: seq<Message>)
      requires Valid() && NothingMissed() && records == map[] && sent == []
      modifies this
      ensures Valid() && NothingMadeUp()
      ensures LimitsAfter(messages, |messages|, speedLimits)
      ensures RecordsAfter(messages, |messages|, records)
      ensures ChannelsAfter(messages, |messages|, old(dispatchers), dispatchers)
      ensures InOrderOfTime(records)
      ensures NeverTwiceADay(sent)
      ensures AllIssuedWithin(speedOf, messages, |messages|, old(dispatchers), sent, sentTo)
      ensures forall t :: t in sent ==> ForSpeeding(speedOf, messages, t)
      ensures NoCameraLowers(messages) ==> OffencesTicketed(speedOf, speedLimits, records, dispatchers, sent)
    {
      hide LimitsAfter, RecordsAfter, ChannelsAfter, AllIssuedWithin, ForSpeeding, OffencesTicketed, BookInv;
      HistoryStarts(messages, speedLimits, records, dispatchers);
      NoneIssuedYet(speedOf, messages, dispatchers);
      for n := 0 to |messages|
        invariant Valid() && NothingMadeUp()
        invariant NeverLowered(messages) ==> NothingMissed()
        invariant LimitsAfter(messages, n, speedLimits) && RecordsAfter(messages, n, records)
        invariant ChannelsAfter(messages, n, old(dispatchers), dispatchers)
        invariant AllIssuedWithin(speedOf, messages, n, old(dispatchers), sent, sentTo)
      {
        ProcessNext(messages, n, old(dispatchers));
      }
      AllApart(tickets, sent);
      IssuedForSpeeding(speedOf, messages, old(dispatchers), sent, sentTo);
      if NoCameraLowers(messages) {
        forall road | road in records && ChannelsIn(dispatchers, road) != []
          ensures RoadClear(speedOf, LimitIn(speedLimits, road), records[road], tickets)
        {
          assert RoadOk(road);
        }
        ClearMeansTicketed(speedOf, speedLimits, records, dispatchers, tickets, sent);
      }
    }

    /** One turn of that loop: the tickets that it sends are due after its message. */
    method ProcessNext(messages: seq<Message>, n: nat, ghost start: map<U16, seq<Channel>>)
      requires n < |messages| && Valid() && NothingMadeUp()
      requires NeverLowered(messages) ==> NothingMissed()
      requires LimitsAfter(messages, n, speedLimits) && RecordsAfter(messages, n, records)
      requires ChannelsAfter(messages, n, start, dispatchers)
      requires AllIssuedWithin(speedOf, messages, n, start, sent, sentTo)
      modifies this
      ensures Valid() && NothingMadeUp() && old(sent) <= sent && old(sentTo) <= sentTo
      ensures NeverLowered(messages) ==> NothingMissed()
      ensures LimitsAfter(messages, n + 1, speedLimits) && RecordsAfter(messages, n + 1, records)
      ensures ChannelsAfter(messages, n + 1, start, dispatchers)
      ensures forall k :: |old(sent)| <= k < |sent| ==>
                IssuedAfter(speedOf, messages, n + 1, start, sent[k], sentTo[k])
      ensures AllIssuedWithin(speedOf, messages, n + 1, start, sent, sentTo)
    {
      hide LimitsAfter, RecordsAfter, ChannelsAfter, AllIssuedWithin, IssuedAfter, NeverLowered, BookInv, AllGenuine;
      if NeverLowered(messages) {
        NotLowered(messages, n, speedLimits, records);
      }
      Process(messages[n]);
      LimitsNext(messages, n, old(speedLimits), speedLimits);
      RecordsNext(messages, n, old(records), records);
      ChannelsNext(messages, n, start, old(dispatchers), dispatchers);
      forall k | |old(sent)| <= k < |sent|
        ensures IssuedAfter(speedOf, messages, n + 1, start, sent[k], sentTo[k])
      {
        IssuedNow(speedOf, messages, n + 1, speedLimits, records, start, dispatchers, sent, sentTo, |old(sent)|, k);
      }
      StillIssued(speedOf, messages, n, start, old(sent), old(sentTo), sent, sentTo);
    }
  }
}
