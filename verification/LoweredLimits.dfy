/** What a camera that changes the limit of a road does to the promise that no offence is missed. The
    camera's Process of internal/speeddaemon/central_dispatcher.go overwrites the limit and does not
    look at the records again. */
module LoweredLimits {
  import opened SdTypes
  import opened TicketBook
  import opened Offences
  import opened CentralDispatcher

  /** A pair whose speed lies between the two limits: no offence under the old one, and a missed one
      under the new one. */
  lemma BetweenLimitsIsMissed(speedOf: (Record, Record) -> U16, before: U16, after: U16, r1: Record, r2: Record)
    requires after < speedOf(r1, r2) <= before
    ensures NoneMissed(speedOf, before, [r1, r2], []) && !NoneMissed(speedOf, after, [r1, r2], [])
  {
    assert OffenceAt(speedOf, after, [r1, r2], 1);
  }

  /** A change of the limit is safe, whatever the speeds, the records and the days already ticketed,
      exactly when the limit is not lowered. */
  lemma SafeExactlyWhenNotLowered(before: U16, after: U16)
    ensures before <= after <==>
            forall speedOf: (Record, Record) -> U16, records, days ::
              NoneMissed(speedOf, before, records, days) ==> NoneMissed(speedOf, after, records, days)
  {
    if before <= after {
      forall speedOf: (Record, Record) -> U16, records, days | NoneMissed(speedOf, before, records, days)
        ensures NoneMissed(speedOf, after, records, days)
      {
        NoneMissedGrows(speedOf, before, after, records, days, days, |records|);
      }
    } else {
      var speedOf := (r1: Record, r2: Record) => before;
      BetweenLimitsIsMissed(speedOf, before, after, Record(0, 0), Record(0, 1));
    }
  }

  lemma SortedPair(records: seq<Record>, r1: Record, r2: Record)
    requires Sorted(records) && r1.time < r2.time
    requires multiset(records) == multiset{r1, r2}
    ensures records == [r1, r2]
  {
    assert |records| == |multiset(records)| == 2;
    assert records == [records[0], records[1]];
    assert records[0] in multiset(records) && records[1] in multiset(records);
    assert multiset(records) == multiset{records[0], records[1]};
    assert r2 in multiset(records);
  }

  /** Without tickets no day is listed. */
  lemma EmptyBook(tickets: map<Plate, seq<U32>>, plate: Plate)
    requires BookInv(tickets, [])
    ensures Days(tickets, plate) == []
  {
    var days := Days(tickets, plate);
    if days != [] {
      var day := days[|days| - 1];
      assert DayOk(tickets, [], plate, day);
      OccursIfIn(days, day);
      assert false;
    }
  }

  lemma SingleRecord(records: seq<Record>, r: Record)
    requires multiset(records) == multiset{r}
    ensures records == [r]
  {
    assert |records| == |multiset(records)| == 1;
    assert records[0] in multiset(records);
  }

  /** Records without an offence justify no ticket. */
  lemma NothingToTicket(speedOf: (Record, Record) -> U16, limit: U16, records: seq<Record>,
                        plate: Plate, road: U16, sent: seq<Ticket>)
    requires |records| == 1 || (|records| == 2 && speedOf(records[0], records[1]) <= limit)
    requires JustifiedFrom(speedOf, limit, records, plate, road, sent, 0)
    ensures sent == []
  {
    if |sent| > 0 {
      NotJustified(speedOf, limit, records, sent[0]);
    }
  }

  lemma NotJustified(speedOf: (Record, Record) -> U16, limit: U16, records: seq<Record>, t: Ticket)
    requires |records| == 1 || (|records| == 2 && speedOf(records[0], records[1]) <= limit)
    ensures !Justified(speedOf, limit, records, t)
  {
  }

  lemma NoTicketYet(speedOf: (Record, Record) -> U16, road: U16, limit: U16, plate: Plate, r1: Record, r2: Record,
                    limits: map<U16, U16>, records: map<U16, map<Plate, seq<Record>>>, sent: seq<Ticket>)
    requires speedOf(r1, r2) <= limit == LimitIn(limits, road)
    requires records == map[road := map[plate := [r1, r2]]]
    requires AllJustifiedFrom(speedOf, limits, records, sent, 0)
    ensures sent == []
  {
    if |sent| > 0 {
      NotJustified(speedOf, limit, [r1, r2], sent[0]);
    }
  }

  lemma Replaced(road: U16, plate: Plate, a: seq<Record>, b: seq<Record>)
    ensures var before := map[road := map[plate := a]];
            before[road := before[road][plate := b]] == map[road := map[plate := b]]
    ensures RecordsOf(map[plate := a], plate) == a
  {
    assert map[plate := a][plate := b] == map[plate := b];
  }

  /** A new dispatcher after a camera and an observation. */
  method WatchOne(speedOf: (Record, Record) -> U16, road: U16, high: U16, plate: Plate, r1: Record)
    returns (cd: CentralDispatcher)
    ensures fresh(cd) && cd.speedOf == speedOf && cd.Valid() && cd.sent == []
    ensures cd.speedLimits == map[road := high] && cd.records == map[road := map[plate := [r1]]]
  {
    cd := new CentralDispatcher(speedOf);
    cd.ProcessCamera(road, high);
    cd.ProcessObservation(road, plate, r1.mile, r1.time);
    SingleRecord(cd.records[road][plate], r1);
    NothingToTicket(speedOf, LimitHundredths(high), [r1], plate, road, cd.sent);
  }

  /** And after one more, when the two keep the limit. */
  method WatchTwo(speedOf: (Record, Record) -> U16, road: U16, high: U16, plate: Plate, r1: Record, r2: Record)
    returns (cd: CentralDispatcher)
    requires r1.time < r2.time && speedOf(r1, r2) <= LimitHundredths(high)
    ensures fresh(cd) && cd.speedOf == speedOf && cd.Valid() && cd.sent == []
    ensures cd.speedLimits == map[road := high] && cd.records == map[road := map[plate := [r1, r2]]]
  {
    cd := WatchOne(speedOf, road, high, plate, r1);
    Replaced(road, plate, [r1], [r1, r2]);
    cd.ProcessObservation(road, plate, r2.mile, r2.time);
    SortedPair(cd.records[road][plate], r1, r2);
    NothingToTicket(speedOf, LimitHundredths(high), [r1, r2], plate, road, cd.sent);
  }

  /** From a new dispatcher, for every two limits of which the second is lower, every road, every plate
      and every pair of records whose speed lies between them: the messages of one camera, two
      observations, a ticket dispatcher, and the camera with the lower limit leave an offence on a road
      that has a ticket dispatcher without a ticket. */
  method LoweringMisses(speedOf: (Record, Record) -> U16, road: U16, high: U16, low: U16,
                        plate: Plate, r1: Record, r2: Record, channel: Channel) returns (cd: CentralDispatcher)
    requires r1.time < r2.time
    requires LimitHundredths(low) < speedOf(r1, r2) <= LimitHundredths(high)
    ensures fresh(cd) && cd.speedOf == speedOf
    ensures cd.Valid() && !cd.NothingMissed()
  {
    cd := WatchTwo(speedOf, road, high, plate, r1, r2);
    ghost var before := cd.dispatchers;
    cd.ProcessDispatcher([road], channel);
    AddedMembers(before, cd.dispatchers, [road], channel, road, channel);
    NoTicketYet(speedOf, road, LimitHundredths(high), plate, r1, r2, cd.speedLimits, cd.records, cd.sent);
    cd.ProcessCamera(road, low);
    EmptyBook(cd.tickets, plate);
    BetweenLimitsIsMissed(speedOf, LimitHundredths(high), LimitHundredths(low), r1, r2);
    assert !cd.RoadOk(road);
  }
}
