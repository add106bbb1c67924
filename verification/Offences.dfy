/** Offences among time-sorted records, tickets that are for them, and the channels that tickets go to:
    what the methods of the central dispatcher are proved to keep.
    Models internal/speeddaemon/central_dispatcher.go on values. */
module Offences {
  import opened SdTypes
  import opened TicketBook

  type Channel(==, !new)

  datatype Message =
    | RegisterCamera(road: U16, limit: U16)
    | RegisterDispatcher(roads: seq<U16>, channel: Channel)
    | Observation(road: U16, plate: Plate, mile: U16, time: U32)

  // ---------- Offences ----------

  predicate Sorted(records: seq<Record>) {
    forall i, j :: 0 <= i < j < |records| ==> records[i].time <= records[j].time
  }

  /** The limit of a road in hundredths of a mile per hour; a Go map gives zero for a missing road. */
  function LimitIn(limits: map<U16, U16>, road: U16): U16 {
    LimitHundredths(if road in limits then limits[road] else 0)
  }

  /** Two records next to each other in time whose speed exceeds the limit. */
  predicate OffenceAt(speedOf: (Record, Record) -> U16, limit: U16, records: seq<Record>, i: int) {
    0 < i < |records| && speedOf(records[i - 1], records[i]) > limit
  }

  /** Every offence has some day of its range listed. */
  ghost predicate NoneMissed(speedOf: (Record, Record) -> U16, limit: U16, records: seq<Record>, days: seq<U32>) {
    NoneMissedBefore(speedOf, limit, records, days, |records|)
  }

  ghost predicate NoneMissedBefore(speedOf: (Record, Record) -> U16, limit: U16, records: seq<Record>,
                                   days: seq<U32>, n: int) {
    forall i :: i < n && OffenceAt(speedOf, limit, records, i) ==> PairCovered(days, records[i - 1], records[i])
  }

  /** The ticket is for an offence among the records. */
  ghost predicate Justified(speedOf: (Record, Record) -> U16, limit: U16, records: seq<Record>, t: Ticket) {
    exists i :: OffenceAt(speedOf, limit, records, i) &&
                t.first == records[i - 1] && t.second == records[i] && t.speed == speedOf(t.first, t.second)
  }

  /** All tickets from position start on are for offences of the plate on the road. */
  ghost predicate JustifiedFrom(speedOf: (Record, Record) -> U16, limit: U16, records: seq<Record>,
                                plate: Plate, road: U16, sent: seq<Ticket>, start: nat) {
    forall k :: start <= k < |sent| ==>
      sent[k].plate == plate && sent[k].road == road && Justified(speedOf, limit, records, sent[k])
  }

  /** All tickets from position start on are for offences among the records of their road and plate. */
  ghost predicate AllJustifiedFrom(speedOf: (Record, Record) -> U16, limits: map<U16, U16>,
                                   records: map<U16, map<Plate, seq<Record>>>, sent: seq<Ticket>, start: nat) {
    forall k :: start <= k < |sent| ==>
      && sent[k].road in records && sent[k].plate in records[sent[k].road]
      && Justified(speedOf, LimitIn(limits, sent[k].road), records[sent[k].road][sent[k].plate], sent[k])
  }

  /** Both records of the ticket were observed on its road for its plate, and the speed is theirs. */
  predicate Genuine(speedOf: (Record, Record) -> U16, records: map<U16, map<Plate, seq<Record>>>, t: Ticket) {
    && t.road in records && t.plate in records[t.road]
    && t.first in records[t.road][t.plate] && t.second in records[t.road][t.plate]
    && t.speed == speedOf(t.first, t.second)
  }

  ghost predicate AllGenuine(speedOf: (Record, Record) -> U16, records: map<U16, map<Plate, seq<Record>>>,
                             sent: seq<Ticket>) {
    forall k :: 0 <= k < |sent| ==> Genuine(speedOf, records, sent[k])
  }

  /** Days are only ever added. */
  ghost predicate Grows(before: map<Plate, seq<U32>>, after: map<Plate, seq<U32>>) {
    forall plate: Plate :: Days(before, plate) <= Days(after, plate)
  }

  /** Tickets for one plate of one road join tickets for others. */
  lemma MoreJustified(speedOf: (Record, Record) -> U16, limits: map<U16, U16>,
                      records: map<U16, map<Plate, seq<Record>>>, road: U16, plate: Plate,
                      before: seq<Ticket>, sent: seq<Ticket>, start: nat)
    requires AllJustifiedFrom(speedOf, limits, records, before, start) && before <= sent
    requires road in records && plate in records[road]
    requires JustifiedFrom(speedOf, LimitIn(limits, road), records[road][plate], plate, road, sent, |before|)
    ensures AllJustifiedFrom(speedOf, limits, records, sent, start)
  {
    forall k | start <= k < |sent|
      ensures sent[k].road in records && sent[k].plate in records[sent[k].road]
      ensures Justified(speedOf, LimitIn(limits, sent[k].road), records[sent[k].road][sent[k].plate], sent[k])
    {
      if k < |before| {
        assert sent[k] == before[k];
      }
    }
  }

  lemma GenuineAfter(speedOf: (Record, Record) -> U16, limits: map<U16, U16>,
                     records: map<U16, map<Plate, seq<Record>>>, before: seq<Ticket>, sent: seq<Ticket>)
    requires AllGenuine(speedOf, records, before) && before <= sent
    requires AllJustifiedFrom(speedOf, limits, records, sent, |before|)
    ensures AllGenuine(speedOf, records, sent)
  {
    forall k | 0 <= k < |sent|
      ensures Genuine(speedOf, records, sent[k])
    {
      if k < |before| {
        assert sent[k] == before[k];
      }
    }
  }

  /** A ticket stays genuine when records are added. */
  lemma GenuineKept(speedOf: (Record, Record) -> U16, records: map<U16, map<Plate, seq<Record>>>,
                    road: U16, plate: Plate, more: seq<Record>, r: Record, sent: seq<Ticket>)
    requires AllGenuine(speedOf, records, sent) && road in records
    requires multiset(more) == multiset(RecordsOf(records[road], plate)) + multiset{r}
    ensures AllGenuine(speedOf, records[road := records[road][plate := more]], sent)
  {
    forall x | x in RecordsOf(records[road], plate)
      ensures x in more
    {
      assert x in multiset(more);
    }
    forall k | 0 <= k < |sent|
      ensures Genuine(speedOf, records[road := records[road][plate := more]], sent[k])
    {
      assert Genuine(speedOf, records, sent[k]);
    }
  }

  /** After an observation the new tickets are for offences on record, and none was made up. */
  lemma Observed(speedOf: (Record, Record) -> U16, limits: map<U16, U16>,
                 before: map<U16, map<Plate, seq<Record>>>, records: map<U16, map<Plate, seq<Record>>>,
                 road: U16, plate: Plate, r: Record, earlier: seq<Ticket>, sent: seq<Ticket>)
    requires road in before && road in records && plate in records[road] && earlier <= sent
    requires records == before[road := before[road][plate := records[road][plate]]]
    requires multiset(records[road][plate]) == multiset(RecordsOf(before[road], plate)) + multiset{r}
    requires JustifiedFrom(speedOf, LimitIn(limits, road), records[road][plate], plate, road, sent, |earlier|)
    ensures AllJustifiedFrom(speedOf, limits, records, sent, |earlier|)
    ensures AllGenuine(speedOf, before, earlier) ==> AllGenuine(speedOf, records, sent)
  {
    MoreJustified(speedOf, limits, records, road, plate, earlier, sent, |earlier|);
    if AllGenuine(speedOf, before, earlier) {
      GenuineKept(speedOf, before, road, plate, records[road][plate], r, earlier);
      GenuineAfter(speedOf, limits, records, earlier, sent);
    }
  }

  lemma CoveredGrows(before: seq<U32>, after: seq<U32>, r1: Record, r2: Record)
    requires before <= after && PairCovered(before, r1, r2)
    ensures PairCovered(after, r1, r2)
  {
    var day :| day in before && Day(r1.time) <= day <= Day(r2.time);
    assert day in after;
  }

  /** More days and a higher limit miss nothing that was not missed before. */
  lemma NoneMissedGrows(speedOf: (Record, Record) -> U16, low: U16, high: U16, records: seq<Record>,
                        before: seq<U32>, after: seq<U32>, n: int)
    requires NoneMissedBefore(speedOf, low, records, before, n) && low <= high && before <= after
    ensures NoneMissedBefore(speedOf, high, records, after, n)
  {
    forall i | i < n && OffenceAt(speedOf, high, records, i)
      ensures PairCovered(after, records[i - 1], records[i])
    {
      assert OffenceAt(speedOf, low, records, i);
      CoveredGrows(before, after, records[i - 1], records[i]);
    }
  }

  /** A ticket for the offence at i may be sent after tickets that are for offences. */
  lemma JustifiedPush(speedOf: (Record, Record) -> U16, limit: U16, records: seq<Record>,
                      plate: Plate, road: U16, sent: seq<Ticket>, start: nat, i: nat)
    requires JustifiedFrom(speedOf, limit, records, plate, road, sent, start) && OffenceAt(speedOf, limit, records, i)
    ensures var t := Ticket(plate, road, records[i - 1], records[i], speedOf(records[i - 1], records[i]));
            JustifiedFrom(speedOf, limit, records, plate, road, sent + [t], start)
  {
    var t := Ticket(plate, road, records[i - 1], records[i], speedOf(records[i - 1], records[i]));
    assert Justified(speedOf, limit, records, t);
  }

  /** The pair at i is dealt with. */
  lemma PairDone(speedOf: (Record, Record) -> U16, limit: U16, records: seq<Record>,
                 before: seq<U32>, after: seq<U32>, i: nat)
    requires NoneMissedBefore(speedOf, limit, records, before, i) && before <= after
    requires 0 < i < |records| && PairCovered(after, records[i - 1], records[i])
    ensures NoneMissedBefore(speedOf, limit, records, after, i + 1)
  {
    NoneMissedGrows(speedOf, limit, limit, records, before, after, i);
  }

  /** No offence of any plate on a road is missed. */
  ghost predicate RoadClear(speedOf: (Record, Record) -> U16, limit: U16, byPlate: map<Plate, seq<Record>>,
                            tickets: map<Plate, seq<U32>>) {
    forall plate :: plate in byPlate ==> NoneMissed(speedOf, limit, byPlate[plate], Days(tickets, plate))
  }

  lemma RoadClearGrows(speedOf: (Record, Record) -> U16, low: U16, high: U16, byPlate: map<Plate, seq<Record>>,
                       before: map<Plate, seq<U32>>, after: map<Plate, seq<U32>>)
    requires RoadClear(speedOf, low, byPlate, before) && low <= high && Grows(before, after)
    ensures RoadClear(speedOf, high, byPlate, after)
  {
    forall plate | plate in byPlate
      ensures NoneMissed(speedOf, high, byPlate[plate], Days(after, plate))
    {
      assert Days(before, plate) <= Days(after, plate);
      NoneMissedGrows(speedOf, low, high, byPlate[plate], Days(before, plate), Days(after, plate), |byPlate[plate]|);
    }
  }

  lemma GrowsOne(before: map<Plate, seq<U32>>, plate: Plate, more: seq<U32>)
    ensures Grows(before, before[plate := Days(before, plate) + more])
  {
  }

  lemma AppendDay(days: seq<U32>, first: U32, day: U32)
    requires first <= day
    ensures days + DayRange(first, day) == days + DayRange(first, day - 1) + [day]
    ensures first == day ==> days + DayRange(first, day) == days + [day]
  {
    assert DayRange(first, day) == DayRange(first, day - 1) + [day];
  }

  function Copies(channel: Channel, n: nat): (r: seq<Channel>)
    ensures |r| == n && forall i :: 0 <= i < n ==> r[i] == channel
  {
    seq(n, _ => channel)
  }

  lemma OneMoreCopy(before: seq<Channel>, channel: Channel, n: nat)
    ensures (before + Copies(channel, n)) + [channel] == before + Copies(channel, n + 1)
  {
  }

  /** The channels of a road; a Go map gives an empty list for a missing road. */
  function ChannelsIn(dispatchers: map<U16, seq<Channel>>, road: U16): seq<Channel> {
    if road in dispatchers then dispatchers[road] else []
  }

  /** The channel has been added once for each time the road is listed. */
  ghost predicate AddedTo(before: map<U16, seq<Channel>>, after: map<U16, seq<Channel>>,
                          roads: seq<U16>, channel: Channel, r: U16) {
    ChannelsIn(after, r) == ChannelsIn(before, r) + Copies(channel, multiset(roads)[r])
  }

  lemma AddedNone(dispatchers: map<U16, seq<Channel>>, channel: Channel, r: U16)
    ensures AddedTo(dispatchers, dispatchers, [], channel, r)
  {
    assert ChannelsIn(dispatchers, r) + [] == ChannelsIn(dispatchers, r);
  }

  lemma NotAdded(before: map<U16, seq<Channel>>, after: map<U16, seq<Channel>>,
                 roads: seq<U16>, channel: Channel, r: U16)
    requires AddedTo(before, after, roads, channel, r) && r !in roads
    ensures ChannelsIn(after, r) == ChannelsIn(before, r)
  {
    assert multiset(roads)[r] == 0;
    assert ChannelsIn(before, r) + [] == ChannelsIn(before, r);
  }

  lemma AddedOne(before: map<U16, seq<Channel>>, now: map<U16, seq<Channel>>,
                 roads: seq<U16>, road: U16, channel: Channel, r: U16)
    requires AddedTo(before, now, roads, channel, r)
    ensures AddedTo(before, now[road := ChannelsIn(now, road) + [channel]], roads + [road], channel, r)
  {
    OneMoreCopy(ChannelsIn(before, r), channel, multiset(roads)[r]);
    assert multiset(roads + [road])[r] == multiset(roads)[r] + (if r == road then 1 else 0);
  }

  function RecordsOf(byPlate: map<Plate, seq<Record>>, plate: Plate): seq<Record> {
    if plate in byPlate then byPlate[plate] else []
  }

  /** Every camera of a road states a limit no lower than the cameras before it did. */
  ghost predicate NeverLowered(messages: seq<Message>) {
    forall i, j :: 0 <= i < j < |messages| && messages[i].RegisterCamera? && messages[j].RegisterCamera? &&
                   messages[i].road == messages[j].road ==>
      LimitHundredths(messages[i].limit) <= LimitHundredths(messages[j].limit)
  }

  /** Each ticket went to a channel that is registered for its road. */
  ghost predicate Delivered(dispatchers: map<U16, seq<Channel>>, sent: seq<Ticket>, sentTo: seq<Channel>) {
    && |sentTo| == |sent|
    && forall k :: 0 <= k < |sent| ==> sentTo[k] in ChannelsIn(dispatchers, sent[k].road)
  }

  lemma DeliveredPush(dispatchers: map<U16, seq<Channel>>, sent: seq<Ticket>, sentTo: seq<Channel>,
                      t: Ticket, channel: Channel)
    requires Delivered(dispatchers, sent, sentTo) && channel in ChannelsIn(dispatchers, t.road)
    ensures Delivered(dispatchers, sent + [t], sentTo + [channel])
  {
  }

  /** A channel is registered, stays so, and no other one comes with it. */
  lemma AddedMembers(before: map<U16, seq<Channel>>, after: map<U16, seq<Channel>>,
                     roads: seq<U16>, channel: Channel, r: U16, c: Channel)
    requires AddedTo(before, after, roads, channel, r)
    ensures c in ChannelsIn(after, r) <==> c in ChannelsIn(before, r) || (c == channel && r in roads)
  {
    var copies := Copies(channel, multiset(roads)[r]);
    if r in roads {
      assert multiset(roads)[r] > 0 && copies[0] == channel;
    }
    assert c in ChannelsIn(after, r) <==> c in ChannelsIn(before, r) || c in copies;
  }

  lemma DeliveredGrows(before: map<U16, seq<Channel>>, after: map<U16, seq<Channel>>,
                       roads: seq<U16>, channel: Channel, sent: seq<Ticket>, sentTo: seq<Channel>)
    requires Delivered(before, sent, sentTo)
    requires forall r :: AddedTo(before, after, roads, channel, r)
    ensures Delivered(after, sent, sentTo)
  {
    forall k | 0 <= k < |sent|
      ensures sentTo[k] in ChannelsIn(after, sent[k].road)
    {
      AddedMembers(before, after, roads, channel, sent[k].road, sentTo[k]);
    }
  }
}
