/** Tickets and the days they cover: the bookkeeping that keeps the speed daemon from ticketing a
    plate twice on a day. Models the Tickets map and generateTicket of
    internal/speeddaemon/central_dispatcher.go on values. */
module TicketBook {
  import opened Arithmetic
  import opened SdTypes

  /** Plates are only compared. */
  type Plate(==, !new)

  datatype Record = Record(mile: U16, time: U32)

  datatype Ticket = Ticket(plate: Plate, road: U16, first: Record, second: Record, speed: U16)

  const SECONDS_A_DAY := 86400

  function Day(time: U32): U32 {
    time / SECONDS_A_DAY
  }

  /** A day is the 86400 seconds that start at a multiple of 86400. */
  lemma DayOfTime(time: U32)
    ensures 86400 * Day(time) <= time < 86400 * (Day(time) + 1)
  {
  }

  predicate Covers(t: Ticket, day: int) {
    Day(t.first.time) <= day <= Day(t.second.time)
  }

  // ---------- Speed ----------

  /** speedLimit := SpeedLimits[road] * 100 is computed in sixteen bits. */
  function LimitHundredths(limit: U16): U16 {
    limit * 100 % 0x1_0000
  }

  /** The multiplication is right exactly for limits up to 655 miles per hour. */
  lemma LimitFits(limit: U16)
    ensures LimitHundredths(limit) == limit * 100 <==> limit <= 655
    ensures exists wraps: nat :: limit * 100 == LimitHundredths(limit) + 65536 * wraps
  {
    assert limit * 100 == LimitHundredths(limit) + 65536 * (limit * 100 / 65536);
  }

  function Abs(n: int): (r: nat)
    ensures r == n || r == -n
  {
    if n < 0 then -n else n
  }

  /** The average speed in hundredths of a mile per hour, rounded down as the conversion to an
      unsigned integer does; exact arithmetic in place of floating point. */
  function ExactSpeed(r1: Record, r2: Record): nat
    requires r1.time != r2.time
  {
    Abs(r2.mile - r1.mile) * 360000 / Abs(r2.time - r1.time)
  }

  lemma DivideAbove(a: nat, b: nat, c: nat)
    requires b > 0
    ensures a / b > c <==> a >= (c + 1) * b
  {
    var q := a / b;
    assert q * b <= a < (q + 1) * b;
    if q > c {
      MulMonotone(c + 1, q, b);
    } else {
      MulMonotone(q + 1, c + 1, b);
    }
  }

  /** Rounding down means that a pair is an offence exactly when the average speed is at least a
      hundredth of a mile per hour above the limit that is compared with; up to 655 that is the limit of
      the road. */
  lemma OffenceThreshold(r1: Record, r2: Record, limit: U16)
    requires r1.time != r2.time
    ensures ExactSpeed(r1, r2) > LimitHundredths(limit) <==>
            Abs(r2.mile - r1.mile) * 360000 >= (LimitHundredths(limit) + 1) * Abs(r2.time - r1.time)
    ensures limit <= 655 <==> LimitHundredths(limit) == 100 * limit
  {
    LimitFits(limit);
    DivideAbove(Abs(r2.mile - r1.mile) * 360000, Abs(r2.time - r1.time), LimitHundredths(limit));
  }

  // ---------- Days ----------

  /** The entry of a Go map, or the empty list. */
  function Days(tickets: map<Plate, seq<U32>>, plate: Plate): seq<U32> {
    if plate in tickets then tickets[plate] else []
  }

  function Occurrences(days: seq<U32>, day: int): nat {
    if days == [] then 0 else (if days[|days| - 1] == day then 1 else 0) + Occurrences(days[..|days| - 1], day)
  }

  lemma {:induction false} OccursIfIn(days: seq<U32>, day: U32)
    ensures Occurrences(days, day) > 0 <==> day in days
  {
    if days != [] {
      OccursIfIn(days[..|days| - 1], day);
      assert days == days[..|days| - 1] + [days[|days| - 1]];
    }
  }

  /** How many of the tickets sent for the plate cover the day. */
  function TicketsOn(sent: seq<Ticket>, plate: Plate, day: int): nat {
    if sent == [] then 0
    else
      var last := sent[|sent| - 1];
      (if last.plate == plate && Covers(last, day) then 1 else 0) + TicketsOn(sent[..|sent| - 1], plate, day)
  }

  lemma TicketsOnPush(sent: seq<Ticket>, t: Ticket, plate: Plate, day: int)
    ensures TicketsOn(sent + [t], plate, day) ==
            TicketsOn(sent, plate, day) + (if t.plate == plate && Covers(t, day) then 1 else 0)
  {
    assert (sent + [t])[..|sent|] == sent;
  }

  /** The account of a plate's day: listed as often as it is covered by a ticket, at most once. */
  predicate DayOk(tickets: map<Plate, seq<U32>>, sent: seq<Ticket>, plate: Plate, day: int) {
    Occurrences(Days(tickets, plate), day) == TicketsOn(sent, plate, day) <= 1
  }

  ghost predicate BookInv(tickets: map<Plate, seq<U32>>, sent: seq<Ticket>) {
    && (forall plate: Plate, day: int :: DayOk(tickets, sent, plate, day))
    && (forall t :: t in sent ==> t.first.time <= t.second.time)
  }

  /** Some day of the pair's range is listed. */
  predicate PairCovered(days: seq<U32>, r1: Record, r2: Record) {
    exists day :: day in days && Day(r1.time) <= day <= Day(r2.time)
  }

  /** The days of a range, first to last. */
  function DayRange(first: U32, last: int): (r: seq<U32>)
    requires last < 0x1_0000_0000
    ensures |r| == if last < first then 0 else last - first + 1
    ensures forall k :: 0 <= k < |r| ==> r[k] == first + k
    decreases last - first + 1
  {
    if last < first then [] else DayRange(first, last - 1) + [last]
  }

  lemma {:induction false} OccurrencesRange(days: seq<U32>, first: U32, last: int, day: int)
    requires last < 0x1_0000_0000
    ensures Occurrences(days + DayRange(first, last), day) ==
            Occurrences(days, day) + (if first <= day <= last then 1 else 0)
    decreases last - first + 1
  {
    if last < first {
      assert days + [] == days;
    } else {
      var shorter := DayRange(first, last - 1);
      assert days + DayRange(first, last) == (days + shorter) + [last];
      assert (days + shorter + [last])[..|days + shorter|] == days + shorter;
      OccurrencesRange(days, first, last - 1, day);
    }
  }

  /** generateTicket's effect on the book when it sends: the ticket's days were all free before. */
  lemma IssueKeepsBook(tickets: map<Plate, seq<U32>>, sent: seq<Ticket>, t: Ticket)
    requires BookInv(tickets, sent)
    requires t.first.time <= t.second.time && !PairCovered(Days(tickets, t.plate), t.first, t.second)
    ensures var more := Days(tickets, t.plate) + DayRange(Day(t.first.time), Day(t.second.time));
            BookInv(tickets[t.plate := more], sent + [t])
    ensures PairCovered(Days(tickets, t.plate) + DayRange(Day(t.first.time), Day(t.second.time)), t.first, t.second)
  {
    hide Occurrences, TicketsOn;
    var first, last := Day(t.first.time), Day(t.second.time);
    var days, range := Days(tickets, t.plate), DayRange(first, last);
    var after := tickets[t.plate := days + range];
    forall plate: Plate, day: int
      ensures DayOk(after, sent + [t], plate, day)
    {
      assert DayOk(tickets, sent, plate, day);
      TicketsOnPush(sent, t, plate, day);
      if plate == t.plate {
        OccurrencesRange(days, first, last, day);
        if first <= day <= last {
          OccursIfIn(days, day);
        }
      }
    }
    assert first <= last && range[0] == first;
    assert (days + range)[|days|] == first;
    assert first in days + range;
  }

  /** No two tickets sent for a plate cover a common day. */
  lemma {:induction false} TicketsDisjoint(tickets: map<Plate, seq<U32>>, sent: seq<Ticket>, i: nat, j: nat, day: int)
    requires BookInv(tickets, sent)
    requires i < j < |sent| && sent[i].plate == sent[j].plate
    ensures !(Covers(sent[i], day) && Covers(sent[j], day))
  {
    assert DayOk(tickets, sent, sent[i].plate, day);
    TicketsOnTwo(sent, i, j, day);
  }

  lemma {:induction false} TicketsOnOne(sent: seq<Ticket>, i: nat, day: int)
    requires i < |sent| && Covers(sent[i], day)
    ensures TicketsOn(sent, sent[i].plate, day) >= 1
  {
    if i < |sent| - 1 {
      TicketsOnOne(sent[..|sent| - 1], i, day);
    }
  }

  lemma {:induction false} TicketsOnTwo(sent: seq<Ticket>, i: nat, j: nat, day: int)
    requires i < j < |sent| && sent[i].plate == sent[j].plate
    ensures Covers(sent[i], day) && Covers(sent[j], day) ==> TicketsOn(sent, sent[i].plate, day) >= 2
  {
    if j < |sent| - 1 {
      TicketsOnTwo(sent[..|sent| - 1], i, j, day);
    } else if Covers(sent[i], day) {
      TicketsOnOne(sent[..|sent| - 1], i, day);
    }
  }

  /** The days listed for a plate are exactly the days its tickets cover. */
  lemma ListedExactlyWhenCovered(tickets: map<Plate, seq<U32>>, sent: seq<Ticket>, plate: Plate, day: U32)
    requires BookInv(tickets, sent)
    ensures day in Days(tickets, plate) <==> exists t :: t in sent && t.plate == plate && Covers(t, day)
  {
    assert DayOk(tickets, sent, plate, day);
    OccursIfIn(Days(tickets, plate), day);
    if exists t :: t in sent && t.plate == plate && Covers(t, day) {
      var t :| t in sent && t.plate == plate && Covers(t, day);
      var i :| 0 <= i < |sent| && sent[i] == t;
      TicketsOnOne(sent, i, day);
    } else {
      NoTicketOn(sent, plate, day);
    }
  }

  lemma {:induction false} NoTicketOn(sent: seq<Ticket>, plate: Plate, day: int)
    requires !exists t :: t in sent && t.plate == plate && Covers(t, day)
    ensures TicketsOn(sent, plate, day) == 0
  {
    if sent != [] {
      var rest := sent[..|sent| - 1];
      assert forall t :: t in rest ==> t in sent;
      assert sent[|sent| - 1] in sent;
      NoTicketOn(rest, plate, day);
    }
  }

  /** A ticket is held back exactly when a ticket already sent for the plate has a day in common with it. */
  lemma HeldBackExactly(tickets: map<Plate, seq<U32>>, sent: seq<Ticket>, plate: Plate, r1: Record, r2: Record)
    requires BookInv(tickets, sent) && r1.time <= r2.time
    ensures PairCovered(Days(tickets, plate), r1, r2) <==>
            exists t :: t in sent && t.plate == plate &&
                        t.first.time / 86400 <= r2.time / 86400 && r1.time / 86400 <= t.second.time / 86400
  {
    if PairCovered(Days(tickets, plate), r1, r2) {
      var day :| day in Days(tickets, plate) && Day(r1.time) <= day <= Day(r2.time);
      ListedExactlyWhenCovered(tickets, sent, plate, day);
    }
    forall t | t in sent && t.plate == plate && Day(t.first.time) <= Day(r2.time) && Day(r1.time) <= Day(t.second.time)
      ensures PairCovered(Days(tickets, plate), r1, r2)
    {
      var day := if Day(t.first.time) <= Day(r1.time) then Day(r1.time) else Day(t.first.time);
      assert Covers(t, day);
      ListedExactlyWhenCovered(tickets, sent, plate, day);
    }
  }

  /** Of two tickets sent for a plate one ends on a day before the other one starts. */
  lemma TicketsApart(tickets: map<Plate, seq<U32>>, sent: seq<Ticket>, i: nat, j: nat)
    requires BookInv(tickets, sent)
    requires i < j < |sent| && sent[i].plate == sent[j].plate
    ensures || sent[i].second.time / 86400 < sent[j].first.time / 86400
            || sent[j].second.time / 86400 < sent[i].first.time / 86400
  {
    var a, b := Day(sent[i].first.time), Day(sent[j].first.time);
    TicketsDisjoint(tickets, sent, i, j, if a <= b then b else a);
    assert sent[i] in sent && sent[j] in sent;
  }
}
