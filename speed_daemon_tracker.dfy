/** The plate tracker of the speed daemon (`PlateTracker`,
    rust/protohackers/src/speed_daemon/server.rs): per plate and road, the
    sightings in timestamp order; per plate, the day numbers already billed. */
module SpeedDaemonTracker {
  import opened Common
  import opened SpeedDaemonTypes

  datatype Observation = Observation(mile: Mile, timestamp: Timestamp)

  /** `PlateData`: the billed day numbers (`tickets`) and the sightings per road. */
  datatype PlateData = PlateData(tickets: seq<u32>, roads: map<Road, seq<Observation>>)

  const EMPTY_PLATE_DATA := PlateData([], map[])

  predicate SortedByTime(obs: seq<Observation>) {
    forall i, j :: 0 <= i < j < |obs| ==> obs[i].timestamp <= obs[j].timestamp
  }

  /** `push` followed by the stable `sort_by_key` on the timestamp, for a list
      that is already sorted: the new sighting goes after every sighting with
      the same or an earlier timestamp. */
  function InsertByTime(obs: seq<Observation>, o: Observation): seq<Observation> {
    if obs == [] then [o]
    else if o.timestamp < obs[0].timestamp then [o] + obs
    else [obs[0]] + InsertByTime(obs[1..], o)
  }

  /** Where the insertion puts the new sighting: after the leading sightings
      that are not later than it. */
  function InsertIndex(obs: seq<Observation>, o: Observation): (k: nat)
    ensures k <= |obs|
    ensures forall i :: 0 <= i < k ==> obs[i].timestamp <= o.timestamp
    ensures k < |obs| ==> o.timestamp < obs[k].timestamp
  {
    if obs == [] || o.timestamp < obs[0].timestamp then 0
    else 1 + InsertIndex(obs[1..], o)
  }

  lemma {:induction false} InsertByTimeShape(obs: seq<Observation>, o: Observation)
    ensures InsertByTime(obs, o) == obs[..InsertIndex(obs, o)] + [o] + obs[InsertIndex(obs, o)..]
    decreases |obs|
  {
    if obs != [] && o.timestamp >= obs[0].timestamp {
      var rest := obs[1..];
      var k' := InsertIndex(rest, o);
      InsertByTimeShape(rest, o);
      assert obs[..k' + 1] == [obs[0]] + rest[..k'];
      assert obs[k' + 1..] == rest[k'..];
    }
  }

  lemma {:induction false} InsertByTimeSorted(obs: seq<Observation>, o: Observation)
    requires SortedByTime(obs)
    ensures SortedByTime(InsertByTime(obs, o))
  {
    InsertByTimeShape(obs, o);
    InsertedSorted(obs, o, InsertIndex(obs, o));
  }

  /** Putting a sighting between the not-later and the later ones of a
      sorted list keeps it sorted. */
  lemma InsertedSorted(obs: seq<Observation>, o: Observation, k: nat)
    requires SortedByTime(obs) && k <= |obs|
    requires forall i :: 0 <= i < k ==> obs[i].timestamp <= o.timestamp
    requires k < |obs| ==> o.timestamp < obs[k].timestamp
    ensures SortedByTime(obs[..k] + [o] + obs[k..])
  {
    var r := obs[..k] + [o] + obs[k..];
    forall i, j | 0 <= i < j < |r| ensures r[i].timestamp <= r[j].timestamp {
      if j < k {
        assert r[i] == obs[i] && r[j] == obs[j];
      } else if i > k {
        assert r[i] == obs[i - 1] && r[j] == obs[j - 1];
      } else if i == k {
        assert r[i] == o && r[j] == obs[j - 1];
        assert obs[k].timestamp <= obs[j - 1].timestamp;
      } else if j == k {
        assert r[i] == obs[i] && r[j] == o;
      } else {
        assert r[i] == obs[i] && r[j] == obs[j - 1];
      }
    }
  }

  /** Every sighting after the insertion point is later than the new one. */
  lemma InsertIndexLater(obs: seq<Observation>, o: Observation)
    requires SortedByTime(obs)
    ensures forall i :: InsertIndex(obs, o) <= i < |obs| ==> o.timestamp < obs[i].timestamp
  {
    var k := InsertIndex(obs, o);
    if k < |obs| {
      forall i | k <= i < |obs| ensures o.timestamp < obs[i].timestamp {
        assert obs[k].timestamp <= obs[i].timestamp;
      }
    }
  }

  lemma {:induction false} InsertByTimeMultiset(obs: seq<Observation>, o: Observation)
    ensures multiset(InsertByTime(obs, o)) == multiset(obs) + multiset{o}
  {
    InsertByTimeShape(obs, o);
    var k := InsertIndex(obs, o);
    var front, back := obs[..k], obs[k..];
    assert obs == front + back;
    assert InsertByTime(obs, o) == front + [o] + back;
    assert multiset(front + [o] + back) == multiset(front) + multiset{o} + multiset(back);
  }

  /** The insertion keeps a sorted list sorted and adds exactly the new
      sighting, after every sighting that is not later than it and before
      every later one. */
  lemma InsertByTimeSpec(obs: seq<Observation>, o: Observation)
    requires SortedByTime(obs)
    ensures SortedByTime(InsertByTime(obs, o))
    ensures multiset(InsertByTime(obs, o)) == multiset(obs) + multiset{o}
    ensures var k := InsertIndex(obs, o);
      InsertByTime(obs, o) == obs[..k] + [o] + obs[k..]
      && (forall i :: k <= i < |obs| ==> o.timestamp < obs[i].timestamp)
  {
    InsertByTimeShape(obs, o);
    InsertByTimeSorted(obs, o);
    InsertIndexLater(obs, o);
    InsertByTimeMultiset(obs, o);
  }

  function AbsDiff(a: int, b: int): nat {
    if a < b then b - a else a - b
  }

  function Min(a: int, b: int): int {
    if a < b then a else b
  }

  /** The quotient `n / d` rounded down, by repeated subtraction; the lemma
      below equates it with Dafny's `/`. Written out so that the scan lemmas
      carry no division by a variable. */
  function Quotient(n: nat, d: nat): nat
    requires d > 0
    decreases n
  {
    if n < d then 0 else 1 + Quotient(n - d, d)
  }

  lemma {:induction false} MulAtLeast(d: nat, x: int)
    requires x >= 1
    ensures d * x >= d
    decreases x
  {
    if x > 1 {
      MulAtLeast(d, x - 1);
      assert d * x == d * (x - 1) + d;
    }
  }

  lemma DivisionUnique(n: nat, d: nat, q: int, r: int)
    requires d > 0 && n == d * q + r && 0 <= r < d
    ensures n / d == q
  {
    var q0, r0 := n / d, n % d;
    assert n == d * q0 + r0;
    assert d * (q0 - q) == r - r0 by {
      assert d * (q0 - q) == d * q0 - d * q;
    }
    if q0 > q {
      MulAtLeast(d, q0 - q);
    } else if q0 < q {
      MulAtLeast(d, q - q0);
    }
  }

  lemma {:induction false} QuotientIsDiv(n: nat, d: nat)
    requires d > 0
    ensures Quotient(n, d) == n / d
    decreases n
  {
    if n < d {
      DivisionUnique(n, d, 0, n);
    } else {
      QuotientIsDiv(n - d, d);
      var q, r := (n - d) / d, (n - d) % d;
      assert n == d * (q + 1) + r;
      DivisionUnique(n, d, q + 1, r);
    }
  }

  /** `(dist / time * 3600.0) as u16`, with `dist` miles over `elapsed`
      seconds: 0/0 is NaN, which casts to 0; d/0 for d > 0 is +infinity,
      which saturates like every value above 65535. */
  function MphAsU16(dist: nat, elapsed: nat): u16 {
    if elapsed == 0 then (if dist == 0 then 0 else U16_MAX)
    else Min(Quotient(dist * 3600, elapsed), U16_MAX)
  }

  /** `(m_per_h * 100.0) as u16`: the speed in hundredths of a mile per hour. */
  function SpeedAsU16(dist: nat, elapsed: nat): u16 {
    if elapsed == 0 then (if dist == 0 then 0 else U16_MAX)
    else Min(Quotient(dist * 360000, elapsed), U16_MAX)
  }

  /** The truncated speeds, in Dafny's arithmetic. */
  lemma SpeedsAsDivision(dist: nat, elapsed: nat)
    requires elapsed > 0
    ensures MphAsU16(dist, elapsed) == Min(dist * 3600 / elapsed, U16_MAX)
    ensures SpeedAsU16(dist, elapsed) == Min(dist * 360000 / elapsed, U16_MAX)
  {
    QuotientIsDiv(dist * 3600, elapsed);
    QuotientIsDiv(dist * 360000, elapsed);
  }

  predicate Violates(a: Observation, b: Observation, limit: u16)
    requires a.timestamp <= b.timestamp
  {
    MphAsU16(AbsDiff(a.mile, b.mile), b.timestamp - a.timestamp) > limit
  }

  function PairTicket(plate: seq<byte>, road: Road, a: Observation, b: Observation): Ticket
    requires a.timestamp <= b.timestamp
  {
    Ticket(plate, road, a.mile, a.timestamp, b.mile, b.timestamp,
           SpeedAsU16(AbsDiff(a.mile, b.mile), b.timestamp - a.timestamp),
           Day(a.timestamp), Day(b.timestamp))
  }

  /** The day numbers a ticket adds to its plate's list (`day_2` only when it differs). */
  function TicketDays(t: Ticket): seq<u32> {
    [t.day1] + (if t.day1 != t.day2 then [t.day2] else [])
  }

  function NewDays(tickets: seq<Ticket>): seq<u32> {
    if tickets == [] then [] else TicketDays(tickets[0]) + NewDays(tickets[1..])
  }

  predicate DaysDisjoint(t: Ticket, u: Ticket) {
    t.day1 != u.day1 && t.day1 != u.day2 && t.day2 != u.day1 && t.day2 != u.day2
  }

  datatype Scan = Scan(days: seq<u32>, tickets: seq<Ticket>)

  /** The source's loop over the adjacent pairs (i, i + 1), from pair `i` on,
      with the running list of billed days. */
  function ScanPairs(plate: seq<byte>, road: Road, obs: seq<Observation>, limit: u16,
                     days: seq<u32>, i: nat): Scan
    requires SortedByTime(obs)
    decreases |obs| - i
  {
    if i + 1 >= |obs| then Scan(days, [])
    else
      var a, b := obs[i], obs[i + 1];
      if Violates(a, b, limit) && Day(a.timestamp) !in days && Day(b.timestamp) !in days then
        var t := PairTicket(plate, road, a, b);
        var rest := ScanPairs(plate, road, obs, limit, days + TicketDays(t), i + 1);
        Scan(rest.days, [t] + rest.tickets)
      else ScanPairs(plate, road, obs, limit, days, i + 1)
  }

  /** A ticket of the scan: the pair it was cut from, and the day numbers it
      carries. */
  predicate IssuedFor(t: Ticket, plate: seq<byte>, road: Road, obs: seq<Observation>, limit: u16, k: nat)
    requires SortedByTime(obs)
  {
    k + 1 < |obs| && t == PairTicket(plate, road, obs[k], obs[k + 1]) && Violates(obs[k], obs[k + 1], limit)
  }

  /** The billed list grows by exactly the days of the scan's tickets. */
  lemma {:induction false} ScanDays(plate: seq<byte>, road: Road, obs: seq<Observation>, limit: u16,
                                    days: seq<u32>, i: nat)
    requires SortedByTime(obs)
    ensures var s := ScanPairs(plate, road, obs, limit, days, i);
      s.days == days + NewDays(s.tickets)
    decreases |obs| - i
  {
    if i + 1 < |obs| {
      var a, b := obs[i], obs[i + 1];
      if Violates(a, b, limit) && Day(a.timestamp) !in days && Day(b.timestamp) !in days {
        var t := PairTicket(plate, road, a, b);
        var days' := days + TicketDays(t);
        ScanDays(plate, road, obs, limit, days', i + 1);
        var rest := ScanPairs(plate, road, obs, limit, days', i + 1);
        var ts := [t] + rest.tickets;
        assert ts[1..] == rest.tickets;
        assert NewDays(ts) == TicketDays(t) + NewDays(rest.tickets);
      } else {
        ScanDays(plate, road, obs, limit, days, i + 1);
      }
    }
  }

  /** The ticket was cut from some violating adjacent pair of the list. */
  predicate FromViolatingPair(t: Ticket, plate: seq<byte>, road: Road, obs: seq<Observation>, limit: u16)
    requires SortedByTime(obs)
  {
    exists k: nat :: k < |obs| && IssuedFor(t, plate, road, obs, limit, k)
  }

  /** Every ticket comes from a violating adjacent pair. */
  lemma {:induction false} ScanSound(plate: seq<byte>, road: Road, obs: seq<Observation>, limit: u16,
                                     days: seq<u32>, i: nat)
    requires SortedByTime(obs)
    ensures var s := ScanPairs(plate, road, obs, limit, days, i);
      forall t :: t in s.tickets ==> FromViolatingPair(t, plate, road, obs, limit)
    decreases |obs| - i
  {
    if i + 1 < |obs| {
      var a, b := obs[i], obs[i + 1];
      var fires := Violates(a, b, limit) && Day(a.timestamp) !in days && Day(b.timestamp) !in days;
      var t := PairTicket(plate, road, a, b);
      var days' := if fires then days + TicketDays(t) else days;
      ScanSound(plate, road, obs, limit, days', i + 1);
      assert IssuedFor(t, plate, road, obs, limit, i) ==> FromViolatingPair(t, plate, road, obs, limit);
    }
  }

  predicate AvoidsDays(tickets: seq<Ticket>, days: seq<u32>) {
    forall t :: t in tickets ==> t.day1 !in days && t.day2 !in days
  }

  /** Neither day of a ticket was billed when the scan began. */
  lemma {:induction false} ScanAvoidsBilled(plate: seq<byte>, road: Road, obs: seq<Observation>, limit: u16,
                                            days: seq<u32>, i: nat)
    requires SortedByTime(obs)
    ensures AvoidsDays(ScanPairs(plate, road, obs, limit, days, i).tickets, days)
    decreases |obs| - i
  {
    if i + 1 < |obs| {
      var a, b := obs[i], obs[i + 1];
      var fires := Violates(a, b, limit) && Day(a.timestamp) !in days && Day(b.timestamp) !in days;
      var days' := if fires then days + TicketDays(PairTicket(plate, road, a, b)) else days;
      ScanAvoidsBilled(plate, road, obs, limit, days', i + 1);
    }
  }

  predicate PairwiseDisjoint(tickets: seq<Ticket>) {
    forall j, k :: 0 <= j < k < |tickets| ==> DaysDisjoint(tickets[j], tickets[k])
  }

  /** No two tickets of one scan share a day. */
  lemma {:induction false} ScanDisjoint(plate: seq<byte>, road: Road, obs: seq<Observation>, limit: u16,
                                        days: seq<u32>, i: nat)
    requires SortedByTime(obs)
    ensures PairwiseDisjoint(ScanPairs(plate, road, obs, limit, days, i).tickets)
    decreases |obs| - i
  {
    if i + 1 < |obs| {
      var a, b := obs[i], obs[i + 1];
      if Violates(a, b, limit) && Day(a.timestamp) !in days && Day(b.timestamp) !in days {
        var t := PairTicket(plate, road, a, b);
        var days' := days + TicketDays(t);
        ScanDisjoint(plate, road, obs, limit, days', i + 1);
        ScanAvoidsBilled(plate, road, obs, limit, days', i + 1);
        var rest := ScanPairs(plate, road, obs, limit, days', i + 1);
        var ts := [t] + rest.tickets;
        assert t.day1 in days' && t.day2 in days';
        forall j, k | 0 <= j < k < |ts| ensures DaysDisjoint(ts[j], ts[k]) {
          if j == 0 {
            var u := ts[k];
            assert u in rest.tickets;
            assert u.day1 !in days' && u.day2 !in days';
          } else {
            assert ts[j] == rest.tickets[j - 1] && ts[k] == rest.tickets[k - 1];
          }
        }
      } else {
        ScanDisjoint(plate, road, obs, limit, days, i + 1);
      }
    }
  }

  /** The days billed after the pair at `i` is scanned: the pair's ticket
      days when it fires, as in `ScanPairs`. */
  function BilledAfterPair(plate: seq<byte>, road: Road, a: Observation, b: Observation, limit: u16,
                           days: seq<u32>): seq<u32>
    requires a.timestamp <= b.timestamp
  {
    if Violates(a, b, limit) && Day(a.timestamp) !in days && Day(b.timestamp) !in days
    then days + TicketDays(PairTicket(plate, road, a, b)) else days
  }

  /** The days billed when a scan that started at pair `i` reaches pair `k`. */
  function BilledBefore(plate: seq<byte>, road: Road, obs: seq<Observation>, limit: u16,
                        days: seq<u32>, i: nat, k: nat): seq<u32>
    requires SortedByTime(obs) && k < |obs|
    decreases k - i
  {
    if k <= i then days
    else BilledBefore(plate, road, obs, limit, BilledAfterPair(plate, road, obs[i], obs[i + 1], limit, days), i + 1, k)
  }

  /** Every violating adjacent pair is ticketed, unless one of its days was
      already billed when the scan reached it: before the scan began, or by a
      ticket cut from an earlier pair. */
  lemma {:induction false} ScanComplete(plate: seq<byte>, road: Road, obs: seq<Observation>, limit: u16,
                                        days: seq<u32>, i: nat, k: nat)
    requires SortedByTime(obs)
    requires i <= k && k + 1 < |obs| && Violates(obs[k], obs[k + 1], limit)
    ensures var before := BilledBefore(plate, road, obs, limit, days, i, k);
      || PairTicket(plate, road, obs[k], obs[k + 1]) in ScanPairs(plate, road, obs, limit, days, i).tickets
      || Day(obs[k].timestamp) in before || Day(obs[k + 1].timestamp) in before
    decreases |obs| - i
  {
    var days' := BilledAfterPair(plate, road, obs[i], obs[i + 1], limit, days);
    ScanStepTickets(plate, road, obs, limit, days, days', i);
    if k > i {
      ScanComplete(plate, road, obs, limit, days', i + 1, k);
    }
  }

  /** The scan from pair `i` issues its first pair's ticket when that pair
      fires, and every ticket of the scan from pair `i + 1`. */
  lemma ScanStepTickets(plate: seq<byte>, road: Road, obs: seq<Observation>, limit: u16,
                        days: seq<u32>, days': seq<u32>, i: nat)
    requires SortedByTime(obs) && i + 1 < |obs|
    requires days' == BilledAfterPair(plate, road, obs[i], obs[i + 1], limit, days)
    ensures days' != days ==> PairTicket(plate, road, obs[i], obs[i + 1]) in ScanPairs(plate, road, obs, limit, days, i).tickets
    ensures forall t :: t in ScanPairs(plate, road, obs, limit, days', i + 1).tickets
                     ==> t in ScanPairs(plate, road, obs, limit, days, i).tickets
  {
  }

  /** Run to the last pair, `BilledBefore` gives the days the whole scan
      ends with. */
  lemma {:induction false} BilledBeforeEnd(plate: seq<byte>, road: Road, obs: seq<Observation>, limit: u16,
                                           days: seq<u32>, i: nat)
    requires SortedByTime(obs) && i < |obs|
    ensures BilledBefore(plate, road, obs, limit, days, i, |obs| - 1) == ScanPairs(plate, road, obs, limit, days, i).days
    decreases |obs| - i
  {
    if i + 1 < |obs| {
      var days' := BilledAfterPair(plate, road, obs[i], obs[i + 1], limit, days);
      BilledBeforeEnd(plate, road, obs, limit, days', i + 1);
    }
  }

  /** With fewer than two sightings on the road no pair exists and no ticket is issued. */
  lemma ScanFewerThanTwo(plate: seq<byte>, road: Road, obs: seq<Observation>, limit: u16, days: seq<u32>)
    requires SortedByTime(obs) && |obs| < 2
    ensures ScanPairs(plate, road, obs, limit, days, 0) == Scan(days, [])
  {
  }

  predicate TicketWellFormed(t: Ticket) {
    t.timestamp1 <= t.timestamp2 && t.day1 == Day(t.timestamp1) && t.day2 == Day(t.timestamp2)
  }

  function Entry(data: map<seq<byte>, PlateData>, plate: seq<byte>): PlateData {
    if plate in data then data[plate] else EMPTY_PLATE_DATA
  }

  function RoadObservations(pd: PlateData, road: Road): seq<Observation> {
    if road in pd.roads then pd.roads[road] else []
  }

  predicate RoadsSorted(pd: PlateData) {
    forall r :: r in pd.roads ==> SortedByTime(pd.roads[r])
  }

  function NewRoadList(pd: PlateData, road: Road, mile: Mile, timestamp: Timestamp): seq<Observation> {
    InsertByTime(RoadObservations(pd, road), Observation(mile, timestamp))
  }

  /** What one sighting does to its plate's entry: the road list gains the
      sighting in time order and the scan over it bills new days. */
  function Record(pd: PlateData, plate: seq<byte>, road: Road, mile: Mile, timestamp: Timestamp,
                  limit: u16): (r: (PlateData, seq<Ticket>))
    requires RoadsSorted(pd)
    ensures RoadsSorted(r.0)
  {
    InsertByTimeSpec(RoadObservations(pd, road), Observation(mile, timestamp));
    var obs := NewRoadList(pd, road, mile, timestamp);
    var s := ScanPairs(plate, road, obs, limit, pd.tickets, 0);
    (PlateData(s.days, pd.roads[road := obs]), s.tickets)
  }

  /** The billed list of the plate grows by the days of the new tickets,
      which come from violating pairs of the new road list and avoid every
      day billed before; the new tickets share no day. */
  lemma RecordSpec(pd: PlateData, plate: seq<byte>, road: Road, mile: Mile, timestamp: Timestamp, limit: u16)
    requires RoadsSorted(pd)
    ensures var r := Record(pd, plate, road, mile, timestamp, limit);
      && r.0.tickets == pd.tickets + NewDays(r.1)
      && r.0.roads == pd.roads[road := NewRoadList(pd, road, mile, timestamp)]
      && (forall t :: t in r.1 ==> t.plate == plate && t.road == road && TicketWellFormed(t))
      && AvoidsDays(r.1, pd.tickets)
      && PairwiseDisjoint(r.1)
  {
    InsertByTimeSpec(RoadObservations(pd, road), Observation(mile, timestamp));
    var obs := NewRoadList(pd, road, mile, timestamp);
    ScanDays(plate, road, obs, limit, pd.tickets, 0);
    ScanSound(plate, road, obs, limit, pd.tickets, 0);
    ScanAvoidsBilled(plate, road, obs, limit, pd.tickets, 0);
    ScanDisjoint(plate, road, obs, limit, pd.tickets, 0);
    var s := ScanPairs(plate, road, obs, limit, pd.tickets, 0);
    forall t | t in s.tickets ensures t.plate == plate && t.road == road && TicketWellFormed(t) {
      assert FromViolatingPair(t, plate, road, obs, limit);
      var m: nat :| m < |obs| && IssuedFor(t, plate, road, obs, limit, m);
    }
  }

  /** The tracker's invariant: road lists are sorted; every issued ticket is
      well formed and its days are on its plate's billed list; two tickets of
      one plate never share a day. */
  ghost predicate TrackerInv(data: map<seq<byte>, PlateData>, issued: seq<Ticket>) {
    AllSorted(data) && AllBilled(data, issued) && NoSharedDay(issued)
  }

  predicate AllSorted(data: map<seq<byte>, PlateData>) {
    forall p :: p in data ==> RoadsSorted(data[p])
  }

  predicate AllBilled(data: map<seq<byte>, PlateData>, issued: seq<Ticket>) {
    forall k :: 0 <= k < |issued| ==>
      && TicketWellFormed(issued[k])
      && issued[k].plate in data
      && issued[k].day1 in data[issued[k].plate].tickets
      && issued[k].day2 in data[issued[k].plate].tickets
  }

  predicate NoSharedDay(issued: seq<Ticket>) {
    forall j, k :: 0 <= j < k < |issued| && issued[j].plate == issued[k].plate ==>
      DaysDisjoint(issued[j], issued[k])
  }

  lemma {:induction false} NewDaysContains(tickets: seq<Ticket>, t: Ticket)
    requires t in tickets
    ensures t.day1 in NewDays(tickets) && t.day2 in NewDays(tickets)
  {
    if t != tickets[0] {
      NewDaysContains(tickets[1..], t);
    }
  }

  /** The plate's new entry bills every day of the old and the new tickets. */
  lemma RecordKeepsBilled(data: map<seq<byte>, PlateData>, issued: seq<Ticket>, plate: seq<byte>,
                          pd': PlateData, tickets: seq<Ticket>)
    requires AllBilled(data, issued)
    requires pd'.tickets == Entry(data, plate).tickets + NewDays(tickets)
    requires forall t :: t in tickets ==> t.plate == plate && TicketWellFormed(t)
    ensures AllBilled(data[plate := pd'], issued + tickets)
  {
    var data' := data[plate := pd'];
    var issued' := issued + tickets;
    forall k | 0 <= k < |issued'|
      ensures TicketWellFormed(issued'[k]) && issued'[k].plate in data'
      ensures issued'[k].day1 in data'[issued'[k].plate].tickets
      ensures issued'[k].day2 in data'[issued'[k].plate].tickets
    {
      if k >= |issued| {
        var t := tickets[k - |issued|];
        assert t in tickets;
        NewDaysContains(tickets, t);
      }
    }
  }

  /** New tickets that avoid the plate's billed days and each other's days
      share no day with any ticket issued before. */
  lemma RecordKeepsNoSharedDay(data: map<seq<byte>, PlateData>, issued: seq<Ticket>, plate: seq<byte>,
                               tickets: seq<Ticket>)
    requires AllBilled(data, issued) && NoSharedDay(issued)
    requires forall t :: t in tickets ==> t.plate == plate
    requires AvoidsDays(tickets, Entry(data, plate).tickets)
    requires PairwiseDisjoint(tickets)
    ensures NoSharedDay(issued + tickets)
  {
    var issued' := issued + tickets;
    forall j, k | 0 <= j < k < |issued'| && issued'[j].plate == issued'[k].plate
      ensures DaysDisjoint(issued'[j], issued'[k])
    {
      if k >= |issued| {
        var t := tickets[k - |issued|];
        assert t in tickets;
        if j < |issued| {
          assert issued[j].plate == plate;
        } else {
          assert issued'[j] == tickets[j - |issued|];
        }
      }
    }
  }

  /** One sighting keeps the tracker's invariant. */
  lemma RecordKeepsInv(data: map<seq<byte>, PlateData>, issued: seq<Ticket>, plate: seq<byte>,
                       road: Road, mile: Mile, timestamp: Timestamp, limit: u16)
    requires TrackerInv(data, issued)
    ensures RoadsSorted(Entry(data, plate))
    ensures var r := Record(Entry(data, plate), plate, road, mile, timestamp, limit);
      TrackerInv(data[plate := r.0], issued + r.1)
  {
    var pd := Entry(data, plate);
    assert RoadsSorted(pd);
    var r := Record(pd, plate, road, mile, timestamp, limit);
    RecordSpec(pd, plate, road, mile, timestamp, limit);
    RecordKeepsBilled(data, issued, plate, r.0, r.1);
    RecordKeepsNoSharedDay(data, issued, plate, r.1);
    AllSortedUpdate(data, plate, r.0);
  }

  lemma AllSortedUpdate(data: map<seq<byte>, PlateData>, plate: seq<byte>, pd: PlateData)
    requires AllSorted(data) && RoadsSorted(pd)
    ensures AllSorted(data[plate := pd])
  {
  }

  /** The loop of `record_plate` over the adjacent pairs of a sorted road
      list, starting from the plate's billed days. */
  method ScanRoad(plate: seq<byte>, road: Road, obs: seq<Observation>, limit: u16, billed: seq<u32>)
    returns (days: seq<u32>, results: seq<Ticket>)
    requires SortedByTime(obs)
    ensures ScanPairs(plate, road, obs, limit, billed, 0) == Scan(days, results)
  {
    days := billed;
    results := [];
    if |obs| < 2 {
      return;
    }
    for i := 0 to |obs| - 1
      invariant var s := ScanPairs(plate, road, obs, limit, days, i);
        ScanPairs(plate, road, obs, limit, billed, 0) == Scan(s.days, results + s.tickets)
    {
      var pent, last := obs[i], obs[i + 1];
      var dist := AbsDiff(last.mile, pent.mile);
      var time := last.timestamp - pent.timestamp;
      var day1, day2 := Day(pent.timestamp), Day(last.timestamp);
      if MphAsU16(dist, time) > limit && !(day1 in days || day2 in days) {
        var ticket := Ticket(plate, road, pent.mile, pent.timestamp, last.mile, last.timestamp,
                             SpeedAsU16(dist, time), day1, day2);
        assert ticket == PairTicket(plate, road, pent, last);
        ghost var rest := ScanPairs(plate, road, obs, limit, days + TicketDays(ticket), i + 1);
        assert ScanPairs(plate, road, obs, limit, days, i) == Scan(rest.days, [ticket] + rest.tickets);
        ghost var before := days;
        days := days + [day1];
        if day1 != day2 {
          days := days + [day2];
        }
        assert days == before + TicketDays(ticket);
        assert (results + [ticket]) + rest.tickets == results + ([ticket] + rest.tickets);
        results := results + [ticket];
      } else {
        assert !(Violates(pent, last, limit) && day1 !in days && day2 !in days);
        assert ScanPairs(plate, road, obs, limit, days, i) == ScanPairs(plate, road, obs, limit, days, i + 1);
      }
    }
  }

  class PlateTracker {
    var data: map<seq<byte>, PlateData>
    /** Every ticket returned so far, in order. */
    ghost var issued: seq<Ticket>

    ghost predicate Valid()
      reads this
    {
      TrackerInv(data, issued)
    }

    constructor ()
      ensures Valid() && data == map[] && issued == []
    {
      data := map[];
      issued := [];
    }

    /** `PlateTracker::record_plate`: stores the sighting and returns the
        tickets of the scan over all adjacent pairs of that road's list. */
    method RecordPlate(plate: seq<byte>, road: Road, mile: Mile, timestamp: Timestamp, limit: u16)
      returns (results: seq<Ticket>)
      requires Valid()
      modifies this
      ensures Valid()
      ensures RoadsSorted(Entry(old(data), plate))
      ensures var r := Record(Entry(old(data), plate), plate, road, mile, timestamp, limit);
        data == old(data)[plate := r.0] && results == r.1
      ensures issued == old(issued) + results
    {
      RecordKeepsInv(data, issued, plate, road, mile, timestamp, limit);
      var pd := Entry(data, plate);
      InsertByTimeSpec(RoadObservations(pd, road), Observation(mile, timestamp));
      var obs := InsertByTime(RoadObservations(pd, road), Observation(mile, timestamp));
      var days;
      days, results := ScanRoad(plate, road, obs, limit, pd.tickets);
      data := data[plate := PlateData(days, pd.roads[road := obs])];
      issued := issued + results;
    }
  }

  // ---------------------------------------------------------------------
  // Worked cases.

  /** Two cameras on road 66, at miles 0 and 100 with limit 60, see "ABC" at
      t = 0 and t = 3000: 120 mph, one ticket at 12000 hundredths. */
  lemma ScenarioRoad66()
    ensures var obs := [Observation(0, 0), Observation(100, 3000)];
      SortedByTime(obs) &&
      ScanPairs([65, 66, 67], 66, obs, 60, [], 0)
      == Scan([0], [Ticket([65, 66, 67], 66, 0, 0, 100, 3000, 12000, 0, 0)])
  {
    SpeedsAsDivision(100, 3000);
  }

  /** One mile in an hour is exactly 1 mph: not above a limit of 1, so no
      ticket; against a limit of 0 the ticket reads 100. */
  lemma ScenarioBoundary()
    ensures var obs := [Observation(0, 0), Observation(1, 3600)];
      SortedByTime(obs) &&
      ScanPairs([65], 1, obs, 1, [], 0) == Scan([], []) &&
      ScanPairs([65], 1, obs, 0, [], 0).tickets[0].speed == 100
  {
    SpeedsAsDivision(1, 3600);
  }

  /** Two sightings at the same instant: at the same mile no ticket (NaN);
      at different miles the infinite speed saturates and is ticketed. */
  lemma ScenarioZeroElapsed()
    ensures var same := [Observation(5, 100), Observation(5, 100)];
      SortedByTime(same) && ScanPairs([65], 1, same, 60, [], 0) == Scan([], [])
    ensures var apart := [Observation(5, 100), Observation(6, 100)];
      SortedByTime(apart) && ScanPairs([65], 1, apart, 60, [], 0).tickets[0].speed == U16_MAX
  {
  }

  /** A second violation on an already billed day yields no ticket. */
  lemma ScenarioBilledDay()
    ensures var obs := [Observation(0, 0), Observation(100, 3000), Observation(200, 6000)];
      SortedByTime(obs) &&
      ScanPairs([65], 66, obs, 60, [], 0).tickets
      == [Ticket([65], 66, 0, 0, 100, 3000, 12000, 0, 0)]
  {
    SpeedsAsDivision(100, 3000);
  }
}
