/** The speed daemon's `Server` (rust/protohackers/src/speed_daemon/server.rs):
    the client registry, ticket routing and the backlog of tickets for roads
    without a dispatcher. Every client's channel is its `outbox`, the list of
    events sent to it so far; an outbox outlives the removal of its client. */
module SpeedDaemonServer {
  import opened Common
  import opened SpeedDaemonTypes
  import opened SpeedDaemonEvents
  import opened SpeedDaemonTracker

  function AsciiBytes(s: string): (b: seq<byte>)
    requires forall i :: 0 <= i < |s| ==> s[i] as int < 256
    ensures |b| == |s|
  {
    seq(|s|, i requires 0 <= i < |s| => s[i] as int as byte)
  }

  const ALREADY_REGISTERED: seq<byte> := AsciiBytes("already registered")
  const NOT_A_CAMERA: seq<byte> := AsciiBytes("client not identified as camera")

  type Outboxes = map<ClientId, seq<OutgoingEvt>>
  type Clients = map<ClientId, Option<ClientData>>

  function Inbox(outbox: Outboxes, id: ClientId): seq<OutgoingEvt> {
    if id in outbox then outbox[id] else []
  }

  /** Sending `evts` down client `id`'s channel. */
  function Deliver(outbox: Outboxes, id: ClientId, evts: seq<OutgoingEvt>): Outboxes {
    outbox[id := Inbox(outbox, id) + evts]
  }

  function TicketEvents(tickets: seq<Ticket>): (evts: seq<OutgoingEvt>)
    ensures |evts| == |tickets|
    ensures forall k :: 0 <= k < |tickets| ==> evts[k] == TicketEvt(tickets[k])
  {
    if tickets == [] then [] else [TicketEvt(tickets[0])] + TicketEvents(tickets[1..])
  }

  predicate IsDispatcherFor(clients: Clients, id: ClientId, road: Road) {
    id in clients && clients[id].Some? && clients[id].value.Dispatcher?
    && Covers(clients[id].value.roads, road)
  }

  predicate HasDispatcherFor(clients: Clients, road: Road) {
    exists id :: id in clients && IsDispatcherFor(clients, id, road)
  }

  /** A ticket's route: `Some(id)` when it went to dispatcher `id`, `None`
      when it was queued; queued only when no dispatcher lists its road. */
  predicate RouteOk(clients: Clients, t: Ticket, route: Option<ClientId>) {
    if route.Some? then IsDispatcherFor(clients, route.value, t.road)
    else !HasDispatcherFor(clients, t.road)
  }

  predicate RoutesOk(clients: Clients, tickets: seq<Ticket>, routes: seq<Option<ClientId>>) {
    |routes| == |tickets| && forall k :: 0 <= k < |tickets| ==> RouteOk(clients, tickets[k], routes[k])
  }

  /** The effect of routing one ticket on the outboxes and the backlog. */
  function Route(outbox: Outboxes, pending: seq<Ticket>, t: Ticket, route: Option<ClientId>)
    : (Outboxes, seq<Ticket>)
  {
    if route.Some? then (Deliver(outbox, route.value, [TicketEvt(t)]), pending)
    else (outbox, pending + [t])
  }

  /** Routing the tickets of one sighting in order. */
  function RouteAll(outbox: Outboxes, pending: seq<Ticket>, tickets: seq<Ticket>,
                    routes: seq<Option<ClientId>>): (Outboxes, seq<Ticket>)
    requires |routes| == |tickets|
  {
    if tickets == [] then (outbox, pending)
    else
      var n := |tickets| - 1;
      var r := RouteAll(outbox, pending, tickets[..n], routes[..n]);
      Route(r.0, r.1, tickets[n], routes[n])
  }

  /** Routing keeps every ticket: the backlog grows by the queued ones and
      each delivered one is appended to exactly its dispatcher's outbox. */
  lemma {:induction false} RouteAllKeepsTickets(outbox: Outboxes, pending: seq<Ticket>, tickets: seq<Ticket>,
                                                routes: seq<Option<ClientId>>)
    requires |routes| == |tickets|
    ensures var r := RouteAll(outbox, pending, tickets, routes);
      multiset(r.1) == multiset(pending) + multiset(Queued(tickets, routes))
      && (forall id :: id in outbox ==> id in r.0)
      && (forall id :: id !in RoutedTo(routes) ==> Inbox(r.0, id) == Inbox(outbox, id))
    decreases |tickets|
  {
    if tickets != [] {
      var n := |tickets| - 1;
      var tp, rp := tickets[..n], routes[..n];
      RouteAllKeepsTickets(outbox, pending, tp, rp);
      var prev := RouteAll(outbox, pending, tp, rp);
      assert RouteAll(outbox, pending, tickets, routes) == Route(prev.0, prev.1, tickets[n], routes[n]);
      RoutedToLast(routes);
      RouteAfter(outbox, pending, prev, Queued(tp, rp), RoutedTo(rp), tickets[n], routes[n]);
    }
  }

  /** The inductive step of `RouteAllKeepsTickets`: routing one more ticket
      after others extends what routing the others did. */
  lemma RouteAfter(outbox: Outboxes, pending: seq<Ticket>, prev: (Outboxes, seq<Ticket>),
                   queued: seq<Ticket>, routed: set<ClientId>, t: Ticket, route: Option<ClientId>)
    requires multiset(prev.1) == multiset(pending) + multiset(queued)
    requires forall id :: id in outbox ==> id in prev.0
    requires forall id :: id !in routed ==> Inbox(prev.0, id) == Inbox(outbox, id)
    ensures var r := Route(prev.0, prev.1, t, route);
      multiset(r.1) == multiset(pending) + multiset(queued + (if route.None? then [t] else []))
      && (forall id :: id in outbox ==> id in r.0)
      && (forall id :: id !in routed + (if route.Some? then {route.value} else {}) ==>
            Inbox(r.0, id) == Inbox(outbox, id))
  {
    RouteOneKeeps(prev.0, prev.1, t, route);
  }

  /** Routing one ticket: queued tickets grow by it exactly when it has no
      route, and only its dispatcher's outbox changes. */
  lemma RouteOneKeeps(outbox: Outboxes, pending: seq<Ticket>, t: Ticket, route: Option<ClientId>)
    ensures var r := Route(outbox, pending, t, route);
      multiset(r.1) == multiset(pending) + multiset(if route.None? then [t] else [])
      && (forall id :: id in outbox ==> id in r.0)
      && (forall id :: (route.None? || id != route.value) ==> Inbox(r.0, id) == Inbox(outbox, id))
  {
  }

  lemma RoutedToLast(routes: seq<Option<ClientId>>)
    requires routes != []
    ensures var n := |routes| - 1;
      RoutedTo(routes) == RoutedTo(routes[..n]) + (if routes[n].Some? then {routes[n].value} else {})
  {
    var n := |routes| - 1;
    assert forall k :: 0 <= k < n ==> routes[..n][k] == routes[k];
  }

  function Queued(tickets: seq<Ticket>, routes: seq<Option<ClientId>>): seq<Ticket>
    requires |routes| == |tickets|
  {
    if tickets == [] then []
    else
      var n := |tickets| - 1;
      Queued(tickets[..n], routes[..n]) + (if routes[n].None? then [tickets[n]] else [])
  }

  function RoutedTo(routes: seq<Option<ClientId>>): set<ClientId> {
    set k | 0 <= k < |routes| && routes[k].Some? :: routes[k].value
  }

  lemma DeliverTwice(outbox: Outboxes, id: ClientId, a: seq<OutgoingEvt>, b: seq<OutgoingEvt>)
    ensures Deliver(Deliver(outbox, id, a), id, b) == Deliver(outbox, id, a + b)
  {
    assert Inbox(Deliver(outbox, id, a), id) + b == Inbox(outbox, id) + (a + b);
  }

  lemma DeliverNothing(outbox: Outboxes, id: ClientId)
    requires id in outbox
    ensures Deliver(outbox, id, []) == outbox
  {
    assert Inbox(outbox, id) + [] == outbox[id];
  }

  /** `Vec::swap_remove`: the last element takes the place of the removed one. */
  function SwapRemove<T>(s: seq<T>, i: nat): (r: seq<T>)
    requires i < |s|
    ensures |r| == |s| - 1
  {
    s[i := s[|s| - 1]][..|s| - 1]
  }

  lemma SwapRemoveSpec<T>(s: seq<T>, i: nat)
    requires i < |s|
    ensures multiset(s) == multiset(SwapRemove(s, i)) + multiset{s[i]}
    ensures SwapRemove(s, i)[..i] == s[..i]
  {
    var n := |s| - 1;
    var r := SwapRemove(s, i);
    if i == n {
      assert r == s[..n];
      assert s == r + [s[i]];
    } else {
      var mid := s[i + 1..n];
      assert r == s[..i] + [s[n]] + mid;
      assert s == s[..i] + [s[i]] + mid + [s[n]];
      calc {
        multiset(s);
        multiset(s[..i]) + multiset{s[i]} + multiset(mid) + multiset{s[n]};
        multiset(r) + multiset{s[i]};
      }
    }
  }

  /** The `swap_remove` loop's invariant: the queue and the taken tickets
      together are the original queue, the first `i` queued tickets are not
      covered and every taken one is. */
  predicate DrainInv(orig: seq<Ticket>, pending: seq<Ticket>, taken: seq<Ticket>, i: nat, roads: seq<Road>) {
    && i <= |pending|
    && multiset(orig) == multiset(pending) + multiset(taken)
    && (forall j :: 0 <= j < i ==> !Covers(roads, pending[j].road))
    && (forall t :: t in taken ==> Covers(roads, t.road))
  }

  lemma DrainTake(orig: seq<Ticket>, pending: seq<Ticket>, taken: seq<Ticket>, i: nat, roads: seq<Road>)
    requires DrainInv(orig, pending, taken, i, roads) && i < |pending| && Covers(roads, pending[i].road)
    ensures DrainInv(orig, SwapRemove(pending, i), taken + [pending[i]], i, roads)
  {
    SwapRemoveSpec(pending, i);
    var p' := SwapRemove(pending, i);
    assert forall j :: 0 <= j < i ==> p'[j] == pending[j] by {
      assert p'[..i] == pending[..i];
      forall j | 0 <= j < i ensures p'[j] == pending[j] {
        assert p'[j] == p'[..i][j];
      }
    }
    assert multiset(taken + [pending[i]]) == multiset(taken) + multiset{pending[i]};
  }

  lemma DrainDone(orig: seq<Ticket>, pending: seq<Ticket>, taken: seq<Ticket>, roads: seq<Road>)
    requires DrainInv(orig, pending, taken, |pending|, roads)
    ensures forall t :: t in pending ==> !Covers(roads, t.road)
  {
    forall t | t in pending ensures !Covers(roads, t.road) {
      var j :| 0 <= j < |pending| && pending[j] == t;
    }
  }

  /** No queued ticket has a connected dispatcher for its road. */
  predicate NoStrandedTicket(clients: Clients, pending: seq<Ticket>) {
    forall k :: 0 <= k < |pending| ==> !HasDispatcherFor(clients, pending[k].road)
  }

  /** Dropping a client strands no ticket. */
  lemma RemoveKeepsNoStranded(clients: Clients, pending: seq<Ticket>, id: ClientId)
    requires NoStrandedTicket(clients, pending)
    ensures NoStrandedTicket(clients - {id}, pending)
  {
    forall k, c | 0 <= k < |pending| && c in clients - {id}
      ensures !IsDispatcherFor(clients - {id}, c, pending[k].road)
    {
      assert !IsDispatcherFor(clients, c, pending[k].road);
    }
  }

  /** Giving a client without a role its role, after it took every queued
      ticket it covers, strands no ticket. */
  lemma IdentifyKeepsNoStranded(clients: Clients, pending: seq<Ticket>, id: ClientId, data: ClientData,
                                remaining: seq<Ticket>)
    requires NoStrandedTicket(clients, pending)
    requires id in clients && clients[id].None?
    requires multiset(remaining) <= multiset(pending)
    requires data.Dispatcher? ==> forall t :: t in remaining ==> !Covers(data.roads, t.road)
    ensures NoStrandedTicket(clients[id := Some(data)], remaining)
  {
    var clients' := clients[id := Some(data)];
    forall k, c | 0 <= k < |remaining| && c in clients'
      ensures !IsDispatcherFor(clients', c, remaining[k].road)
    {
      var t := remaining[k];
      if c != id {
        assert t in multiset(pending);
        var m :| 0 <= m < |pending| && pending[m] == t;
        assert !IsDispatcherFor(clients, c, pending[m].road);
      } else {
        assert t in remaining;
      }
    }
  }

  /** Queueing a ticket that no dispatcher covers strands nothing. */
  lemma QueueKeepsNoStranded(clients: Clients, pending: seq<Ticket>, t: Ticket)
    requires NoStrandedTicket(clients, pending) && !HasDispatcherFor(clients, t.road)
    ensures NoStrandedTicket(clients, pending + [t])
  {
    forall k | 0 <= k < |pending| + 1 ensures !HasDispatcherFor(clients, (pending + [t])[k].road) {
      if k < |pending| {
        assert (pending + [t])[k] == pending[k];
      }
    }
  }

  /** A client without a role covers nothing, so adding one strands nothing. */
  lemma RegisterKeepsNoStranded(clients: Clients, pending: seq<Ticket>, id: ClientId)
    requires NoStrandedTicket(clients, pending)
    ensures NoStrandedTicket(clients[id := None], pending)
  {
    var clients' := clients[id := None];
    forall k, c | 0 <= k < |pending| && c in clients'
      ensures !IsDispatcherFor(clients', c, pending[k].road)
    {
      if c != id {
        assert !IsDispatcherFor(clients, c, pending[k].road);
      }
    }
  }

  class Server {
    var nextId: ClientId
    var clients: Clients
    var outbox: Outboxes
    var pendingTickets: seq<Ticket>
    const tracker: PlateTracker

    ghost predicate Valid()
      reads this, tracker
    {
      && tracker.Valid()
      && (forall id :: id in outbox ==> id < nextId)
      && (forall id :: id in clients ==> id in outbox)
      && NoStrandedTicket(clients, pendingTickets)
    }

    constructor ()
      ensures Valid() && fresh(tracker)
      ensures nextId == 0 && clients == map[] && outbox == map[] && pendingTickets == []
      ensures tracker.data == map[]
    {
      nextId := 0;
      clients := map[];
      outbox := map[];
      pendingTickets := [];
      tracker := new PlateTracker();
    }

    /** `Server::register`: a fresh id, with no role yet and an empty channel.
        The `u32` increment of the id counter panics on overflow in a debug
        build. */
    method Register() returns (id: ClientId)
      requires Valid() && nextId < U32_MAX
      modifies this
      ensures Valid()
      ensures id == old(nextId) && nextId == old(nextId) + 1
      ensures id !in old(outbox) && id !in old(clients)
      ensures clients == old(clients)[id := None] && outbox == old(outbox)[id := []]
      ensures pendingTickets == old(pendingTickets)
    {
      id := nextId;
      RegisterKeepsNoStranded(clients, pendingTickets, id);
      nextId := nextId + 1;
      clients := clients[id := None];
      outbox := outbox[id := []];
    }

    /** `Server::client_err`: sends `Error(msg)` and drops the client. */
    method ClientErr(id: ClientId, msg: seq<byte>)
      requires Valid() && id in clients
      modifies this
      ensures Valid()
      ensures clients == old(clients) - {id}
      ensures outbox == Deliver(old(outbox), id, [Error(msg)])
      ensures nextId == old(nextId) && pendingTickets == old(pendingTickets)
    {
      outbox := Deliver(outbox, id, [Error(msg)]);
      RemoveKeepsNoStranded(clients, pendingTickets, id);
      clients := clients - {id};
    }

    /** `Server::identify_client`. A client may set its role once; a new
        dispatcher takes every queued ticket for a road it lists. */
    method IdentifyClient(id: ClientId, data: ClientData) returns (ghost delivered: seq<Ticket>)
      requires Valid() && id in clients
      modifies this
      ensures Valid()
      ensures nextId == old(nextId)
      ensures old(clients[id]).Some? ==>
        && clients == old(clients) - {id}
        && outbox == Deliver(old(outbox), id, [Error(ALREADY_REGISTERED)])
        && pendingTickets == old(pendingTickets) && delivered == []
      ensures old(clients[id]).None? ==>
        && clients == old(clients)[id := Some(data)]
        && outbox == Deliver(old(outbox), id, TicketEvents(delivered))
        && multiset(old(pendingTickets)) == multiset(pendingTickets) + multiset(delivered)
        && (forall t :: t in delivered ==> data.Dispatcher? && Covers(data.roads, t.road))
        && (data.Dispatcher? ==> forall t :: t in pendingTickets ==> !Covers(data.roads, t.road))
        && (data.Camera? ==> pendingTickets == old(pendingTickets))
    {
      if clients[id].Some? {
        ClientErr(id, ALREADY_REGISTERED);
        delivered := [];
        return;
      }
      clients := clients[id := Some(data)];
      delivered := [];
      DeliverNothing(outbox, id);
      if data.Dispatcher? {
        delivered := DrainPending(id, data.roads);
      }
      IdentifyKeepsNoStranded(old(clients), old(pendingTickets), id, data, pendingTickets);
    }

    /** The `swap_remove` loop of `identify_client`: moves every queued
        ticket whose road is in `roads` to client `id`'s channel. */
    method DrainPending(id: ClientId, roads: seq<Road>) returns (ghost taken: seq<Ticket>)
      requires id in outbox
      modifies this
      ensures multiset(old(pendingTickets)) == multiset(pendingTickets) + multiset(taken)
      ensures forall t :: t in taken ==> Covers(roads, t.road)
      ensures forall t :: t in pendingTickets ==> !Covers(roads, t.road)
      ensures outbox == Deliver(old(outbox), id, TicketEvents(taken))
      ensures clients == old(clients) && nextId == old(nextId)
    {
      var i := 0;
      taken := [];
      DeliverNothing(outbox, id);
      while i < |pendingTickets|
        invariant DrainInv(old(pendingTickets), pendingTickets, taken, i, roads)
        invariant outbox == Deliver(old(outbox), id, TicketEvents(taken))
        invariant clients == old(clients) && nextId == old(nextId)
        decreases |pendingTickets| - i
      {
        var ticket := pendingTickets[i];
        if ticket.road in roads {
          DrainTake(old(pendingTickets), pendingTickets, taken, i, roads);
          pendingTickets := SwapRemove(pendingTickets, i);
          TicketEventsSnoc(taken, ticket);
          DeliverTwice(old(outbox), id, TicketEvents(taken), [TicketEvt(ticket)]);
          outbox := Deliver(outbox, id, [TicketEvt(ticket)]);
          taken := taken + [ticket];
        } else {
          i := i + 1;
        }
      }
      DrainDone(old(pendingTickets), pendingTickets, taken, roads);
    }

    /** `Server::send_ticket`: to some dispatcher listing the road (the
        source takes the first in hash-map order), else onto the backlog. */
    method SendTicket(t: Ticket) returns (ghost route: Option<ClientId>)
      requires Valid()
      modifies this
      ensures Valid()
      ensures RouteOk(clients, t, route)
      ensures (outbox, pendingTickets) == Route(old(outbox), old(pendingTickets), t, route)
      ensures clients == old(clients) && nextId == old(nextId)
    {
      if c :| c in clients && IsDispatcherFor(clients, c, t.road) {
        outbox := Deliver(outbox, c, [TicketEvt(t)]);
        route := Some(c);
      } else {
        QueueKeepsNoStranded(clients, pendingTickets, t);
        pendingTickets := pendingTickets + [t];
        route := None;
      }
    }

    /** The `for ticket in tickets` loop of `record_plate`: each ticket in
        turn goes through `send_ticket`. */
    method SendTickets(tickets: seq<Ticket>) returns (ghost routes: seq<Option<ClientId>>)
      requires Valid()
      modifies this
      ensures Valid()
      ensures clients == old(clients) && nextId == old(nextId)
      ensures RoutesOk(clients, tickets, routes)
      ensures (outbox, pendingTickets) == RouteAll(old(outbox), old(pendingTickets), tickets, routes)
    {
      routes := [];
      var k := 0;
      while k < |tickets|
        invariant k <= |tickets| && |routes| == k
        invariant Valid()
        invariant clients == old(clients) && nextId == old(nextId)
        invariant RoutesOk(clients, tickets[..k], routes)
        invariant (outbox, pendingTickets) == RouteAll(old(outbox), old(pendingTickets), tickets[..k], routes)
      {
        var route := SendTicket(tickets[k]);
        assert tickets[..k + 1][..k] == tickets[..k];
        assert (routes + [route])[..k] == routes;
        routes := routes + [route];
        k := k + 1;
      }
      assert tickets[..k] == tickets;
    }

    /** `Server::record_plate`: a camera's sighting goes to the tracker
        and every resulting ticket is routed; any other client is dropped. */
    method RecordPlate(id: ClientId, plate: seq<byte>, timestamp: Timestamp)
      returns (tickets: seq<Ticket>, ghost routes: seq<Option<ClientId>>)
      requires Valid() && id in clients
      modifies this, tracker
      ensures Valid()
      ensures nextId == old(nextId)
      ensures old(clients[id]).Some? && old(clients[id]).value.Camera? ==>
        var cam := old(clients[id]).value;
        && RoadsSorted(Entry(old(tracker.data), plate))
        && (var r := Record(Entry(old(tracker.data), plate), plate, cam.road, cam.mile, timestamp, cam.limit);
            tracker.data == old(tracker.data)[plate := r.0] && tickets == r.1)
        && clients == old(clients)
        && RoutesOk(clients, tickets, routes)
        && (outbox, pendingTickets) == RouteAll(old(outbox), old(pendingTickets), tickets, routes)
      ensures !(old(clients[id]).Some? && old(clients[id]).value.Camera?) ==>
        && clients == old(clients) - {id}
        && outbox == Deliver(old(outbox), id, [Error(NOT_A_CAMERA)])
        && pendingTickets == old(pendingTickets)
        && tracker.data == old(tracker.data) && tickets == []
    {
      var data := clients[id];
      if data.Some? && data.value.Camera? {
        var cam := data.value;
        tickets := tracker.RecordPlate(plate, cam.road, cam.mile, timestamp, cam.limit);
        routes := SendTickets(tickets);
      } else {
        ClientErr(id, NOT_A_CAMERA);
        tickets := [];
        routes := [];
      }
    }
  }

  lemma {:induction false} TicketEventsSnoc(tickets: seq<Ticket>, t: Ticket)
    ensures TicketEvents(tickets + [t]) == TicketEvents(tickets) + [TicketEvt(t)]
  {
  }
}
