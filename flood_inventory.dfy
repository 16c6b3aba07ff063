/** Resource accounting of the flood game's logistics network
    (rust_games/flood/src/logistics/inventory.rs): suppliers hold an
    inventory of packets, consumers track what they hold, what is on its
    way to them and how much of a packet's charge is left; the dispatcher
    matches requesters with stocked suppliers one packet at a time. */
module FloodInventory {
  import opened Common

  /** `ResourceSupplier`: a stock of whole packets. */
  class ResourceSupplier {
    var inventory: u32

    constructor (inventory: u32)
      ensures this.inventory == inventory
    {
      this.inventory := inventory;
    }
  }

  /** `ResourceConsumer`: `current` packets held, `inTransit` packets on
      their way, each packet worth `unitsPerPacket` units, of which
      `packetRemainder` units of a broken-up packet are left. */
  class ResourceConsumer {
    var max: u32
    var current: u32
    var inTransit: u32
    var unitsPerPacket: u32
    var packetRemainder: u32

    /** What every operation keeps: never more held or ordered than
        `max`, and a remainder smaller than a packet. */
    predicate Valid()
      reads this
    {
      && current + inTransit <= max
      && (packetRemainder == 0 || packetRemainder < unitsPerPacket)
    }

    /** All units held: whole packets plus the remainder. */
    function Stock(): nat
      reads this
    {
      current * unitsPerPacket + packetRemainder
    }

    /** `ResourceConsumer::new`: nothing held, nothing on its way. */
    constructor (max: u32, chargePerPacket: u32)
      ensures this.max == max && unitsPerPacket == chargePerPacket
      ensures current == 0 && inTransit == 0 && packetRemainder == 0
      ensures Valid() && Stock() == 0
    {
      this.max := max;
      unitsPerPacket := chargePerPacket;
      current := 0;
      inTransit := 0;
      packetRemainder := 0;
    }

    /** `resources_to_send`: the packets still to be ordered so that held
        and ordered packets reach `max`; the source asserts that they do
        not already exceed it. */
    function ResourcesToSend(): (r: u32)
      reads this
      requires current + inTransit <= max
      ensures current + inTransit + r == max
      ensures r == 0 <==> current + inTransit == max
    {
      max - current - inTransit
    }

    /** `consume`: take `amount` units if that many are held, breaking
        packets up as needed. The source's u32 product overflows (a
        panic) above `U32_MAX`, and it divides by `unitsPerPacket`
        whenever the units suffice. */
    method Consume(amount: u32) returns (ok: bool)
      requires Stock() <= U32_MAX
      requires Stock() >= amount ==> unitsPerPacket > 0
      modifies this
      ensures ok <==> old(Stock()) >= amount
      ensures ok ==> Stock() == old(Stock()) - amount && packetRemainder < unitsPerPacket
      ensures ok && old(Valid()) ==> current <= old(current)
      ensures !ok ==> current == old(current) && packetRemainder == old(packetRemainder)
      ensures max == old(max) && inTransit == old(inTransit) && unitsPerPacket == old(unitsPerPacket)
      ensures old(Valid()) ==> Valid()
    {
      var available := current * unitsPerPacket + packetRemainder;
      if available >= amount {
        var left := available - amount;
        var whole, rest := left / unitsPerPacket, left % unitsPerPacket;
        SplitUnits(left, unitsPerPacket, current, packetRemainder);
        current := whole;
        packetRemainder := rest;
        assert Stock() == whole * unitsPerPacket + rest == left;
        ok := true;
      } else {
        ok := false;
      }
    }

    /** The `PacketDelivered` handler: a packet on its way arrives. Both
        the u32 decrement and the increment panic on wrap-around. */
    method Delivered()
      requires inTransit > 0 && current < U32_MAX
      modifies this
      ensures current == old(current) + 1 && inTransit == old(inTransit) - 1
      ensures max == old(max) && unitsPerPacket == old(unitsPerPacket)
      ensures packetRemainder == old(packetRemainder)
      ensures old(Valid()) ==> Valid() && ResourcesToSend() == old(ResourcesToSend())
    {
      current := current + 1;
      inTransit := inTransit - 1;
    }

    /** The `PacketDestroyed` handler: a packet on its way is lost. */
    method Destroyed()
      requires inTransit > 0
      modifies this
      ensures inTransit == old(inTransit) - 1
      ensures max == old(max) && current == old(current)
      ensures unitsPerPacket == old(unitsPerPacket) && packetRemainder == old(packetRemainder)
      ensures old(Valid()) ==> Valid() && ResourcesToSend() == old(ResourcesToSend()) + 1
    {
      inTransit := inTransit - 1;
    }
  }

  /** Splitting the `x` units left into whole packets of `d` units and a
      remainder: the parts add up to `x`, the whole packets are no more
      than `x`, and no more than the `c` packets held before when `x` did
      not exceed the old stock of `c` packets and a remainder `r`. */
  lemma SplitUnits(x: nat, d: nat, c: nat, r: nat)
    requires d > 0
    ensures x / d * d + x % d == x && x % d < d && x / d <= x
    ensures r < d && x <= c * d + r ==> x / d <= c
  {
    DivMod(x, d);
    MulMonotone(1, d, x / d);
    if r < d && x <= c * d + r {
      HeldShrinks(c, d, r, x);
    }
  }

  lemma DivMod(x: nat, d: nat)
    requires d > 0
    ensures x == x / d * d + x % d && x % d < d
  {
  }

  /** Breaking up fewer units than `c` whole packets plus a remainder
      below a packet never yields more than `c` whole packets. */
  lemma HeldShrinks(c: nat, d: nat, r: nat, x: nat)
    requires d > 0 && r < d && x <= c * d + r
    ensures x / d <= c
  {
    DivMod(x, d);
    if x / d > c {
      MulMonotone(c + 1, x / d, d);
    }
  }

  lemma MulMonotone(a: nat, b: nat, d: nat)
    requires a <= b
    ensures a * d <= b * d
  {
  }

  /** A packet in flight from a supplier to a consumer (`Packet::new`
      with the two entities). */
  datatype Packet = Packet(src: ResourceSupplier, dst: ResourceConsumer)

  predicate Distinct<T(==)>(s: seq<T>) {
    forall i, j :: 0 <= i < j < |s| ==> s[i] != s[j]
  }

  /** The first `i` inventories added up. */
  function Prefix(s: seq<nat>, i: nat): nat
    requires i <= |s|
  {
    if i == 0 then 0 else Prefix(s, i - 1) + s[i - 1]
  }

  function Sum(s: seq<nat>): nat {
    Prefix(s, |s|)
  }

  lemma {:induction false} PrefixMono(s: seq<nat>, i: nat, j: nat)
    requires i <= j <= |s|
    ensures Prefix(s, i) <= Prefix(s, j)
  {
    if i < j {
      PrefixMono(s, i, j - 1);
    }
  }

  predicate Positive(s: seq<nat>) {
    forall i :: 0 <= i < |s| ==> s[i] > 0
  }

  /** Packet `j` of a dispatch round leaves supplier `i`: suppliers are
      drained in order, so supplier `i` serves the packets numbered from
      the stock of the suppliers before it up to its own stock more. */
  predicate ServedBy(s: seq<nat>, j: nat, i: nat)
    requires i < |s|
  {
    Prefix(s, i) <= j < Prefix(s, i + 1)
  }

  /** The packets supplier `i` gives up when `n` packets leave the
      suppliers with inventories `s` in turn. */
  function Taken(s: seq<nat>, n: nat, i: nat): (t: nat)
    requires i < |s|
    ensures t <= s[i]
  {
    if n <= Prefix(s, i) then 0
    else if n - Prefix(s, i) >= s[i] then s[i]
    else n - Prefix(s, i)
  }

  function TakenTotal(s: seq<nat>, n: nat, m: nat): nat
    requires m <= |s|
  {
    if m == 0 then 0 else TakenTotal(s, n, m - 1) + Taken(s, n, m - 1)
  }

  function Min(a: nat, b: nat): nat {
    if a <= b then a else b
  }

  /** Every packet is taken from exactly one supplier: the suppliers
      together give up `n` packets, or all they have. */
  lemma {:induction false} TakenAddsUp(s: seq<nat>, n: nat, m: nat)
    requires m <= |s|
    ensures TakenTotal(s, n, m) == Min(n, Prefix(s, m))
  {
    if m > 0 {
      TakenAddsUp(s, n, m - 1);
    }
  }

  /** The supplier, from the `i`-th one on, that serves packet `j`. */
  function SupplierOf(s: seq<nat>, j: nat, i: nat): (r: nat)
    requires i < |s| && Prefix(s, i) <= j < Sum(s)
    ensures i <= r < |s| && ServedBy(s, j, r)
    decreases |s| - i
  {
    if j < Prefix(s, i + 1) then i else SupplierOf(s, j, i + 1)
  }

  /** Each packet has one supplier. */
  lemma ServedByUnique(s: seq<nat>, j: nat, i: nat, i': nat)
    requires i < |s| && i' < |s|
    requires ServedBy(s, j, i) && ServedBy(s, j, i')
    ensures i == i'
  {
    if i < i' {
      PrefixMono(s, i + 1, i');
    } else if i' < i {
      PrefixMono(s, i' + 1, i);
    }
  }

  /** Sending one more packet while supplier `p` is the current one
      takes it from `p` only. */
  lemma TakenStep(s: seq<nat>, k: nat, p: nat)
    requires p < |s| && ServedBy(s, k, p)
    ensures forall i :: 0 <= i < |s| ==>
      Taken(s, k + 1, i) == Taken(s, k, i) + (if i == p then 1 else 0)
  {
    forall i | 0 <= i < |s|
      ensures Taken(s, k + 1, i) == Taken(s, k, i) + (if i == p then 1 else 0)
    {
      if i < p {
        PrefixMono(s, i + 1, p);
      } else if i > p {
        PrefixMono(s, p + 1, i);
      }
    }
  }

  /** Producers with entry inventories `invs` after `k` packets left. */
  ghost predicate Drained(producers: seq<ResourceSupplier>, invs: seq<nat>, k: nat)
    reads producers
    requires |invs| == |producers|
  {
    forall i :: 0 <= i < |producers| ==> producers[i].inventory == invs[i] - Taken(invs, k, i)
  }

  /** Requesters with entry in-transit counts `before` after the first
      `k` of them were each sent one packet. */
  ghost predicate Ordered(requesters: seq<ResourceConsumer>, before: seq<nat>, k: nat)
    reads requesters
    requires |before| == |requesters|
  {
    forall j :: 0 <= j < |requesters| ==>
      requesters[j].inTransit == before[j] + (if j < k then 1 else 0)
  }

  ghost function InTransit(requesters: seq<ResourceConsumer>): (r: seq<nat>)
    reads requesters
    ensures |r| == |requesters|
    ensures forall j :: 0 <= j < |requesters| ==> r[j] == requesters[j].inTransit
  {
    if |requesters| == 0 then []
    else InTransit(requesters[..|requesters| - 1]) + [requesters[|requesters| - 1].inTransit as nat]
  }

  /** Packet `k` of the round leaves producer `p`. */
  method TakeOne(producer: ResourceSupplier, ghost producers: seq<ResourceSupplier>, ghost p: nat,
                 ghost invs: seq<nat>, ghost k: nat)
    requires p < |producers| == |invs| && producer == producers[p] && Distinct(producers)
    requires ServedBy(invs, k, p) && Drained(producers, invs, k)
    modifies producer`inventory
    ensures Drained(producers, invs, k + 1)
  {
    TakenStep(invs, k, p);
    producer.inventory := producer.inventory - 1;
  }

  /** Requester `k` is sent its packet. */
  method GiveOne(requester: ResourceConsumer, ghost requesters: seq<ResourceConsumer>, ghost k: nat,
                 ghost before: seq<nat>)
    requires k < |requesters| == |before| && requester == requesters[k] && Distinct(requesters)
    requires Ordered(requesters, before, k) && requester.inTransit < U32_MAX
    modifies requester`inTransit
    ensures Ordered(requesters, before, k + 1)
  {
    requester.inTransit := requester.inTransit + 1;
  }

  /** The first `n` packets of a round: packet `j` goes to requester `j`
      from the supplier that serves it. */
  function Round(producers: seq<ResourceSupplier>, requesters: seq<ResourceConsumer>,
                 invs: seq<nat>, n: nat): (r: seq<Packet>)
    requires |invs| == |producers| && n <= |requesters| && n <= Sum(invs)
    ensures |r| == n
    ensures forall j :: 0 <= j < n ==> r[j] == Packet(producers[SupplierOf(invs, j, 0)], requesters[j])
  {
    if n == 0 then []
    else Round(producers, requesters, invs, n - 1) + [Packet(producers[SupplierOf(invs, n - 1, 0)], requesters[n - 1])]
  }

  /** Where the round goes after packet `k` left supplier `p`: the same
      supplier while it has stock left, else the next supplier, or the
      end of all stock after the last one. */
  lemma ServedNext(s: seq<nat>, k: nat, p: nat)
    requires p < |s| && ServedBy(s, k, p)
    requires Positive(s)
    ensures Taken(s, k + 1, p) < s[p] ==> ServedBy(s, k + 1, p)
    ensures Taken(s, k + 1, p) == s[p] && p + 1 < |s| ==> ServedBy(s, k + 1, p + 1)
    ensures Taken(s, k + 1, p) == s[p] && p + 1 == |s| ==> k + 1 == Sum(s)
    ensures k < Sum(s) && p == SupplierOf(s, k, 0)
  {
    PrefixMono(s, p + 1, |s|);
    ServedByUnique(s, k, p, SupplierOf(s, k, 0));
  }

  /** The state of a round after `k` packets: `p` is the current
      producer unless all stock is gone. */
  ghost predicate Midway(producers: seq<ResourceSupplier>, requesters: seq<ResourceConsumer>,
                         invs: seq<nat>, before: seq<nat>, k: nat, p: nat, exhausted: bool,
                         packets: seq<Packet>)
    reads producers, requesters
  {
    && |invs| == |producers| && |before| == |requesters|
    && Distinct(producers) && Distinct(requesters) && Positive(invs)
    && (forall j :: 0 <= j < |requesters| ==> before[j] < U32_MAX)
    && k <= |requesters| && p < |producers| && k <= Sum(invs)
    && (if exhausted then k == Sum(invs) else ServedBy(invs, k, p))
    && Drained(producers, invs, k) && Ordered(requesters, before, k)
    && packets == Round(producers, requesters, invs, k)
  }

  /** The outcome of a dispatch round whose producers had inventories
      `invs` and whose requesters had `before` packets in transit: as
      many packets as there were requesters or stock, whichever is
      fewer; the producers drained in order; each served requester one
      more packet in transit; packet `j` to requester `j`. */
  ghost predicate Dispatched(producers: seq<ResourceSupplier>, requesters: seq<ResourceConsumer>,
                             invs: seq<nat>, before: seq<nat>, packets: seq<Packet>)
    reads producers, requesters
  {
    && |invs| == |producers| && |before| == |requesters|
    && |packets| == Min(|requesters|, Sum(invs))
    && Drained(producers, invs, |packets|)
    && Ordered(requesters, before, |packets|)
    && packets == Round(producers, requesters, invs, |packets|)
  }

  /** One turn of the loop: requester `k` is served by producer `p`,
      which is left behind once its inventory reaches 0. */
  method ServeOne(producers: seq<ResourceSupplier>, requesters: seq<ResourceConsumer>,
                  ghost invs: seq<nat>, ghost before: seq<nat>, k: nat, p: nat, packets: seq<Packet>)
      returns (k': nat, p': nat, exhausted: bool, packets': seq<Packet>)
    requires Midway(producers, requesters, invs, before, k, p, false, packets) && k < |requesters|
    modifies producers`inventory, requesters`inTransit
    ensures k' == k + 1
    ensures Midway(producers, requesters, invs, before, k', p', exhausted, packets')
  {
    k' := k + 1;
    ServedNext(invs, k, p);
    GiveOne(requesters[k], requesters, k, before);
    TakeOne(producers[p], producers, p, invs, k);
    packets' := packets + [Packet(producers[p], requesters[k])];
    var emptied := producers[p].inventory == 0;
    p' := if emptied && p + 1 < |producers| then p + 1 else p;
    exhausted := emptied && p + 1 == |producers|;
    assert packets' == Round(producers, requesters, invs, k');
  }

  /** The loop of `dispatch_resource!` after `producers` and
      `requesters` are collected and `producers` was found non-empty:
      every requester in turn gets one packet from the current producer,
      which is replaced by the next one when its inventory reaches 0;
      the round ends when requesters or producers run out. `invs` names
      the producers' inventories on entry. */
  method ServeRequesters(producers: seq<ResourceSupplier>, requesters: seq<ResourceConsumer>,
                         ghost invs: seq<nat>, ghost before: seq<nat>)
      returns (packets: seq<Packet>)
    requires |producers| > 0 && |invs| == |producers| && |before| == |requesters|
    requires Distinct(producers) && Distinct(requesters)
    requires forall i :: 0 <= i < |producers| ==> producers[i].inventory == invs[i] > 0
    requires forall j :: 0 <= j < |requesters| ==>
      requesters[j].inTransit == before[j] && requesters[j].current + before[j] < requesters[j].max
    modifies producers`inventory, requesters`inTransit
    ensures Dispatched(producers, requesters, invs, before, packets)
  {
    var p: nat := 0;
    var k: nat := 0;
    var exhausted := false;
    packets := [];
    assert Positive(invs);
    assert forall j :: 0 <= j < |requesters| ==> before[j] < U32_MAX;
    while k < |requesters| && !exhausted
      invariant Midway(producers, requesters, invs, before, k, p, exhausted, packets)
    {
      k, p, exhausted, packets := ServeOne(producers, requesters, invs, before, k, p, packets);
    }
    if !exhausted {
      PrefixMono(invs, p + 1, |invs|);
    }
  }

  /** The elements of `s` whose flag is set, in order. */
  function Select<T>(s: seq<T>, keep: seq<bool>): (r: seq<T>)
    requires |keep| == |s|
    ensures |r| <= |s|
  {
    if |s| == 0 then []
    else Select(s[..|s| - 1], keep[..|s| - 1]) + (if keep[|s| - 1] then [s[|s| - 1]] else [])
  }

  /** Exactly the flagged elements are selected. */
  lemma {:induction false} SelectMembers<T>(s: seq<T>, keep: seq<bool>, x: T)
    requires |keep| == |s|
    ensures x in Select(s, keep) <==> exists i :: 0 <= i < |s| && s[i] == x && keep[i]
  {
    if |s| > 0 {
      var n := |s| - 1;
      var pre, kp := s[..n], keep[..n];
      SelectMembers(pre, kp, x);
      var last := if keep[n] then [s[n]] else [];
      assert Select(s, keep) == Select(pre, kp) + last;
      if x in Select(s, keep) {
        if x in Select(pre, kp) {
          var i :| 0 <= i < n && pre[i] == x && kp[i];
          assert s[i] == x && keep[i];
        } else {
          assert s[n] == x && keep[n];
        }
      }
      if exists i :: 0 <= i < |s| && s[i] == x && keep[i] {
        var i :| 0 <= i < |s| && s[i] == x && keep[i];
        if i < n {
          assert pre[i] == x && kp[i];
          assert x in Select(pre, kp);
        } else {
          assert x in last;
        }
      }
    }
  }

  /** The indices of the set flags, in increasing order. */
  function Positions(keep: seq<bool>): (r: seq<nat>)
    ensures |r| <= |keep|
  {
    if |keep| == 0 then []
    else Positions(keep[..|keep| - 1]) + (if keep[|keep| - 1] then [|keep| - 1] else [])
  }

  /** The `i`-th selected element is the element at the `i`-th set
      flag. */
  lemma {:induction false} SelectAt<T>(s: seq<T>, keep: seq<bool>)
    requires |keep| == |s|
    ensures |Select(s, keep)| == |Positions(keep)|
    ensures forall i :: 0 <= i < |Positions(keep)| ==>
      Positions(keep)[i] < |s| && keep[Positions(keep)[i]] && Select(s, keep)[i] == s[Positions(keep)[i]]
  {
    if |s| > 0 {
      var n := |s| - 1;
      SelectAt(s[..n], keep[..n]);
      assert keep[..n] == keep[..|keep| - 1];
    }
  }

  lemma {:induction false} SelectDistinct<T>(s: seq<T>, keep: seq<bool>)
    requires |keep| == |s| && Distinct(s)
    ensures Distinct(Select(s, keep))
  {
    if |s| > 0 {
      var n := |s| - 1;
      var front := Select(s[..n], keep[..n]);
      SelectDistinct(s[..n], keep[..n]);
      if keep[n] {
        SelectMembers(s[..n], keep[..n], s[n]);
        assert s[n] !in front;
        var r := front + [s[n]];
        forall i, j | 0 <= i < j < |r|
          ensures r[i] != r[j]
        {
          if j == |front| {
            assert r[i] in front;
          }
        }
      }
    }
  }

  /** Selecting from distinct elements: the selection is distinct, every
      selected element comes from `s`, and an unflagged element is not
      selected. */
  lemma SelectFacts<T>(s: seq<T>, keep: seq<bool>)
    requires |keep| == |s| && Distinct(s)
    ensures Distinct(Select(s, keep))
    ensures forall k :: 0 <= k < |Select(s, keep)| ==> exists j :: 0 <= j < |s| && s[j] == Select(s, keep)[k]
    ensures forall j :: 0 <= j < |s| && !keep[j] ==> s[j] !in Select(s, keep)
  {
    SelectDistinct(s, keep);
    SelectAt(s, keep);
    forall k | 0 <= k < |Select(s, keep)|
      ensures exists j :: 0 <= j < |s| && s[j] == Select(s, keep)[k]
    {
      assert s[Positions(keep)[k]] == Select(s, keep)[k];
    }
    forall j | 0 <= j < |s| && !keep[j]
      ensures s[j] !in Select(s, keep)
    {
      SelectMembers(s, keep, s[j]);
    }
  }

  /** Which suppliers have stock: `inventory > 0`. */
  ghost function StockFlags(suppliers: seq<ResourceSupplier>): (r: seq<bool>)
    reads suppliers
    ensures |r| == |suppliers|
    ensures forall i :: 0 <= i < |suppliers| ==> (r[i] <==> suppliers[i].inventory > 0)
  {
    if |suppliers| == 0 then []
    else StockFlags(suppliers[..|suppliers| - 1]) + [suppliers[|suppliers| - 1].inventory > 0]
  }

  /** Which consumers want more: `resources_to_send() > 0`. */
  ghost function RequestFlags(consumers: seq<ResourceConsumer>): (r: seq<bool>)
    reads consumers
    ensures |r| == |consumers|
    ensures forall i :: 0 <= i < |consumers| ==>
      (r[i] <==> consumers[i].current + consumers[i].inTransit < consumers[i].max)
  {
    if |consumers| == 0 then []
    else
      var last := consumers[|consumers| - 1];
      RequestFlags(consumers[..|consumers| - 1]) + [last.current + last.inTransit < last.max]
  }

  ghost function Inventories(suppliers: seq<ResourceSupplier>): (r: seq<nat>)
    reads suppliers
    ensures |r| == |suppliers|
    ensures forall i :: 0 <= i < |suppliers| ==> r[i] == suppliers[i].inventory
  {
    if |suppliers| == 0 then []
    else Inventories(suppliers[..|suppliers| - 1]) + [suppliers[|suppliers| - 1].inventory as nat]
  }

  /** The first loop of `dispatch_resource!`: the suppliers with stock,
      in query order; `keep` names which those are. */
  method CollectProducers(suppliers: seq<ResourceSupplier>, ghost keep: seq<bool>)
      returns (producers: seq<ResourceSupplier>)
    requires keep == StockFlags(suppliers) && Distinct(suppliers)
    ensures producers == Select(suppliers, keep) && Distinct(producers)
    ensures forall k :: 0 <= k < |producers| ==> producers[k].inventory > 0
    ensures forall k :: 0 <= k < |producers| ==> exists j :: 0 <= j < |suppliers| && suppliers[j] == producers[k]
    ensures forall j :: 0 <= j < |suppliers| && suppliers[j].inventory == 0 ==> suppliers[j] !in producers
  {
    producers := [];
    var i := 0;
    while i < |suppliers|
      invariant 0 <= i <= |suppliers|
      invariant producers == Select(suppliers[..i], keep[..i])
      invariant forall k :: 0 <= k < |producers| ==> producers[k].inventory > 0
    {
      assert suppliers[..i + 1][..i] == suppliers[..i] && keep[..i + 1][..i] == keep[..i];
      if suppliers[i].inventory > 0 {
        producers := producers + [suppliers[i]];
      }
      i := i + 1;
    }
    assert suppliers[..i] == suppliers && keep[..i] == keep;
    SelectFacts(suppliers, keep);
  }

  /** The second loop of `dispatch_resource!`: the consumers that still
      need packets, in query order; `resources_to_send` asserts each
      consumer's balance on the way. `keep` names which those are. */
  method CollectRequesters(consumers: seq<ResourceConsumer>, ghost keep: seq<bool>)
      returns (requesters: seq<ResourceConsumer>)
    requires forall j :: 0 <= j < |consumers| ==> consumers[j].current + consumers[j].inTransit <= consumers[j].max
    requires keep == RequestFlags(consumers) && Distinct(consumers)
    ensures requesters == Select(consumers, keep) && Distinct(requesters)
    ensures forall k :: 0 <= k < |requesters| ==> requesters[k].current + requesters[k].inTransit < requesters[k].max
    ensures forall k :: 0 <= k < |requesters| ==> exists j :: 0 <= j < |consumers| && consumers[j] == requesters[k]
    ensures forall j :: 0 <= j < |consumers| && consumers[j].current + consumers[j].inTransit == consumers[j].max ==>
      consumers[j] !in requesters
  {
    requesters := [];
    var i := 0;
    while i < |consumers|
      invariant 0 <= i <= |consumers|
      invariant requesters == Select(consumers[..i], keep[..i])
      invariant forall k :: 0 <= k < |requesters| ==> requesters[k].current + requesters[k].inTransit < requesters[k].max
    {
      assert consumers[..i + 1][..i] == consumers[..i] && keep[..i + 1][..i] == keep[..i];
      var request := consumers[i].ResourcesToSend();
      if request > 0 {
        requesters := requesters + [consumers[i]];
      }
      i := i + 1;
    }
    assert consumers[..i] == consumers && keep[..i] == keep;
    SelectFacts(consumers, keep);
  }

  /** The two collecting loops of `dispatch_resource!`. */
  method Collect(suppliers: seq<ResourceSupplier>, consumers: seq<ResourceConsumer>,
                 ghost stocked: seq<bool>, ghost wanting: seq<bool>)
      returns (producers: seq<ResourceSupplier>, requesters: seq<ResourceConsumer>)
    requires Distinct(suppliers) && Distinct(consumers)
    requires forall j :: 0 <= j < |consumers| ==> consumers[j].current + consumers[j].inTransit <= consumers[j].max
    requires stocked == StockFlags(suppliers) && wanting == RequestFlags(consumers)
    ensures producers == Select(suppliers, stocked) && Distinct(producers)
    ensures forall k :: 0 <= k < |producers| ==> producers[k].inventory > 0
    ensures forall k :: 0 <= k < |producers| ==> exists j :: 0 <= j < |suppliers| && suppliers[j] == producers[k]
    ensures requesters == Select(consumers, wanting) && Distinct(requesters)
    ensures forall k :: 0 <= k < |requesters| ==> requesters[k].current + requesters[k].inTransit < requesters[k].max
    ensures forall k :: 0 <= k < |requesters| ==> exists j :: 0 <= j < |consumers| && consumers[j] == requesters[k]
    ensures forall j :: 0 <= j < |suppliers| && suppliers[j].inventory == 0 ==> suppliers[j] !in producers
    ensures forall j :: 0 <= j < |consumers| && consumers[j].current + consumers[j].inTransit == consumers[j].max ==>
      consumers[j] !in requesters
  {
    producers := CollectProducers(suppliers, stocked);
    requesters := CollectRequesters(consumers, wanting);
  }

  /** `dispatch_resource!`: one dispatch round over all suppliers and
      consumers. Stocked suppliers serve the requesting consumers in
      query order, one packet per requester, until either runs out; with
      no stocked supplier nothing happens. */
  method DispatchResource(suppliers: seq<ResourceSupplier>, consumers: seq<ResourceConsumer>)
      returns (packets: seq<Packet>)
    requires Distinct(suppliers) && Distinct(consumers)
    requires forall j :: 0 <= j < |consumers| ==> consumers[j].current + consumers[j].inTransit <= consumers[j].max
    modifies suppliers`inventory, consumers`inTransit
    ensures Dispatched(old(Select(suppliers, StockFlags(suppliers))),
                       old(Select(consumers, RequestFlags(consumers))),
                       old(Inventories(Select(suppliers, StockFlags(suppliers)))),
                       old(InTransit(Select(consumers, RequestFlags(consumers)))), packets)
    ensures forall j :: 0 <= j < |suppliers| && old(suppliers[j].inventory) == 0 ==>
      suppliers[j].inventory == 0
    ensures forall j :: 0 <= j < |consumers| && old(consumers[j].current + consumers[j].inTransit) == old(consumers[j].max) ==>
      consumers[j].inTransit == old(consumers[j].inTransit)
  {
    ghost var stocked := StockFlags(suppliers);
    ghost var wanting := RequestFlags(consumers);
    ghost var invs := Inventories(Select(suppliers, stocked));
    ghost var before := InTransit(Select(consumers, wanting));
    var producers, requesters := Collect(suppliers, consumers, stocked, wanting);
    packets := Serve(suppliers, consumers, producers, requesters, invs, before);
  }

  method Serve(ghost suppliers: seq<ResourceSupplier>, ghost consumers: seq<ResourceConsumer>,
               producers: seq<ResourceSupplier>, requesters: seq<ResourceConsumer>,
               ghost invs: seq<nat>, ghost before: seq<nat>)
      returns (packets: seq<Packet>)
    requires |invs| == |producers| && |before| == |requesters|
    requires Distinct(producers) && Distinct(requesters)
    requires forall i :: 0 <= i < |producers| ==> producers[i].inventory == invs[i] > 0
    requires forall j :: 0 <= j < |requesters| ==>
      requesters[j].inTransit == before[j] && requesters[j].current + before[j] < requesters[j].max
    requires forall j :: 0 <= j < |suppliers| && suppliers[j].inventory == 0 ==> suppliers[j] !in producers
    requires forall j :: 0 <= j < |consumers| && consumers[j].current + consumers[j].inTransit == consumers[j].max ==>
      consumers[j] !in requesters
    modifies producers`inventory, requesters`inTransit
    ensures Dispatched(producers, requesters, invs, before, packets)
    ensures forall j :: 0 <= j < |suppliers| && old(suppliers[j].inventory) == 0 ==>
      suppliers[j].inventory == 0
    ensures forall j :: 0 <= j < |consumers| && old(consumers[j].current + consumers[j].inTransit) == old(consumers[j].max) ==>
      consumers[j].inTransit == old(consumers[j].inTransit)
  {
    if |producers| == 0 {
      return [];
    }
    packets := ServeRequesters(producers, requesters, invs, before);
    forall j | 0 <= j < |suppliers| && old(suppliers[j].inventory) == 0
      ensures suppliers[j].inventory == 0
    {
      var supplier := suppliers[j];
      assert supplier !in producers;
      assert supplier.inventory == old(supplier.inventory);
    }
    forall j | 0 <= j < |consumers| && old(consumers[j].current + consumers[j].inTransit) == old(consumers[j].max)
      ensures consumers[j].inTransit == old(consumers[j].inTransit)
    {
      var consumer := consumers[j];
      assert consumer !in requesters;
      assert consumer.inTransit == old(consumer.inTransit);
    }
  }
}
