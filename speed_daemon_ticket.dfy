/** The record types the speed-daemon components exchange: a ticket and the
    role data a client registers with. */
module SpeedDaemonTypes {
  import opened Common

  type Road = u16
  type Mile = u16
  type Timestamp = u32
  type ClientId = u32

  /** Seconds per calendar day; a day number is `timestamp / SECONDS_PER_DAY`. */
  const SECONDS_PER_DAY: nat := 86400

  /** A plate is a UTF-8 string, kept as its bytes (its `len()` is the byte count). */
  datatype Ticket = Ticket(
    plate: seq<byte>,
    road: Road,
    mile1: Mile,
    timestamp1: Timestamp,
    mile2: Mile,
    timestamp2: Timestamp,
    speed: u16,
    day1: u32,
    day2: u32)

  datatype ClientData =
    | Camera(road: Road, mile: Mile, limit: u16)
    | Dispatcher(roads: seq<Road>)

  function Day(ts: Timestamp): (d: u32)
    ensures d * SECONDS_PER_DAY <= ts < (d + 1) * SECONDS_PER_DAY
  {
    ts / SECONDS_PER_DAY
  }

  /** True when `roads` lists `road` (the source's `roads.iter().any(|r| *r == road)`). */
  predicate Covers(roads: seq<Road>, road: Road) {
    road in roads
  }
}
