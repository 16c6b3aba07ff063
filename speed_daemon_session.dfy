/** Decoding of the frames a client sends (`parse_event`,
    rust/protohackers/src/speed_daemon/client_session.rs). The opcode byte
    has already been read by the session loop; the payload follows. */
module SpeedDaemonSession {
  import opened Common
  import opened SpeedDaemonTypes
  import opened SpeedDaemonEvents

  datatype ReadError =
    | UnexpectedEof
    | InvalidUtf8
      /** The source panics on an unknown opcode; the model reports it. */
    | UnsupportedType(code: byte)

  const OP_PLATE: byte := 0x20
  const OP_WANT_HEARTBEAT: byte := 0x40
  const OP_I_AM_CAMERA: byte := 0x80
  const OP_I_AM_DISPATCHER: byte := 0x81

  predicate Continuation(b: byte) {
    0x80 <= b <= 0xBF
  }

  /** Well-formed UTF-8 as `String::from_utf8` accepts it: no overlong forms,
      no surrogates, nothing above U+10FFFF. */
  predicate ValidUtf8(s: seq<byte>)
    decreases |s|
  {
    if s == [] then true
    else
      var b := s[0];
      if b < 0x80 then ValidUtf8(s[1..])
      else if 0xC2 <= b <= 0xDF then
        |s| >= 2 && Continuation(s[1]) && ValidUtf8(s[2..])
      else if 0xE0 <= b <= 0xEF then
        && |s| >= 3
        && (if b == 0xE0 then 0xA0 <= s[1] <= 0xBF
            else if b == 0xED then 0x80 <= s[1] <= 0x9F
            else Continuation(s[1]))
        && Continuation(s[2]) && ValidUtf8(s[3..])
      else if 0xF0 <= b <= 0xF4 then
        && |s| >= 4
        && (if b == 0xF0 then 0x90 <= s[1] <= 0xBF
            else if b == 0xF4 then 0x80 <= s[1] <= 0x8F
            else Continuation(s[1]))
        && Continuation(s[2]) && Continuation(s[3]) && ValidUtf8(s[4..])
      else false
  }

  lemma {:induction false} AsciiIsValidUtf8(s: seq<byte>)
    requires forall i :: 0 <= i < |s| ==> s[i] < 0x80
    ensures ValidUtf8(s)
    decreases |s|
  {
    if s != [] {
      AsciiIsValidUtf8(s[1..]);
    }
  }

  /** The `count` big-endian roads starting at byte `start`. */
  function Roads(s: seq<byte>, start: nat, count: nat): (roads: seq<Road>)
    requires start + 2 * count <= |s|
    ensures |roads| == count
    ensures forall i :: 0 <= i < count ==> roads[i] == U16At(s, start + 2 * i)
  {
    seq(count, i requires 0 <= i < count => U16At(s, start + 2 * i))
  }

  /** What `parse_event` yields for opcode `evtType` when the rest of the
      stream is `s`: the event and the number of payload bytes it consumed. */
  function DecodeEvent(evtType: byte, s: seq<byte>): Result<(ClientEvt, nat), ReadError> {
    if evtType == OP_PLATE then
      if |s| < 1 || |s| < 1 + s[0] as int then Err(UnexpectedEof)
      else
        var n: nat := s[0];
        var plate := s[1..1 + n];
        // from_utf8 is checked before the timestamp is read
        if !ValidUtf8(plate) then Err(InvalidUtf8)
        else if |s| < 5 + n then Err(UnexpectedEof)
        else Ok((Plate(plate, U32At(s, 1 + n)), 5 + n))
    else if evtType == OP_WANT_HEARTBEAT then
      if |s| < 4 then Err(UnexpectedEof)
      else Ok((WantHeartbeat(U32At(s, 0)), 4))
    else if evtType == OP_I_AM_CAMERA then
      if |s| < 6 then Err(UnexpectedEof)
      else Ok((Register(Camera(U16At(s, 0), U16At(s, 2), U16At(s, 4))), 6))
    else if evtType == OP_I_AM_DISPATCHER then
      if |s| < 1 || |s| < 1 + 2 * s[0] as int then Err(UnexpectedEof)
      else
        var n: nat := s[0];
        Ok((Register(Dispatcher(Roads(s, 1, n))), 1 + 2 * n))
    else Err(UnsupportedType(evtType))
  }

  /** The read half of a client socket: the bytes that will arrive and how
      many of them have been consumed. */
  class Reader {
    const input: seq<byte>
    var pos: nat

    ghost predicate Valid()
      reads this
    {
      pos <= |input|
    }

    function Remaining(): seq<byte>
      reads this
      requires Valid()
    {
      input[pos..]
    }

    constructor (bytes: seq<byte>)
      ensures Valid() && input == bytes && pos == 0
    {
      input := bytes;
      pos := 0;
    }

    /** Reads `n` bytes; at end of stream whatever was there is consumed and
        the read fails. */
    method ReadExact(n: nat) returns (r: Result<seq<byte>, ReadError>)
      requires Valid()
      modifies this
      ensures Valid()
      ensures if n <= |old(Remaining())|
              then r == Ok(old(Remaining())[..n]) && pos == old(pos) + n
              else r == Err(UnexpectedEof) && pos == |input|
    {
      if pos + n <= |input| {
        assert input[pos..pos + n] == input[pos..][..n];
        r := Ok(input[pos..pos + n]);
        pos := pos + n;
      } else {
        r := Err(UnexpectedEof);
        pos := |input|;
      }
    }

    method ReadU8() returns (r: Result<byte, ReadError>)
      requires Valid()
      modifies this
      ensures Valid()
      ensures if 1 <= |old(Remaining())|
              then r == Ok(old(Remaining())[0]) && pos == old(pos) + 1
              else r == Err(UnexpectedEof) && pos == |input|
    {
      var b := ReadExact(1);
      r := if b.Ok? then Ok(b.value[0]) else Err(b.error);
    }

    method ReadU16() returns (r: Result<u16, ReadError>)
      requires Valid()
      modifies this
      ensures Valid()
      ensures if 2 <= |old(Remaining())|
              then r == Ok(U16At(old(Remaining()), 0)) && pos == old(pos) + 2
              else r == Err(UnexpectedEof) && pos == |input|
    {
      var b := ReadExact(2);
      r := if b.Ok? then Ok(U16At(b.value, 0)) else Err(b.error);
    }

    method ReadU32() returns (r: Result<u32, ReadError>)
      requires Valid()
      modifies this
      ensures Valid()
      ensures if 4 <= |old(Remaining())|
              then r == Ok(U32At(old(Remaining()), 0)) && pos == old(pos) + 4
              else r == Err(UnexpectedEof) && pos == |input|
    {
      var b := ReadExact(4);
      r := if b.Ok? then Ok(U32At(b.value, 0)) else Err(b.error);
    }
  }

  /** `parse_event`: reads one payload and builds the event. On success the
      reader has advanced past exactly that payload. */
  method ParseEvent(evtType: byte, r: Reader) returns (res: Result<ClientEvt, ReadError>)
    requires r.Valid()
    modifies r
    ensures r.Valid()
    ensures match DecodeEvent(evtType, old(r.Remaining()))
            case Ok((e, n)) => res == Ok(e) && r.pos == old(r.pos) + n
            case Err(err) => res == Err(err)
  {
    if evtType == OP_PLATE {
      res := ParsePlate(r);
    } else if evtType == OP_WANT_HEARTBEAT {
      var interval := r.ReadU32();
      if interval.Err? { return Err(interval.error); }
      res := Ok(WantHeartbeat(interval.value));
    } else if evtType == OP_I_AM_CAMERA {
      res := ParseCamera(r);
    } else if evtType == OP_I_AM_DISPATCHER {
      res := ParseDispatcher(r);
    } else {
      res := Err(UnsupportedType(evtType));
    }
  }

  /** The `Plate` arm: a length byte, the plate, then the timestamp. */
  method ParsePlate(r: Reader) returns (res: Result<ClientEvt, ReadError>)
    requires r.Valid()
    modifies r
    ensures r.Valid()
    ensures match DecodeEvent(OP_PLATE, old(r.Remaining()))
            case Ok((e, n)) => res == Ok(e) && r.pos == old(r.pos) + n
            case Err(err) => res == Err(err)
  {
    ghost var s := r.Remaining();
    var len := r.ReadU8();
    if len.Err? { return Err(len.error); }
    var buf := r.ReadExact(len.value);
    if buf.Err? { return Err(buf.error); }
    assert buf.value == s[1..1 + len.value];
    if !ValidUtf8(buf.value) { return Err(InvalidUtf8); }
    ghost var tail := r.Remaining();
    var ts := r.ReadU32();
    if ts.Err? { return Err(ts.error); }
    assert tail[..4] == s[1 + len.value..5 + len.value];
    res := Ok(Plate(buf.value, ts.value));
  }

  /** The `IAmCamera` arm: road, mile and limit. */
  method ParseCamera(r: Reader) returns (res: Result<ClientEvt, ReadError>)
    requires r.Valid()
    modifies r
    ensures r.Valid()
    ensures match DecodeEvent(OP_I_AM_CAMERA, old(r.Remaining()))
            case Ok((e, n)) => res == Ok(e) && r.pos == old(r.pos) + n
            case Err(err) => res == Err(err)
  {
    var road := r.ReadU16();
    if road.Err? { return Err(road.error); }
    var mile := r.ReadU16();
    if mile.Err? { return Err(mile.error); }
    var limit := r.ReadU16();
    if limit.Err? { return Err(limit.error); }
    res := Ok(Register(Camera(road.value, mile.value, limit.value)));
  }

  /** The `IAmDispatcher` arm: a count byte, then that many roads. */
  method ParseDispatcher(r: Reader) returns (res: Result<ClientEvt, ReadError>)
    requires r.Valid()
    modifies r
    ensures r.Valid()
    ensures match DecodeEvent(OP_I_AM_DISPATCHER, old(r.Remaining()))
            case Ok((e, n)) => res == Ok(e) && r.pos == old(r.pos) + n
            case Err(err) => res == Err(err)
  {
    ghost var s := r.Remaining();
    var numRoads := r.ReadU8();
    if numRoads.Err? { return Err(numRoads.error); }
    var n: nat := numRoads.value;
    var roads: seq<Road> := [];
    var k := 0;
    while k < n
      invariant r.Valid()
      invariant 0 <= k <= n
      invariant r.pos == old(r.pos) + 1 + 2 * k
      invariant 1 + 2 * k <= |s|
      invariant |roads| == k
      invariant forall i :: 0 <= i < k ==> roads[i] == U16At(s, 1 + 2 * i)
    {
      ghost var tail := r.Remaining();
      var road := r.ReadU16();
      if road.Err? {
        assert |s| < 1 + 2 * n;
        return Err(road.error);
      }
      assert tail[..2] == s[1 + 2 * k..3 + 2 * k];
      roads := roads + [road.value];
      k := k + 1;
    }
    assert roads == Roads(s, 1, n);
    res := Ok(Register(Dispatcher(roads)));
  }

  // ---------------------------------------------------------------------
  // The writing side of these frames (what a camera or dispatcher sends),
  // used as the reference the decoder is checked against.

  function EncodeRoads(roads: seq<Road>): (b: seq<byte>)
    ensures |b| == 2 * |roads|
  {
    if roads == [] then [] else BeU16(roads[0]) + EncodeRoads(roads[1..])
  }

  function ClientOpcode(e: ClientEvt): byte {
    match e
    case Plate(_, _) => OP_PLATE
    case WantHeartbeat(_) => OP_WANT_HEARTBEAT
    case Register(Camera(_, _, _)) => OP_I_AM_CAMERA
    case Register(Dispatcher(_)) => OP_I_AM_DISPATCHER
  }

  /** The payload bytes of a client frame, after its opcode. */
  function ClientPayload(e: ClientEvt): seq<byte>
    requires ClientEncodable(e)
  {
    match e
    case Plate(plate, ts) => [|plate|] + plate + BeU32(ts)
    case WantHeartbeat(interval) => BeU32(interval)
    case Register(Camera(road, mile, limit)) => BeU16(road) + BeU16(mile) + BeU16(limit)
    case Register(Dispatcher(roads)) => [|roads|] + EncodeRoads(roads)
  }

  /** A client event a frame can carry: a UTF-8 plate and one-byte counts. */
  predicate ClientEncodable(e: ClientEvt) {
    match e
    case Plate(plate, _) => |plate| <= 0xFF && ValidUtf8(plate)
    case WantHeartbeat(_) => true
    case Register(Camera(_, _, _)) => true
    case Register(Dispatcher(roads)) => |roads| <= 0xFF
  }

  lemma {:induction false} EncodeRoadsAt(roads: seq<Road>, i: nat)
    requires i < |roads|
    ensures EncodeRoads(roads)[2 * i..2 * i + 2] == BeU16(roads[i])
  {
    var b := EncodeRoads(roads);
    assert b == BeU16(roads[0]) + EncodeRoads(roads[1..]);
    if i == 0 {
      assert b[0..2] == BeU16(roads[0]);
    } else {
      EncodeRoadsAt(roads[1..], i - 1);
      assert b[2 * i..2 * i + 2] == EncodeRoads(roads[1..])[2 * (i - 1)..2 * (i - 1) + 2];
    }
  }

  /** Decoding the frame a client wrote gives back its event, whatever follows. */
  lemma DecodeRoundTrip(e: ClientEvt, rest: seq<byte>)
    requires ClientEncodable(e)
    ensures DecodeEvent(ClientOpcode(e), ClientPayload(e) + rest) == Ok((e, |ClientPayload(e)|))
  {
    match e {
      case Plate(plate, ts) => PlateRoundTrip(plate, ts, rest);
      case WantHeartbeat(interval) =>
        var s := ClientPayload(e) + rest;
        assert s[0..4] == BeU32(interval);
        BeU32RoundTrip(interval, s, 0);
      case Register(Camera(road, mile, limit)) => CameraRoundTrip(road, mile, limit, rest);
      case Register(Dispatcher(roads)) => DispatcherRoundTrip(roads, rest);
    }
  }

  lemma PlateRoundTrip(plate: seq<byte>, ts: Timestamp, rest: seq<byte>)
    requires |plate| <= 0xFF && ValidUtf8(plate)
    ensures var p := ClientPayload(Plate(plate, ts));
      DecodeEvent(OP_PLATE, p + rest) == Ok((Plate(plate, ts), |p|))
  {
    var s := ClientPayload(Plate(plate, ts)) + rest;
    var n := |plate|;
    assert s[0] == n;
    assert s[1..1 + n] == plate;
    assert s[1 + n..5 + n] == BeU32(ts);
    BeU32RoundTrip(ts, s, 1 + n);
  }

  lemma CameraRoundTrip(road: Road, mile: Mile, limit: u16, rest: seq<byte>)
    ensures var e := Register(Camera(road, mile, limit));
      DecodeEvent(OP_I_AM_CAMERA, ClientPayload(e) + rest) == Ok((e, 6))
  {
    var s := ClientPayload(Register(Camera(road, mile, limit))) + rest;
    assert s[0..2] == BeU16(road);
    assert s[2..4] == BeU16(mile);
    assert s[4..6] == BeU16(limit);
    BeU16RoundTrip(road, s, 0);
    BeU16RoundTrip(mile, s, 2);
    BeU16RoundTrip(limit, s, 4);
  }

  lemma DispatcherRoundTrip(roads: seq<Road>, rest: seq<byte>)
    requires |roads| <= 0xFF
    ensures var e := Register(Dispatcher(roads));
      DecodeEvent(OP_I_AM_DISPATCHER, ClientPayload(e) + rest) == Ok((e, 1 + 2 * |roads|))
  {
    var s := ClientPayload(Register(Dispatcher(roads))) + rest;
    var n := |roads|;
    assert s[0] == n;
    forall i | 0 <= i < n
      ensures Roads(s, 1, n)[i] == roads[i]
    {
      EncodeRoadsAt(roads, i);
      assert s[1 + 2 * i..1 + 2 * i + 2] == EncodeRoads(roads)[2 * i..2 * i + 2];
      BeU16RoundTrip(roads[i], s, 1 + 2 * i);
    }
    assert Roads(s, 1, n) == roads;
  }

  /** A decoded event is determined by the bytes it consumed, and any shorter
      input is an error, never an event. */
  lemma DecodeNeedsWholeFrame(evtType: byte, s: seq<byte>, k: nat)
    requires DecodeEvent(evtType, s).Ok?
    ensures DecodeEvent(evtType, s).value.1 <= |s|
    ensures DecodeEvent(evtType, s[..DecodeEvent(evtType, s).value.1]) == DecodeEvent(evtType, s)
    ensures k < DecodeEvent(evtType, s).value.1 ==> DecodeEvent(evtType, s[..k]).Err?
  {
    var n := DecodeEvent(evtType, s).value.1;
    var t := s[..n];
    if evtType == OP_PLATE {
      assert t[1..1 + s[0]] == s[1..1 + s[0]];
      if k < n && k >= 1 + s[0] as int {
        assert s[..k][1..1 + s[0]] == s[1..1 + s[0]];
      }
    } else if evtType == OP_I_AM_DISPATCHER {
      assert Roads(t, 1, s[0]) == Roads(s, 1, s[0]);
    }
  }

  /** A plate that is not UTF-8 is the one decode error that is not about length. */
  lemma DecodeRejectsNonUtf8(s: seq<byte>)
    requires |s| >= 1 && |s| >= 1 + s[0] as int && !ValidUtf8(s[1..1 + s[0]])
    ensures DecodeEvent(OP_PLATE, s) == Err(InvalidUtf8)
  {
  }

  /** Opcodes other than 0x20, 0x40, 0x80 and 0x81 are rejected whatever follows. */
  lemma DecodeRejectsUnknownOpcode(evtType: byte, s: seq<byte>)
    requires evtType !in {OP_PLATE, OP_WANT_HEARTBEAT, OP_I_AM_CAMERA, OP_I_AM_DISPATCHER}
    ensures DecodeEvent(evtType, s) == Err(UnsupportedType(evtType))
  {
  }
}
