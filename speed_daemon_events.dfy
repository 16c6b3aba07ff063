/** Outgoing events of the speed daemon and their big-endian wire encoding
    (`OutgoingEvt::send`, rust/protohackers/src/speed_daemon/events.rs). */
module SpeedDaemonEvents {
  import opened Common
  import opened SpeedDaemonTypes

  /** Events a session forwards to the dispatch actor after decoding a frame
      (the channel-only `NewClient` and `PrintTickets` events are not modelled). */
  datatype ClientEvt =
    | WantHeartbeat(interval: u32)
    | Register(data: ClientData)
    | Plate(plate: seq<byte>, timestamp: Timestamp)

  datatype OutgoingEvt =
    | Heartbeat
    | Error(msg: seq<byte>)
    | TicketEvt(ticket: Ticket)

  const OP_ERROR: byte := 0x10
  const OP_TICKET: byte := 0x21
  const OP_HEARTBEAT: byte := 0x41

  function BeU16(x: u16): seq<byte> {
    [x / 0x100, x % 0x100]
  }

  function BeU32(x: u32): seq<byte> {
    [x / 0x100_0000, (x / 0x1_0000) % 0x100, (x / 0x100) % 0x100, x % 0x100]
  }

  /** `len as u8`: the length is truncated to its low byte. */
  function LengthByte(n: nat): byte {
    n % 0x100
  }

  /** The bytes `send` writes for an event. */
  function Encode(e: OutgoingEvt): seq<byte> {
    match e
    case Heartbeat => [OP_HEARTBEAT]
    case Error(msg) => [OP_ERROR, LengthByte(|msg|)] + msg
    case TicketEvt(t) => TicketFrame(t)
  }

  function TicketFrame(t: Ticket): seq<byte> {
    [OP_TICKET, LengthByte(|t.plate|)] + t.plate + TicketFields(t)
  }

  /** The fixed-width part of a Ticket frame, after the plate. */
  function TicketFields(t: Ticket): seq<byte> {
    BeU16(t.road) + BeU16(t.mile1) + BeU32(t.timestamp1)
    + BeU16(t.mile2) + BeU32(t.timestamp2) + BeU16(t.speed)
  }

  /** The write half of a client socket, as the bytes written so far. */
  class WriteStream {
    var written: seq<byte>

    constructor ()
      ensures written == []
    {
      written := [];
    }

    method WriteU8(b: byte)
      modifies this
      ensures written == old(written) + [b]
    {
      written := written + [b];
    }

    method WriteU16(x: u16)
      modifies this
      ensures written == old(written) + BeU16(x)
    {
      written := written + BeU16(x);
    }

    method WriteU32(x: u32)
      modifies this
      ensures written == old(written) + BeU32(x)
    {
      written := written + BeU32(x);
    }

    method WriteAll(bytes: seq<byte>)
      modifies this
      ensures written == old(written) + bytes
    {
      written := written + bytes;
    }
  }

  /** `OutgoingEvt::send`: the sequence of writes for one event; flushing is not modelled. */
  method Send(e: OutgoingEvt, stream: WriteStream)
    modifies stream
    ensures stream.written == old(stream.written) + Encode(e)
  {
    match e {
      case Heartbeat =>
        stream.WriteU8(OP_HEARTBEAT);
      case Error(msg) =>
        stream.WriteU8(OP_ERROR);
        stream.WriteU8(LengthByte(|msg|));
        stream.WriteAll(msg);
      case TicketEvt(t) =>
        SendTicket(t, stream);
    }
  }

  method SendTicket(t: Ticket, stream: WriteStream)
    modifies stream
    ensures stream.written == old(stream.written) + TicketFrame(t)
  {
    ghost var start := stream.written;
    stream.WriteU8(OP_TICKET);
    stream.WriteU8(LengthByte(|t.plate|));
    assert stream.written == start + [OP_TICKET, LengthByte(|t.plate|)];
    stream.WriteAll(t.plate);
    ghost var head := stream.written;
    assert head == start + ([OP_TICKET, LengthByte(|t.plate|)] + t.plate);
    WriteTicketFields(t, stream);
    assert stream.written == head + TicketFields(t);
    assert head + TicketFields(t) == start + TicketFrame(t);
  }

  /** The six numeric writes of a Ticket frame. */
  method WriteTicketFields(t: Ticket, stream: WriteStream)
    modifies stream
    ensures stream.written == old(stream.written) + TicketFields(t)
  {
    stream.WriteU16(t.road);
    stream.WriteU16(t.mile1);
    stream.WriteU32(t.timestamp1);
    stream.WriteU16(t.mile2);
    stream.WriteU32(t.timestamp2);
    stream.WriteU16(t.speed);
  }

  // ---------------------------------------------------------------------
  // The reading side of these frames (what a dispatcher client parses).
  // It is not part of the server; it is the reference the encoder is
  // checked against.

  function U16At(s: seq<byte>, i: nat): u16
    requires i + 2 <= |s|
  {
    s[i] as int * 0x100 + s[i + 1]
  }

  function U32At(s: seq<byte>, i: nat): u32
    requires i + 4 <= |s|
  {
    s[i] as int * 0x100_0000 + s[i + 1] as int * 0x1_0000 + s[i + 2] as int * 0x100 + s[i + 3]
  }

  /** Parses one outgoing frame at the front of `s`, giving the event and
      the number of bytes it occupies. The wire carries no day numbers, so
      the decoded ticket's days are recomputed from its timestamps. */
  function DecodeOutgoing(s: seq<byte>): (r: Option<(OutgoingEvt, nat)>)
    ensures r.Some? ==> 0 < r.value.1 <= |s|
  {
    if |s| == 0 then None
    else if s[0] == OP_HEARTBEAT then Some((Heartbeat, 1))
    else if s[0] == OP_ERROR then
      if |s| < 2 || |s| < 2 + s[1] as int then None
      else Some((Error(s[2..2 + s[1] as int]), 2 + s[1] as int))
    else if s[0] == OP_TICKET then
      if |s| < 2 || |s| < 18 + s[1] as int then None
      else
        var n: nat := s[1];
        var ts1 := U32At(s, 6 + n);
        var ts2 := U32At(s, 12 + n);
        Some((TicketEvt(Ticket(s[2..2 + n], U16At(s, 2 + n), U16At(s, 4 + n), ts1,
                               U16At(s, 10 + n), ts2, U16At(s, 16 + n), Day(ts1), Day(ts2))),
              18 + n))
    else None
  }

  /** An event the encoder can represent: every length fits in one byte,
      and a ticket's day numbers are those of its timestamps. */
  predicate Encodable(e: OutgoingEvt) {
    match e
    case Heartbeat => true
    case Error(msg) => |msg| <= 0xFF
    case TicketEvt(t) =>
      |t.plate| <= 0xFF && t.day1 == Day(t.timestamp1) && t.day2 == Day(t.timestamp2)
  }

  lemma BeU16RoundTrip(x: u16, s: seq<byte>, i: nat)
    requires i + 2 <= |s| && s[i..i + 2] == BeU16(x)
    ensures U16At(s, i) == x
  {
    assert s[i] == x / 0x100 && s[i + 1] == x % 0x100 by {
      assert s[i] == s[i..i + 2][0] && s[i + 1] == s[i..i + 2][1];
    }
  }

  lemma BeU32RoundTrip(x: u32, s: seq<byte>, i: nat)
    requires i + 4 <= |s| && s[i..i + 4] == BeU32(x)
    ensures U32At(s, i) == x
  {
    assert s[i] == s[i..i + 4][0] && s[i + 1] == s[i..i + 4][1];
    assert s[i + 2] == s[i..i + 4][2] && s[i + 3] == s[i..i + 4][3];
    var a, b, c, d := x / 0x100_0000, (x / 0x1_0000) % 0x100, (x / 0x100) % 0x100, x % 0x100;
    assert x / 0x1_0000 == a * 0x100 + b;
    assert x / 0x100 == (x / 0x1_0000) * 0x100 + c;
    assert x == (x / 0x100) * 0x100 + d;
  }

  /** Heartbeat is the single byte 0x41. */
  lemma EncodeHeartbeat()
    ensures Encode(Heartbeat) == [0x41]
  {
  }

  /** An Error frame is 0x10, the message length's low byte, then the message. */
  lemma EncodeErrorLayout(msg: seq<byte>)
    ensures var b := Encode(Error(msg));
      |b| == 2 + |msg| && b[0] == 0x10 && b[1] == |msg| % 0x100 && b[2..] == msg
  {
    var b := Encode(Error(msg));
    assert b[2..] == msg;
  }

  /** A Ticket frame is 0x21, the plate length, the plate, then the numeric
      fields big-endian at fixed offsets after the plate; 18 + len bytes. */
  lemma EncodeTicketLayout(t: Ticket)
    requires |t.plate| <= 0xFF
    ensures var b, n := Encode(TicketEvt(t)), |t.plate|;
      && |b| == 18 + n && b[0] == 0x21 && b[1] == n && b[2..2 + n] == t.plate
      && U16At(b, 2 + n) == t.road && U16At(b, 4 + n) == t.mile1
      && U32At(b, 6 + n) == t.timestamp1 && U16At(b, 10 + n) == t.mile2
      && U32At(b, 12 + n) == t.timestamp2 && U16At(b, 16 + n) == t.speed
  {
    var b, n := Encode(TicketEvt(t)), |t.plate|;
    assert b[2..2 + n] == t.plate;
    assert b[2 + n..4 + n] == BeU16(t.road);
    assert b[4 + n..6 + n] == BeU16(t.mile1);
    assert b[6 + n..10 + n] == BeU32(t.timestamp1);
    assert b[10 + n..12 + n] == BeU16(t.mile2);
    assert b[12 + n..16 + n] == BeU32(t.timestamp2);
    assert b[16 + n..18 + n] == BeU16(t.speed);
    BeU16RoundTrip(t.road, b, 2 + n);
    BeU16RoundTrip(t.mile1, b, 4 + n);
    BeU32RoundTrip(t.timestamp1, b, 6 + n);
    BeU16RoundTrip(t.mile2, b, 10 + n);
    BeU32RoundTrip(t.timestamp2, b, 12 + n);
    BeU16RoundTrip(t.speed, b, 16 + n);
  }

  /** Decoding what `send` wrote gives back the same event, whatever follows it. */
  lemma RoundTrip(e: OutgoingEvt, rest: seq<byte>)
    requires Encodable(e)
    ensures DecodeOutgoing(Encode(e) + rest) == Some((e, |Encode(e)|))
  {
    match e {
      case Heartbeat =>
      case Error(msg) =>
        EncodeErrorLayout(msg);
        assert (Encode(e) + rest)[2..2 + |msg|] == msg;
      case TicketEvt(t) =>
        TicketRoundTrip(t, rest);
    }
  }

  lemma TicketRoundTrip(t: Ticket, rest: seq<byte>)
    requires Encodable(TicketEvt(t))
    ensures DecodeOutgoing(Encode(TicketEvt(t)) + rest) == Some((TicketEvt(t), |Encode(TicketEvt(t))|))
  {
    EncodeTicketLayout(t);
    var n := |t.plate|;
    var enc := Encode(TicketEvt(t));
    var b := enc + rest;
    assert b[..18 + n] == enc;
    assert b[0] == enc[0] && b[1] == enc[1];
    assert b[2..2 + n] == enc[2..2 + n];
    PrefixFields(enc, b, n);
    DecodeTicketFrame(t, b);
  }

  /** A buffer holding a ticket's fields at their offsets decodes to it. */
  lemma DecodeTicketFrame(t: Ticket, b: seq<byte>)
    requires Encodable(TicketEvt(t))
    requires var n := |t.plate|;
      && |b| >= 18 + n && b[0] == OP_TICKET && b[1] as int == n && b[2..2 + n] == t.plate
      && U16At(b, 2 + n) == t.road && U16At(b, 4 + n) == t.mile1
      && U32At(b, 6 + n) == t.timestamp1 && U16At(b, 10 + n) == t.mile2
      && U32At(b, 12 + n) == t.timestamp2 && U16At(b, 16 + n) == t.speed
    ensures DecodeOutgoing(b) == Some((TicketEvt(t), 18 + |t.plate|))
  {
  }

  /** The fixed-offset fields of a ticket frame read the same once more
      bytes follow it. */
  lemma PrefixFields(enc: seq<byte>, b: seq<byte>, n: nat)
    requires |enc| == 18 + n <= |b| && b[..18 + n] == enc
    ensures U16At(b, 2 + n) == U16At(enc, 2 + n) && U16At(b, 4 + n) == U16At(enc, 4 + n)
    ensures U32At(b, 6 + n) == U32At(enc, 6 + n) && U16At(b, 10 + n) == U16At(enc, 10 + n)
    ensures U32At(b, 12 + n) == U32At(enc, 12 + n) && U16At(b, 16 + n) == U16At(enc, 16 + n)
  {
    assert forall k :: 0 <= k < 18 + n ==> b[k] == enc[k];
  }

  /** `len as u8` loses the length of a 256-byte message: the frame then
      reads back as an empty Error followed by stray bytes. */
  lemma LongMessageNotFaithful(msg: seq<byte>)
    requires |msg| == 0x100
    ensures DecodeOutgoing(Encode(Error(msg))) == Some((Error([]), 2))
  {
    var b := Encode(Error(msg));
    assert b[0] == OP_ERROR && b[1] == 0 && |b| == 0x102;
    assert b[2..2] == [];
  }
}
