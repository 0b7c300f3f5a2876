/**
 * The client exchange of `ping` in main.go, with the socket replaced by its
 * two byte streams: what the client sends, and what it receives before the
 * server closes the connection.
 */
module Ping {
  import opened Wire
  import opened VarintCodec
  import Packet

  /**
   * Reading one packet from the received stream: a varint length L
   * (binary.ReadUvarint), then exactly L bytes (io.ReadFull). On success,
   * the payload and the bytes left unread.
   */
  function ReadFrame(stream: seq<byte>): (r: Result<(seq<byte>, seq<byte>)>)
    ensures r.Ok? ==> ReadUvarint(stream).Ok?
    ensures r.Ok? ==> |r.value.0| == ReadUvarint(stream).value.0
    ensures r.Ok? ==> r.value.0 + r.value.1 == ReadUvarint(stream).value.1
    ensures r.Ok? ==> |r.value.1| < |stream| && r.value.1 == stream[|stream| - |r.value.1|..]
    ensures r.Err? && ReadUvarint(stream).Ok? ==> r.error != Overflow
  {
    match ReadUvarint(stream)
    case Err(e) => Err(e)
    case Ok((length, rest)) =>
      if |rest| < length then Err(if |rest| == 0 then EOF else UnexpectedEOF)
      else Ok((rest[..length], rest[length..]))
  }

  /**
   * The trim of main.go:116-118 as written: skip two varints whose byte
   * counts binary.Uvarint reports, and keep the rest. None stands for the
   * run-time panic of slicing with a negative index: the first count is
   * negative (an overflow), or the two counts add up to a negative number.
   */
  function TrimAsWritten(data: seq<byte>): (r: Option<seq<byte>>)
    ensures r.Some? ==> |r.value| <= |data| && r.value == data[|data| - |r.value|..]
  {
    var (_, i0) := Uvarint(data);
    if i0 < 0 then None
    else
      var (_, i1) := Uvarint(data[i0..]);
      if i0 + i1 < 0 then None
      else Some(data[i0 + i1..])
  }

  /**
   * The trim with the panic turned into an error: Overflow exactly where
   * the code as written slices at a negative index. Everything else is as
   * written, including the leniency: the value of the second varint is not
   * compared with what follows, a varint cut short by the end of the data
   * counts as zero bytes, and a second varint that overflows at its tenth
   * byte (count -10) after a ten-byte first one cancels it out, so nothing
   * is skipped.
   */
  function Trim(data: seq<byte>): (r: Result<seq<byte>>)
    ensures r.Ok? ==> |r.value| <= |data| && r.value == data[|data| - |r.value|..]
    ensures r.Err? ==> r.error == Overflow
  {
    var (_, i0) := Uvarint(data);
    if i0 < 0 then Err(Overflow)
    else
      var (_, i1) := Uvarint(data[i0..]);
      if i0 + i1 < 0 then Err(Overflow)
      else Ok(data[i0 + i1..])
  }

  /** The JSON text of a response stream, or the error that ends the exchange. */
  function Response(stream: seq<byte>): (r: Result<seq<byte>>)
    ensures stream == [] ==> r == Err(EOF)
    ensures r.Ok? ==> |r.value| < |stream|
  {
    match ReadFrame(stream)
    case Err(e) => Err(e)
    case Ok((data, _)) => Trim(data)
  }

  /** The text of Go's error values, as err.Error() gives it. */
  function Message(e: ReadError): (r: seq<byte>)
    ensures r != []
  {
    match e
    case EOF => Ascii("EOF")
    case UnexpectedEOF => Ascii("unexpected EOF")
    case Overflow => Ascii("binary: varint overflows a 64-bit integer")
  }

  /** What `ping` returns: the JSON text, or the error's message in its place. */
  function Reply(stream: seq<byte>): (r: seq<byte>)
    ensures r == [] ==> Response(stream) == Ok([])
  {
    match Response(stream)
    case Ok(json) => json
    case Err(e) => Message(e)
  }

  /** The three read errors have three different texts. */
  lemma MessagesDiffer(e1: ReadError, e2: ReadError)
    ensures Message(e1) == Message(e2) <==> e1 == e2
  {
    if e1 != e2 {
      assert |Message(e1)| != |Message(e2)|;
    }
  }

  /**
   * `ping` of main.go, once the connection is open: writes the handshake
   * and then the status request, and answers with the reply read from
   * `received`. Only a port from 0 to 65535 gets this far: net.Dial
   * rejects any other.
   */
  method Ping(server: seq<byte>, port: int64, received: seq<byte>) returns (sent: seq<byte>, reply: seq<byte>)
    requires |server| <= MaxInt - 14
    requires 0 <= port < 0x1_0000
    ensures sent == Packet.Frame(Packet.HandshakePayload(server, port)) + [0x01, 0x00]
    ensures reply == Reply(received)
  {
    var handshake := Packet.Handshake(server, port);
    sent := handshake.Bytes();
    var request := Packet.RequestStatus();
    sent := sent + request.Bytes();
    match ReadUvarint(received)
    case Err(e) =>
      reply := Message(e);
    case Ok((length, rest)) =>
      if |rest| < length {
        reply := Message(if |rest| == 0 then EOF else UnexpectedEOF);
      } else {
        var data := rest[..length];
        match Trim(data)
        case Ok(json) => reply := json;
        case Err(e) => reply := Message(e);
      }
  }

  // ---------------------------------------------------------------------
  // Framing round trip and the read errors.

  /** Reading a frame gives back the framed payload, and nothing more. */
  lemma ReadFrameRoundTrip(payload: seq<byte>, extra: seq<byte>)
    requires |payload| < TwoTo64
    ensures ReadFrame(Packet.Frame(payload) + extra) == Ok((payload, extra))
  {
    assert Packet.Frame(payload) + extra == Encode(|payload|) + (payload + extra);
    ReadUvarintRoundTrip(|payload|, payload + extra);
    assert (payload + extra)[..|payload|] == payload;
  }

  /** A stream that ends inside the length varint fails with EOF or UnexpectedEOF. */
  lemma ReadFrameTruncatedLength(stream: seq<byte>)
    requires |stream| < MaxVarintLen64
    requires forall k :: 0 <= k < |stream| ==> stream[k] >= 0x80
    ensures ReadFrame(stream) == Err(if stream == [] then EOF else UnexpectedEOF)
  {
    ReadUvarintTruncated(stream);
  }

  /** A length varint that runs past ten bytes fails with Overflow. */
  lemma ReadFrameOverlongLength(stream: seq<byte>)
    requires |stream| >= MaxVarintLen64
    requires forall k :: 0 <= k < MaxVarintLen64 - 1 ==> stream[k] >= 0x80
    requires stream[MaxVarintLen64 - 1] > 1
    ensures ReadFrame(stream) == Err(Overflow)
  {
    ReadUvarintOverflow(stream);
  }

  /** Fewer than L bytes after the length L: EOF if none came, else UnexpectedEOF. */
  lemma ReadFrameShort(length: uint64, rest: seq<byte>)
    requires |rest| < length
    ensures ReadFrame(Encode(length) + rest) == Err(if rest == [] then EOF else UnexpectedEOF)
  {
    ReadUvarintRoundTrip(length, rest);
  }

  // ---------------------------------------------------------------------
  // The trim.

  /**
   * Whatever the values a and b, the trim skips exactly their encodings:
   * the second varint is not checked against the length of what follows.
   */
  lemma TrimSkipsTwoVarints(a: uint64, b: uint64, rest: seq<byte>)
    ensures Trim(Encode(a) + Encode(b) + rest) == Ok(rest)
  {
    var data := Encode(a) + Encode(b) + rest;
    assert data == Encode(a) + (Encode(b) + rest);
    UvarintRoundTrip(a, Encode(b) + rest);
    assert data[|Encode(a)|..] == Encode(b) + rest;
    UvarintRoundTrip(b, rest);
  }

  /** As written, a first varint that overflows makes the trim panic. */
  lemma TrimAsWrittenPanics(data: seq<byte>)
    requires |data| >= MaxVarintLen64
    requires forall k :: 0 <= k < MaxVarintLen64 - 1 ==> data[k] >= 0x80
    requires 1 < data[MaxVarintLen64 - 1] < 0x80
    ensures TrimAsWritten(data) == None
    ensures Trim(data) == Err(Overflow)
  {
    UvarintOverflow(data);
  }

  /** The received bytes that show it: a 10-byte frame of nine 0x80 bytes and 0x02. */
  lemma PingAsWrittenPanics()
    ensures var received := [0x0A, 0x80, 0x80, 0x80, 0x80, 0x80, 0x80, 0x80, 0x80, 0x80, 0x02];
      && ReadFrame(received) == Ok((received[1..], []))
      && TrimAsWritten(received[1..]) == None
      && Reply(received) == Message(Overflow)
  {
    var received: seq<byte> := [0x0A, 0x80, 0x80, 0x80, 0x80, 0x80, 0x80, 0x80, 0x80, 0x80, 0x02];
    var data := received[1..];
    assert Encode(|data|) == [0x0A];
    assert received == Packet.Frame(data) + [];
    ReadFrameRoundTrip(data, []);
    TrimAsWrittenPanics(data);
  }

  /** As written, a second varint that overflows after a one-byte first one makes the trim panic too. */
  lemma TrimAsWrittenPanicsSecond(data: seq<byte>)
    requires |data| >= MaxVarintLen64 + 1 && data[0] < 0x80
    requires forall k :: 1 <= k < MaxVarintLen64 ==> data[k] >= 0x80
    requires 1 < data[MaxVarintLen64] < 0x80
    ensures TrimAsWritten(data) == None
    ensures Trim(data) == Err(Overflow)
  {
    assert Uvarint(data).1 == 1;
    assert forall k :: 0 <= k < MaxVarintLen64 - 1 ==> data[1..][k] == data[k + 1];
    UvarintOverflow(data[1..]);
  }

  /**
   * As written, a second varint that runs past ten bytes (count -11) after
   * a ten-byte first one makes the trim panic as well: 10 - 11 < 0.
   */
  lemma TrimAsWrittenPanicsTooLong(a: uint64, rest: seq<byte>)
    requires |Encode(a)| == MaxVarintLen64
    requires |rest| > MaxVarintLen64
    requires forall k :: 0 <= k < MaxVarintLen64 ==> rest[k] >= 0x80
    ensures TrimAsWritten(Encode(a) + rest) == None
    ensures Trim(Encode(a) + rest) == Err(Overflow)
  {
    var data := Encode(a) + rest;
    UvarintRoundTrip(a, rest);
    assert data[MaxVarintLen64..] == rest;
    UvarintTooLong(rest);
  }

  /**
   * The corrected trim differs from the code as written only where that
   * panics: where it does not, both give the same bytes.
   */
  lemma TrimAgreesWithAsWritten(data: seq<byte>)
    ensures TrimAsWritten(data) == if Trim(data).Ok? then Some(Trim(data).value) else None
  {
  }

  /**
   * A ten-byte first varint followed by a second one that overflows at its
   * tenth byte: the counts 10 and -10 cancel, so the code as written does
   * not panic and returns the whole packet data as the JSON text.
   */
  lemma TrimKeepsDataAfterSecondOverflow(a: uint64, rest: seq<byte>)
    requires |Encode(a)| == MaxVarintLen64
    requires |rest| >= MaxVarintLen64
    requires forall k :: 0 <= k < MaxVarintLen64 - 1 ==> rest[k] >= 0x80
    requires 1 < rest[MaxVarintLen64 - 1] < 0x80
    ensures TrimAsWritten(Encode(a) + rest) == Some(Encode(a) + rest)
    ensures Trim(Encode(a) + rest) == Ok(Encode(a) + rest)
  {
    var data := Encode(a) + rest;
    UvarintRoundTrip(a, rest);
    assert data[MaxVarintLen64..] == rest;
    UvarintOverflow(rest);
  }

  /**
   * A first varint of ten bytes exists: 2^63 = 128^9 encodes as nine 0x80
   * bytes and 0x01. With nine 0x80 bytes and 0x02 after it, the trim as
   * written keeps all twenty bytes.
   */
  lemma EncodeTopBit()
    ensures Encode(0x8000_0000_0000_0000) == [0x80, 0x80, 0x80, 0x80, 0x80, 0x80, 0x80, 0x80, 0x80, 0x01]
  {
    EncodePowerOf128(9, 0x8000_0000_0000_0000);
    assert Continuations(9) == [0x80, 0x80, 0x80, 0x80, 0x80, 0x80, 0x80, 0x80, 0x80];
  }

  /**
   * Packet data that is only the start of a varint, cut short: both counts
   * are zero and the trim keeps all of it.
   */
  lemma TrimUnfinished(data: seq<byte>)
    requires |data| < MaxVarintLen64
    requires forall k :: 0 <= k < |data| ==> data[k] >= 0x80
    ensures Trim(data) == Ok(data)
  {
    UvarintTruncated(data);
    assert data[0..] == data;
  }

  // ---------------------------------------------------------------------
  // The whole exchange.

  /**
   * A server that answers with a framed packet holding an id varint, a
   * length varint and the JSON text makes `ping` return that text, exactly.
   */
  lemma PingReturnsJson(id: uint64, length: uint64, json: seq<byte>, extra: seq<byte>)
    requires |Encode(id) + Encode(length) + json| < TwoTo64
    ensures Reply(Packet.Frame(Encode(id) + Encode(length) + json) + extra) == json
  {
    ReadFrameRoundTrip(Encode(id) + Encode(length) + json, extra);
    TrimSkipsTwoVarints(id, length, json);
  }

  /**
   * Errors reach the caller as text in place of the JSON: a server that
   * sends the text "EOF" and one that sends nothing give the same reply.
   */
  lemma ErrorsLookLikeReplies()
    ensures Reply([]) == Reply(Packet.Frame([0x00, 0x00] + Ascii("EOF")))
  {
    assert [0x00, 0x00] + Ascii("EOF") == Encode(0) + Encode(0) + Ascii("EOF");
    PingReturnsJson(0, 0, Ascii("EOF"), []);
    assert Packet.Frame([0x00, 0x00] + Ascii("EOF")) + [] == Packet.Frame([0x00, 0x00] + Ascii("EOF"));
  }
}
