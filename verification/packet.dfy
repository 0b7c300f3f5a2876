/**
 * The outbound packets of the Server List Ping exchange, built the way
 * main.go builds them: byte by byte into a growing buffer, then framed with
 * a varint length prefix.
 */
module Packet {
  import opened Wire
  import opened VarintCodec

  /** Go's bytes.Buffer as main.go uses it: written to, then read whole. */
  class Buffer {
    var buf: seq<byte>

    constructor ()
      ensures buf == []
    {
      buf := [];
    }

    /** The unread contents, Bytes() of bytes.Buffer. */
    function Bytes(): (r: seq<byte>)
      reads this
    {
      buf
    }

    method WriteByte(c: byte)
      modifies this
      ensures Bytes() == old(Bytes()) + [c]
    {
      buf := buf + [c];
    }

    /** Write and WriteString: appends p (a Go string is its bytes). */
    method Write(p: seq<byte>)
      modifies this
      ensures Bytes() == old(Bytes()) + p
    {
      buf := buf + p;
    }
  }

  /** Packet id of both the handshake and the status request. */
  const HandshakeId: byte := 0x00
  const StatusRequestId: byte := 0x00
  /** The protocol version announced in the handshake (71). */
  const ProtocolVersion: byte := 0x47
  /** The handshake's next-state field: 1 asks for the status state. */
  const NextStateStatus: byte := 0x01

  /** A packet on the wire: the payload's length as a varint, then the payload. */
  function Frame(payload: seq<byte>): (r: seq<byte>)
    ensures |payload| < |r|
    ensures |payload| <= MaxInt ==> |r| <= |payload| + MaxVarintLen64 - 1
  {
    if |payload| <= MaxInt then
      EncodeIntLength(|payload|);
      Encode(|payload|) + payload
    else
      Encode(|payload|) + payload
  }

  /** Go's int16(v): keeps the low 16 bits, read as two's complement. */
  function Int16(v: int): (r: int)
    ensures -0x8000 <= r < 0x8000
    ensures r % 0x1_0000 == v % 0x1_0000
  {
    var u := v % 0x1_0000;
    if u < 0x8000 then u else u - 0x1_0000
  }

  /** Binary.Write of an int16 in big-endian order: the high byte first. */
  function Int16BigEndian(v: int): (r: seq<byte>)
    requires -0x8000 <= v < 0x8000
    ensures |r| == 2
    ensures r[0] as int * 0x100 + r[1] as int == v % 0x1_0000
    ensures v < 0 <==> r[0] >= 0x80
  {
    var u := v % 0x1_0000;
    [u / 0x100, u % 0x100]
  }

  /** The handshake payload for server and port, field by field. */
  function HandshakePayload(server: seq<byte>, port: int): (r: seq<byte>)
    ensures |r| == |Encode(|server|)| + |server| + 5
    ensures r[0] == HandshakeId && r[1] == ProtocolVersion && r[|r| - 1] == NextStateStatus
  {
    [HandshakeId, ProtocolVersion] + Encode(|server|) + server
      + Int16BigEndian(Int16(port)) + [NextStateStatus]
  }

  /** `wrap` of main.go: a new buffer holding the framed contents of b. */
  method Wrap(b: Buffer) returns (r: Buffer)
    requires |b.Bytes()| <= MaxInt
    ensures r.Bytes() == Frame(b.Bytes())
  {
    r := new Buffer();
    var prefix := Varint(|b.Bytes()|);
    r.Write(prefix);
    r.Write(b.Bytes());
  }

  /**
   * `handshake` of main.go. An address of MaxInt - 14 bytes makes a payload
   * of exactly MaxInt bytes; a longer one makes a payload longer than any
   * bytes.Buffer can hold.
   */
  method Handshake(server: seq<byte>, port: int64) returns (r: Buffer)
    requires |server| <= MaxInt - 14
    ensures r.Bytes() == Frame(HandshakePayload(server, port))
  {
    EncodeIntLength(|server|);
    var buf := new Buffer();
    buf.WriteByte(HandshakeId);
    buf.WriteByte(ProtocolVersion);
    assert buf.Bytes() == [HandshakeId, ProtocolVersion];
    var length := Varint(|server|);
    buf.Write(length);
    assert buf.Bytes() == [HandshakeId, ProtocolVersion] + Encode(|server|);
    buf.Write(server);
    ghost var p := buf.Bytes();
    var portBytes := Int16BigEndian(Int16(port));
    buf.Write(portBytes);
    buf.WriteByte(NextStateStatus);
    assert buf.Bytes() == p + portBytes + [NextStateStatus];
    r := Wrap(buf);
  }

  /**
   * The handshake payload fits a Go int (and so a bytes.Buffer) exactly
   * when the address has at most MaxInt - 14 bytes.
   */
  lemma HandshakePayloadFits(server: seq<byte>, port: int)
    ensures |HandshakePayload(server, port)| <= MaxInt <==> |server| <= MaxInt - 14
  {
    if |server| <= MaxInt - 14 {
      EncodeIntLength(|server|);
    } else {
      assert Power128(8) <= |server|;
      EncodeAbovePower(8, |server|);
    }
  }

  /** `requestStatus` of main.go: the packet is exactly 0x01 0x00. */
  method RequestStatus() returns (r: Buffer)
    ensures r.Bytes() == [0x01, 0x00]
  {
    var buf := new Buffer();
    buf.WriteByte(StatusRequestId);
    r := Wrap(buf);
  }

  // ---------------------------------------------------------------------
  // What a server reads back from these packets.

  /**
   * The reading side of a handshake payload: packet id, protocol version,
   * varint-prefixed address, big-endian unsigned port, next state.
   */
  function ParseHandshake(payload: seq<byte>): (r: Option<(seq<byte>, int)>)
    ensures r.Some? ==> 0 <= r.value.1 < 0x1_0000
  {
    if |payload| < 2 || payload[0] != HandshakeId || payload[1] != ProtocolVersion then None
    else
      var d := Uvarint(payload[2..]);
      if d.1 <= 0 then None
      else ParseAddress(d.0, payload[2 + d.1..])
  }

  /** The address of the given length, then the port and the next-state byte, and nothing after. */
  function ParseAddress(length: nat, rest: seq<byte>): (r: Option<(seq<byte>, int)>)
    ensures r.Some? ==> 0 <= r.value.1 < 0x1_0000
  {
    if |rest| != length + 3 || rest[length + 2] != NextStateStatus then None
    else Some((rest[..length], rest[length] as int * 0x100 + rest[length + 1] as int))
  }

  /** The two port bytes carry the port modulo 2^16, whatever its sign. */
  lemma PortBytes(port: int)
    ensures var b := Int16BigEndian(Int16(port)); b[0] as int * 0x100 + b[1] as int == port % 0x1_0000
  {
    var u := Int16(port) % 0x1_0000;
    assert u == port % 0x1_0000;
    assert u / 0x100 * 0x100 + u % 0x100 == u;
  }

  /** A server reading the handshake gets the address and the port modulo 2^16. */
  lemma HandshakeRoundTrip(server: seq<byte>, port: int)
    requires |server| < TwoTo64
    ensures ParseHandshake(HandshakePayload(server, port)) == Some((server, port % 0x1_0000))
  {
    var b := Int16BigEndian(Int16(port));
    UvarintRoundTrip(|server|, server + (b + [NextStateStatus]));
    PortBytes(port);
    ParseHandshakeFields(Encode(|server|), server, b);
  }

  /** The field-by-field reading, for any length prefix that decodes to the address length. */
  lemma ParseHandshakeFields(e: seq<byte>, server: seq<byte>, b: seq<byte>)
    requires |b| == 2
    requires Uvarint(e + (server + (b + [NextStateStatus]))) == (|server|, |e|)
    ensures ParseHandshake([HandshakeId, ProtocolVersion] + e + server + b + [NextStateStatus])
      == Some((server, b[0] as int * 0x100 + b[1] as int))
  {
    var tail := server + (b + [NextStateStatus]);
    var p := [HandshakeId, ProtocolVersion] + e + server + b + [NextStateStatus];
    assert |p| >= 2 && p[0] == HandshakeId && p[1] == ProtocolVersion && p[2..] == e + tail by {
      Regroup([HandshakeId, ProtocolVersion], e, server, b, [NextStateStatus]);
      Drop([HandshakeId, ProtocolVersion], e + tail);
    }
    assert p[2 + |e|..] == tail by {
      Drop(e, tail);
      assert p[2..][|e|..] == tail;
    }
    assert ParseAddress(|server|, tail) == Some((server, b[0] as int * 0x100 + b[1] as int)) by {
      Drop(server, b + [NextStateStatus]);
    }
  }

  lemma Regroup(a: seq<byte>, b: seq<byte>, c: seq<byte>, d: seq<byte>, e: seq<byte>)
    ensures a + b + c + d + e == a + (b + (c + (d + e)))
  {
  }

  lemma Drop(a: seq<byte>, b: seq<byte>)
    ensures (a + b)[..|a|] == a && (a + b)[|a|..] == b
  {
  }

  /** The handshake for host "example.com" on port 25565. */
  lemma HandshakeExample()
    ensures Frame(HandshakePayload(Ascii("example.com"), 25565))
      == [0x11, 0x00, 0x47, 0x0B] + Ascii("example.com") + [0x63, 0xDD, 0x01]
  {
  }
}
