# Server List Ping client, modelled in Dafny

`main.go` answers `GET /<server>[/<port>]` by pinging a Minecraft server with the
status part of its wire protocol. It sends two packets, a handshake and a status
request, then reads one packet back. It returns the JSON text that packet holds,
or the text of the first error met.

This project models the protocol core of that exchange:

- **Varints** (`varint.dfy`): unsigned LEB128 integers, seven value bits per byte,
  low group first. `Encode` is the minimal encoding and specifies the encoder.
  `PutUvarint` (Go's `binary.PutUvarint`) writes it into an array in a loop.
  `Varint` is `varint` of `main.go`. Go's two decoders are recursive functions:
  `Uvarint` reads a byte slice and `ReadUvarint` reads a stream. Both follow
  the library of Go 1.20 and later. A varint stops at ten bytes: a slice of ten
  continuation bytes and more gives the count -11. A tenth byte above 1
  overflows. A stream that ends part-way through a varint gives
  `io.ErrUnexpectedEOF`.
- **Packets** (`packet.dfy`): `bytes.Buffer` is a class whose methods append to
  its contents. `Wrap`, `Handshake` and `RequestStatus` are the builders of
  `main.go`, each proved to produce the bytes given by `Frame` and
  `HandshakePayload`. `ParseHandshake`, the server's reading of a handshake, is
  the inverse they are checked against.
- **Response** (`ping.dfy`): `ReadFrame` reads a length varint and then exactly that
  many bytes, as `io.ReadFull` does. `Trim` skips the packet id and the second
  varint. Where the code as written would slice at a negative index and panic,
  `Trim` reports Overflow instead; everywhere else it returns what the code
  returns. `Reply` is what `ping` returns: the JSON, or the error's message in its
  place. `Ping` is the exchange once connected. It takes the received bytes as a
  parameter and returns the bytes it sent together with the reply.
- **Port** (`port.dfy`): `ParsePort` is `parsePort`, which reads the port through
  `strconv.ParseInt(port, 10, 32)`. `FormatInt` is decimal formatting, the
  reference the parser is checked against.

An empty or non-numeric port falls back to 25565, and so does a number outside
the signed 32-bit range (`ParsePortOutOfRange`). A negative port, or one between
65536 and 2^31 - 1, parses, but `ping` then fails at `net.Dial` before any
packet is sent, so `Ping` is stated for ports 0 to 65535. For such a port the
server reads the handshake's port back exactly (`HandshakeRoundTrip`, where
the port modulo 2^16 is the port itself). That `handshake` on its own
truncates any other port to 16 bits is a property of that function alone.

## Model

| member | source | states |
|---|---|---|
| VarintCodec.Encode | main.go:149-153 | every encoding has at least one byte, the continuation bit set on all bytes but the last and clear on the last, and the last byte is zero only for the value 0 |
| VarintCodec.PutUvarint | main.go:151 | writes exactly the encoding of x to the front of the buffer, returns its length, and leaves the rest of the buffer unchanged |
| VarintCodec.Varint | main.go:149-153 | returns the encoding of uint64(i), so a negative int wraps to 2^64 + i, in 1 to 10 bytes |
| VarintCodec.EncodeLength | main.go:150-151 | every 64-bit value encodes in 1 to 10 bytes, so the 10-byte buffer always suffices |
| VarintCodec.UvarintFrom | main.go:116-117 | the slice decoder, positioned i bytes into a varint: a positive count never exceeds 10 or the bytes available, and the value fits the bits left; a zero or negative count carries value 0, and a negative one is -10 or -11 |
| VarintCodec.Uvarint | main.go:116-117 | binary.Uvarint: a positive count is at most 10 and at most the length of the slice; every count lies in -11..10; a failed decode gives value 0 |
| VarintCodec.ReadUvarintFrom | main.go:103 | the stream reader, i bytes into a varint: on success the rest of the stream is a proper suffix, at most 10 - i bytes were consumed, and the value fits the bits left; EOF only when nothing of the varint was read |
| VarintCodec.ReadUvarint | main.go:103 | binary.ReadUvarint: on success it consumed 1 to 10 bytes and returns the rest of the stream unchanged |
| VarintCodec.UvarintFromEncode | main.go:116-117 | decoding an encoding from any position that bounds the value gives the value back and counts exactly the encoding's bytes |
| VarintCodec.UvarintRoundTrip | main.go:116-117 | for every 64-bit value and whatever follows, Uvarint of its encoding returns the value and the encoding's length |
| VarintCodec.ReadUvarintFromEncode | main.go:103 | the stream reader, from any position that bounds the value, returns the value and exactly the bytes after the encoding |
| VarintCodec.ReadUvarintRoundTrip | main.go:103 | for every 64-bit value and whatever follows, ReadUvarint of its encoding returns the value and the bytes after the encoding |
| VarintCodec.ReadUvarintFromAgrees | main.go:103-117 | from any position, the stream reader succeeds exactly when the slice decoder reports a positive count, with the same value and the rest starting after the counted bytes |
| VarintCodec.ReadUvarintAgrees | main.go:103-117 | ReadUvarint succeeds if and only if Uvarint reports a positive count n, and then returns Uvarint's value and the stream from byte n |
| VarintCodec.ReadUvarintFromTruncated | main.go:103-106 | a stream that ends inside a varint gives EOF when nothing of the varint was read, UnexpectedEOF otherwise |
| VarintCodec.ReadUvarintTruncated | main.go:103-106 | fewer than ten bytes, all with the continuation bit set, give EOF when empty and UnexpectedEOF otherwise |
| VarintCodec.ReadUvarintFromOverflow | main.go:103-106 | from any position, continuation bytes up to the tenth byte followed by a tenth byte above 1 give Overflow |
| VarintCodec.ReadUvarintOverflow | main.go:103-106 | nine continuation bytes followed by a tenth byte above 1 (a tenth continuation byte included) give Overflow, whatever follows |
| VarintCodec.UvarintFromOverflow | main.go:116 | from any position, continuation bytes up to the tenth byte followed by a final tenth byte above 1 make the slice decoder report count -10 and value 0 |
| VarintCodec.UvarintOverflow | main.go:116 | nine continuation bytes followed by a final byte from 2 to 0x7F make Uvarint report count -10 and value 0 |
| VarintCodec.UvarintFromTruncated | main.go:116-117 | from any position, a slice that ends inside a varint makes the slice decoder report count 0 and value 0 |
| VarintCodec.UvarintTruncated | main.go:116-117 | fewer than ten bytes, all with the continuation bit set, make Uvarint report count 0 ("buf too small") and value 0 |
| VarintCodec.UvarintFromTooLong | main.go:116-117 | from any position, continuation bytes up to and including the tenth byte, with more bytes after them, make the slice decoder report count -11 |
| VarintCodec.UvarintTooLong | main.go:116-117 | ten continuation bytes followed by at least one more byte make Uvarint stop at the eleventh byte and report count -11 and value 0 |
| Packet.Buffer.constructor | main.go:123 | a new buffer is empty |
| Packet.Buffer.WriteByte | main.go:124 | appends one byte to the contents |
| Packet.Buffer.Write | main.go:126-127 | appends the bytes to the contents |
| Packet.Int16BigEndian | main.go:128 | binary.Write of an int16 gives two bytes, high byte first, that read back as the value modulo 2^16, with the sign in the top bit of the first byte |
| Packet.Frame | main.go:141-146 | a frame is longer than its payload, and for a payload that fits a Go int, at most 9 bytes longer |
| Packet.HandshakePayload | main.go:122-129 | the handshake payload is 5 bytes longer than the address and its length varint, starts with 0x00 0x47 and ends with 0x01 |
| Packet.HandshakePayloadFits | main.go:122-130 | the handshake payload's length fits a Go int exactly when the address has at most 2^63 - 15 bytes |
| Packet.Int16 | main.go:128 | int16(port) lies in the int16 range and is congruent to the port modulo 2^16 |
| Packet.Wrap | main.go:141-146 | returns a new buffer holding the length of b's contents as a varint, followed by those contents |
| Packet.Handshake | main.go:122-131 | returns the framed handshake: id 0x00, protocol 0x47, the address length as a varint, the address, the port as a big-endian int16, then 0x01 |
| Packet.RequestStatus | main.go:134-138 | the status request is exactly the bytes 0x01 0x00 |
| Packet.ParseHandshake | main.go:122-131 | the reading side of a handshake: any port it reads back lies in 0..65535 |
| Packet.PortBytes | main.go:128 | the two big-endian bytes of int16(port) read back as the port modulo 2^16, whatever its sign |
| Packet.HandshakeRoundTrip | main.go:122-131 | reading a handshake payload back gives the address unchanged and the port modulo 2^16 |
| Packet.HandshakeExample | main.go:122-131 | the handshake for "example.com" on port 25565 is 0x11 0x00 0x47 0x0B, the eleven bytes of the name, then 0x63 0xDD 0x01 |
| Ping.ReadFrame | main.go:101-113 | on success the payload's length is the decoded length, the payload followed by the unread rest is exactly what follows the length varint, and the rest is a proper suffix of the stream; a length that decodes never gives Overflow |
| Ping.TrimAsWritten | main.go:115-118 | when it does not panic, the trim as written returns a suffix of the packet data |
| Ping.Response | main.go:101-118 | an empty stream gives EOF, and any JSON returned is shorter than the stream |
| Ping.Message | main.go:104-112 | the text of a read error is never empty |
| Ping.MessagesDiffer | main.go:104-112 | two read errors give the same text exactly when they are the same error |
| Ping.Reply | main.go:77-118 | the reply is empty only when the server sent an empty JSON text, never for an error |
| Ping.Trim | main.go:115-118 | the trimmed JSON is a suffix of the packet data, and the only error is Overflow, which replaces the panic on a negative slice index |
| Ping.Ping | main.go:77-118 | sends the framed handshake followed by 0x01 0x00, and replies with the JSON or error text that Reply gives for the received bytes |
| Ping.ReadFrameRoundTrip | main.go:101-113 | reading a framed payload gives the payload back and leaves whatever followed unread |
| Ping.ReadFrameTruncatedLength | main.go:103-106 | a stream that ends inside the length varint fails with EOF if empty, UnexpectedEOF otherwise |
| Ping.ReadFrameOverlongLength | main.go:103-106 | a length varint that has not ended by its tenth byte, or whose tenth byte is above 1, fails with Overflow |
| Ping.ReadFrameShort | main.go:108-113 | after a length L, fewer than L bytes fail with EOF when none came and UnexpectedEOF otherwise |
| Ping.TrimSkipsTwoVarints | main.go:115-118 | whatever the values of the two leading varints, the trim returns exactly the bytes after them |
| Ping.TrimAsWrittenPanics | main.go:116-118 | a first varint that overflows at its tenth byte makes the trim as written panic, and the corrected trim report Overflow |
| Ping.PingAsWrittenPanics | main.go:101-118 | the received bytes 0x0A, nine times 0x80, 0x02 frame correctly, make the trim as written panic, and make the corrected ping reply with the overflow message |
| Ping.TrimAsWrittenPanicsSecond | main.go:116-118 | a one-byte first varint followed by a second one that overflows at its tenth byte also makes the trim as written panic, and the corrected trim report Overflow |
| Ping.TrimAsWrittenPanicsTooLong | main.go:116-118 | a ten-byte first varint followed by a second one that runs past ten bytes (count -11) makes the trim as written panic, and the corrected trim report Overflow |
| Ping.TrimAgreesWithAsWritten | main.go:115-118 | for all data, the corrected trim succeeds exactly where the trim as written does not panic, with the same bytes |
| Ping.TrimKeepsDataAfterSecondOverflow | main.go:116-118 | a ten-byte first varint followed by a second one that overflows at its tenth byte gives the counts 10 and -10, so both trims keep the whole packet data as the JSON text |
| Ping.EncodeTopBit | main.go:116-118 | 2^63 encodes as nine 0x80 bytes and 0x01, a ten-byte first varint for the lemma above |
| VarintCodec.EncodePowerOf128 | main.go:149-153 | 128^k encodes as k bytes 0x80 followed by 0x01 |
| VarintCodec.EncodeBelowPower | main.go:149-153 | a value below 128^k encodes in at most k bytes |
| VarintCodec.EncodeAbovePower | main.go:149-153 | a value of at least 128^k needs more than k bytes |
| VarintCodec.EncodeIntLength | main.go:149-153 | every non-negative Go int encodes in at most 9 bytes |
| Ping.TrimUnfinished | main.go:115-118 | packet data of fewer than ten bytes, all with the continuation bit set, is kept whole: both counts are zero |
| Ping.PingReturnsJson | main.go:101-118 | a server answering with a framed packet of an id varint, a length varint and the JSON makes ping return exactly that JSON |
| Ping.ErrorsLookLikeReplies | main.go:101-118 | errors come back in place of the JSON: a server that sends nothing and one that sends the JSON text "EOF" give the same reply |
| Port.ParseInt32 | main.go:69 | a parsed value always lies in the signed 32-bit range |
| Port.ParsePort | main.go:64-75 | the empty port and every port that does not parse give 25565, and the result always lies in the signed 32-bit range |
| Port.ParseInt32Unsigned | main.go:69 | an unsigned run of digits parses to its decimal value when that is at most 2^31 - 1, and fails otherwise |
| Port.ParseInt32Signed | main.go:69 | a sign followed by digits parses to the value, negated after a minus sign, when it lies in the 32-bit range, and fails otherwise |
| Port.ParsePortOfFormatInt | main.go:64-75 | every signed 32-bit integer written in decimal parses back to itself |
| Port.ParsePortPlusSign | main.go:69-74 | a leading plus sign is accepted |
| Port.ParsePortOutOfRange | main.go:69-72 | a decimal integer outside the signed 32-bit range gives 25565 |
| Port.ParsePortNotDecimal | main.go:69-72 | a character that is not a digit, and is not a sign at the start, gives 25565, and so does a lone sign |
| Port.ParsePortExamples | main.go:64-72 | "" and "abc" give 25565 |
| Port.ParsePortBedrock | main.go:69-74 | "19132" gives 19132 |

## Left out

- `main`, `handler` and `handleStop` (HTTP serving, the path split, the stdin `stop` command) and `status/status.go` (the JSON data model) are not part of this model.
- Sockets are not modelled. The `net.Dial` failure, the five-second deadlines and the "i/o timeout" error, and failures of the two writes all sit outside `Ping`. `Ping` receives the bytes the server sent, and the stream ends where the server closed the connection.
- `make([]byte, l)` at main.go:109 is not modelled for lengths too large to allocate. A length of 2^63 or more makes Go panic ("makeslice: len out of range"), and a merely huge one exhausts memory. A server can send either and crash the service. The model reads a length of any size as if the buffer could be allocated.
- The text of a connection or timeout error is not modelled. `Message` gives only the texts of the three read errors.
- `WriteString` and `Write` of `bytes.Buffer` are one method, `Write`, because a Go string is its bytes. Only ASCII text is given a character form (`Ascii`).
- Packet.Handshake: requires the address to be at most 2^63 - 15 bytes, the largest for which the payload length is still a Go `int` (`HandshakePayloadFits`).
- Ping.Ping: requires a port from 0 to 65535. For any other port, `net.Dial` at main.go:78 fails before a packet is sent, and that failure is outside the model. Ping.Ping also requires the address to be at most 2^63 - 15 bytes, as Packet.Handshake does.
- Packet.Wrap: requires contents of at most 2^63 - 1 bytes. A Go slice cannot be longer.
- Go releases before 1.20 behave differently. Their `ReadUvarint` returns `io.EOF`, not `io.ErrUnexpectedEOF`, after part of a varint, so `ReadUvarintTruncated` and `ReadFrameTruncatedLength` would give the reply "EOF" there. Still older releases let `Uvarint` read past the tenth byte. Only Go 1.20 and later is modelled.

## Findings

| source | as written | input that shows it | evidently intended | confidence | as-written member | corrected member |
|---|---|---|---|---|---|---|
| main.go:116-118 | when a varint of the packet overflows, `binary.Uvarint` returns a negative count. If the first one overflows, `data[i0:]` slices at a negative index. If the second one overflows at its tenth byte (count -10) after a first one of fewer than ten bytes, or runs past ten bytes (count -11) after any first one, `data[i0+i1:]` slices at a negative index. Each of these slices panics the request handler | a server that sends the bytes 0x0A, nine times 0x80, 0x02: a 10-byte frame whose first varint has a tenth byte above 1 | report the overflow as an error text, as every other read failure is reported | not executed | Ping.TrimAsWrittenPanics | Ping.Trim |
