/**
 * Unsigned LEB128 varints: seven value bits per byte, low group first, the
 * most significant bit of every byte but the last set ("continuation bit").
 * Encoding is `varint` of main.go over Go's binary.PutUvarint; decoding is
 * Go's binary.Uvarint (over a byte slice) and binary.ReadUvarint (over a
 * byte stream), which `ping` uses to read the response.
 */
module VarintCodec {
  import opened Wire

  /** binary.MaxVarintLen64: no 64-bit value needs more bytes. */
  const MaxVarintLen64: int := 10

  /**
   * The shape of one varint: at least one byte, the continuation bit set on
   * every byte but the last and clear on the last.
   */
  predicate IsVarint(r: seq<byte>)
  {
    && 1 <= |r|
    && (forall k :: 0 <= k < |r| - 1 ==> r[k] >= 0x80)
    && r[|r| - 1] < 0x80
  }

  /** The minimal encoding of x, the specification of the encoder. */
  function Encode(x: nat): (r: seq<byte>)
    ensures IsVarint(r)
    ensures r[|r| - 1] == 0 ==> x == 0
  {
    if x < 0x80 then [x] else [x % 0x80 + 0x80] + Encode(x / 0x80)
  }

  /**
   * Binary.PutUvarint: writes the encoding of x to the front of buf and
   * returns its length. Go panics on a buffer too short for the encoding.
   */
  method PutUvarint(buf: array<byte>, x: uint64) returns (n: nat)
    requires |Encode(x)| <= buf.Length
    modifies buf
    ensures n == |Encode(x)|
    ensures buf[..n] == Encode(x)
    ensures forall k :: n <= k < buf.Length ==> buf[k] == old(buf[k])
  {
    ghost var e := Encode(x);
    var y: nat := x;
    var i := 0;
    while y >= 0x80
      invariant i + |Encode(y)| == |e|
      invariant forall k :: 0 <= k < i ==> buf[k] == e[k]
      invariant e[i..] == Encode(y)
      invariant forall k :: i <= k < buf.Length ==> buf[k] == old(buf[k])
    {
      EncodeFirst(y, e, i);
      buf[i] := y % 0x80 + 0x80;  // byte(y) | 0x80
      y := y / 0x80;              // y >>= 7
      i := i + 1;
    }
    EncodeFirst(y, e, i);
    buf[i] := y;
    assert buf[..i + 1] == e;
    n := i + 1;
  }

  /** One step of the encoder, seen at position i of a longer encoding e. */
  lemma EncodeFirst(y: nat, e: seq<byte>, i: nat)
    requires i < |e| && e[i..] == Encode(y)
    ensures e[i] == (if y < 0x80 then y else y % 0x80 + 0x80)
    ensures y >= 0x80 ==> e[i + 1..] == Encode(y / 0x80)
  {
    assert e[i] == e[i..][0];
    if y >= 0x80 {
      assert e[i + 1..] == e[i..][1..];
    }
  }

  /**
   * `varint(i)` of main.go: encodes uint64(i) into a fresh 10-byte buffer
   * and returns the written prefix. A negative int wraps to 2^64 + i.
   */
  method Varint(i: int64) returns (b: seq<byte>)
    ensures b == Encode(i % TwoTo64)
    ensures 1 <= |b| <= MaxVarintLen64
  {
    var buf := new byte[MaxVarintLen64];
    EncodeLength(i % TwoTo64);
    var l := PutUvarint(buf, i % TwoTo64);
    b := buf[..l];
  }

  /**
   * The values the bytes from position i of a varint onwards can still
   * contribute: 2^(64 - 7i). At position 9 only 0 and 1 fit.
   */
  function Bound(i: nat): (b: nat)
    requires i < MaxVarintLen64
    ensures b >= 2
    ensures i < MaxVarintLen64 - 1 ==> b >= 0x100
    decreases MaxVarintLen64 - i
  {
    if i == MaxVarintLen64 - 1 then 2 else 0x80 * Bound(i + 1)
  }

  lemma BoundIsTwoTo64()
    ensures Bound(0) == TwoTo64
  {
    assert Bound(9) == 2;
    assert Bound(8) == 0x100;
    assert Bound(7) == 0x8000;
    assert Bound(6) == 0x40_0000;
    assert Bound(5) == 0x2000_0000;
    assert Bound(4) == 0x10_0000_0000;
    assert Bound(3) == 0x800_0000_0000;
    assert Bound(2) == 0x4_0000_0000_0000;
    assert Bound(1) == 0x200_0000_0000_0000;
  }

  /**
   * Binary.Uvarint on buf, whose first byte is byte number i of the varint.
   * The count n is, as in Go, from the start of the varint: n > 0 means the
   * varint ended after n bytes, n == 0 that buf ran out first, n < 0 that it
   * overflowed 64 bits after -n bytes; the value is 0 unless n > 0.
   */
  function UvarintFrom(buf: seq<byte>, i: nat): (r: (nat, int))
    requires i <= MaxVarintLen64
    ensures r.1 > 0 ==> i < r.1 <= MaxVarintLen64 && r.1 - i <= |buf| && r.0 < Bound(i)
    ensures r.1 <= 0 ==> r.0 == 0
    ensures r.1 < 0 ==> r.1 == -MaxVarintLen64 || r.1 == -MaxVarintLen64 - 1
    decreases MaxVarintLen64 - i
  {
    if |buf| == 0 then (0, 0)
    else if i == MaxVarintLen64 then (0, -(i + 1))
    else if buf[0] < 0x80 then
      if i == MaxVarintLen64 - 1 && buf[0] > 1 then (0, -(i + 1))
      else (buf[0], i + 1)
    else
      var (v, n) := UvarintFrom(buf[1..], i + 1);
      if n > 0 then (buf[0] - 0x80 + 0x80 * v, n) else (0, n)
  }

  /** Binary.Uvarint: the value and the byte count (see UvarintFrom). */
  function Uvarint(buf: seq<byte>): (r: (uint64, int))
    ensures r.1 > 0 ==> r.1 <= MaxVarintLen64 && r.1 <= |buf|
    ensures -MaxVarintLen64 - 1 <= r.1 <= MaxVarintLen64
    ensures r.1 <= 0 ==> r.0 == 0
  {
    BoundIsTwoTo64();
    UvarintFrom(buf, 0)
  }

  /**
   * Binary.ReadUvarint on a stream, of which i bytes of the varint have
   * already been read. On success: the value and the stream after the varint.
   */
  function ReadUvarintFrom(s: seq<byte>, i: nat): (r: Result<(nat, seq<byte>)>)
    requires i <= MaxVarintLen64
    ensures r.Ok? ==> i < MaxVarintLen64 && r.value.0 < Bound(i)
    ensures r.Ok? ==> |r.value.1| < |s| && r.value.1 == s[|s| - |r.value.1|..]
    ensures r.Ok? ==> |s| - |r.value.1| <= MaxVarintLen64 - i
    ensures r == Err(EOF) ==> i == 0
    decreases MaxVarintLen64 - i
  {
    if i == MaxVarintLen64 then Err(Overflow)
    else if |s| == 0 then Err(if i > 0 then UnexpectedEOF else EOF)
    else if s[0] < 0x80 then
      if i == MaxVarintLen64 - 1 && s[0] > 1 then Err(Overflow)
      else Ok((s[0], s[1..]))
    else
      match ReadUvarintFrom(s[1..], i + 1)
      case Ok((v, rest)) => Ok((s[0] - 0x80 + 0x80 * v, rest))
      case Err(e) => Err(e)
  }

  /** Binary.ReadUvarint: the value read and the rest of the stream. */
  function ReadUvarint(s: seq<byte>): (r: Result<(uint64, seq<byte>)>)
    ensures r.Ok? ==> |s| - MaxVarintLen64 <= |r.value.1| < |s| && r.value.1 == s[|s| - |r.value.1|..]
  {
    BoundIsTwoTo64();
    match ReadUvarintFrom(s, 0)
    case Ok((v, rest)) => Ok((v, rest))
    case Err(e) => Err(e)
  }

  // ---------------------------------------------------------------------
  // Round trips: decoding an encoding gives the value back and consumes
  // exactly the encoding, whatever follows it.

  /** A value within the bound of position i encodes in at most 10 - i bytes. */
  lemma {:induction false} EncodeFits(x: nat, i: nat)
    requires i < MaxVarintLen64 && x < Bound(i)
    ensures i + |Encode(x)| <= MaxVarintLen64
    decreases MaxVarintLen64 - i
  {
    if x >= 0x80 {
      HighGroup(x, i);
      EncodeFits(x / 0x80, i + 1);
    }
  }

  /** The first byte of an encoding followed by more bytes, and what comes after it. */
  lemma EncodeThen(x: nat, rest: seq<byte>)
    ensures (Encode(x) + rest)[0] == (if x < 0x80 then x else x % 0x80 + 0x80)
    ensures x >= 0x80 ==> (Encode(x) + rest)[1..] == Encode(x / 0x80) + rest
  {
    if x < 0x80 {
      assert Encode(x) + rest == [x] + rest;
    } else {
      var c: byte := x % 0x80 + 0x80;
      var tail := Encode(x / 0x80);
      assert Encode(x) + rest == [c] + (tail + rest);
    }
  }

  lemma {:induction false} UvarintFromEncode(x: nat, rest: seq<byte>, i: nat)
    requires i < MaxVarintLen64 && x < Bound(i)
    ensures UvarintFrom(Encode(x) + rest, i) == (x, i + |Encode(x)|)
  {
    EncodeFits(x, i);
    EncodeThen(x, rest);
    if x >= 0x80 {
      HighGroup(x, i);
      UvarintFromEncode(x / 0x80, rest, i + 1);
    }
  }

  /** Past the first byte, the rest of a value fits the bound of the next position. */
  lemma HighGroup(x: nat, i: nat)
    requires i < MaxVarintLen64 && 0x80 <= x < Bound(i)
    ensures i < MaxVarintLen64 - 1 && x / 0x80 < Bound(i + 1)
    ensures x == x % 0x80 + 0x80 * (x / 0x80)
  {
  }

  lemma UvarintRoundTrip(x: uint64, rest: seq<byte>)
    ensures Uvarint(Encode(x) + rest) == (x, |Encode(x)|)
  {
    BoundIsTwoTo64();
    UvarintFromEncode(x, rest, 0);
  }

  lemma {:induction false} ReadUvarintFromEncode(x: nat, rest: seq<byte>, i: nat)
    requires i < MaxVarintLen64 && x < Bound(i)
    ensures ReadUvarintFrom(Encode(x) + rest, i) == Ok((x, rest))
  {
    var s := Encode(x) + rest;
    EncodeThen(x, rest);
    if x >= 0x80 {
      HighGroup(x, i);
      ReadUvarintFromEncode(x / 0x80, rest, i + 1);
      assert ReadUvarintFrom(s[1..], i + 1) == Ok((x / 0x80, rest));
    } else {
      assert s[1..] == rest by {
        assert s == [x] + rest;
      }
    }
  }

  lemma ReadUvarintRoundTrip(x: uint64, rest: seq<byte>)
    ensures ReadUvarint(Encode(x) + rest) == Ok((x, rest))
  {
    BoundIsTwoTo64();
    ReadUvarintFromEncode(x, rest, 0);
  }

  /** Every 64-bit value encodes in 1 to 10 bytes. */
  lemma EncodeLength(x: uint64)
    ensures 1 <= |Encode(x)| <= MaxVarintLen64
  {
    BoundIsTwoTo64();
    EncodeFits(x, 0);
  }

  // ---------------------------------------------------------------------
  // The two decoders agree: the stream reader succeeds exactly where the
  // slice decoder reports a positive count, with the same value.

  lemma {:induction false} ReadUvarintFromAgrees(s: seq<byte>, i: nat)
    requires i <= MaxVarintLen64
    ensures ReadUvarintFrom(s, i).Ok? <==> UvarintFrom(s, i).1 > 0
    ensures UvarintFrom(s, i).1 > 0 ==>
      ReadUvarintFrom(s, i) == Ok((UvarintFrom(s, i).0, s[UvarintFrom(s, i).1 - i..]))
    decreases MaxVarintLen64 - i
  {
    if i < MaxVarintLen64 && |s| > 0 && s[0] >= 0x80 {
      ReadUvarintFromAgrees(s[1..], i + 1);
      var n := UvarintFrom(s[1..], i + 1).1;
      if n > 0 {
        assert s[1..][n - (i + 1)..] == s[n - i..];
      }
    }
  }

  lemma ReadUvarintAgrees(s: seq<byte>)
    ensures ReadUvarint(s).Ok? <==> Uvarint(s).1 > 0
    ensures Uvarint(s).1 > 0 ==> ReadUvarint(s) == Ok((Uvarint(s).0, s[Uvarint(s).1..]))
  {
    ReadUvarintFromAgrees(s, 0);
  }

  // ---------------------------------------------------------------------
  // The failure cases of the stream reader.

  /** A stream that ends inside a varint gives EOF (nothing read) or UnexpectedEOF. */
  lemma {:induction false} ReadUvarintFromTruncated(s: seq<byte>, i: nat)
    requires i + |s| < MaxVarintLen64
    requires forall k :: 0 <= k < |s| ==> s[k] >= 0x80
    ensures ReadUvarintFrom(s, i) == Err(if i == 0 && s == [] then EOF else UnexpectedEOF)
    decreases |s|
  {
    if |s| > 0 {
      ReadUvarintFromTruncated(s[1..], i + 1);
    }
  }

  lemma ReadUvarintTruncated(s: seq<byte>)
    requires |s| < MaxVarintLen64
    requires forall k :: 0 <= k < |s| ==> s[k] >= 0x80
    ensures ReadUvarint(s) == Err(if s == [] then EOF else UnexpectedEOF)
  {
    ReadUvarintFromTruncated(s, 0);
  }

  /**
   * A varint that has not ended after nine bytes must end at the tenth with
   * the value bit 0 or 1: otherwise (a larger tenth byte, or ten
   * continuation bytes) the reader reports Overflow, reading no further.
   */
  lemma {:induction false} ReadUvarintFromOverflow(s: seq<byte>, i: nat)
    requires i < MaxVarintLen64 && i + |s| >= MaxVarintLen64
    requires forall k :: 0 <= k < MaxVarintLen64 - 1 - i ==> s[k] >= 0x80
    requires s[MaxVarintLen64 - 1 - i] > 1
    ensures ReadUvarintFrom(s, i) == Err(Overflow)
    decreases MaxVarintLen64 - i
  {
    if i < MaxVarintLen64 - 1 {
      assert s[0] >= 0x80;
      assert forall k :: 0 <= k < MaxVarintLen64 - 1 - (i + 1) ==> s[1..][k] == s[k + 1];
      ReadUvarintFromOverflow(s[1..], i + 1);
    }
  }

  lemma ReadUvarintOverflow(s: seq<byte>)
    requires |s| >= MaxVarintLen64
    requires forall k :: 0 <= k < MaxVarintLen64 - 1 ==> s[k] >= 0x80
    requires s[MaxVarintLen64 - 1] > 1
    ensures ReadUvarint(s) == Err(Overflow)
  {
    ReadUvarintFromOverflow(s, 0);
  }

  /** The same input makes the slice decoder report an overflow after ten bytes. */
  lemma {:induction false} UvarintFromOverflow(s: seq<byte>, i: nat)
    requires i < MaxVarintLen64 && i + |s| >= MaxVarintLen64
    requires forall k :: 0 <= k < MaxVarintLen64 - 1 - i ==> s[k] >= 0x80
    requires 1 < s[MaxVarintLen64 - 1 - i] < 0x80
    ensures UvarintFrom(s, i) == (0, -MaxVarintLen64)
    decreases MaxVarintLen64 - i
  {
    if i < MaxVarintLen64 - 1 {
      assert s[0] >= 0x80;
      assert forall k :: 0 <= k < MaxVarintLen64 - 1 - (i + 1) ==> s[1..][k] == s[k + 1];
      UvarintFromOverflow(s[1..], i + 1);
      assert UvarintFrom(s[1..], i + 1).1 == -MaxVarintLen64;
    } else {
      assert |s| > 0 && 1 < s[0] < 0x80;
    }
  }

  lemma UvarintOverflow(s: seq<byte>)
    requires |s| >= MaxVarintLen64
    requires forall k :: 0 <= k < MaxVarintLen64 - 1 ==> s[k] >= 0x80
    requires 1 < s[MaxVarintLen64 - 1] < 0x80
    ensures Uvarint(s) == (0, -MaxVarintLen64)
  {
    UvarintFromOverflow(s, 0);
  }

  /** A slice that ends inside a varint: count 0, "buf too small". */
  lemma {:induction false} UvarintFromTruncated(s: seq<byte>, i: nat)
    requires i + |s| < MaxVarintLen64
    requires forall k :: 0 <= k < |s| ==> s[k] >= 0x80
    ensures UvarintFrom(s, i) == (0, 0)
    decreases |s|
  {
    if |s| > 0 {
      UvarintFromTruncated(s[1..], i + 1);
    }
  }

  lemma UvarintTruncated(s: seq<byte>)
    requires |s| < MaxVarintLen64
    requires forall k :: 0 <= k < |s| ==> s[k] >= 0x80
    ensures Uvarint(s) == (0, 0)
  {
    UvarintFromTruncated(s, 0);
  }

  /**
   * Ten continuation bytes followed by at least one more byte: the slice
   * decoder stops at the eleventh byte and reports count -11.
   */
  lemma {:induction false} UvarintFromTooLong(s: seq<byte>, i: nat)
    requires i <= MaxVarintLen64 && i + |s| > MaxVarintLen64
    requires forall k :: 0 <= k < MaxVarintLen64 - i ==> s[k] >= 0x80
    ensures UvarintFrom(s, i) == (0, -MaxVarintLen64 - 1)
    decreases MaxVarintLen64 - i
  {
    if i < MaxVarintLen64 {
      assert s[0] >= 0x80;
      assert forall k :: 0 <= k < MaxVarintLen64 - (i + 1) ==> s[1..][k] == s[k + 1];
      UvarintFromTooLong(s[1..], i + 1);
      assert UvarintFrom(s[1..], i + 1).1 == -MaxVarintLen64 - 1;
    } else {
      assert |s| > 0;
    }
  }

  lemma UvarintTooLong(s: seq<byte>)
    requires |s| > MaxVarintLen64
    requires forall k :: 0 <= k < MaxVarintLen64 ==> s[k] >= 0x80
    ensures Uvarint(s) == (0, -MaxVarintLen64 - 1)
  {
    UvarintFromTooLong(s, 0);
  }

  // ---------------------------------------------------------------------
  // Lengths of encodings, measured in powers of 128.

  /** 128^k encodes as k continuation bytes 0x80 and then 0x01. */
  lemma {:induction false} EncodePowerOf128(k: nat, x: nat)
    requires x == Power128(k)
    ensures Encode(x) == Continuations(k) + [0x01]
  {
    if k > 0 {
      var y := Power128(k - 1);
      assert x == 0x80 * y;
      assert x / 0x80 == y && x % 0x80 == 0;
      EncodePowerOf128(k - 1, y);
    }
  }

  function Power128(k: nat): (r: nat)
    ensures r >= 1
  {
    if k == 0 then 1 else 0x80 * Power128(k - 1)
  }

  /** k bytes 0x80. */
  function Continuations(k: nat): (r: seq<byte>)
    ensures |r| == k && forall i :: 0 <= i < k ==> r[i] == 0x80
  {
    if k == 0 then [] else [0x80] + Continuations(k - 1)
  }

  /** A value below 128^k encodes in at most k bytes. */
  lemma {:induction false} EncodeBelowPower(k: nat, x: nat)
    requires k >= 1 && x < Power128(k)
    ensures |Encode(x)| <= k
  {
    if x >= 0x80 {
      var y := Power128(k - 1);
      assert Power128(k) == 0x80 * y;
      assert k >= 2 && x / 0x80 < y;
      EncodeBelowPower(k - 1, x / 0x80);
    }
  }

  /** Every non-negative Go int encodes in at most 9 bytes. */
  lemma EncodeIntLength(x: nat)
    requires x <= MaxInt
    ensures |Encode(x)| <= MaxVarintLen64 - 1
  {
    assert Power128(9) == MaxInt + 1;
    EncodeBelowPower(9, x);
  }

  /** A value of at least 128^k needs more than k bytes. */
  lemma {:induction false} EncodeAbovePower(k: nat, x: nat)
    requires x >= Power128(k)
    ensures |Encode(x)| > k
  {
    if k > 0 {
      var y := Power128(k - 1);
      assert Power128(k) == 0x80 * y;
      assert x >= 0x80 && x / 0x80 >= y;
      EncodeAbovePower(k - 1, x / 0x80);
    }
  }
}
