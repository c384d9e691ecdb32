/** The stop-and-wait frame (handout/d1_udp.c): an 8-byte header of
    flags (2 bytes), checksum (2 bytes) and total frame size (4 bytes), all
    in network byte order, followed by the payload. The checksum is taken
    over the whole frame with the checksum field zeroed. */
module Framing {
  import opened Bytes
  import opened XorChecksum

  const HEADER_SIZE: nat := 8
  const PACKET_MAX: nat := 1024

  // Flag bits of the header's first field. They are pairwise disjoint, so
  // the source's bitwise `|` of two of them is their sum.
  const FLAG_DATA: uint16 := 0x8000
  const FLAG_ACK: uint16 := 0x0100
  const SEQNO: uint16 := 0x0080
  const ACKNO: uint16 := 0x0001

  /** A one-bit sequence or acknowledgement number. */
  type Bit = x: int | 0 <= x < 2

  /** The flags of a data frame carrying sequence bit `seqno`. */
  function DataFlags(seqno: Bit): uint16
  {
    if seqno == 1 then FLAG_DATA + SEQNO else FLAG_DATA
  }

  /** The flags of an acknowledgement frame carrying bit `ackno`. */
  function AckFlags(ackno: Bit): uint16
  {
    if ackno == 1 then FLAG_ACK + ACKNO else FLAG_ACK
  }

  /** The frame as laid out before its checksum is known: flags, a zero
      checksum field, the total size, then the payload. */
  function Unsummed(flags: uint16, payload: seq<byte>): (f: seq<byte>)
    requires |payload| + HEADER_SIZE < 0x1_0000_0000
    ensures |f| == HEADER_SIZE + |payload|
  {
    Be16(flags) + [0, 0] + Be32(|payload| + HEADER_SIZE) + payload
  }

  /** The frame that goes on the wire: the checksum of the unsummed layout
      written into bytes 2 and 3. */
  function Frame(flags: uint16, payload: seq<byte>): (f: seq<byte>)
    requires |payload| + HEADER_SIZE < 0x1_0000_0000
    ensures |f| == HEADER_SIZE + |payload|
  {
    Be16(flags) + Be16(Checksum(Unsummed(flags, payload))) + Be32(|payload| + HEADER_SIZE) + payload
  }

  function DataFrame(seqno: Bit, payload: seq<byte>): seq<byte>
    requires |payload| + HEADER_SIZE < 0x1_0000_0000
  {
    Frame(DataFlags(seqno), payload)
  }

  function AckFrame(ackno: Bit): seq<byte>
  {
    Frame(AckFlags(ackno), [])
  }

  /** A received buffer with its checksum field cleared, as the receiver
      prepares it before recomputing the checksum. */
  function ZeroedChecksum(r: seq<byte>): (z: seq<byte>)
    requires |r| >= HEADER_SIZE
    ensures |z| == |r| && z[2] == 0 && z[3] == 0
    ensures forall k :: 0 <= k < |r| && k != 2 && k != 3 ==> z[k] == r[k]
  {
    r[2 := 0][3 := 0]
  }

  /** The receiver's integrity check: the recomputed checksum equals the
      header's checksum field and the header's size equals the number of
      bytes received. */
  predicate Accepts(r: seq<byte>)
    requires |r| >= HEADER_SIZE
    ensures Accepts(r) ==> |r| < 0x1_0000_0000
  {
    Checksum(ZeroedChecksum(r)) == FromBe16(r[2..4]) && FromBe32(r[4..8]) == |r|
  }

  /** A `char` passed where a `uint16_t` is expected: a signed char is
      sign-extended and then taken modulo 2^16. */
  function CharToUint16(c: byte): uint16
  {
    if c < 0x80 then c else c + 0xFF00
  }

  /** ntohs on a little-endian host: the two bytes of the value swapped. */
  function SwapBytes16(x: uint16): uint16
  {
    (x % 256) * 256 + x / 256
  }

  /** Bit 8 of ntohs applied to a received byte is that byte's bit 0,
      whatever its sign. */
  lemma SwappedCharBit(c: byte)
    ensures SwapBytes16(CharToUint16(c)) / 256 % 2 == c % 2
  {
    var x := CharToUint16(c);
    if c < 0x80 {
      DivMod256(x, 0, c);
    } else {
      DivMod256(x, 255, c);
    }
    DivMod256(SwapBytes16(x), c, x / 256);
  }

  /** The acknowledgement bit as the sender reads it from a received
      buffer: bit 0 of byte 1 (a buffer shorter than two bytes reads as 0). */
  function AckBit(data: seq<byte>): Bit
  {
    if |data| < 2 then 0 else data[1] % 2
  }

  /** AckBit is what the sender's expression computes: bit 8 of ntohs
      applied to the second received byte as a signed char. */
  lemma AckBitAsRead(data: seq<byte>)
    requires |data| >= 2
    ensures AckBit(data) == SwapBytes16(CharToUint16(data[1])) / 256 % 2
  {
    SwappedCharBit(data[1]);
  }

  /** The header fields a frame carries and where its payload sits. */
  lemma FrameLayout(flags: uint16, payload: seq<byte>)
    requires |payload| + HEADER_SIZE < 0x1_0000_0000
    ensures var f := Frame(flags, payload);
      FromBe16(f[..2]) == flags &&
      FromBe16(f[2..4]) == Checksum(Unsummed(flags, payload)) &&
      FromBe32(f[4..8]) == |f| &&
      f[HEADER_SIZE..] == payload
  {
    var u := Unsummed(flags, payload);
    var f := Frame(flags, payload);
    var a, b, c := Be16(flags), Be16(Checksum(u)), Be32(|payload| + HEADER_SIZE);
    assert f == a + b + c + payload;
    assert f[..2] == a;
    assert f[2..4] == b;
    assert f[4..8] == c;
    assert f[HEADER_SIZE..] == payload;
    Be16RoundTrip(flags);
    Be16RoundTrip(Checksum(u));
    Be32RoundTrip(|payload| + HEADER_SIZE);
  }

  /** Every frame the sender builds passes the receiver's check. */
  lemma FrameAccepted(flags: uint16, payload: seq<byte>)
    requires |payload| + HEADER_SIZE < 0x1_0000_0000
    ensures Accepts(Frame(flags, payload))
  {
    var f := Frame(flags, payload);
    FrameLayout(flags, payload);
    assert ZeroedChecksum(f) == Unsummed(flags, payload);
  }

  /** Conversely, a buffer that passes the receiver's check is exactly the
      frame of its own flags and payload. */
  lemma AcceptedIsFrame(r: seq<byte>)
    requires |r| >= HEADER_SIZE && Accepts(r)
    ensures |r| - HEADER_SIZE + HEADER_SIZE < 0x1_0000_0000
    ensures r == Frame(FromBe16(r[..2]), r[HEADER_SIZE..])
  {
    var flags, payload := FromBe16(r[..2]), r[HEADER_SIZE..];
    var u := Unsummed(flags, payload);
    FromBe16RoundTrip(r[..2]);
    FromBe16RoundTrip(r[2..4]);
    FromBe32RoundTrip(r[4..8]);
    assert u == ZeroedChecksum(r);
    assert Be16(Checksum(u)) == r[2..4];
    assert r == r[..2] + r[2..4] + r[4..8] + r[HEADER_SIZE..];
  }

  /** A buffer passes the receiver's check if and only if it is a frame. */
  lemma AcceptsIffFrame(r: seq<byte>)
    requires |r| >= HEADER_SIZE && |r| < 0x1_0000_0000
    ensures Accepts(r) <==> r == Frame(FromBe16(r[..2]), r[HEADER_SIZE..])
  {
    if Accepts(r) {
      AcceptedIsFrame(r);
    }
    if r == Frame(FromBe16(r[..2]), r[HEADER_SIZE..]) {
      FrameAccepted(FromBe16(r[..2]), r[HEADER_SIZE..]);
    }
  }

  /** Changing any single byte of a frame makes the receiver reject it:
      a change in the checksum field no longer matches the recomputed
      checksum, a change anywhere else changes the recomputed checksum. */
  lemma CorruptedFrameRejected(flags: uint16, payload: seq<byte>, i: nat, v: byte)
    requires |payload| + HEADER_SIZE < 0x1_0000_0000
    requires i < |Frame(flags, payload)| && v != Frame(flags, payload)[i]
    ensures !Accepts(Frame(flags, payload)[i := v])
  {
    var f := Frame(flags, payload);
    var g := f[i := v];
    FrameAccepted(flags, payload);
    if i == 2 || i == 3 {
      assert ZeroedChecksum(g) == ZeroedChecksum(f);
      assert g[2..4] != f[2..4] by {
        assert g[i] != f[i];
      }
      FromBe16Injective(g[2..4], f[2..4]);
    } else {
      assert ZeroedChecksum(g) == ZeroedChecksum(f)[i := v];
      ChecksumDetectsByteChange(ZeroedChecksum(f), i, v);
      assert g[2..4] == f[2..4];
    }
  }

  /** A frame cut short (but still holding a header) is rejected, because
      its size field no longer matches the bytes received. */
  lemma TruncatedFrameRejected(flags: uint16, payload: seq<byte>, n: nat)
    requires |payload| + HEADER_SIZE < 0x1_0000_0000
    requires HEADER_SIZE <= n < |Frame(flags, payload)|
    ensures !Accepts(Frame(flags, payload)[..n])
  {
    var f := Frame(flags, payload);
    FrameLayout(flags, payload);
    assert f[..n][4..8] == f[4..8];
  }

  /** The first two bytes of a frame are its flags in network byte order. */
  lemma FrameFlagBytes(flags: uint16, payload: seq<byte>)
    requires |payload| + HEADER_SIZE < 0x1_0000_0000
    ensures Frame(flags, payload)[0] == flags / 256
    ensures Frame(flags, payload)[1] == flags % 256
  {
    var f := Frame(flags, payload);
    assert f[0] == Be16(flags)[0] && f[1] == Be16(flags)[1];
  }

  /** Bit 0 of a frame's second byte, where the sender looks for the
      acknowledgement bit, is bit 0 of its flags. */
  lemma FrameAckBit(flags: uint16, payload: seq<byte>)
    requires |payload| + HEADER_SIZE < 0x1_0000_0000
    ensures AckBit(Frame(flags, payload)) == flags % 2
  {
    FrameFlagBytes(flags, payload);
  }

  /** A data frame's first byte is the data flag; its second byte holds
      the sequence bit in bit 7. */
  lemma DataFrameFlags(seqno: Bit, payload: seq<byte>)
    requires |payload| + HEADER_SIZE < 0x1_0000_0000
    ensures DataFrame(seqno, payload)[0] == 0x80
    ensures DataFrame(seqno, payload)[1] == (if seqno == 1 then 0x80 else 0)
  {
    FrameFlagBytes(DataFlags(seqno), payload);
  }

  /** An acknowledgement frame is a bare header that passes the receiver's
      check. */
  lemma AckFrameAccepted(ackno: Bit)
    ensures |AckFrame(ackno)| == HEADER_SIZE
    ensures Accepts(AckFrame(ackno))
  {
    FrameAccepted(AckFlags(ackno), []);
  }

  /** The acknowledgement bit of an acknowledgement frame, as the sender
      reads it, is the bit the frame was built with. */
  lemma AckFrameCarriesBit(ackno: Bit)
    ensures AckBit(AckFrame(ackno)) == ackno
  {
    FrameAckBit(AckFlags(ackno), []);
  }

  lemma ChecksumFieldFilled(fl: seq<byte>, sz: seq<byte>, payload: seq<byte>, cs: seq<byte>)
    requires |fl| == 2 && |sz| == 4 && |cs| == 2
    ensures (fl + [0, 0] + sz + payload)[2 := cs[0]][3 := cs[1]] == fl + cs + sz + payload
  {
    var a := (fl + [0, 0] + sz + payload)[2 := cs[0]][3 := cs[1]];
    var b := fl + cs + sz + payload;
    assert |a| == |b|;
    forall k | 0 <= k < |a|
      ensures a[k] == b[k]
    {
    }
  }

  /** Assembles a frame in a fresh buffer the way the sender does: flags,
      a zero checksum field and the size first, then the payload after the
      header, then the checksum over the whole buffer written into bytes 2
      and 3. */
  method BuildFrame(flags: uint16, payload: seq<byte>) returns (buf: array<byte>)
    requires |payload| + HEADER_SIZE <= PACKET_MAX
    ensures fresh(buf) && buf[..] == Frame(flags, payload)
  {
    var size := |payload| + HEADER_SIZE;
    buf := new byte[size];
    var fl, sz := Be16(flags), Be32(size);
    buf[0], buf[1] := fl[0], fl[1];
    buf[2], buf[3] := 0, 0;
    buf[4], buf[5], buf[6], buf[7] := sz[0], sz[1], sz[2], sz[3];
    assert buf[..HEADER_SIZE] == fl + [0, 0] + sz;
    ghost var header := buf[..HEADER_SIZE];
    CopyInto(buf, HEADER_SIZE, payload);
    ghost var u := buf[..];
    assert u == header + payload;
    assert u == Unsummed(flags, payload);
    var sum := CalculateChecksum(buf, size);
    assert buf[..size] == u;
    var cs := Be16(sum);
    buf[2], buf[3] := cs[0], cs[1];
    assert buf[..] == u[2 := cs[0]][3 := cs[1]];
    ChecksumFieldFilled(fl, sz, payload, cs);
  }
}
