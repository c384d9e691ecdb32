/** The lookup client's packet exchange (handout/d2_lookup.c): it sends a
    request for an id over the stop-and-wait layer, then receives the size
    of the answer and the answer's packets, checking each packet's type.

    Packets start with a big-endian 16-bit type. A request is the type,
    two zero padding bytes and the big-endian 32-bit id; a response-size
    packet is the type and a big-endian 16-bit size. */
module Lookup {
  import opened Bytes
  import opened Framing
  import opened Transport

  // Packet types: distinct single-bit values.
  const TYPE_REQUEST: uint16 := 1
  const TYPE_RESPONSE_SIZE: uint16 := 2
  const TYPE_RESPONSE: uint16 := 4
  const TYPE_LAST_RESPONSE: uint16 := 8

  /** sizeof(PacketRequest): type, padding, id. */
  const REQUEST_BYTES: nat := 8
  /** sizeof(PacketResponseSize): type, size. */
  const SIZE_REPLY_BYTES: nat := 4
  /** Ids up to this one are refused. */
  const MIN_ID: nat := 1000

  /** The request for `id` as the client lays it out: calloc zeroes the
      padding, the type and the id go in network byte order. */
  function RequestPacket(id: uint32): (p: seq<byte>)
    ensures |p| == REQUEST_BYTES
  {
    Be16(TYPE_REQUEST) + [0, 0] + Be32(id)
  }

  /** A request packet carries its type and its id, and so no two ids
      share a packet. */
  lemma {:induction false} RequestPacketDecodes(id: uint32)
    ensures FromBe16(RequestPacket(id)[..2]) == TYPE_REQUEST
    ensures FromBe32(RequestPacket(id)[4..8]) == id
  {
    var p := RequestPacket(id);
    assert p[..2] == Be16(TYPE_REQUEST);
    assert p[4..8] == Be32(id);
    Be16RoundTrip(TYPE_REQUEST);
    Be32RoundTrip(id);
  }

  /** Different ids give different request packets. */
  lemma {:induction false} RequestPacketInjective(a: uint32, b: uint32)
    requires a != b
    ensures RequestPacket(a) != RequestPacket(b)
  {
    RequestPacketDecodes(a);
    RequestPacketDecodes(b);
  }

  /** What d2_send_request returns for a send of the request: the layer's
      positive result, or 0 for a wait that heard nothing or a wrong acknowledgement. */
  function RequestResult(t: SendTrace): (r: int)
    ensures r >= 0
    ensures r > 0 <==> t.code > 0
    ensures r > 0 ==> r == t.code
  {
    if t.code <= 0 then 0 else t.code
  }

  /** A request always fits in a frame, so it is never refused for its
      size: it reports success exactly when the first wait hears the
      matching acknowledgement, and every frame written (retries
      included) is the data frame of the request. */
  lemma {:induction false} RequestOutcomes(seqno: Bit, script: Script, id: uint32)
    ensures var t := SendSpec(seqno, script, RequestPacket(id));
      var first := AwaitAck(script, REQUEST_BYTES, seqno, ACK_ATTEMPTS);
      (RequestResult(t) == 1 <==> first.0 == Acked) &&
      (RequestResult(t) == 0 <==> first.0 != Acked) &&
      |t.frames| >= 1 &&
      forall k :: 0 <= k < |t.frames| ==> t.frames[k] == DataFrame(seqno, RequestPacket(id))
  {
    SendOutcomes(seqno, script, RequestPacket(id));
    SendFramesAllIdentical(seqno, script, RequestPacket(id));
  }

  /** When the server's matching acknowledgement arrives first, a request
      succeeds and toggles the sequence bit. */
  lemma {:induction false} RequestAcknowledged(seqno: Bit, later: Script, id: uint32)
    ensures var t := SendSpec(seqno, [Some(AckFrame(seqno))] + later, RequestPacket(id));
      RequestResult(t) == 1 && t.seqno == 1 - seqno && t.rest == later &&
      t.frames == [DataFrame(seqno, RequestPacket(id))]
  {
    var script := [Some(AckFrame(seqno))] + later;
    PeerAckIsAccepted(seqno, later, RequestPacket(id));
    SendOutcomes(seqno, script, RequestPacket(id));
  }

  /** A response-size packet for `size`. */
  function SizeReply(size: uint16): (p: seq<byte>)
    ensures |p| == SIZE_REPLY_BYTES
  {
    Be16(TYPE_RESPONSE_SIZE) + Be16(size)
  }

  /** What the size receive makes of a receive of `n` bytes `data` into a
      buffer of `cap` bytes (at most the header and a size packet): no
      packet bytes give -1; otherwise the received packet bytes fill the
      front of the zeroed four-byte packet buffer, a type other than
      TYPE_RESPONSE_SIZE gives -1, and the right type gives the size field. */
  function SizeAnswer(n: int, data: seq<byte>): (r: int)
    requires n <= HEADER_SIZE + SIZE_REPLY_BYTES && (n >= 0 ==> n == |data|)
    ensures r == -1 || 0 <= r < 0x1_0000
    ensures n <= HEADER_SIZE ==> r == -1
  {
    if n - HEADER_SIZE <= 0 then -1
    else
      var packet := data[HEADER_SIZE..] + [0, 0, 0, 0][..HEADER_SIZE + SIZE_REPLY_BYTES - n];
      if FromBe16(packet[..2]) != TYPE_RESPONSE_SIZE then -1 else FromBe16(packet[2..4])
  }

  /** As written, the size receive passes the packet's size, four bytes,
      as the capacity of a receive that must also hold the 8-byte header:
      whatever arrives, at most four bytes are read and the answer is -1. */
  lemma {:induction false} SizeAnswerAsWrittenFails(script: Script)
    ensures var (n, data) := Receive(script, SIZE_REPLY_BYTES);
      SizeAnswer(n, data) == -1
  {
    var (n, data) := Receive(script, SIZE_REPLY_BYTES);
    assert n <= SIZE_REPLY_BYTES;
  }

  /** A receive whose capacity holds the header and the packet reads back
      the size of an intact response-size frame, and acknowledges it. */
  lemma {:induction false} SizeAnswerDecodes(seqno: Bit, size: uint16, later: Script)
    ensures var (n, data) := Receive([Some(DataFrame(seqno, SizeReply(size)))] + later, HEADER_SIZE + SIZE_REPLY_BYTES);
      Intact(n, data) && SizeAnswer(n, data) == size
  {
    IntactFrameDelivered(seqno, SizeReply(size), later, HEADER_SIZE + SIZE_REPLY_BYTES);
    var (n, data) := Receive([Some(DataFrame(seqno, SizeReply(size)))] + later, HEADER_SIZE + SIZE_REPLY_BYTES);
    var p := SizeReply(size);
    assert data[HEADER_SIZE..] + [0, 0, 0, 0][..0] == p;
    assert p[..2] == Be16(TYPE_RESPONSE_SIZE) && p[2..4] == Be16(size);
    Be16RoundTrip(TYPE_RESPONSE_SIZE);
    Be16RoundTrip(size);
  }

  /** A complete packet of any other type is refused. */
  lemma {:induction false} SizeAnswerRejectsOtherTypes(n: int, data: seq<byte>)
    requires n == HEADER_SIZE + SIZE_REPLY_BYTES == |data|
    requires FromBe16(data[HEADER_SIZE..HEADER_SIZE + 2]) != TYPE_RESPONSE_SIZE
    ensures SizeAnswer(n, data) == -1
  {
    assert (data[HEADER_SIZE..] + [0, 0, 0, 0][..0])[..2] == data[HEADER_SIZE..HEADER_SIZE + 2];
  }

  /** The response types the answer receive accepts. */
  predicate IsResponseType(typ: uint16)
  {
    typ == TYPE_RESPONSE || typ == TYPE_LAST_RESPONSE
  }

  /** What d2_recv_response returns for a receive that yielded `wc` packet
      bytes and a packet whose type field reads `typ`. */
  function ResponseAnswer(wc: int, typ: uint16): (r: int)
    ensures r == -1 <==> wc <= 0 || !IsResponseType(typ)
    ensures r != -1 ==> r == wc
  {
    if wc <= 0 || !IsResponseType(typ) then -1 else wc
  }

  /** An intact response frame that fits the receive is delivered whole:
      its packet bytes lead the caller's buffer, whatever the buffer held
      before, and the answer is the packet's length. */
  lemma {:induction false} ResponseDelivered(seqno: Bit, packet: seq<byte>, later: Script, cap: nat, before: seq<byte>, after: seq<byte>)
    requires 2 <= |packet| && |packet| + HEADER_SIZE <= cap < 0x1_0000_0000
    requires IsResponseType(FromBe16(packet[..2]))
    requires Overlaid(after, Delivered([Some(DataFrame(seqno, packet))] + later, cap), before)
    ensures var (n, data) := Receive([Some(DataFrame(seqno, packet))] + later, cap);
      Intact(n, data) && Delivered([Some(DataFrame(seqno, packet))] + later, cap) == packet &&
      ResponseAnswer(n - HEADER_SIZE, FromBe16(after[..2])) == |packet|
  {
    IntactFrameDelivered(seqno, packet, later, cap);
    assert after[..2] == packet[..2];
  }

  /** A response packet of any other type is refused, whatever its
      length. */
  lemma {:induction false} ResponseRejectsOtherTypes(wc: int, typ: uint16)
    requires typ != TYPE_RESPONSE && typ != TYPE_LAST_RESPONSE
    ensures ResponseAnswer(wc, typ) == -1
  {
  }

  class Client {
    const peer: Peer
    /** Set once d2_client_delete has released the client. */
    var deleted: bool

    constructor(peer: Peer)
      ensures this.peer == peer && !deleted
    {
      this.peer := peer;
      deleted := false;
    }

    /** d2_send_request: refuse ids up to MIN_ID with 0 and send nothing;
        otherwise send the request packet. A send that yields 0 or -1
        deletes the client and gives 0; a successful one gives the send's
        result. */
    method SendRequest(id: uint32) returns (r: int)
      requires !deleted
      modifies this`deleted, peer`nextSeqno, peer.socket
      ensures id <= MIN_ID ==>
        r == 0 && !deleted && peer.nextSeqno == old(peer.nextSeqno) &&
        peer.socket.sent == old(peer.socket.sent) && peer.socket.incoming == old(peer.socket.incoming)
      ensures id > MIN_ID ==>
        var t := SendSpec(old(peer.nextSeqno), old(peer.socket.incoming), RequestPacket(id));
        r == RequestResult(t) && deleted == (t.code <= 0) &&
        peer.socket.sent == old(peer.socket.sent) + t.frames &&
        peer.socket.incoming == t.rest && peer.nextSeqno == t.seqno
    {
      if id <= MIN_ID {
        return 0;
      }
      var packet := RequestPacket(id);
      var wc := peer.SendData(packet);
      if wc <= 0 {
        deleted := true;
        return 0;
      }
      return wc;
    }

    /** The size receive with a receive capacity of `cap` bytes into a
        zeroed packet buffer of SIZE_REPLY_BYTES bytes. */
    method ReceiveSizeReply(cap: nat) returns (r: int)
      requires cap <= HEADER_SIZE + SIZE_REPLY_BYTES
      modifies peer.socket
      ensures var (n, data) := Receive(old(peer.socket.incoming), cap); r == SizeAnswer(n, data)
      ensures peer.socket.incoming == Advance(old(peer.socket.incoming))
      ensures peer.socket.sent == old(peer.socket.sent) + AckReply(old(peer.socket.incoming), cap, peer.nextSeqno)
    {
      ghost var script := peer.socket.incoming;
      var buffer := new byte[SIZE_REPLY_BYTES](_ => 0);
      var wc := peer.RecvData(buffer, cap);
      if wc <= 0 {
        r := -1;
      } else {
        ghost var (n, data) := Receive(script, cap);
        assert buffer[..] == data[HEADER_SIZE..] + [0, 0, 0, 0][..HEADER_SIZE + SIZE_REPLY_BYTES - n];
        if FromBe16(buffer[..2]) != TYPE_RESPONSE_SIZE {
          r := -1;
        } else {
          r := FromBe16(buffer[2..4]);
        }
      }
    }

    /** d2_recv_response_size as written: the receive capacity is the
        packet's size alone, so the answer is always -1 and nothing is
        acknowledged. */
    method RecvResponseSize() returns (r: int)
      modifies peer.socket
      ensures r == -1
      ensures peer.socket.incoming == Advance(old(peer.socket.incoming))
      ensures peer.socket.sent == old(peer.socket.sent)
    {
      ghost var script := peer.socket.incoming;
      r := ReceiveSizeReply(SIZE_REPLY_BYTES);
      SizeAnswerAsWrittenFails(script);
      assert AckReply(script, SIZE_REPLY_BYTES, peer.nextSeqno) == [];
    }

    /** d2_recv_response_size with the capacity it needs: the header and
        the packet. */
    method RecvResponseSizeCorrected() returns (r: int)
      modifies peer.socket
      ensures var (n, data) := Receive(old(peer.socket.incoming), HEADER_SIZE + SIZE_REPLY_BYTES); r == SizeAnswer(n, data)
      ensures peer.socket.incoming == Advance(old(peer.socket.incoming))
      ensures peer.socket.sent == old(peer.socket.sent) + AckReply(old(peer.socket.incoming), HEADER_SIZE + SIZE_REPLY_BYTES, peer.nextSeqno)
    {
      r := ReceiveSizeReply(HEADER_SIZE + SIZE_REPLY_BYTES);
    }

    /** d2_recv_response: receive into `buffer` of `sz` bytes with a
        capacity of `sz` less the header; no packet bytes give -1, a type
        other than TYPE_RESPONSE or TYPE_LAST_RESPONSE gives -1, otherwise
        the number of packet bytes. */
    method RecvResponse(buffer: array<byte>, sz: nat) returns (r: int)
      requires HEADER_SIZE <= sz <= buffer.Length
      modifies peer.socket, buffer
      ensures peer.socket.incoming == Advance(old(peer.socket.incoming))
      ensures peer.socket.sent == old(peer.socket.sent) + AckReply(old(peer.socket.incoming), sz - HEADER_SIZE, peer.nextSeqno)
      ensures Overlaid(buffer[..], Delivered(old(peer.socket.incoming), sz - HEADER_SIZE), old(buffer[..]))
      ensures r == ResponseAnswer(Receive(old(peer.socket.incoming), sz - HEADER_SIZE).0 - HEADER_SIZE, FromBe16(buffer[..2]))
    {
      var wc := peer.RecvData(buffer, sz - HEADER_SIZE);
      if wc <= 0 {
        r := -1;
      } else if FromBe16(buffer[..2]) != TYPE_RESPONSE && FromBe16(buffer[..2]) != TYPE_LAST_RESPONSE {
        r := -1;
      } else {
        r := wc;
      }
    }
  }
}
