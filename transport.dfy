/** The stop-and-wait endpoint (handout/d1_udp.c): sending a data frame
    and waiting for its acknowledgement, retrying on a wrong one, and
    receiving a frame, acknowledging it when it is intact.

    The datagram socket is modelled by what the peer will deliver to it
    (`incoming`, one entry per receive call, `None` for a receive that
    fails) and by the frames written to it (`sent`). Once the script is
    used up, every further receive fails. A receive that blocks because
    nothing arrives has no counterpart: the source's socket has no
    receive timeout, and BlockingWaitTimesOut states what that means for
    the wait for an acknowledgement. */
module Transport {
  import opened Bytes
  import opened XorChecksum
  import opened Framing

  datatype Option<T> = None | Some(value: T)

  /** What successive receive calls on a socket return. */
  type Script = seq<Option<seq<byte>>>

  /** The number of attempts the sender makes to read an acknowledgement. */
  const ACK_ATTEMPTS: nat := 100

  /** recvfrom with a buffer of `cap` bytes: the byte count (-1 on failure)
      and the bytes stored, a datagram longer than `cap` being cut short. */
  function Receive(script: Script, cap: nat): (r: (int, seq<byte>))
    ensures r.0 == -1 <==> |script| == 0 || script[0].None?
    ensures r.0 == -1 ==> r.1 == []
    ensures r.0 >= 0 ==> r.0 == |r.1| <= cap && r.1 <= script[0].value
    ensures r.0 >= 0 ==> (r.0 == cap || r.1 == script[0].value)
  {
    if |script| == 0 || script[0].None? then (-1, [])
    else
      var d := script[0].value;
      var n := if |d| < cap then |d| else cap;
      (n, d[..n])
  }

  /** The deliveries left after one receive call. */
  function Advance(script: Script): Script
  {
    if |script| == 0 then [] else script[1..]
  }

  /** A receive on this entry yields no byte (a failed receive, an empty
      datagram or a zero-sized buffer). */
  predicate Silent(entry: Option<seq<byte>>, cap: nat)
  {
    entry.None? || |entry.value| == 0 || cap == 0
  }

  class Socket {
    var incoming: Script
    var sent: seq<seq<byte>>

    constructor(script: Script)
      ensures incoming == script && sent == []
    {
      incoming := script;
      sent := [];
    }

    method RecvFrom(cap: nat) returns (n: int, data: seq<byte>)
      modifies this`incoming
      ensures (n, data) == Receive(old(incoming), cap)
      ensures incoming == Advance(old(incoming))
    {
      n, data := Receive(incoming, cap).0, Receive(incoming, cap).1;
      incoming := Advance(incoming);
    }

    method SendTo(frame: seq<byte>)
      modifies this`sent
      ensures sent == old(sent) + [frame]
    {
      sent := sent + [frame];
    }
  }

  /** How the wait for an acknowledgement ended. */
  datatype AckOutcome = Acked | WrongAck | NoAck

  /** The code d1_wait_ack returns for an outcome. */
  function AckCode(o: AckOutcome): (code: int)
    ensures o == Acked <==> code == 1
    ensures o == WrongAck <==> code == -1
    ensures o == NoAck <==> code == 0
  {
    match o
    case Acked => 1
    case WrongAck => -1
    case NoAck => 0
  }

  /** The wait for an acknowledgement of sequence bit `expected`, with a
      receive buffer of `cap` bytes and `attempts` receive calls left: the
      first receive that yields a byte decides, by its acknowledgement
      bit; when none does, the wait ends without an acknowledgement. At
      most `attempts` deliveries are consumed. */
  function AwaitAck(script: Script, cap: nat, expected: Bit, attempts: nat): (r: (AckOutcome, Script))
    ensures |r.1| <= |script|
    ensures r.0 != NoAck ==> |r.1| < |script|
    ensures |script| - |r.1| <= attempts
    decreases attempts
  {
    if attempts == 0 then (NoAck, script)
    else
      var (n, data) := Receive(script, cap);
      if n > 0 then
        (if AckBit(data) == expected then Acked else WrongAck, Advance(script))
      else
        AwaitAck(Advance(script), cap, expected, attempts - 1)
  }

  /** A silent receive uses up one attempt and nothing else. */
  lemma AwaitAckSilentStep(script: Script, cap: nat, expected: Bit, attempts: nat)
    requires attempts > 0 && Receive(script, cap).0 <= 0
    ensures AwaitAck(script, cap, expected, attempts) == AwaitAck(Advance(script), cap, expected, attempts - 1)
  {
  }

  /** A receive that yields a byte ends the wait. */
  lemma AwaitAckHeardStep(script: Script, cap: nat, expected: Bit, attempts: nat)
    requires attempts > 0 && Receive(script, cap).0 > 0
    ensures AwaitAck(script, cap, expected, attempts)
         == (if AckBit(Receive(script, cap).1) == expected then Acked else WrongAck, Advance(script))
  {
  }

  /** A datagram of at least two bytes at the head of the deliveries
      decides the wait by its acknowledgement bit when the receive buffer
      holds at least two bytes. */
  lemma AwaitAckHears(script: Script, cap: nat, expected: Bit, attempts: nat)
    requires attempts > 0 && 2 <= cap && |script| > 0 && script[0].Some? && |script[0].value| >= 2
    ensures AwaitAck(script, cap, expected, attempts)
         == (if AckBit(script[0].value) == expected then Acked else WrongAck, script[1..])
  {
    var r := Receive(script, cap);
    assert r.1[1] == script[0].value[1];
    AwaitAckHeardStep(script, cap, expected, attempts);
  }

  /** The wait ends without an acknowledgement exactly when every receive
      it makes is silent; it then consumes `attempts` deliveries (or all). */
  lemma {:induction false} AwaitAckTimesOut(script: Script, cap: nat, expected: Bit, attempts: nat)
    requires forall k :: 0 <= k < attempts && k < |script| ==> Silent(script[k], cap)
    ensures AwaitAck(script, cap, expected, attempts).0 == NoAck
    ensures AwaitAck(script, cap, expected, attempts).1 == script[if attempts < |script| then attempts else |script|..]
    decreases attempts
  {
    if attempts > 0 {
      AwaitAckTimesOut(Advance(script), cap, expected, attempts - 1);
    }
  }

  /** When the receive at position `j` is the first one that yields a byte,
      its acknowledgement bit decides the outcome and the wait consumes
      exactly the deliveries up to and including it. */
  lemma {:induction false} AwaitAckFirstHeard(script: Script, cap: nat, expected: Bit, attempts: nat, j: nat)
    requires j < attempts && j < |script| && !Silent(script[j], cap)
    requires forall k :: 0 <= k < j ==> Silent(script[k], cap)
    ensures var heard := script[j].value[..if |script[j].value| < cap then |script[j].value| else cap];
      AwaitAck(script, cap, expected, attempts) ==
        (if AckBit(heard) == expected then Acked else WrongAck, script[j + 1..])
    decreases j
  {
    if j > 0 {
      assert Advance(script)[j - 1] == script[j];
      AwaitAckFirstHeard(Advance(script), cap, expected, attempts - 1, j - 1);
    }
  }

  /** The socket has no receive timeout, so a receive only returns once a
      datagram arrives. When each of the wait's receives returns a
      datagram, the wait ends without an acknowledgement exactly when the
      buffer has no room or every one of those datagrams is empty: a peer
      that stays silent never brings it to 0. */
  lemma {:induction false} BlockingWaitTimesOut(script: Script, cap: nat, expected: Bit, attempts: nat)
    requires attempts <= |script|
    requires forall k :: 0 <= k < attempts ==> script[k].Some?
    ensures AwaitAck(script, cap, expected, attempts).0 == NoAck
        <==> (cap == 0 || forall k :: 0 <= k < attempts ==> |script[k].value| == 0)
    decreases attempts
  {
    if attempts > 0 {
      if Receive(script, cap).0 > 0 {
        AwaitAckHeardStep(script, cap, expected, attempts);
      } else {
        AwaitAckSilentStep(script, cap, expected, attempts);
        forall k | 0 <= k < attempts - 1
          ensures Advance(script)[k] == script[k + 1]
        {
        }
        BlockingWaitTimesOut(Advance(script), cap, expected, attempts - 1);
        if cap != 0 && (forall k :: 0 <= k < attempts - 1 ==> |Advance(script)[k].value| == 0) {
          forall k | 0 <= k < attempts
            ensures |script[k].value| == 0
          {
            if k > 0 {
              assert |Advance(script)[k - 1].value| == 0;
            }
          }
        }
      }
    }
  }

  /** What one d1_send_data call does: the result code, the frames it
      writes, the sequence bit it leaves and the deliveries it leaves. */
  datatype SendTrace = SendTrace(code: int, frames: seq<seq<byte>>, seqno: Bit, rest: Script)

  /** d1_send_data as a function of the sequence bit, the deliveries and
      the payload: a frame that would exceed PACKET_MAX is refused before
      anything is sent; otherwise the data frame is sent and the sender
      waits for its acknowledgement. A matching one toggles the bit and
      yields 1, none yields 0, a wrong one makes the sender send the same
      payload again and yield -1 whatever the retry's result. */
  function SendSpec(seqno: Bit, script: Script, payload: seq<byte>): (t: SendTrace)
    ensures t.code in {-1, 0, 1}
    ensures |t.rest| <= |script|
    decreases |script|
  {
    if |payload| + HEADER_SIZE > PACKET_MAX then SendTrace(-1, [], seqno, script)
    else
      var f := DataFrame(seqno, payload);
      var (o, rest) := AwaitAck(script, |payload|, seqno, ACK_ATTEMPTS);
      match o
      case Acked => SendTrace(1, [f], 1 - seqno, rest)
      case NoAck => SendTrace(0, [f], seqno, rest)
      case WrongAck =>
        var retry := SendSpec(seqno, rest, payload);
        SendTrace(-1, [f] + retry.frames, retry.seqno, retry.rest)
  }

  /** One attempt of a send: the data frame goes out, then the wait
      decides; only a wrong acknowledgement leads to a further attempt. */
  lemma SendSpecFirstAttempt(seqno: Bit, script: Script, payload: seq<byte>)
    requires |payload| + HEADER_SIZE <= PACKET_MAX
    ensures var (o, rest) := AwaitAck(script, |payload|, seqno, ACK_ATTEMPTS);
      var t := SendSpec(seqno, script, payload);
      (o != WrongAck ==>
        t == SendTrace(AckCode(o), [DataFrame(seqno, payload)], if o == Acked then 1 - seqno else seqno, rest)) &&
      (o == WrongAck ==>
        var retry := SendSpec(seqno, rest, payload);
        t == SendTrace(-1, [DataFrame(seqno, payload)] + retry.frames, retry.seqno, retry.rest))
  {
  }

  /** An oversized payload is refused before anything is sent. */
  lemma SendRefusesOversized(seqno: Bit, script: Script, payload: seq<byte>)
    requires |payload| + HEADER_SIZE > PACKET_MAX
    ensures SendSpec(seqno, script, payload) == SendTrace(-1, [], seqno, script)
  {
  }

  /** Every frame a send writes, retries included, is the data frame of
      the same payload with the same sequence bit, and at least one is
      written unless the payload is refused. */
  lemma {:induction false} SendFramesAllIdentical(seqno: Bit, script: Script, payload: seq<byte>)
    requires |payload| + HEADER_SIZE <= PACKET_MAX
    ensures var t := SendSpec(seqno, script, payload);
      |t.frames| >= 1 && forall k :: 0 <= k < |t.frames| ==> t.frames[k] == DataFrame(seqno, payload)
    decreases |script|
  {
    var (o, rest) := AwaitAck(script, |payload|, seqno, ACK_ATTEMPTS);
    if o == WrongAck {
      SendFramesAllIdentical(seqno, rest, payload);
    }
  }

  /** A send reports success exactly when its one frame was acknowledged
      on the first wait; it then toggles the sequence bit. A send that
      reports 0 (no acknowledgement heard) leaves the bit as it was. */
  lemma SendOutcomes(seqno: Bit, script: Script, payload: seq<byte>)
    requires |payload| + HEADER_SIZE <= PACKET_MAX
    ensures var t := SendSpec(seqno, script, payload);
      var first := AwaitAck(script, |payload|, seqno, ACK_ATTEMPTS);
      (t.code == 1 <==> first.0 == Acked) &&
      (t.code == 0 <==> first.0 == NoAck) &&
      (t.code == 1 ==> t.frames == [DataFrame(seqno, payload)] && t.seqno == 1 - seqno && t.rest == first.1) &&
      (t.code == 0 ==> t.frames == [DataFrame(seqno, payload)] && t.seqno == seqno && t.rest == first.1)
  {
  }

  /** When the first acknowledgement is wrong but the retry's is right, the
      payload has been delivered and the sequence bit has advanced, yet the
      send reports -1. */
  lemma SuccessfulRetryReportedAsFailure(seqno: Bit, wrong: seq<byte>, right: seq<byte>, later: Script, payload: seq<byte>)
    requires 2 <= |payload| && |payload| + HEADER_SIZE <= PACKET_MAX
    requires |wrong| >= 2 && AckBit(wrong) != seqno && |right| >= 2 && AckBit(right) == seqno
    ensures var t := SendSpec(seqno, [Some(wrong), Some(right)] + later, payload);
      t.code == -1 && t.seqno == 1 - seqno &&
      t.frames == [DataFrame(seqno, payload), DataFrame(seqno, payload)] && t.rest == later
  {
    var script := [Some(wrong), Some(right)] + later;
    var rest := [Some(right)] + later;
    assert script[1..] == rest;
    assert rest[1..] == later;
    AwaitAckHears(rest, |payload|, seqno, ACK_ATTEMPTS);
    AwaitAckHears(script, |payload|, seqno, ACK_ATTEMPTS);
  }

  /** Two successive successful sends carry opposite sequence bits, and the
      second send's frames all carry the toggled bit. */
  lemma ConsecutiveSendsAlternate(seqno: Bit, script: Script, p: seq<byte>, q: seq<byte>)
    requires |p| + HEADER_SIZE <= PACKET_MAX && |q| + HEADER_SIZE <= PACKET_MAX
    requires SendSpec(seqno, script, p).code == 1
    ensures var first := SendSpec(seqno, script, p);
      var second := SendSpec(first.seqno, first.rest, q);
      first.frames == [DataFrame(seqno, p)] &&
      forall k :: 0 <= k < |second.frames| ==> second.frames[k] == DataFrame(1 - seqno, q)
  {
    SendOutcomes(seqno, script, p);
    var first := SendSpec(seqno, script, p);
    SendFramesAllIdentical(first.seqno, first.rest, q);
  }

  /** With an empty payload the sender's receive buffer has no room, every
      receive is silent and, once its receives have returned, the send
      gives 0. */
  lemma EmptyPayloadTimesOut(seqno: Bit, script: Script)
    ensures SendSpec(seqno, script, []).code == 0
    ensures SendSpec(seqno, script, []).frames == [DataFrame(seqno, [])]
  {
    AwaitAckTimesOut(script, 0, seqno, ACK_ATTEMPTS);
  }

  /** When the peer's acknowledgement with the right bit is the first
      delivery, a send of at least two payload bytes succeeds. */
  lemma PeerAckIsAccepted(seqno: Bit, later: Script, payload: seq<byte>)
    requires 2 <= |payload| && |payload| + HEADER_SIZE <= PACKET_MAX
    ensures var t := SendSpec(seqno, [Some(AckFrame(seqno))] + later, payload);
      t.code == 1 && t.seqno == 1 - seqno && t.rest == later
  {
    var script := [Some(AckFrame(seqno))] + later;
    assert script[1..] == later;
    AckFrameAccepted(seqno);
    AckFrameCarriesBit(seqno);
    AwaitAckHears(script, |payload|, seqno, ACK_ATTEMPTS);
  }

  /** What d1_recv_data receives and whether it acknowledges it: the byte
      count, the bytes, and whether the bytes hold a header that passes
      the integrity check. */
  predicate Intact(n: int, data: seq<byte>)
  {
    n >= HEADER_SIZE && |data| >= HEADER_SIZE && Accepts(data)
  }

  /** The acknowledgement a receive of at most `cap` bytes sends: one
      carrying `seqno` when the bytes are intact, none otherwise. */
  function AckReply(script: Script, cap: nat, seqno: Bit): (acks: seq<seq<byte>>)
    ensures |acks| <= 1
  {
    var (n, data) := Receive(script, cap);
    if Intact(n, data) then [AckFrame(seqno)] else []
  }

  /** The bytes a receive of at most `cap` bytes hands to the caller: what
      follows the header, or nothing when not even a header arrived. */
  function Delivered(script: Script, cap: nat): (p: seq<byte>)
    ensures var n := Receive(script, cap).0;
      |p| == (if n >= HEADER_SIZE then n - HEADER_SIZE else 0)
  {
    var (n, data) := Receive(script, cap);
    if n >= HEADER_SIZE then data[HEADER_SIZE..] else []
  }

  /** A data frame that fits the receive buffer arrives intact, and what
      follows its header is the payload. */
  lemma IntactFrameDelivered(seqno: Bit, payload: seq<byte>, later: Script, cap: nat)
    requires |payload| + HEADER_SIZE <= cap && |payload| + HEADER_SIZE < 0x1_0000_0000
    ensures var (n, data) := Receive([Some(DataFrame(seqno, payload))] + later, cap);
      Intact(n, data) && n - HEADER_SIZE == |payload| && data[HEADER_SIZE..] == payload
  {
    var f := DataFrame(seqno, payload);
    FrameAccepted(DataFlags(seqno), payload);
    FrameLayout(DataFlags(seqno), payload);
    assert f[..|f|] == f;
  }

  /** A data frame with one byte changed in transit is not acknowledged. */
  lemma CorruptedFrameNotAcknowledged(seqno: Bit, payload: seq<byte>, i: nat, v: byte, later: Script, cap: nat)
    requires |payload| + HEADER_SIZE <= cap && |payload| + HEADER_SIZE < 0x1_0000_0000
    requires i < |DataFrame(seqno, payload)| && v != DataFrame(seqno, payload)[i]
    ensures var (n, data) := Receive([Some(DataFrame(seqno, payload)[i := v])] + later, cap);
      !Intact(n, data)
  {
    var g := DataFrame(seqno, payload)[i := v];
    CorruptedFrameRejected(DataFlags(seqno), payload, i, v);
    assert g[..|g|] == g;
  }

  class Peer {
    const socket: Socket
    var nextSeqno: Bit

    constructor(socket: Socket, seqno: Bit)
      ensures this.socket == socket && nextSeqno == seqno
    {
      this.socket := socket;
      nextSeqno := seqno;
    }

    /** d1_wait_ack: up to ACK_ATTEMPTS receives of at most `sz` bytes;
        the first that yields a byte decides. A matching bit toggles the
        sequence bit and returns 1, a wrong one returns -1, none returns 0. */
    method WaitAck(sz: nat) returns (r: int)
      modifies this`nextSeqno, socket`incoming
      ensures var (o, rest) := AwaitAck(old(socket.incoming), sz, old(nextSeqno), ACK_ATTEMPTS);
        r == AckCode(o) && socket.incoming == rest &&
        nextSeqno == (if o == Acked then 1 - old(nextSeqno) else old(nextSeqno))
    {
      var expected := nextSeqno;
      ghost var script0 := socket.incoming;
      var counter := 0;
      while counter < ACK_ATTEMPTS
        invariant 0 <= counter <= ACK_ATTEMPTS && nextSeqno == expected
        invariant AwaitAck(script0, sz, expected, ACK_ATTEMPTS)
               == AwaitAck(socket.incoming, sz, expected, ACK_ATTEMPTS - counter)
      {
        ghost var before := socket.incoming;
        var n, data := socket.RecvFrom(sz);
        if n > 0 {
          AwaitAckHeardStep(before, sz, expected, ACK_ATTEMPTS - counter);
        } else {
          AwaitAckSilentStep(before, sz, expected, ACK_ATTEMPTS - counter);
        }
        counter := counter + 1;
        if n > 0 {
          if AckBit(data) != expected {
            return -1;
          } else {
            nextSeqno := 1 - nextSeqno;
            return 1;
          }
        }
      }
      return 0;
    }

    /** d1_send_data: refuse an oversized payload, otherwise build and send
        the data frame for the current sequence bit, wait for its
        acknowledgement, and on a wrong one send the payload again,
        discarding the retry's result. */
    method SendData(payload: seq<byte>) returns (r: int)
      modifies this`nextSeqno, socket
      ensures var t := SendSpec(old(nextSeqno), old(socket.incoming), payload);
        r == t.code && socket.sent == old(socket.sent) + t.frames &&
        socket.incoming == t.rest && nextSeqno == t.seqno
      decreases |socket.incoming|
    {
      if |payload| + HEADER_SIZE > PACKET_MAX {
        r := -1;
      } else {
        ghost var seqno, script, sent0 := nextSeqno, socket.incoming, socket.sent;
        SendSpecFirstAttempt(seqno, script, payload);
        var frame := BuildFrame(DataFlags(nextSeqno), payload);
        socket.SendTo(frame[..]);
        assert socket.sent == sent0 + [DataFrame(seqno, payload)];
        r := WaitAck(|payload|);
        if r == -1 {
          ghost var sent1, rest := socket.sent, socket.incoming;
          var _ := SendData(payload);
          ghost var retry := SendSpec(seqno, rest, payload);
          assert socket.sent == sent1 + retry.frames;
          assert sent1 + retry.frames == sent0 + ([DataFrame(seqno, payload)] + retry.frames);
        }
      }
    }

    /** d1_send_ack: send a bare acknowledgement frame. Its bit is this
        endpoint's own sequence bit; the `seqno` argument is not used. */
    method SendAck(seqno: int)
      modifies socket`sent
      ensures socket.sent == old(socket.sent) + [AckFrame(nextSeqno)]
    {
      var frame := BuildFrame(AckFlags(nextSeqno), []);
      socket.SendTo(frame[..]);
    }

    /** The integrity check of d1_recv_data on `n` received bytes: zero the
        checksum field of a copy, recompute the checksum, compare it and the
        byte count with the header, and acknowledge with this endpoint's
        sequence bit when both agree. */
    method AckIfIntact(n: nat, packet: seq<byte>)
      requires n == |packet| >= HEADER_SIZE
      modifies socket`sent
      ensures socket.sent == old(socket.sent) + (if Intact(n, packet) then [AckFrame(nextSeqno)] else [])
    {
      var copy := new byte[n](k requires 0 <= k < n => packet[k]);
      copy[2], copy[3] := 0, 0;
      assert copy[..n] == ZeroedChecksum(packet);
      var sum := CalculateChecksum(copy, n);
      var declared, size := FromBe16(packet[2..4]), FromBe32(packet[4..8]);
      if sum == declared && n == size {
        SendAck(nextSeqno);
      }
    }

    /** d1_recv_data: receive at most `sz` bytes; when they hold an intact
        frame, acknowledge it with this endpoint's sequence bit; copy what
        follows the header into `buffer` (intact or not) and return the
        byte count minus the header size. */
    method RecvData(buffer: array<byte>, sz: nat) returns (r: int)
      requires sz <= buffer.Length + HEADER_SIZE
      modifies socket, buffer
      ensures r == Receive(old(socket.incoming), sz).0 - HEADER_SIZE
      ensures socket.incoming == Advance(old(socket.incoming))
      ensures socket.sent == old(socket.sent) + AckReply(old(socket.incoming), sz, nextSeqno)
      ensures Overlaid(buffer[..], Delivered(old(socket.incoming), sz), old(buffer[..]))
    {
      var n, packet := socket.RecvFrom(sz);
      if n >= HEADER_SIZE {
        AckIfIntact(n, packet);
        CopyInto(buffer, 0, packet[HEADER_SIZE..]);
      }
      r := n - HEADER_SIZE;
    }
  }
}
