# directory-service: stop-and-wait transport and lookup client in Dafny

This project models the client side of the directory service:

- **`handout/d1_udp.c`, the D1 layer.** It is a stop-and-wait protocol over UDP datagrams.
  - Every datagram carries an 8-byte header: 16-bit flags, a 16-bit XOR checksum and the 32-bit total size, all in network byte order.
  - A sender transmits one data frame, tagged with its current sequence bit. It then waits up to 100 receives for an acknowledgement. A matching bit toggles its sequence bit and gives 1. When 100 receives in a row each fail or yield no byte, it gives 0; the socket has no receive timeout, so a peer that sends nothing blocks the sender for good. A wrong bit gives -1 and triggers a full recursive send of the same payload, which resends again after every further wrong acknowledgement, with no bound on the number of rounds; the outer call still gives -1.
  - A receiver checks the checksum and the declared size of what it reads. It acknowledges an intact frame and hands the bytes after the header to its caller.
- **`handout/d2_lookup.c`, the D2 lookup client.** It runs on top of D1.
  - It sends a request packet carrying a student id.
  - It reads the response-size packet and the response packets.
  - It parses the response stream into `NetNode` records (id, value, child count, up to five child ids) and stores them in a local tree store.

## Modelling choices

- **Sockets.** A socket is a `Transport.Socket` object.
  - `incoming` is the script of what successive `recvfrom` calls deliver. `None` stands for a `recvfrom` that fails and returns -1; `Some(d)` stands for the datagram `d`. Once the script is used up, every further receive reads as a failed one.
  - The socket has no receive timeout, so in the source a `recvfrom` returns only on an error or when a datagram arrives. A peer that sends nothing blocks it for good; the model cannot block, and a script that ends stands for receives that fail, not for silence.
  - `sent` is the sequence of datagrams passed to `sendto`.
  - A receive of capacity `cap` yields the first `cap` bytes of the datagram, as UDP truncation does.
- **Peers and clients.** `Transport.Peer` holds the socket and the sequence bit `next_seqno`. `Lookup.Client` holds the peer and a flag recording that the client was deleted.
- **Bytes.** A byte is an `int` in 0..255, and XOR is defined bit by bit on naturals. Multi-byte fields are sequences of bytes in network byte order.
- **Specification functions.** Each transport method is proved against a function that describes the whole exchange:
  - `Transport.AwaitAck` for one ack wait;
  - `Transport.SendSpec` for one `d1_send_data` call, retries included;
  - `Transport.Receive`, `Transport.AckReply` and `Transport.Delivered` for one `d1_recv_data` call.

  The lemmas then state the protocol's properties about those functions.
- **Node stream.** The response stream is specified by `LocalTree.ParseNodes` and its inverse encoder `LocalTree.EncodeNodes`. `LocalTreeStore.AddToLocalTree` is proved to store exactly what the parser reads.
- **Header constants.** The header files are not part of this model, so their constants are taken as single-bit values:
  - `FLAG_DATA` 0x8000, `FLAG_ACK` 0x0100, `SEQNO` 0x0080, `ACKNO` 0x0001;
  - `TYPE_REQUEST` 1, `TYPE_RESPONSE_SIZE` 2, `TYPE_RESPONSE` 4, `TYPE_LAST_RESPONSE` 8.
- **Packet layouts.** `PacketRequest` is 8 bytes: type, 2 bytes of padding, then the id. `PacketResponseSize` is 4 bytes: type, then size. A `PacketResponse` starts with its 16-bit type. `NetNode` is three 32-bit words followed by five child slots.
- **Host.** It is 64-bit and little-endian, and `char` is signed. So `sizeof(header)` on the header pointer in `d1_send_data` is 8, and the expression at `d1_udp.c:214` (bit 8 of `ntohs` applied to the second byte) reads bit 0 of the second byte of the ack datagram.

### Where the code departs from stop-and-wait ARQ with negative acknowledgements

The protocol the code sets out to implement is stop-and-wait ARQ in which a receiver answers a bad frame with the inverted bit. The model follows the code, which departs from that protocol as follows.

- The receiver does not send a negative acknowledgement for a bad frame: it sends nothing.
- The acknowledgement the receiver sends carries the receiver's own `next_seqno`. It does not carry the bit found in the frame, and the `seqno` argument of `d1_send_ack` is unused.
- The receiver copies the payload to the caller and returns its length even when the frame fails the check.
- The checksum does not skip the checksum field. It zeroes that field and then XORs every byte, which gives the same value.
- The ack wait is bounded by 100 receive attempts, not by a one-second deadline. No receive timeout is ever set on the socket (`d1_create_client` only calls `socket`), and `sleep(0.01)` is `sleep(0)` once the argument is converted to an unsigned integer. So each receive blocks until a datagram arrives, and the wait gives 0 only after 100 receives that each fail or yield no byte; a silent peer blocks it for good.
- The ack wait does not check the ack flag or the checksum of what it hears.
- A successful send returns 1, not the payload length.
- After a wrong acknowledgement the sender sends again, but it returns -1 whatever the retry's outcome.

## Model

| member | source | states |
|---|---|---|
| Bytes.Be16RoundTrip | handout/d1_udp.c:162-163 | decoding a 16-bit value written in network byte order gives the value back (ntohs undoes htons) |
| Bytes.FromBe16RoundTrip | handout/d1_udp.c:162-163 | re-encoding two decoded bytes gives the same two bytes |
| Bytes.Be32RoundTrip | handout/d1_udp.c:164 | ntohl undoes htonl for every 32-bit value |
| Bytes.FromBe32RoundTrip | handout/d1_udp.c:164 | re-encoding four decoded bytes gives the same four bytes |
| Bytes.FromBe16Injective | handout/d1_udp.c:162-163 | distinct byte pairs decode to distinct 16-bit values |
| Bytes.FromBe32Injective | handout/d2_lookup.c:283-285 | distinct byte quadruples decode to distinct 32-bit values |
| Bytes.XorChangesValue | handout/d1_udp.c:55-61 | folding one byte into an accumulator and then a different byte always changes the accumulator |
| Bytes.CopyInto | handout/d1_udp.c:181 | memcpy: the source bytes land at the offset and every other byte of the destination is unchanged |
| XorChecksum.SplitContents | handout/d1_udp.c:55-61 | the first accumulator's input holds exactly the bytes at even offsets, the second's exactly those at odd offsets |
| XorChecksum.ChecksumHalves | handout/d1_udp.c:74 | the high byte of the checksum is the XOR of the even-offset bytes and the low byte the XOR of the odd-offset bytes |
| XorChecksum.Checksum | handout/d1_udp.c:50-77 | an empty buffer has checksum 0 |
| XorChecksum.ChecksumDetectsByteChange | handout/d1_udp.c:55-74 | changing any single byte of a buffer changes its checksum |
| XorChecksum.CalculateChecksum | handout/d1_udp.c:50-77 | the loop returns the checksum of the first `size` bytes, and 0 for a size of 0 or less; the odd-size XOR with 0 changes nothing |
| Framing.Unsummed | handout/d1_udp.c:262-272 | the layout before the checksum is known is 8 bytes longer than the payload |
| Framing.Frame | handout/d1_udp.c:262-276 | the frame on the wire is 8 bytes longer than its payload (its fields are stated by FrameLayout) |
| Framing.FrameLayout | handout/d1_udp.c:262-276 | a frame is 8 bytes longer than its payload; it has flags at 0, the checksum of the frame with a zero checksum field at 2, the total size at 4 and the payload from 8 |
| Framing.DataFrameFlags | handout/d1_udp.c:254-258 | a data frame starts with byte 0x80 (FLAG_DATA), and its second byte is 0x80 (SEQNO) exactly when the sequence bit is 1, otherwise 0 |
| Framing.FrameFlagBytes | handout/d1_udp.c:268 | the first two frame bytes are the flags in network byte order |
| Framing.FrameAckBit | handout/d1_udp.c:213-214 | the bit the ack wait reads from a frame is bit 0 of its flags |
| Framing.AckBitAsRead | handout/d1_udp.c:213-214 | the bit the model reads (bit 0 of the second byte) is bit 8 of `ntohs` applied to that byte as a sign-extended `char`, for every byte value |
| Framing.Accepts | handout/d1_udp.c:172-176 | bookkeeping only: a buffer that passes the check declares its own length in 32 bits; what the check means is stated by AcceptsIffFrame |
| Framing.ZeroedChecksum | handout/d1_udp.c:167-170 | the copy has the same length, zero at offsets 2 and 3, and every other byte equal to the received one |
| Framing.FrameAccepted | handout/d1_udp.c:172-176 | every frame a sender builds passes the receiver's checksum-and-size check |
| Framing.AcceptedIsFrame | handout/d1_udp.c:172-176 | a buffer that passes the check is the frame of its own flags and payload |
| Framing.AcceptsIffFrame | handout/d1_udp.c:172-176 | a buffer of at least 8 bytes passes the check if and only if it is a well-formed frame |
| Framing.CorruptedFrameRejected | handout/d1_udp.c:166-176 | a frame with any one byte changed fails the check |
| Framing.TruncatedFrameRejected | handout/d1_udp.c:173-176 | a frame cut short, but still with a whole header, fails the size check |
| Framing.AckFrameAccepted | handout/d1_udp.c:296-334 | an acknowledgement frame is 8 bytes long and passes the receiver's check |
| Framing.AckFrameCarriesBit | handout/d1_udp.c:306-310 | the bit the ack wait reads from an acknowledgement is the sequence bit it was built with |
| Framing.BuildFrame | handout/d1_udp.c:262-276 | the new buffer holds exactly the frame of the flags and payload |
| Transport.Receive | handout/d1_udp.c:156 | recvfrom gives -1 and no bytes exactly for a failed receive (a `None` entry, or a used-up script); otherwise it gives the count of bytes read, which is at most the capacity, and a prefix of the datagram, the whole datagram unless truncated at the capacity |
| Transport.Socket.RecvFrom | handout/d1_udp.c:156 | the result is Receive of the script, and the script advances by one |
| Transport.Socket.SendTo | handout/d1_udp.c:279 | the datagram is appended to what was sent |
| Transport.AckCode | handout/d1_udp.c:222-232 | an acknowledgement gives 1, a wrong bit gives -1 and a wait that hears nothing gives 0, one to one |
| Transport.AwaitAck | handout/d1_udp.c:198-233 | a wait of `attempts` tries (100 in every call) consumes at most `attempts` deliveries, and one that hears something consumes at least one |
| Transport.AwaitAckSilentStep | handout/d1_udp.c:204-210 | a receive that yields no byte only uses up one attempt |
| Transport.AwaitAckHeardStep | handout/d1_udp.c:210-229 | a receive that yields a byte decides the outcome by its bit, consuming that one delivery |
| Transport.AwaitAckHears | handout/d1_udp.c:210-229 | a datagram of two or more bytes arriving first decides the wait |
| Transport.AwaitAckTimesOut | handout/d1_udp.c:204-232 | when each of the 100 receives fails or yields no byte, the wait gives 0 after consuming exactly min(100, deliveries) deliveries |
| Transport.AwaitAckFirstHeard | handout/d1_udp.c:204-229 | the first non-silent delivery decides the outcome by its bit, and the wait consumes exactly the deliveries up to it |
| Transport.BlockingWaitTimesOut | handout/d1_udp.c:204-232 | when each of the wait's receives returns a datagram, as on the source's socket without a receive timeout, the wait gives 0 exactly when the buffer has no room or all 100 datagrams are empty |
| Transport.Peer.WaitAck | handout/d1_udp.c:198-233 | the loop gives AckCode of AwaitAck, leaves the script AwaitAck leaves, and toggles the sequence bit exactly on a matching acknowledgement |
| Transport.SendSpec | handout/d1_udp.c:235-294 | a send's result is -1, 0 or 1 and it never creates deliveries |
| Transport.SendSpecFirstAttempt | handout/d1_udp.c:254-293 | a send that fits writes its data frame and waits once; a matching ack, or 100 receives that hear nothing, ends it; a wrong ack is followed by a full resend whose result is discarded for -1 |
| Transport.SendRefusesOversized | handout/d1_udp.c:238-243 | a payload above 1016 bytes is refused with -1 before anything is sent or received |
| Transport.SendFramesAllIdentical | handout/d1_udp.c:254-287 | every frame a send writes, retries included, is the same data frame with the same sequence bit |
| Transport.SendOutcomes | handout/d1_udp.c:282-293 | a send gives 1 iff its first wait is acknowledged, and 0 iff that wait hears nothing in its 100 receives; success sends exactly one frame and toggles the bit |
| Transport.SuccessfulRetryReportedAsFailure | handout/d1_udp.c:286-293 | a wrong ack followed by a right one sends twice, toggles the bit, yet the send reports -1 |
| Transport.ConsecutiveSendsAlternate | handout/d1_udp.c:227 | after a successful send, every frame of the next send carries the opposite sequence bit |
| Transport.EmptyPayloadTimesOut | handout/d1_udp.c:206-210 | an empty payload makes the wait receive with capacity 0, so no receive yields a byte: the send writes one frame and, once its 100 receives have returned, gives 0 |
| Transport.PeerAckIsAccepted | handout/d1_udp.c:210-228 | a peer's acknowledgement for the current bit makes the send succeed, toggle the bit and consume one delivery |
| Transport.AckReply | handout/d1_udp.c:176-178 | a receive sends at most one acknowledgement |
| Transport.Delivered | handout/d1_udp.c:181-182 | the bytes handed to the caller number the bytes read less the 8 header bytes |
| Transport.IntactFrameDelivered | handout/d1_udp.c:166-182 | a data frame received whole passes the check, so it is acknowledged, and the caller gets exactly its payload |
| Transport.CorruptedFrameNotAcknowledged | handout/d1_udp.c:166-178 | a data frame with any one byte changed is not acknowledged |
| Transport.Peer.SendData | handout/d1_udp.c:235-294 | the recursive send gives SendSpec's code, appends its frames, and leaves its script and sequence bit |
| Transport.Peer.SendAck | handout/d1_udp.c:296-338 | it appends the acknowledgement frame for the peer's own sequence bit, ignoring its argument |
| Transport.Peer.AckIfIntact | handout/d1_udp.c:166-178 | an acknowledgement is sent exactly when the received bytes pass the check |
| Transport.Peer.RecvData | handout/d1_udp.c:150-183 | it returns the count read less 8, consumes one delivery, sends AckReply, and writes the bytes after the header over the front of the buffer, leaving the rest unchanged |
| LocalTree.ChildIds | handout/d2_lookup.c:296-303 | `n` child ids are read, the j-th being the 32-bit word at offset 4j |
| LocalTree.EncodeNode | handout/d2_lookup.c:275-303 | a node occupies 12 bytes plus 4 per child on the wire |
| LocalTree.WordAtEncoded | handout/d2_lookup.c:283-285 | a word written in network byte order reads back as itself |
| LocalTree.ChildIdsEncoded | handout/d2_lookup.c:296-303 | encoded child ids read back as the same ids |
| LocalTree.ParseAdvance | handout/d2_lookup.c:278-304 | a node that fits is parsed from its three words and children, and parsing continues exactly 12 + 4·count bytes further |
| LocalTree.ParseEndAt | handout/d2_lookup.c:278 | fewer than 12 remaining bytes end the stream successfully |
| LocalTree.ParseCutAt | handout/d2_lookup.c:290-293 | a node whose children do not fit ends the stream with failure |
| LocalTree.ParseEncodeRoundTrip | handout/d2_lookup.c:275-307 | parsing encoded nodes followed by fewer than 12 stray bytes gives back exactly those nodes and success |
| LocalTree.ParseCutOff | handout/d2_lookup.c:290-293 | encoded nodes followed by a node whose children are cut short parse to the earlier nodes and failure |
| LocalTree.ParseCutsOnGuard | handout/d2_lookup.c:288-293 | the parser cuts the stream at a node exactly when the intended guard refuses it, and for every child count below 2^29 exactly when the guard as written does |
| LocalTree.ParseSound | handout/d2_lookup.c:278-305 | every node the parser yields is read from the bytes where it lies, one after the other; the nodes never take more bytes than the stream holds; a clean end leaves fewer than 12 bytes |
| LocalTree.Packed | handout/d2_lookup.c:280-304 | a stored node holds the record's id, value, child count and, in its first slots, its children; the unused slots are 0 |
| LocalTree.ChildGuardAsWrittenPassesOverlongCount | handout/d2_lookup.c:290 | with no bytes left, a child count of 2^30 passes the truncating guard but fails the exact one |
| LocalTree.ChildGuardAsWritten | handout/d2_lookup.c:290 | with the truncating cast, every child count from 2^29 up to 2^30 passes the guard whatever the remaining length |
| LocalTree.ChildGuard | handout/d2_lookup.c:290 | the exact comparison decides as the source's guard for every child count below 2^29 |
| LocalTree.LocalTreeStore.constructor | handout/d2_lookup.c:219-226 | a new store records the node count and has that many zeroed slots |
| LocalTree.LocalTreeStore.Accepted | handout/d2_lookup.c:269-272 | bookkeeping only: in a `Valid()` store an index that passes the entry checks names a slot; what happens after the checks is stated by AddToLocalTree |
| LocalTree.LocalTreeStore.AddToLocalTree | handout/d2_lookup.c:266-308 | bad arguments give -1 and change nothing; otherwise the parsed nodes are stored from `node_idx` on, the other slots are unchanged, and the result is the next free index or -1 when a node was cut off |
| LocalTree.ReadNode | handout/d2_lookup.c:280-303 | the decoded node is the packed form of the record read at that position |
| LocalTree.AllocLocalTree | handout/d2_lookup.c:216-235 | allocation fails exactly for a negative count; otherwise the store has that many zeroed nodes |
| Lookup.RequestPacket | handout/d2_lookup.c:128-136 | a request packet is 8 bytes long |
| Lookup.RequestPacketDecodes | handout/d2_lookup.c:134-136 | the request's type field reads back as TYPE_REQUEST and its id field as the id |
| Lookup.RequestPacketInjective | handout/d2_lookup.c:135 | different ids give different request packets |
| Lookup.RequestResult | handout/d2_lookup.c:138-148 | the request's result is never negative, and it is positive exactly when the send succeeded, in which case it is the send's result |
| Lookup.RequestOutcomes | handout/d2_lookup.c:138-148 | a request succeeds iff the first wait hears the matching ack, gives 0 otherwise, and every frame sent is the request's data frame |
| Lookup.RequestAcknowledged | handout/d2_lookup.c:138-148 | with the matching ack first in line, a request sends one frame, succeeds and toggles the bit |
| Lookup.SizeAnswer | handout/d2_lookup.c:161-177 | the answer is -1 or a 16-bit size, and -1 whenever no payload byte arrived |
| Lookup.SizeAnswerAsWrittenFails | handout/d2_lookup.c:158-164 | with a receive capacity of 4, whatever arrives, the answer is -1 |
| Lookup.SizeAnswerDecodes | handout/d2_lookup.c:166-177 | with capacity 12, an intact response-size frame is acknowledged and its size is returned |
| Lookup.SizeAnswerRejectsOtherTypes | handout/d2_lookup.c:167-171 | a reply of another type gives -1 |
| Lookup.ResponseAnswer | handout/d2_lookup.c:193-207 | the answer is -1 exactly when nothing beyond the header arrived or the type is neither response type; otherwise it is the count received |
| Lookup.ResponseDelivered | handout/d2_lookup.c:190-207 | an intact response frame is acknowledged, its payload fills the buffer front, and the answer is the payload length |
| Lookup.ResponseRejectsOtherTypes | handout/d2_lookup.c:199-204 | a response of another type gives -1 |
| Lookup.Client.SendRequest | handout/d2_lookup.c:120-149 | ids up to 1000 give 0 with nothing sent; otherwise the request is sent as SendSpec says, a failed send deletes the client and gives 0, and a success gives the send's result |
| Lookup.Client.ReceiveSizeReply | handout/d2_lookup.c:157-178 | the receive gives SizeAnswer of what arrives, consumes one delivery and sends AckReply |
| Lookup.Client.RecvResponseSize | handout/d2_lookup.c:157-178 | as written, the result is always -1 and no acknowledgement is ever sent |
| Lookup.Client.RecvResponseSizeCorrected | handout/d2_lookup.c:157-178 | with capacity 12, the result is SizeAnswer of what arrives, and an intact frame is acknowledged |
| Lookup.Client.RecvResponse | handout/d2_lookup.c:190-208 | it receives `sz - 8` bytes into the buffer as RecvData does and answers ResponseAnswer of the count and the buffer's type field |

## Left out

- Socket creation, address resolution and teardown are not modelled (`d1_create_client`, `d1_get_peer_info`, `d1_delete`). They are operating-system calls; a peer is built from a scripted socket instead.
- The client lifecycle is reduced. `d2_client_create` is not modelled, and `d2_client_delete` is modelled only as the client's `deleted` flag; closing the socket is not modelled.
- `d2_free_local_tree`, `malloc`/`free` and allocation failure are not modelled. Every allocation is taken to succeed, except that `d2_alloc_local_tree` fails for a negative node count, where `calloc` cannot supply the memory.
- Timing is not modelled. `sleep` and the one-second bound are absent. An attempt of the ack wait that hears nothing is a receive that fails (`None`, or a script that is used up) or a datagram that yields no byte.
- Blocking is not modelled. In the source, `recvfrom` on the socket blocks until a datagram arrives, so a peer that sends nothing makes `d1_wait_ack`, `d1_send_data` and `d1_recv_data` wait for good. The model has no state for a receive that never returns: every receive consumes one entry of the script, and a used-up script reads as failing receives.
- Printing and error reporting (`check_error`, `print_line*`, `printf`, the display and tree-printing functions) only write to the terminal and are left out.
- `sendto` errors are not modelled; every send is taken to reach the socket.
- d1_recv_data with fewer than 8 bytes read has undefined behaviour in C: it reads uninitialised header bytes and calls `memcpy` with a wrapped length. The model sends no acknowledgement, leaves the buffer untouched and returns the count less 8.
- An ack datagram shorter than 2 bytes leaves the byte read at `d1_udp.c:214` uninitialised; the model reads it as 0.
- Uninitialised child slots of a decoded `NetNode` are modelled as 0.
- The wrap-around of `int size = sz + sizeof(D1Header)` for payloads near 2^31 bytes is not modelled; such payloads are refused as oversized.
- Transport.Peer.RecvData: requires the receive capacity to exceed the buffer by at most the 8 header bytes, which the source leaves to its callers.
- LocalTree.LocalTreeStore.AddToLocalTree: requires that every parsed node has at most 5 children and fits in the remaining slots; the source checks neither and would write past `child_id` or `root`. The method, like `LocalTree.ParseNodes`, uses the exact child guard `buflen < 4 * num_children`, not the truncating cast at `d2_lookup.c:290`: for a child count of 2^29 or more that the source's guard lets through, the model refuses the node and returns -1, where the source reads past the buffer and writes past `child_id`. It also requires the store's node count to equal its number of slots, which `d2_alloc_local_tree` establishes.
- Lookup.Client.RecvResponse: requires `8 <= sz <= buffer length`; a smaller `sz` wraps the unsigned `sz - sizeof(D1Header)` in C.
- Lookup.Client.SendRequest: requires a client that was not deleted; the source would use freed memory.
- Lookup.SizeAnswer: the model zero-fills the four-byte packet buffer of `d2_recv_response_size` before the receive. The source's `char buffer[sizeof(PacketResponseSize)]` (`d2_lookup.c:158`) is uninitialised, so in C a receive of 9 to 11 bytes leaves part of the type and size fields indeterminate; the model reads 0 there.
- Transport.Peer.constructor: takes any initial sequence bit. `d1_create_client` is not part of this model, and it never sets `next_seqno`, so the source's first send runs on an indeterminate bit.
- Transport.AwaitAck: its own contract states only how many deliveries a wait consumes; its outcomes are stated by the AwaitAck lemmas.

## Findings

| source | as written | input that shows it | evidently intended | confidence | as-written member | corrected member |
|---|---|---|---|---|---|---|
| handout/d2_lookup.c:159 | `d1_recv_data` is called with capacity `sizeof(PacketResponseSize)` (4), but the received datagram also carries the 8-byte header | any response-size frame: at most 4 bytes are read, `wc = 4 - 8 < 0`, so the size is never returned and no acknowledgement is sent | a capacity of `sizeof(PacketResponseSize) + sizeof(D1Header)`, reading back the size of an intact frame | high, not executed | Lookup.SizeAnswerAsWrittenFails, Lookup.Client.RecvResponseSize | Lookup.SizeAnswerDecodes, Lookup.Client.RecvResponseSizeCorrected |
| handout/d1_udp.c:206 | the socket gets no receive timeout, so `recvfrom` in `d1_wait_ack` blocks until a datagram arrives, and the documented "0 on timeout" within one second (`d1_udp.c:189-196`) never happens for silence | a peer that never answers the data frame: the first `recvfrom` never returns, so `d1_send_data` hangs | a receive timeout on the socket (`SO_RCVTIMEO`), so that a silent second fails the receive and 100 of them give 0 | medium, not executed | Transport.BlockingWaitTimesOut | Transport.AwaitAckTimesOut |
| handout/d2_lookup.c:290 | the guard compares `buflen` with `(int)(sizeof(uint32_t) * node.num_children)`, which truncates the product to 32 bits | a node with `num_children = 2^30` and no bytes left: the product truncates to 0, the guard passes, and the child loop reads far past the buffer | compare `buflen` with the exact product `4 * num_children` | high, not executed | LocalTree.ChildGuardAsWrittenPassesOverlongCount | LocalTree.ChildGuard, LocalTree.ParseCutsOnGuard, LocalTree.ParseSound |
