/** The lookup client's local copy of the directory tree
    (handout/d2_lookup.c): a store of `number_of_nodes` node slots and the
    parser that reads a stream of serialized nodes into consecutive slots.

    On the wire a node is three big-endian 32-bit words (id, value,
    num_children) followed by num_children big-endian 32-bit child ids.
    In the store a node keeps its child ids in five fixed slots. */
module LocalTree {
  import opened Bytes

  /** The child slots of a stored node. */
  const CHILD_SLOTS: nat := 5
  /** sizeof(NetNode) less its five child slots: the three header words. */
  const NODE_BASE: nat := 12

  type ChildSlots = s: seq<uint32> | |s| == CHILD_SLOTS witness [0, 0, 0, 0, 0]

  /** A node as the store holds it. */
  datatype NetNode = NetNode(id: uint32, value: uint32, numChildren: uint32, childId: ChildSlots)

  /** The all-zero node that calloc leaves in a fresh slot. */
  const ZERO_NODE: NetNode := NetNode(0, 0, 0, [0, 0, 0, 0, 0])

  /** A node as the stream describes it. */
  datatype NodeRecord = NodeRecord(id: uint32, value: uint32, children: seq<uint32>)

  /** The nodes read from a stream, in order, and whether the stream ended
      cleanly (`complete`) or with a node whose child ids were cut off. */
  datatype Parse = Parse(nodes: seq<NodeRecord>, complete: bool)

  /** The big-endian 32-bit word at offset `at` (what ntohl yields for the
      four bytes memcpy takes from there). */
  function WordAt(s: seq<byte>, at: nat): uint32
    requires at + 4 <= |s|
  {
    ((s[at] as int * 256 + s[at + 1]) * 256 + s[at + 2]) * 256 + s[at + 3]
  }

  /** `n` child ids, one big-endian word each, from offset `at`. */
  function ChildIds(s: seq<byte>, at: nat, n: nat): (ids: seq<uint32>)
    requires at + 4 * n <= |s|
    ensures |ids| == n
    ensures forall j :: 0 <= j < n ==> ids[j] == WordAt(s, at + 4 * j)
    decreases n
  {
    if n == 0 then [] else [WordAt(s, at)] + ChildIds(s, at + 4, n - 1)
  }

  /** The node stream between offsets `at` and `end`, read from the front:
      while at least NODE_BASE bytes remain, read a header; when the rest
      cannot hold the declared child ids the stream is cut off, otherwise
      read them and go on. A trailing remainder shorter than a header is
      ignored. */
  function ParseNodes(s: seq<byte>, at: nat, end: nat): Parse
    requires at <= end <= |s|
    decreases end - at
  {
    if end - at < NODE_BASE then Parse([], true)
    else
      var count: nat := WordAt(s, at + 8);
      if end - at - NODE_BASE < 4 * count then Parse([], false)
      else
        var tail := ParseNodes(s, at + NODE_BASE + 4 * count, end);
        Parse([NodeRecord(WordAt(s, at), WordAt(s, at + 4), ChildIds(s, at + NODE_BASE, count))] + tail.nodes, tail.complete)
  }

  /** The child ids in wire format. */
  function EncodeChildren(ids: seq<uint32>): (s: seq<byte>)
    ensures |s| == 4 * |ids|
  {
    if |ids| == 0 then [] else Be32(ids[0]) + EncodeChildren(ids[1..])
  }

  /** A node whose child count fits its 32-bit field. */
  predicate Encodable(rec: NodeRecord)
  {
    |rec.children| < 0x1_0000_0000
  }

  /** A node in wire format. */
  function EncodeNode(rec: NodeRecord): (s: seq<byte>)
    requires Encodable(rec)
    ensures |s| == NODE_BASE + 4 * |rec.children|
  {
    Be32(rec.id) + Be32(rec.value) + Be32(|rec.children|) + EncodeChildren(rec.children)
  }

  /** A sequence of nodes in wire format, one after the other. */
  function EncodeNodes(recs: seq<NodeRecord>): (s: seq<byte>)
    requires forall k :: 0 <= k < |recs| ==> Encodable(recs[k])
    ensures |s| >= NODE_BASE * |recs|
  {
    if |recs| == 0 then [] else EncodeNode(recs[0]) + EncodeNodes(recs[1..])
  }

  /** The bytes of `s` from offset `at` on are `e`. */
  predicate Stretch(s: seq<byte>, at: nat, e: seq<byte>)
  {
    at + |e| <= |s| && forall i :: 0 <= i < |e| ==> s[at + i] == e[i]
  }

  /** A whole sequence is a stretch of itself. */
  lemma {:induction false} StretchSelf(s: seq<byte>)
    ensures Stretch(s, 0, s)
  {
  }

  /** A stretch that equals `a + b` holds `a` and, right after it, `b`. */
  lemma {:induction false} StretchSplit(s: seq<byte>, at: nat, a: seq<byte>, b: seq<byte>)
    requires Stretch(s, at, a + b)
    ensures Stretch(s, at, a) && Stretch(s, at + |a|, b)
  {
    forall i | 0 <= i < |a|
      ensures s[at + i] == a[i]
    {
      assert (a + b)[i] == a[i];
    }
    forall i | 0 <= i < |b|
      ensures s[at + |a| + i] == b[i]
    {
      assert (a + b)[|a| + i] == b[i];
    }
  }

  /** The first `n` bytes of a stretch are a stretch. */
  lemma {:induction false} StretchTake(s: seq<byte>, at: nat, e: seq<byte>, n: nat)
    requires Stretch(s, at, e) && n <= |e|
    ensures Stretch(s, at, e[..n])
  {
    forall i | 0 <= i < n
      ensures s[at + i] == e[..n][i]
    {
      assert s[at + i] == e[i];
    }
  }

  /** Four bytes holding an encoded word read back as that word. */
  lemma {:induction false} WordAtEncoded(s: seq<byte>, at: nat, x: uint32)
    requires Stretch(s, at, Be32(x))
    ensures WordAt(s, at) == x
  {
    var w := Be32(x);
    assert s[at + 0] == w[0] && s[at + 1] == w[1] && s[at + 2] == w[2] && s[at + 3] == w[3];
    assert WordAt(s, at) == FromBe32(w);
    Be32RoundTrip(x);
  }

  /** Encoded child ids are read back. */
  lemma {:induction false} ChildIdsEncoded(s: seq<byte>, at: nat, ids: seq<uint32>)
    requires Stretch(s, at, EncodeChildren(ids))
    ensures ChildIds(s, at, |ids|) == ids
    decreases |ids|
  {
    if |ids| > 0 {
      assert EncodeChildren(ids) == Be32(ids[0]) + EncodeChildren(ids[1..]);
      StretchSplit(s, at, Be32(ids[0]), EncodeChildren(ids[1..]));
      WordAtEncoded(s, at, ids[0]);
      ChildIdsEncoded(s, at + 4, ids[1..]);
    }
  }

  /** The bytes a node takes on the wire. */
  function NodeSize(rec: NodeRecord): nat
  {
    NODE_BASE + 4 * |rec.children|
  }

  /** The bytes a run of nodes takes on the wire. */
  function Span(recs: seq<NodeRecord>): nat
  {
    if |recs| == 0 then 0 else NodeSize(recs[0]) + Span(recs[1..])
  }

  /** The bytes at offset `at` read as node `rec`: its three header words
      and its child ids. */
  predicate NodeAt(s: seq<byte>, at: nat, rec: NodeRecord)
  {
    at + NodeSize(rec) <= |s| &&
    WordAt(s, at) == rec.id && WordAt(s, at + 4) == rec.value && WordAt(s, at + 8) == |rec.children| &&
    ChildIds(s, at + NODE_BASE, |rec.children|) == rec.children
  }

  /** The bytes from offset `at` on read as the nodes `recs`, one after
      the other. */
  predicate NodesAt(s: seq<byte>, at: nat, recs: seq<NodeRecord>)
    decreases |recs|
  {
    |recs| == 0 || (NodeAt(s, at, recs[0]) && NodesAt(s, at + NodeSize(recs[0]), recs[1..]))
  }

  /** A node that reads correctly at `at`, followed by nodes that read
      correctly right after it, make a run that reads correctly at `at`. */
  lemma {:induction false} NodesAtCons(s: seq<byte>, at: nat, next: nat, recs: seq<NodeRecord>)
    requires |recs| > 0 && next == at + NodeSize(recs[0])
    requires NodeAt(s, at, recs[0]) && NodesAt(s, next, recs[1..])
    ensures NodesAt(s, at, recs)
  {
  }

  /** One step of the parser at offset `at`, when the header's child
      ids fit before `end`. */
  lemma {:induction false} ParseStepAt(s: seq<byte>, at: nat, end: nat)
    requires at + NODE_BASE <= end <= |s| && at + NODE_BASE + 4 * WordAt(s, at + 8) <= end
    ensures var next := at + NODE_BASE + 4 * WordAt(s, at + 8);
      ParseNodes(s, at, end) ==
        Parse([NodeRecord(WordAt(s, at), WordAt(s, at + 4), ChildIds(s, at + NODE_BASE, WordAt(s, at + 8)))]
                + ParseNodes(s, next, end).nodes, ParseNodes(s, next, end).complete)
  {
  }

  /** The parser's view of the loop: when the stream from `at` yields
      the nodes of `p` from the m-th on and the next header's child ids
      fit, that header is the m-th node and the stream after its child ids
      yields the nodes from the (m+1)-th on. */
  lemma {:induction false} ParseAdvance(s: seq<byte>, at: nat, next: nat, end: nat, p: Parse, m: nat)
    requires at + NODE_BASE <= end <= |s| && next == at + NODE_BASE + 4 * WordAt(s, at + 8) && next <= end
    requires m <= |p.nodes| && ParseNodes(s, at, end) == Parse(p.nodes[m..], p.complete)
    ensures m < |p.nodes|
    ensures p.nodes[m] == NodeRecord(WordAt(s, at), WordAt(s, at + 4), ChildIds(s, at + NODE_BASE, WordAt(s, at + 8)))
    ensures ParseNodes(s, next, end) == Parse(p.nodes[m + 1..], p.complete)
  {
    ParseStepAt(s, at, end);
    var tail := ParseNodes(s, next, end);
    var rec := NodeRecord(WordAt(s, at), WordAt(s, at + 4), ChildIds(s, at + NODE_BASE, WordAt(s, at + 8)));
    assert p.nodes[m..] == [rec] + tail.nodes;
    assert p.nodes[m..][0] == rec;
    assert p.nodes[m + 1..] == p.nodes[m..][1..];
  }

  /** Fewer bytes than a header end the stream cleanly. */
  lemma {:induction false} ParseEndAt(s: seq<byte>, at: nat, end: nat)
    requires at <= end <= |s| && end < at + NODE_BASE
    ensures ParseNodes(s, at, end) == Parse([], true)
  {
  }

  /** A header whose child ids run past the end stops the parser: no node,
      and the stream is reported cut off. */
  lemma {:induction false} ParseCutAt(s: seq<byte>, at: nat, end: nat)
    requires at + NODE_BASE <= end <= |s| && end < at + NODE_BASE + 4 * WordAt(s, at + 8)
    ensures ParseNodes(s, at, end) == Parse([], false)
  {
  }

  /** A node that reads correctly at offset `at` is what the parser
      yields there; it takes NODE_BASE + 4 * num_children bytes and the
      parser goes on right after it. */
  lemma {:induction false} ParseHead(s: seq<byte>, at: nat, end: nat, rec: NodeRecord)
    requires NodeAt(s, at, rec) && at + NodeSize(rec) <= end <= |s|
    ensures var tail := ParseNodes(s, at + NodeSize(rec), end);
      ParseNodes(s, at, end) == Parse([rec] + tail.nodes, tail.complete)
  {
    assert NodeRecord(WordAt(s, at), WordAt(s, at + 4), ChildIds(s, at + NODE_BASE, |rec.children|)) == rec;
  }

  lemma {:induction false} ConsAppend(recs: seq<NodeRecord>, more: seq<NodeRecord>)
    requires |recs| > 0
    ensures [recs[0]] + (recs[1..] + more) == recs + more
  {
  }

  lemma {:induction false} AppendEmpty(recs: seq<NodeRecord>)
    ensures recs + [] == recs
  {
  }

  /** Nodes that read correctly at offset `at` are what the parser
      yields there, one after the other; then the parser goes on with
      whatever follows them. */
  lemma {:induction false} ParseNodesAt(s: seq<byte>, at: nat, end: nat, recs: seq<NodeRecord>)
    requires NodesAt(s, at, recs) && at + Span(recs) <= end <= |s|
    ensures var tail := ParseNodes(s, at + Span(recs), end);
      ParseNodes(s, at, end) == Parse(recs + tail.nodes, tail.complete)
    decreases |recs|
  {
    if |recs| == 0 {
      assert recs + ParseNodes(s, at, end).nodes == ParseNodes(s, at, end).nodes;
    } else {
      var next := at + NodeSize(recs[0]);
      ParseHead(s, at, end, recs[0]);
      ParseNodesAt(s, next, end, recs[1..]);
      ConsAppend(recs, ParseNodes(s, at + Span(recs), end).nodes);
    }
  }

  /** An encoded node reads back as that node. */
  lemma {:induction false} EncodedNodeAt(s: seq<byte>, at: nat, rec: NodeRecord)
    requires Encodable(rec) && Stretch(s, at, EncodeNode(rec))
    ensures NodeAt(s, at, rec)
  {
    var n := |rec.children|;
    var a, b, c, d := Be32(rec.id), Be32(rec.value), Be32(n), EncodeChildren(rec.children);
    assert EncodeNode(rec) == a + b + c + d;
    StretchSplit(s, at, a + b + c, d);
    StretchSplit(s, at, a + b, c);
    StretchSplit(s, at, a, b);
    WordAtEncoded(s, at, rec.id);
    WordAtEncoded(s, at + 4, rec.value);
    WordAtEncoded(s, at + 8, n);
    ChildIdsEncoded(s, at + NODE_BASE, rec.children);
  }

  /** The encoding of a non-empty run of nodes is its first node's
      encoding, which takes that node's size, followed by the rest. */
  lemma {:induction false} EncodeNodesCons(recs: seq<NodeRecord>)
    requires |recs| > 0 && forall k :: 0 <= k < |recs| ==> Encodable(recs[k])
    ensures Encodable(recs[0]) && forall k :: 0 <= k < |recs[1..]| ==> Encodable(recs[1..][k])
    ensures EncodeNodes(recs) == EncodeNode(recs[0]) + EncodeNodes(recs[1..])
    ensures |EncodeNode(recs[0])| == NodeSize(recs[0])
  {
  }

  /** Encoded nodes read back as those nodes, and take as many bytes as
      their encoding. */
  lemma {:induction false} EncodedNodesAt(s: seq<byte>, at: nat, recs: seq<NodeRecord>)
    requires forall k :: 0 <= k < |recs| ==> Encodable(recs[k])
    requires Stretch(s, at, EncodeNodes(recs))
    ensures NodesAt(s, at, recs) && Span(recs) == |EncodeNodes(recs)|
    decreases |recs|
  {
    if |recs| > 0 {
      EncodeNodesCons(recs);
      var e, rest := EncodeNode(recs[0]), EncodeNodes(recs[1..]);
      StretchSplit(s, at, e, rest);
      EncodedNodeAt(s, at, recs[0]);
      EncodedNodesAt(s, at + |e|, recs[1..]);
      NodesAtCons(s, at, at + |e|, recs);
    }
  }

  /** Nodes that read correctly from the start of a stream, followed by
      fewer bytes than a header, are exactly what the parser yields. */
  lemma {:induction false} ParseWhole(s: seq<byte>, recs: seq<NodeRecord>)
    requires NodesAt(s, 0, recs) && Span(recs) <= |s| < Span(recs) + NODE_BASE
    ensures ParseNodes(s, 0, |s|) == Parse(recs, true)
  {
    ParseNodesAt(s, 0, |s|, recs);
    AppendEmpty(recs);
  }

  /** Nodes that read correctly from the start of a stream, followed by a
      header whose child ids run past the end, are what the parser yields
      before it reports the stream cut off. */
  lemma {:induction false} ParseWholeCut(s: seq<byte>, recs: seq<NodeRecord>, at: nat)
    requires NodesAt(s, 0, recs) && at == Span(recs)
    requires at + NODE_BASE <= |s| < at + NODE_BASE + 4 * WordAt(s, at + 8)
    ensures ParseNodes(s, 0, |s|) == Parse(recs, false)
  {
    ParseNodesAt(s, 0, |s|, recs);
    ParseCutAt(s, at, |s|);
    AppendEmpty(recs);
  }

  /** Round trip: encoded nodes followed by fewer bytes than a header are
      read back exactly, and the short remainder is ignored. */
  lemma {:induction false} ParseEncodeRoundTrip(recs: seq<NodeRecord>, tail: seq<byte>)
    requires forall k :: 0 <= k < |recs| ==> Encodable(recs[k])
    requires |tail| < NODE_BASE
    ensures var s := EncodeNodes(recs) + tail;
      ParseNodes(s, 0, |s|) == Parse(recs, true)
  {
    var s := EncodeNodes(recs) + tail;
    StretchSelf(s);
    StretchSplit(s, 0, EncodeNodes(recs), tail);
    EncodedNodesAt(s, 0, recs);
    ParseWhole(s, recs);
  }

  /** A node whose child ids are cut off ends the stream as incomplete;
      the nodes before it are still read. */
  lemma {:induction false} ParseCutOff(recs: seq<NodeRecord>, rec: NodeRecord, k: nat)
    requires forall j :: 0 <= j < |recs| ==> Encodable(recs[j])
    requires Encodable(rec) && k < 4 * |rec.children|
    ensures var s := EncodeNodes(recs) + EncodeNode(rec)[..NODE_BASE + k];
      ParseNodes(s, 0, |s|) == Parse(recs, false)
  {
    var prefix, cut := EncodeNodes(recs), EncodeNode(rec)[..NODE_BASE + k];
    var s := prefix + cut;
    StretchSelf(s);
    StretchSplit(s, 0, prefix, cut);
    EncodedNodesAt(s, 0, recs);
    var a, b, c := Be32(rec.id), Be32(rec.value), Be32(|rec.children|);
    StretchTake(s, |prefix|, cut, NODE_BASE);
    assert cut[..NODE_BASE] == a + b + c;
    StretchSplit(s, |prefix|, a + b, c);
    WordAtEncoded(s, |prefix| + 8, |rec.children|);
    assert |s| == |prefix| + NODE_BASE + k;
    ParseWholeCut(s, recs, |prefix|);
  }

  /** A stored node holds the node read from the stream: the same id,
      value and child count, and the child ids in its first slots. */
  predicate Holds(node: NetNode, rec: NodeRecord)
  {
    |rec.children| <= CHILD_SLOTS &&
    node.id == rec.id && node.value == rec.value &&
    node.numChildren == |rec.children| && node.childId[..|rec.children|] == rec.children
  }

  /** The slot a node is stored in: its child ids in the first slots and
      0 in the rest. */
  function Packed(rec: NodeRecord): (node: NetNode)
    requires |rec.children| <= CHILD_SLOTS
    ensures Holds(node, rec)
    ensures forall j :: |rec.children| <= j < CHILD_SLOTS ==> node.childId[j] == 0
  {
    var slots := rec.children + [0, 0, 0, 0, 0][..CHILD_SLOTS - |rec.children|];
    assert slots[..|rec.children|] == rec.children;
    NetNode(rec.id, rec.value, |rec.children|, slots)
  }

  /** The child-count guard as the source writes it: the byte count
      4 * num_children is computed as a 64-bit unsigned value and then cast
      to a 32-bit int, which keeps its low 32 bits as a two's-complement
      value. True means the node is refused. Every count from 2^29 up to
      2^30 turns into a negative byte count, so such a node is let through
      whatever remains of the buffer. */
  predicate ChildGuardAsWritten(buflen: int, count: uint32)
    ensures buflen >= 0 && 0x2000_0000 <= count < 0x4000_0000 ==> !ChildGuardAsWritten(buflen, count)
  {
    var w := (4 * count) % 0x1_0000_0000;
    buflen < (if w >= 0x8000_0000 then w - 0x1_0000_0000 else w)
  }

  /** The guard as intended: refuse the node when the remaining bytes
      cannot hold its child ids. For every child count below 2^29 (so for
      every count a stored node can hold) it decides exactly as the guard
      as written. */
  predicate ChildGuard(buflen: int, count: uint32)
    ensures count < 0x2000_0000 ==> (ChildGuard(buflen, count) <==> ChildGuardAsWritten(buflen, count))
  {
    buflen < 4 * count
  }

  /** The parser cuts the stream at a node exactly when the intended guard
      refuses it, and for every child count below 2^29 exactly when the
      guard as written does. */
  lemma {:induction false} ParseCutsOnGuard(s: seq<byte>, at: nat, end: nat)
    requires at + NODE_BASE <= end <= |s|
    ensures (ParseNodes(s, at, end) == Parse([], false))
        <==> ChildGuard(end - at - NODE_BASE, WordAt(s, at + 8))
    ensures WordAt(s, at + 8) < 0x2000_0000 ==>
      ((ParseNodes(s, at, end) == Parse([], false))
         <==> ChildGuardAsWritten(end - at - NODE_BASE, WordAt(s, at + 8)))
  {
    if !ChildGuard(end - at - NODE_BASE, WordAt(s, at + 8)) {
      ParseStepAt(s, at, end);
    }
  }

  /** With an empty remainder and 2^30 declared children the guard as
      written lets the node through (4 * 2^30 truncates to 0), so the child
      loop would read 4 GiB past the end of the input into five slots. */
  lemma {:induction false} ChildGuardAsWrittenPassesOverlongCount()
    ensures !ChildGuardAsWritten(0, 0x4000_0000)
    ensures ChildGuard(0, 0x4000_0000)
  {
  }

  /** With the intended guard the parser is sound: every node it yields is
      read from the bytes where it lies, one after the other, the nodes
      never take more bytes than the stream holds, and a parse that ends
      cleanly has left fewer bytes than a node header. */
  lemma {:induction false} ParseSound(s: seq<byte>, at: nat, end: nat)
    requires at <= end <= |s|
    ensures var p := ParseNodes(s, at, end);
      NodesAt(s, at, p.nodes) && at + Span(p.nodes) <= end &&
      (p.complete ==> end - (at + Span(p.nodes)) < NODE_BASE)
    decreases end - at
  {
    if end - at >= NODE_BASE {
      var count: nat := WordAt(s, at + 8);
      if end - at - NODE_BASE >= 4 * count {
        var next := at + NODE_BASE + 4 * count;
        ParseSound(s, next, end);
        var p := ParseNodes(s, at, end);
        assert p.nodes[1..] == ParseNodes(s, next, end).nodes;
        NodesAtCons(s, at, next, p.nodes);
      }
    }
  }

  class LocalTreeStore {
    var numberOfNodes: int
    var root: array<NetNode>

    /** The recorded node count is the number of slots. */
    predicate Valid()
      reads this
    {
      numberOfNodes == root.Length
    }

    /** A store of `numNodes` zeroed slots. */
    constructor(numNodes: nat)
      ensures Valid() && numberOfNodes == numNodes && fresh(root)
      ensures forall k :: 0 <= k < numNodes ==> root[k] == ZERO_NODE
    {
      numberOfNodes := numNodes;
      root := new NetNode[numNodes](_ => ZERO_NODE);
    }

    /** The entry checks: a slot index inside the store and a non-negative
        byte count. An index that passes names a slot of the store. */
    predicate Accepted(nodeIdx: int, buflen: int)
      reads this
      ensures Valid() && Accepted(nodeIdx, buflen) ==> 0 <= nodeIdx < root.Length
    {
      0 <= nodeIdx < numberOfNodes && buflen >= 0
    }

    /** What the parser relies on without checking it: every node it
        stores has at most five children and the store has a slot for each. */
    predicate Fits(nodeIdx: int, p: Parse)
      reads this
    {
      nodeIdx + |p.nodes| <= root.Length &&
      forall k :: 0 <= k < |p.nodes| ==> |p.nodes[k].children| <= CHILD_SLOTS
    }

    /** d2_add_to_local_tree: after the entry checks, read nodes from the
        first `buflen` bytes of `buffer` into the slots from `nodeIdx` on.
        Returns the index after the last node stored, or -1 when the entry
        checks fail (nothing is stored) or a node's child ids are cut off
        (the nodes before it stay stored). */
    method AddToLocalTree(nodeIdx: int, buffer: seq<byte>, buflen: int) returns (r: int)
      requires Valid() && buflen <= |buffer|
      requires Accepted(nodeIdx, buflen) ==> Fits(nodeIdx, ParseNodes(buffer, 0, buflen))
      modifies root
      ensures !Accepted(nodeIdx, buflen) ==> r == -1 && root[..] == old(root[..])
      ensures Accepted(nodeIdx, buflen) ==>
        var p := ParseNodes(buffer, 0, buflen);
        r == (if p.complete then nodeIdx + |p.nodes| else -1) &&
        (forall k :: nodeIdx <= k < nodeIdx + |p.nodes| ==> root[k] == Packed(p.nodes[k - nodeIdx])) &&
        (forall k :: 0 <= k < root.Length && !(nodeIdx <= k < nodeIdx + |p.nodes|) ==> root[k] == old(root[k]))
    {
      if nodeIdx < 0 || nodeIdx >= numberOfNodes || buflen < 0 {
        return -1;
      }
      ghost var p := ParseNodes(buffer, 0, buflen);
      // `pos` is how far the source has advanced its buffer pointer, `m`
      // how many nodes it has stored
      var pos, idx := 0, nodeIdx;
      ghost var m := 0;
      while buflen - pos >= NODE_BASE
        invariant 0 <= pos <= buflen
        invariant 0 <= m <= |p.nodes| && idx == nodeIdx + m
        invariant ParseNodes(buffer, pos, buflen) == Parse(p.nodes[m..], p.complete)
        invariant forall k :: nodeIdx <= k < idx ==> root[k] == Packed(p.nodes[k - nodeIdx])
        invariant forall k :: 0 <= k < root.Length && !(nodeIdx <= k < idx) ==> root[k] == old(root[k])
        decreases buflen - pos
      {
        var count: nat := WordAt(buffer, pos + 8);
        if buflen - pos - NODE_BASE < 4 * count {
          ParseCutAt(buffer, pos, buflen);
          return -1;
        }
        ParseAdvance(buffer, pos, pos + NODE_BASE + 4 * count, buflen, p, m);
        var node := ReadNode(buffer, pos, count, p.nodes[m]);
        root[idx] := node;
        assert root[idx] == Packed(p.nodes[idx - nodeIdx]);
        pos, idx, m := pos + NODE_BASE + 4 * count, idx + 1, m + 1;
      }
      ParseEndAt(buffer, pos, buflen);
      return idx;
    }
  }

  /** One node as d2_add_to_local_tree reads it from offset `pos`: id,
      value and child count from the header, then `count` big-endian child
      ids into the first slots. The source leaves the remaining slots as
      they were; here they are 0. */
  method ReadNode(buffer: seq<byte>, pos: nat, count: nat, ghost rec: NodeRecord) returns (node: NetNode)
    requires pos + NODE_BASE + 4 * count <= |buffer| && count == WordAt(buffer, pos + 8) && count <= CHILD_SLOTS
    requires rec == NodeRecord(WordAt(buffer, pos), WordAt(buffer, pos + 4), ChildIds(buffer, pos + NODE_BASE, count))
    ensures node == Packed(rec)
  {
    var childId: ChildSlots := [0, 0, 0, 0, 0];
    var i := 0;
    while i < count
      invariant 0 <= i <= count
      invariant forall j :: 0 <= j < i ==> childId[j] == WordAt(buffer, pos + NODE_BASE + 4 * j)
      invariant forall j :: i <= j < CHILD_SLOTS ==> childId[j] == 0
    {
      childId := childId[i := WordAt(buffer, pos + NODE_BASE + 4 * i)];
      i := i + 1;
    }
    assert childId == ChildIds(buffer, pos + NODE_BASE, count) + [0, 0, 0, 0, 0][..CHILD_SLOTS - count];
    node := NetNode(WordAt(buffer, pos), WordAt(buffer, pos + 4), count, childId);
  }

  /** d2_alloc_local_tree: a store of `numNodes` zeroed slots. A negative
      count asks calloc for more memory than exists, so no store is made. */
  method AllocLocalTree(numNodes: int) returns (store: LocalTreeStore?)
    ensures store == null <==> numNodes < 0
    ensures store != null ==>
      fresh(store) && fresh(store.root) && store.Valid() &&
      store.numberOfNodes == numNodes &&
      forall k :: 0 <= k < numNodes ==> store.root[k] == ZERO_NODE
  {
    if numNodes < 0 {
      return null;
    }
    store := new LocalTreeStore(numNodes);
  }
}
