/** The records, constants and table layout shared by the data plane and the
    controller (bpf/commons.h and the map declarations of
    bpf/tc_hier_pubsub_kern.c). */
module Commons {
  import opened Bytes

  const ETH_P_IP: u16 := 0x0800
  const IPPROTO_UDP: u8 := 17
  const TC_ACT_OK: int := 0
  const TC_ACT_SHOT: int := 2

  // Capacities of the maps.
  const MAX_TOPICS: nat := 4096
  const MAX_NODES: nat := 256
  const MAX_FANOUT: nat := 256
  const MAX_LOCAL_SUB: nat := 512

  // enum drop_reason
  const DR_OK: nat := 0
  const DR_NOT_UDP: nat := 1
  const DR_TOO_SHORT: nat := 2
  const DR_NO_TOPIC: nat := 3
  const DR_NO_NODESET: nat := 4
  const DR_NO_LOCALSET: nat := 5
  const DR_CLONE_FAIL: nat := 6
  const DR_HELPER_ERR: nat := 7
  const DR_MAX: nat := 8

  /** The 8-byte packed topic header that follows the UDP header.
      `hop` is 0 at the source, 1 at a node, and 2 or more for pass-through. */
  datatype TopicHdr = TopicHdr(topicId: u32, flags: u16, hop: u16)

  const TOPIC_HDR_LEN: nat := 8

  /** Memory image of a packed `topic_hdr` whose fields are stored in `order`. */
  function TopicHdrBytes(h: TopicHdr, order: ByteOrder): (r: seq<u8>)
    ensures |r| == TOPIC_HDR_LEN
  {
    Encode32(h.topicId, order) + (Encode16(h.flags, order) + Encode16(h.hop, order))
  }

  /** A packed `topic_hdr` read from the first 8 bytes of `b`. */
  function ReadTopicHdr(b: seq<u8>, order: ByteOrder): TopicHdr
    requires |b| >= TOPIC_HDR_LEN
  {
    TopicHdr(Decode32(b, order), Decode16(b[4..], order), Decode16(b[6..], order))
  }

  /** Writing back a header that was read gives the bytes it was read from. */
  lemma ReadTopicHdrInverse(b: seq<u8>, order: ByteOrder)
    requires |b| >= TOPIC_HDR_LEN
    ensures TopicHdrBytes(ReadTopicHdr(b, order), order) == b[..TOPIC_HDR_LEN]
  {
    Encode32Decode32(b, order);
    Encode16Decode16(b[4..], order);
    Encode16Decode16(b[6..], order);
    assert b[..TOPIC_HDR_LEN] == b[..4] + (b[4..][..2] + b[6..][..2]);
  }

  lemma TopicHdrRoundTrip(h: TopicHdr, order: ByteOrder)
    ensures ReadTopicHdr(TopicHdrBytes(h, order), order) == h
  {
    var b := TopicHdrBytes(h, order);
    var t1 := Encode16(h.hop, order);
    var t0 := Encode16(h.flags, order) + t1;
    assert b[4..] == t0 && b[6..] == t1 + [];
    DecodeFront32(h.topicId, t0, order);
    DecodeFront16(h.flags, t1, order);
    DecodeFront16(h.hop, [], order);
  }

  /** The header read depends only on the 8 bytes it covers. */
  lemma ReadTopicHdrLocal(b: seq<u8>, c: seq<u8>, order: ByteOrder)
    requires |b| >= TOPIC_HDR_LEN && |c| >= TOPIC_HDR_LEN && b[..TOPIC_HDR_LEN] == c[..TOPIC_HDR_LEN]
    ensures ReadTopicHdr(b, order) == ReadTopicHdr(c, order)
  {
    ReadTopicHdrInverse(b, order);
    ReadTopicHdrInverse(c, order);
    TopicHdrRoundTrip(ReadTopicHdr(b, order), order);
    TopicHdrRoundTrip(ReadTopicHdr(c, order), order);
  }

  /** `struct node_dest`: one tier-1 destination (daddr and dport are kept
      as the raw numbers the controller stores). */
  datatype NodeDest = NodeDest(nodeId: u32, daddr: u32, dport: u16, pad: u16)

  /** `struct sub_dest`: one tier-2 destination; `ifindex == 0` means
      "use the configured local route interface". */
  datatype SubDest = SubDest(ifindex: u32, daddr: u32, dport: u16, pad: u16)

  /** Both destination records are laid out as u32, u32, u16, u16. */
  function DestBytes(a: u32, b: u32, c: u16, d: u16, order: ByteOrder): (r: seq<u8>)
    ensures |r| == 12
  {
    Encode32(a, order) + (Encode32(b, order) + (Encode16(c, order) + Encode16(d, order)))
  }

  function NodeDestBytes(nd: NodeDest, order: ByteOrder): (r: seq<u8>)
    ensures |r| == 12
  {
    DestBytes(nd.nodeId, nd.daddr, nd.dport, nd.pad, order)
  }

  function SubDestBytes(sd: SubDest, order: ByteOrder): (r: seq<u8>)
    ensures |r| == 12
  {
    DestBytes(sd.ifindex, sd.daddr, sd.dport, sd.pad, order)
  }

  function ReadNodeDest(b: seq<u8>, order: ByteOrder): NodeDest
    requires |b| >= 12
  {
    NodeDest(Decode32(b, order), Decode32(b[4..], order), Decode16(b[8..], order), Decode16(b[10..], order))
  }

  function ReadSubDest(b: seq<u8>, order: ByteOrder): SubDest
    requires |b| >= 12
  {
    SubDest(Decode32(b, order), Decode32(b[4..], order), Decode16(b[8..], order), Decode16(b[10..], order))
  }

  /** Writing back the four fields of a destination record that was read
      gives the 12 bytes it was read from. */
  lemma ReadDestInverse(b: seq<u8>, order: ByteOrder)
    requires |b| >= 12
    ensures DestBytes(Decode32(b, order), Decode32(b[4..], order), Decode16(b[8..], order), Decode16(b[10..], order), order)
         == b[..12]
  {
    Encode32Decode32(b, order);
    Encode32Decode32(b[4..], order);
    Encode16Decode16(b[8..], order);
    Encode16Decode16(b[10..], order);
    assert b[..12] == b[..4] + (b[4..][..4] + (b[8..][..2] + b[10..][..2]));
  }

  /** Decoding the 12-byte image of a destination gives its fields back. */
  lemma DestBytesRoundTrip(a: u32, b: u32, c: u16, d: u16, order: ByteOrder)
    ensures var x := DestBytes(a, b, c, d, order);
      Decode32(x, order) == a && Decode32(x[4..], order) == b
      && Decode16(x[8..], order) == c && Decode16(x[10..], order) == d
  {
    var x := DestBytes(a, b, c, d, order);
    var t2 := Encode16(d, order);
    var t1 := Encode16(c, order) + t2;
    var t0 := Encode32(b, order) + t1;
    assert x[4..] == t0 && x[8..] == t1 && x[10..] == t2;
    DecodeFront32(a, t0, order);
    DecodeFront32(b, t1, order);
    DecodeFront16(c, t2, order);
    DecodeFront16(d, [], order);
    assert t2 + [] == t2;
  }

  lemma NodeDestRoundTrip(nd: NodeDest, order: ByteOrder)
    ensures ReadNodeDest(NodeDestBytes(nd, order), order) == nd
  {
    DestBytesRoundTrip(nd.nodeId, nd.daddr, nd.dport, nd.pad, order);
  }

  lemma SubDestRoundTrip(sd: SubDest, order: ByteOrder)
    ensures ReadSubDest(SubDestBytes(sd, order), order) == sd
  {
    DestBytesRoundTrip(sd.ifindex, sd.daddr, sd.dport, sd.pad, order);
  }

  /** `struct cfg_rec`, the runtime configuration stored at key 0. */
  datatype CfgRec = CfgRec(egressIfindex: u32, localRouteIfindex: u32, localNodeId: u32, activeGen: u32)

  /** `metrics.drops`, one counter per drop reason. */
  type DropCounters = s: seq<nat> | |s| == DR_MAX witness [0, 0, 0, 0, 0, 0, 0, 0]

  /** `struct metrics`. */
  datatype Metrics = Metrics(tier1Clones: nat, tier2Clones: nat, drops: DropCounters)

  /** One generation of the fanout tables: the topic and node outer maps
      (each value an inner array, modelled as the sequence of its slots)
      and their count side tables. */
  datatype Generation = Generation(
    topicNodes: map<u32, seq<NodeDest>>,
    topicCnt: map<u32, u32>,
    nodeSubs: map<u32, seq<SubDest>>,
    nodeCnt: map<u32, u32>)

  const EMPTY_GENERATION: Generation := Generation(map[], map[], map[], map[])

  /** The two physical generations, indexed 0 and 1. */
  type Gens = s: seq<Generation> | |s| == 2 witness [EMPTY_GENERATION, EMPTY_GENERATION]

  /** Lookup in an array-typed count table: a missing slot reads as 0. */
  function CountOf(m: map<u32, u32>, k: u32): u32
  {
    if k in m then m[k] else 0
  }
}
