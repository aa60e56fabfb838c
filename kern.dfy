/** The tc classifier that replicates topic packets
    (bpf/tc_hier_pubsub_kern.c): header parsing, generation selection, the
    tier-1 (topic -> nodes) and tier-2 (node -> local subscribers) fanout
    loops and the metrics counters.

    The packet is a linear byte sequence; a `bpf_clone_redirect` is an
    emitted `Clone` whose success is an input (`cloneFails` holds the loop
    indices whose clone fails); checksum updates are not modelled. The
    per-CPU metrics record is a value passed in and returned. */
module Kern {
  import opened Bytes
  import opened Commons

  const ETH_HLEN: nat := 14
  const IPHDR_LEN: nat := 20
  const UDPHDR_LEN: nat := 8

  // Field offsets inside the IPv4 and UDP headers.
  const IP_PROTO_OFF: nat := 9
  const IP_DADDR_OFF: nat := 16
  const UDP_DEST_OFF: nat := 2

  /** Offsets of the IPv4 header (l3) and of the UDP header (l4). */
  datatype Offsets = Offsets(l3: nat, l4: nat)

  /** Absolute positions of the fields the classifier reads or writes: the
      IPv4 destination address, the UDP destination port, the topic header
      and its hop field. */
  datatype Fields = Fields(daddr: nat, dport: nat, topic: nat, hop: nat)

  /** The field positions that follow from the parse offsets. */
  function FieldsOf(off: Offsets): Fields
  {
    Fields(off.l3 + IP_DADDR_OFF, off.l4 + UDP_DEST_OFF, off.l4 + UDPHDR_LEN, off.l4 + UDPHDR_LEN + 6)
  }

  /** Length in bytes of the IPv4 header: the low nibble of its first byte
      counts 32-bit words. */
  function IhlBytes(pkt: seq<u8>): nat
    requires |pkt| > ETH_HLEN
  {
    (pkt[ETH_HLEN] % 16) * 4
  }

  /** `parse_headers`: succeeds only for an Ethernet II frame carrying IPv4
      (ethertype 0x0800) with protocol UDP (17), a header length of at least
      20 bytes, and room for the UDP header and the 8-byte topic header. */
  function ParseHeaders(pkt: seq<u8>): (r: Option<Offsets>)
    ensures r.Some? <==>
      && |pkt| >= ETH_HLEN + IPHDR_LEN
      && ReadBe16(pkt[12..]) == ETH_P_IP
      && pkt[ETH_HLEN + IP_PROTO_OFF] == IPPROTO_UDP
      && IhlBytes(pkt) >= IPHDR_LEN
      && |pkt| >= ETH_HLEN + IhlBytes(pkt) + UDPHDR_LEN + TOPIC_HDR_LEN
    ensures r.Some? ==> r.value == Offsets(ETH_HLEN, ETH_HLEN + IhlBytes(pkt))
    ensures r.Some? ==> Fits(|pkt|, FieldsOf(r.value))
  {
    if |pkt| < ETH_HLEN then None
    else if ReadBe16(pkt[12..]) != ETH_P_IP then None
    else if |pkt| < ETH_HLEN + IPHDR_LEN then None
    else if pkt[ETH_HLEN + IP_PROTO_OFF] != IPPROTO_UDP then None
    else
      var ihl := (pkt[ETH_HLEN] % 16) * 4;
      if ihl < IPHDR_LEN then None
      else
        var l4 := ETH_HLEN + ihl;
        if |pkt| < l4 + UDPHDR_LEN then None
        else if |pkt| < l4 + UDPHDR_LEN + TOPIC_HDR_LEN then None
        else Some(Offsets(ETH_HLEN, l4))
  }

  /** The fields lie inside a packet of length `n`, in this order and
      without overlap, the hop field being the last two bytes of the topic
      header. */
  predicate Fits(n: nat, f: Fields)
  {
    && f.daddr + 4 <= f.dport && f.dport + 2 <= f.topic
    && f.hop == f.topic + 6 && f.topic + TOPIC_HDR_LEN <= n
  }

  /** `count_drop`: bumps the counter of `reason`, ignoring reasons at or
      beyond `DR_MAX`. */
  function CountDrop(m: Metrics, reason: nat): (m': Metrics)
    ensures reason >= DR_MAX ==> m' == m
    ensures reason < DR_MAX ==>
      m'.tier1Clones == m.tier1Clones && m'.tier2Clones == m.tier2Clones
      && m'.drops[reason] == m.drops[reason] + 1
      && forall k :: 0 <= k < DR_MAX && k != reason ==> m'.drops[k] == m.drops[k]
  {
    if reason < DR_MAX then m.(drops := m.drops[reason := m.drops[reason] + 1]) else m
  }

  /** `count_clone`: bumps the tier-1 or tier-2 clone counter; other tiers
      are ignored. */
  function CountClone(m: Metrics, tier: nat): (m': Metrics)
    ensures m'.drops == m.drops
    ensures m'.tier1Clones == m.tier1Clones + (if tier == 1 then 1 else 0)
    ensures m'.tier2Clones == m.tier2Clones + (if tier == 2 then 1 else 0)
  {
    if tier == 1 then m.(tier1Clones := m.tier1Clones + 1)
    else if tier == 2 then m.(tier2Clones := m.tier2Clones + 1)
    else m
  }

  /** The generation the data plane reads: any nonzero `active_gen` selects
      all four generation-1 tables, zero all four generation-0 tables. */
  function Select(gens: Gens, activeGen: u32): Generation
  {
    if activeGen != 0 then gens[1] else gens[0]
  }

  /** Where one fanout entry sends the packet. */
  datatype Target = Target(ifindex: u32, daddr: u32, dport: u16)

  /** One `bpf_clone_redirect` call and whether it succeeded. */
  datatype Clone = Clone(ifindex: u32, daddr: u32, dport: u16, delivered: bool)

  /** What one invocation does: its return code, the packet left in the
      original buffer, the clones sent, and the metrics afterwards. */
  datatype Verdict = Verdict(action: int, packet: seq<u8>, clones: seq<Clone>, metrics: Metrics)

  /** The packet with its IPv4 destination address and UDP destination port
      overwritten (the stored values are copied as they are in memory). */
  function Rewrite(pkt: seq<u8>, f: Fields, t: Target, order: ByteOrder): (r: seq<u8>)
    requires Fits(|pkt|, f)
    ensures |r| == |pkt|
  {
    Splice(Splice(pkt, f.daddr, Encode32(t.daddr, order)), f.dport, Encode16(t.dport, order))
  }

  /** The packet with the hop field of its topic header overwritten. */
  function SetHop(pkt: seq<u8>, f: Fields, hop: u16, order: ByteOrder): (r: seq<u8>)
    requires Fits(|pkt|, f)
    ensures |r| == |pkt|
  {
    Splice(pkt, f.hop, Encode16(hop, order))
  }

  /** The topic header of a parsed packet, read in the host byte order. */
  function TopicOf(pkt: seq<u8>, f: Fields, order: ByteOrder): TopicHdr
    requires Fits(|pkt|, f)
  {
    ReadTopicHdr(pkt[f.topic..], order)
  }

  /** The IPv4 destination address field, read as stored. */
  function DaddrOf(pkt: seq<u8>, f: Fields, order: ByteOrder): u32
    requires Fits(|pkt|, f)
  {
    Decode32(pkt[f.daddr..], order)
  }

  /** The UDP destination port field, read as stored. */
  function DportOf(pkt: seq<u8>, f: Fields, order: ByteOrder): u16
    requires Fits(|pkt|, f)
  {
    Decode16(pkt[f.dport..], order)
  }

  /** Position `i` lies in the destination address or destination port field. */
  predicate InRewrittenField(f: Fields, i: int)
  {
    f.daddr <= i < f.daddr + 4 || f.dport <= i < f.dport + 2
  }

  function Min(a: int, b: int): int { if a < b then a else b }

  /** Tier-1 targets: every node destination leaves on the egress device. */
  function Tier1Targets(inner: seq<NodeDest>, cfg: CfgRec): (ts: seq<Target>)
    ensures |ts| == |inner|
    ensures forall j :: 0 <= j < |inner| ==> ts[j] == Target(cfg.egressIfindex, inner[j].daddr, inner[j].dport)
  {
    seq(|inner|, j requires 0 <= j < |inner| => Target(cfg.egressIfindex, inner[j].daddr, inner[j].dport))
  }

  /** Tier-2 targets: a subscriber's own interface, or the configured local
      route interface when the stored one is 0. */
  function Tier2Targets(inner: seq<SubDest>, cfg: CfgRec): (ts: seq<Target>)
    ensures |ts| == |inner|
    ensures forall j :: 0 <= j < |inner| ==> ts[j] == SubTarget(inner[j], cfg)
  {
    seq(|inner|, j requires 0 <= j < |inner| => SubTarget(inner[j], cfg))
  }

  function SubTarget(sd: SubDest, cfg: CfgRec): Target
  {
    Target(if sd.ifindex != 0 then sd.ifindex else cfg.localRouteIfindex, sd.daddr, sd.dport)
  }

  /** Number of entries a fanout loop bounded by `maxIter` visits: indices
      0 .. min(count, maxIter) - 1 whose lookup succeeds. */
  function Visited(targets: seq<Target>, cnt: nat, maxIter: nat): nat
  {
    Min(Min(cnt, maxIter), |targets|)
  }

  /** Number of visited entries `i` with `i + 1 < cnt`, i.e. that are cloned. */
  function Cloned(visited: nat, cnt: nat): nat
  {
    if cnt == 0 then 0 else Min(visited, cnt - 1)
  }

  /** The clones of the first `n` entries. */
  function ClonesOf(targets: seq<Target>, n: nat, cloneFails: set<nat>): (cs: seq<Clone>)
    requires n <= |targets|
    ensures |cs| == n
  {
    if n == 0 then []
    else ClonesOf(targets, n - 1, cloneFails) + [CloneOf(targets[n - 1], n - 1, cloneFails)]
  }

  /** The clone of entry `j`. */
  function CloneOf(t: Target, j: nat, cloneFails: set<nat>): Clone
  {
    Clone(t.ifindex, t.daddr, t.dport, j !in cloneFails)
  }

  function Delivered(cs: seq<Clone>): nat
  {
    if cs == [] then 0 else Delivered(cs[..|cs| - 1]) + (if cs[|cs| - 1].delivered then 1 else 0)
  }

  function Failed(cs: seq<Clone>): nat
  {
    if cs == [] then 0 else Failed(cs[..|cs| - 1]) + (if cs[|cs| - 1].delivered then 0 else 1)
  }

  /** The metrics after a tier's clones: successes bump that tier's counter,
      failures bump `drops[DR_CLONE_FAIL]`. */
  function Account(m: Metrics, tier: nat, cs: seq<Clone>): Metrics
  {
    Metrics(
      m.tier1Clones + (if tier == 1 then Delivered(cs) else 0),
      m.tier2Clones + (if tier == 2 then Delivered(cs) else 0),
      m.drops[DR_CLONE_FAIL := m.drops[DR_CLONE_FAIL] + Failed(cs)])
  }

  /** What a fanout loop produces, stated without the loop: the packet
      rewritten by every visited entry in turn, every visited entry except
      the last of `cnt` cloned in index order, and the metrics counting the
      clones. */
  function FanOutSpec(pkt: seq<u8>, f: Fields, order: ByteOrder, targets: seq<Target>,
                      cnt: nat, maxIter: nat, tier: nat, m: Metrics, cloneFails: set<nat>): Verdict
    requires Fits(|pkt|, f)
  {
    var n := Visited(targets, cnt, maxIter);
    var cs := ClonesOf(targets, Cloned(n, cnt), cloneFails);
    Verdict(TC_ACT_OK, Rewritten(pkt, f, order, targets, n), cs, Account(m, tier, cs))
  }

  /** The packet after the first `n` entries rewrote it in turn. */
  function Rewritten(pkt: seq<u8>, f: Fields, order: ByteOrder, targets: seq<Target>, n: nat): (r: seq<u8>)
    requires Fits(|pkt|, f) && n <= |targets|
    ensures |r| == |pkt|
  {
    if n == 0 then pkt else Rewrite(Rewritten(pkt, f, order, targets, n - 1), f, targets[n - 1], order)
  }

  /** `tc_hier_pubsub`, stated as a function of the packet, the
      configuration record, both generations and the metrics. */
  function Forward(skb: seq<u8>, cfg: Option<CfgRec>, gens: Gens, m: Metrics,
                   order: ByteOrder, cloneFails: set<nat>): (v: Verdict)
    ensures v.action == TC_ACT_OK && |v.packet| == |skb|
  {
    if cfg.None? then Verdict(TC_ACT_OK, skb, [], m)
    else match ParseHeaders(skb)
      case None => Verdict(TC_ACT_OK, skb, [], CountDrop(m, DR_NOT_UDP))
      case Some(off) => Dispatch(skb, FieldsOf(off), cfg.value, Select(gens, cfg.value.activeGen), m, order, cloneFails)
  }

  /** The hop dispatch on a parsed packet, against the selected generation. */
  function Dispatch(skb: seq<u8>, f: Fields, cfg: CfgRec, g: Generation, m: Metrics,
                    order: ByteOrder, cloneFails: set<nat>): (v: Verdict)
    requires Fits(|skb|, f)
    ensures v.action == TC_ACT_OK && |v.packet| == |skb|
  {
    var th := TopicOf(skb, f, order);
    if th.hop == 0 then NodeFanOut(skb, f, th, cfg, g, m, order, cloneFails)
    else if th.hop == 1 then LocalFanOut(skb, f, th, cfg, g, m, order, cloneFails)
    else Verdict(TC_ACT_OK, skb, [], m)
  }

  /** Hop 0: fan out to the nodes hosting the topic. */
  function NodeFanOut(skb: seq<u8>, f: Fields, th: TopicHdr, cfg: CfgRec, g: Generation, m: Metrics,
                      order: ByteOrder, cloneFails: set<nat>): (v: Verdict)
    requires Fits(|skb|, f) && th.hop < 0xFFFF
    ensures v.action == TC_ACT_OK && |v.packet| == |skb|
  {
    if th.topicId !in g.topicNodes || CountOf(g.topicCnt, th.topicId) == 0 then
      Verdict(TC_ACT_OK, skb, [], CountDrop(m, DR_NO_NODESET))
    else
      FanOutSpec(SetHop(skb, f, th.hop + 1, order), f, order,
                 Tier1Targets(g.topicNodes[th.topicId], cfg),
                 CountOf(g.topicCnt, th.topicId), MAX_FANOUT, 1, m, cloneFails)
  }

  /** Hop 1: fan out to the subscribers on this node. */
  function LocalFanOut(skb: seq<u8>, f: Fields, th: TopicHdr, cfg: CfgRec, g: Generation, m: Metrics,
                       order: ByteOrder, cloneFails: set<nat>): (v: Verdict)
    requires Fits(|skb|, f) && th.hop < 0xFFFF
    ensures v.action == TC_ACT_OK && |v.packet| == |skb|
  {
    if cfg.localNodeId !in g.nodeSubs || CountOf(g.nodeCnt, cfg.localNodeId) == 0 then
      Verdict(TC_ACT_OK, skb, [], CountDrop(m, DR_NO_LOCALSET))
    else
      FanOutSpec(SetHop(skb, f, th.hop + 1, order), f, order,
                 Tier2Targets(g.nodeSubs[cfg.localNodeId], cfg),
                 CountOf(g.nodeCnt, cfg.localNodeId), MAX_LOCAL_SUB, 2, m, cloneFails)
  }

  // ---------------------------------------------------------------------
  // The program itself: the fanout loop and the classifier body.

  /** One bounded fanout loop: for i = 0 .. maxIter - 1, stop at `cnt`,
      and visit entry i. */
  method FanOut(pkt: seq<u8>, f: Fields, order: ByteOrder, targets: seq<Target>,
                cnt: u32, maxIter: nat, tier: nat, m: Metrics, cloneFails: set<nat>)
    returns (v: Verdict)
    requires Fits(|pkt|, f)
    ensures v == FanOutSpec(pkt, f, order, targets, cnt, maxIter, tier, m, cloneFails)
  {
    var out, clones, metrics := pkt, [], m;
    var i: nat := 0;
    FanOutStart(pkt, f, order, targets, cnt, tier, m, cloneFails);
    while i < maxIter
      invariant i <= maxIter && i <= cnt
      invariant Verdict(TC_ACT_OK, out, clones, metrics) == FanOutSpec(pkt, f, order, targets, cnt, i, tier, m, cloneFails)
    {
      if i >= cnt {
        break;
      }
      out, clones, metrics := Visit(pkt, f, order, targets, cnt, i, tier, m, cloneFails, out, clones, metrics);
      i := i + 1;
    }
    FanOutStop(pkt, f, order, targets, cnt, i, maxIter, tier, m, cloneFails);
    v := Verdict(TC_ACT_OK, out, clones, metrics);
  }

  /** One iteration of the fanout loop: skip an entry whose lookup fails,
      otherwise rewrite the destination, and clone unless `i` is the last
      entry, counting the clone as a success or a `DR_CLONE_FAIL` drop. */
  method Visit(pkt: seq<u8>, f: Fields, order: ByteOrder, targets: seq<Target>, cnt: nat, i: nat,
               tier: nat, m: Metrics, cloneFails: set<nat>, out: seq<u8>, clones: seq<Clone>, metrics: Metrics)
    returns (out': seq<u8>, clones': seq<Clone>, metrics': Metrics)
    requires Fits(|pkt|, f) && i < cnt
    requires Verdict(TC_ACT_OK, out, clones, metrics) == FanOutSpec(pkt, f, order, targets, cnt, i, tier, m, cloneFails)
    ensures Verdict(TC_ACT_OK, out', clones', metrics') == FanOutSpec(pkt, f, order, targets, cnt, i + 1, tier, m, cloneFails)
  {
    out', clones', metrics' := out, clones, metrics;
    ClonesStep(targets, cnt, i, cloneFails);
    if i < |targets| {
      var t := targets[i];
      RewrittenStep(pkt, f, order, targets, cnt, i);
      out' := Rewrite(out, f, t, order);
      if i + 1 < cnt {
        var c := Clone(t.ifindex, t.daddr, t.dport, i !in cloneFails);
        AccountStep(m, tier, clones, c);
        if c.delivered {
          metrics' := CountClone(metrics, tier);
        } else {
          metrics' := CountDrop(metrics, DR_CLONE_FAIL);
        }
        clones' := clones + [c];
      }
    } else {
      VisitStep(targets, cnt, i);
    }
  }

  /** `tc_hier_pubsub`: every path returns `TC_ACT_OK`. */
  method TcHierPubsub(skb: seq<u8>, cfg: Option<CfgRec>, gens: Gens, m: Metrics,
                      order: ByteOrder, cloneFails: set<nat>)
    returns (v: Verdict)
    ensures v == Forward(skb, cfg, gens, m, order, cloneFails)
  {
    if cfg.None? {
      return Verdict(TC_ACT_OK, skb, [], m);
    }
    var c := cfg.value;
    var parsed := ParseHeaders(skb);
    if parsed.None? {
      return Verdict(TC_ACT_OK, skb, [], CountDrop(m, DR_NOT_UDP));
    }
    var f := FieldsOf(parsed.value);
    var th := TopicOf(skb, f, order);
    var g := Select(gens, c.activeGen);
    assert Forward(skb, cfg, gens, m, order, cloneFails) == Dispatch(skb, f, c, g, m, order, cloneFails);
    if th.hop == 0 {
      if th.topicId !in g.topicNodes {
        return Verdict(TC_ACT_OK, skb, [], CountDrop(m, DR_NO_NODESET));
      }
      var fanout := CountOf(g.topicCnt, th.topicId);
      if fanout == 0 {
        return Verdict(TC_ACT_OK, skb, [], CountDrop(m, DR_NO_NODESET));
      }
      var pkt := SetHop(skb, f, th.hop + 1, order);
      v := FanOut(pkt, f, order, Tier1Targets(g.topicNodes[th.topicId], c), fanout, MAX_FANOUT, 1, m, cloneFails);
    } else if th.hop == 1 {
      var nid := c.localNodeId;
      if nid !in g.nodeSubs {
        return Verdict(TC_ACT_OK, skb, [], CountDrop(m, DR_NO_LOCALSET));
      }
      var localcnt := CountOf(g.nodeCnt, nid);
      if localcnt == 0 {
        return Verdict(TC_ACT_OK, skb, [], CountDrop(m, DR_NO_LOCALSET));
      }
      var pkt := SetHop(skb, f, th.hop + 1, order);
      v := FanOut(pkt, f, order, Tier2Targets(g.nodeSubs[nid], c), localcnt, MAX_LOCAL_SUB, 2, m, cloneFails);
    } else {
      v := Verdict(TC_ACT_OK, skb, [], m);
    }
  }

  // ---------------------------------------------------------------------
  // Helper lemmas.

  /** Before the first iteration nothing is rewritten, cloned or counted. */
  lemma FanOutStart(pkt: seq<u8>, f: Fields, order: ByteOrder, targets: seq<Target>,
                    cnt: nat, tier: nat, m: Metrics, cloneFails: set<nat>)
    requires Fits(|pkt|, f)
    ensures FanOutSpec(pkt, f, order, targets, cnt, 0, tier, m, cloneFails) == Verdict(TC_ACT_OK, pkt, [], m)
  {
    assert m.drops[DR_CLONE_FAIL := m.drops[DR_CLONE_FAIL]] == m.drops;
  }

  /** The loop may stop early at `cnt`: iterations from there on visit
      nothing. */
  lemma FanOutStop(pkt: seq<u8>, f: Fields, order: ByteOrder, targets: seq<Target>,
                   cnt: nat, i: nat, maxIter: nat, tier: nat, m: Metrics, cloneFails: set<nat>)
    requires Fits(|pkt|, f) && i <= maxIter && i <= cnt && (i == maxIter || i == cnt)
    ensures FanOutSpec(pkt, f, order, targets, cnt, i, tier, m, cloneFails)
         == FanOutSpec(pkt, f, order, targets, cnt, maxIter, tier, m, cloneFails)
  {
    assert Visited(targets, cnt, i) == Visited(targets, cnt, maxIter);
  }

  /** A second rewrite overwrites the first one completely. */
  lemma RewriteTwice(pkt: seq<u8>, f: Fields, t0: Target, t: Target, order: ByteOrder)
    requires Fits(|pkt|, f)
    ensures Rewrite(Rewrite(pkt, f, t0, order), f, t, order) == Rewrite(pkt, f, t, order)
  {
    SplicePairAbsorbs(pkt, f.daddr, f.dport, Encode32(t0.daddr, order), Encode16(t0.dport, order),
                      Encode32(t.daddr, order), Encode16(t.dport, order));
  }

  /** How one more iteration moves the number of visited and cloned entries. */
  lemma VisitStep(targets: seq<Target>, cnt: nat, i: nat)
    requires i < cnt
    ensures var n, n' := Visited(targets, cnt, i), Visited(targets, cnt, i + 1);
      && (i < |targets| ==> n == i && n' == i + 1)
      && (i >= |targets| ==> n' == n)
      && (i < |targets| && i + 1 < cnt ==> Cloned(n, cnt) == i && Cloned(n', cnt) == i + 1)
      && (i < |targets| && i + 1 == cnt ==> Cloned(n', cnt) == Cloned(n, cnt))
  {
  }

  lemma RewrittenStep(pkt: seq<u8>, f: Fields, order: ByteOrder, targets: seq<Target>, cnt: nat, i: nat)
    requires Fits(|pkt|, f) && i < cnt && i < |targets|
    ensures Rewrite(Rewritten(pkt, f, order, targets, Visited(targets, cnt, i)), f, targets[i], order)
         == Rewritten(pkt, f, order, targets, Visited(targets, cnt, i + 1))
  {
    VisitStep(targets, cnt, i);
  }

  lemma ClonesStep(targets: seq<Target>, cnt: nat, i: nat, cloneFails: set<nat>)
    requires i < cnt
    ensures var cs, cs' := ClonesOf(targets, Cloned(Visited(targets, cnt, i), cnt), cloneFails),
                           ClonesOf(targets, Cloned(Visited(targets, cnt, i + 1), cnt), cloneFails);
      if i < |targets| && i + 1 < cnt then
        cs' == cs + [Clone(targets[i].ifindex, targets[i].daddr, targets[i].dport, i !in cloneFails)]
      else cs' == cs
  {
    VisitStep(targets, cnt, i);
  }

  /** Only the last rewrite shows: each one overwrites the same two fields. */
  lemma {:induction false} RewrittenIsLast(pkt: seq<u8>, f: Fields, order: ByteOrder, targets: seq<Target>, n: nat)
    requires Fits(|pkt|, f) && 0 < n <= |targets|
    ensures Rewritten(pkt, f, order, targets, n) == Rewrite(pkt, f, targets[n - 1], order)
  {
    if n == 1 {
      assert Rewritten(pkt, f, order, targets, 0) == pkt;
    } else {
      RewrittenIsLast(pkt, f, order, targets, n - 1);
      RewriteTwice(pkt, f, targets[n - 2], targets[n - 1], order);
    }
  }

  lemma AccountStep(m: Metrics, tier: nat, cs: seq<Clone>, c: Clone)
    ensures Account(m, tier, cs + [c]) ==
      if c.delivered then CountClone(Account(m, tier, cs), tier)
      else CountDrop(Account(m, tier, cs), DR_CLONE_FAIL)
  {
    assert (cs + [c])[..|cs + [c]| - 1] == cs;
  }

  // ---------------------------------------------------------------------
  // Properties of the forwarding decision.

  /** A rewrite stores the target's address and port and touches no other
      byte. */
  lemma RewriteFacts(pkt: seq<u8>, f: Fields, t: Target, order: ByteOrder)
    requires Fits(|pkt|, f)
    ensures var r := Rewrite(pkt, f, t, order);
      && DaddrOf(r, f, order) == t.daddr && DportOf(r, f, order) == t.dport
      && (forall i :: 0 <= i < |pkt| && !InRewrittenField(f, i) ==> r[i] == pkt[i])
  {
    var x := Splice(pkt, f.daddr, Encode32(t.daddr, order));
    SpliceAt(pkt, f.daddr, Encode32(t.daddr, order));
    SpliceAt(x, f.dport, Encode16(t.dport, order));
    SpliceRead32(pkt, f.daddr, t.daddr, order);
    SpliceKeeps32(x, f.dport, Encode16(t.dport, order), f.daddr, order);
    SpliceRead16(x, f.dport, t.dport, order);
  }

  /** The topic header depends only on its own 8 bytes. */
  lemma TopicOfLocal(a: seq<u8>, b: seq<u8>, f: Fields, order: ByteOrder)
    requires Fits(|a|, f) && |b| == |a|
    requires forall i :: f.topic <= i < f.topic + TOPIC_HDR_LEN ==> a[i] == b[i]
    ensures TopicOf(a, f, order) == TopicOf(b, f, order)
  {
    assert a[f.topic..][..TOPIC_HDR_LEN] == b[f.topic..][..TOPIC_HDR_LEN] by {
      forall j | 0 <= j < TOPIC_HDR_LEN
        ensures a[f.topic..][..TOPIC_HDR_LEN][j] == b[f.topic..][..TOPIC_HDR_LEN][j]
      {
        assert a[f.topic..][..TOPIC_HDR_LEN][j] == a[f.topic + j];
        assert b[f.topic..][..TOPIC_HDR_LEN][j] == b[f.topic + j];
      }
    }
    ReadTopicHdrLocal(a[f.topic..], b[f.topic..], order);
  }

  /** The topic header bytes after setting the hop: the first six as
      before, then the new hop. */
  lemma SetHopHeaderBytes(pkt: seq<u8>, f: Fields, hop: u16, order: ByteOrder)
    requires Fits(|pkt|, f)
    ensures SetHop(pkt, f, hop, order)[f.topic..][..TOPIC_HDR_LEN]
         == TopicHdrBytes(TopicOf(pkt, f, order).(hop := hop), order)
  {
    var r := SetHop(pkt, f, hop, order);
    var th := TopicOf(pkt, f, order);
    var w := Encode16(hop, order);
    var before, after := pkt[f.topic..][..TOPIC_HDR_LEN], r[f.topic..][..TOPIC_HDR_LEN];
    SpliceAt(pkt, f.hop, w);
    ReadTopicHdrInverse(pkt[f.topic..], order);
    assert TopicHdrBytes(th, order) == before;
    assert after == before[..6] + w by {
      forall j | 0 <= j < TOPIC_HDR_LEN ensures after[j] == (before[..6] + w)[j] {
        if j < 6 {
          assert after[j] == r[f.topic + j] == pkt[f.topic + j];
        } else {
          assert after[j] == r[f.topic + j] == w[j - 6];
        }
      }
    }
  }

  /** Setting the hop changes the hop field of the topic header and no other
      byte. */
  lemma SetHopFacts(pkt: seq<u8>, f: Fields, hop: u16, order: ByteOrder)
    requires Fits(|pkt|, f)
    ensures var r := SetHop(pkt, f, hop, order);
      && TopicOf(r, f, order) == TopicOf(pkt, f, order).(hop := hop)
      && (forall i :: 0 <= i < |pkt| && !(f.hop <= i < f.hop + 2) ==> r[i] == pkt[i])
  {
    var r := SetHop(pkt, f, hop, order);
    var e := TopicOf(pkt, f, order).(hop := hop);
    SpliceAt(pkt, f.hop, Encode16(hop, order));
    SetHopHeaderBytes(pkt, f, hop, order);
    TopicHdrRoundTrip(e, order);
    ReadTopicHdrLocal(r[f.topic..], TopicHdrBytes(e, order), order);
  }

  /** After `n > 0` rewrites the packet carries the last target's address
      and port, and no byte outside those two fields has changed. */
  lemma RewrittenFacts(pkt: seq<u8>, f: Fields, order: ByteOrder, targets: seq<Target>, n: nat)
    requires Fits(|pkt|, f) && 0 < n <= |targets|
    ensures var r := Rewritten(pkt, f, order, targets, n);
      && DaddrOf(r, f, order) == targets[n - 1].daddr && DportOf(r, f, order) == targets[n - 1].dport
      && (forall i :: 0 <= i < |pkt| && !InRewrittenField(f, i) ==> r[i] == pkt[i])
  {
    RewrittenIsLast(pkt, f, order, targets, n);
    RewriteFacts(pkt, f, targets[n - 1], order);
  }

  /** Clone `j` of a fanout goes to entry `j`, in index order. */
  lemma {:induction false} ClonesOfIndex(targets: seq<Target>, n: nat, cloneFails: set<nat>, j: nat)
    requires j < n <= |targets|
    ensures ClonesOf(targets, n, cloneFails)[j] == CloneOf(targets[j], j, cloneFails)
  {
    if j < n - 1 {
      ClonesOfIndex(targets, n - 1, cloneFails, j);
    }
  }

  /** Every clone is counted exactly once, as a delivery or as a failure. */
  lemma {:induction false} DeliveredPlusFailed(cs: seq<Clone>)
    ensures Delivered(cs) + Failed(cs) == |cs|
  {
    if cs != [] {
      DeliveredPlusFailed(cs[..|cs| - 1]);
    }
  }

  // ---------------------------------------------------------------------
  // Properties of the forwarding decision.

  /** Without a configuration record the packet passes untouched; a packet
      that does not parse passes untouched and counts `DR_NOT_UDP`. */
  lemma ForwardParseFailure(skb: seq<u8>, cfg: Option<CfgRec>, gens: Gens, m: Metrics,
                            order: ByteOrder, cloneFails: set<nat>)
    requires cfg.None? || ParseHeaders(skb).None?
    ensures Forward(skb, cfg, gens, m, order, cloneFails) ==
      Verdict(TC_ACT_OK, skb, [], if cfg.None? then m else CountDrop(m, DR_NOT_UDP))
  {
  }

  /** The decision reads the tables of the generation `active_gen` selects
      and no others: changing the other generation changes nothing. */
  lemma ForwardReadsOnlyActiveGeneration(skb: seq<u8>, cfg: CfgRec, gens: Gens, gens': Gens, m: Metrics,
                                         order: ByteOrder, cloneFails: set<nat>)
    requires var k := if cfg.activeGen != 0 then 1 else 0; gens[k] == gens'[k]
    ensures Forward(skb, Some(cfg), gens, m, order, cloneFails) == Forward(skb, Some(cfg), gens', m, order, cloneFails)
  {
  }

  /** A parsed packet that is not fanned out passes unmodified: at hop 0 with
      no node set for its topic (counted as `DR_NO_NODESET`), at hop 1 with
      no subscriber set for this node (`DR_NO_LOCALSET`), and at hop 2 or
      more without any count. */
  lemma ForwardNoFanout(skb: seq<u8>, cfg: CfgRec, gens: Gens, m: Metrics, order: ByteOrder, cloneFails: set<nat>)
    requires ParseHeaders(skb).Some?
    requires var f := FieldsOf(ParseHeaders(skb).value);
      var th, g := TopicOf(skb, f, order), Select(gens, cfg.activeGen);
      || (th.hop == 0 && (th.topicId !in g.topicNodes || CountOf(g.topicCnt, th.topicId) == 0))
      || (th.hop == 1 && (cfg.localNodeId !in g.nodeSubs || CountOf(g.nodeCnt, cfg.localNodeId) == 0))
      || th.hop >= 2
    ensures var f := FieldsOf(ParseHeaders(skb).value);
      var th := TopicOf(skb, f, order);
      Forward(skb, Some(cfg), gens, m, order, cloneFails) ==
        Verdict(TC_ACT_OK, skb, [],
          if th.hop == 0 then CountDrop(m, DR_NO_NODESET)
          else if th.hop == 1 then CountDrop(m, DR_NO_LOCALSET)
          else m)
  {
  }

  /** The packet a fanout leaves in the original buffer: the destination
      of the last visited entry when there is one (the packet itself
      otherwise), and every byte outside the two destination fields as it
      was. */
  lemma FanOutPacket(pkt: seq<u8>, f: Fields, order: ByteOrder, targets: seq<Target>,
                     cnt: nat, maxIter: nat, tier: nat, m: Metrics, cloneFails: set<nat>)
    requires Fits(|pkt|, f)
    ensures var r := FanOutSpec(pkt, f, order, targets, cnt, maxIter, tier, m, cloneFails).packet;
      var n := Visited(targets, cnt, maxIter);
      && |r| == |pkt|
      && (n == 0 ==> r == pkt)
      && (n > 0 ==> DaddrOf(r, f, order) == targets[n - 1].daddr && DportOf(r, f, order) == targets[n - 1].dport)
      && (forall i :: 0 <= i < |pkt| && !InRewrittenField(f, i) ==> r[i] == pkt[i])
  {
    var n := Visited(targets, cnt, maxIter);
    assert FanOutSpec(pkt, f, order, targets, cnt, maxIter, tier, m, cloneFails).packet == Rewritten(pkt, f, order, targets, n);
    if n > 0 {
      RewrittenFacts(pkt, f, order, targets, n);
    }
  }

  /** A fanout after setting the hop: the packet has the new hop, the last
      visited destination, and otherwise the bytes it arrived with. */
  lemma HopFanOutPacket(skb: seq<u8>, f: Fields, order: ByteOrder, hop: u16, targets: seq<Target>,
                        cnt: nat, maxIter: nat, tier: nat, m: Metrics, cloneFails: set<nat>)
    requires Fits(|skb|, f)
    ensures var p := SetHop(skb, f, hop, order);
      var r := FanOutSpec(p, f, order, targets, cnt, maxIter, tier, m, cloneFails).packet;
      var n := Visited(targets, cnt, maxIter);
      && |r| == |skb|
      && TopicOf(r, f, order) == TopicOf(skb, f, order).(hop := hop)
      && (n == 0 ==> r == p)
      && (n > 0 ==> DaddrOf(r, f, order) == targets[n - 1].daddr && DportOf(r, f, order) == targets[n - 1].dport)
      && (forall i :: 0 <= i < |skb| && !InRewrittenField(f, i) && !(f.hop <= i < f.hop + 2) ==> r[i] == skb[i])
  {
    var p := SetHop(skb, f, hop, order);
    var r := FanOutSpec(p, f, order, targets, cnt, maxIter, tier, m, cloneFails).packet;
    SetHopFacts(skb, f, hop, order);
    FanOutPacket(p, f, order, targets, cnt, maxIter, tier, m, cloneFails);
    forall i | 0 <= i < |skb| && !InRewrittenField(f, i) && !(f.hop <= i < f.hop + 2) ensures r[i] == skb[i] {
      assert r[i] == p[i];
    }
    TopicOfLocal(r, p, f, order);
  }

  /** How a parsed packet reaches `Dispatch`. */
  lemma ForwardDispatch(skb: seq<u8>, cfg: CfgRec, gens: Gens, m: Metrics, order: ByteOrder, cloneFails: set<nat>)
    requires ParseHeaders(skb).Some?
    ensures Fits(|skb|, FieldsOf(ParseHeaders(skb).value))
    ensures Forward(skb, Some(cfg), gens, m, order, cloneFails) ==
      Dispatch(skb, FieldsOf(ParseHeaders(skb).value), cfg, Select(gens, cfg.activeGen), m, order, cloneFails)
  {
  }

  /** A packet at hop 0 whose topic has a non-empty node set is fanned out
      to the node set with its hop set to 1. */
  lemma DispatchTier1(skb: seq<u8>, f: Fields, cfg: CfgRec, g: Generation, m: Metrics,
                      order: ByteOrder, cloneFails: set<nat>)
    requires Fits(|skb|, f)
    requires var th := TopicOf(skb, f, order);
      th.hop == 0 && th.topicId in g.topicNodes && CountOf(g.topicCnt, th.topicId) != 0
    ensures var th := TopicOf(skb, f, order);
      Dispatch(skb, f, cfg, g, m, order, cloneFails) ==
        FanOutSpec(SetHop(skb, f, 1, order), f, order, Tier1Targets(g.topicNodes[th.topicId], cfg),
                   CountOf(g.topicCnt, th.topicId), MAX_FANOUT, 1, m, cloneFails)
  {
  }

  /** A packet at hop 1 on a node with a non-empty subscriber set is fanned
      out to the subscriber set with its hop set to 2. */
  lemma DispatchTier2(skb: seq<u8>, f: Fields, cfg: CfgRec, g: Generation, m: Metrics,
                      order: ByteOrder, cloneFails: set<nat>)
    requires Fits(|skb|, f)
    requires var th := TopicOf(skb, f, order);
      th.hop == 1 && cfg.localNodeId in g.nodeSubs && CountOf(g.nodeCnt, cfg.localNodeId) != 0
    ensures Dispatch(skb, f, cfg, g, m, order, cloneFails) ==
      FanOutSpec(SetHop(skb, f, 2, order), f, order, Tier2Targets(g.nodeSubs[cfg.localNodeId], cfg),
                 CountOf(g.nodeCnt, cfg.localNodeId), MAX_LOCAL_SUB, 2, m, cloneFails)
  {
  }

  /** The clones a fanout sends: one per visited entry except the last of
      `cnt`, clone `j` to entry `j`, each counted as a delivery of its tier
      or as a `DR_CLONE_FAIL` drop. */
  lemma FanOutClones(pkt: seq<u8>, f: Fields, order: ByteOrder, targets: seq<Target>,
                     cnt: nat, maxIter: nat, tier: nat, m: Metrics, cloneFails: set<nat>)
    requires Fits(|pkt|, f) && cnt > 0 && (tier == 1 || tier == 2)
    ensures var v := FanOutSpec(pkt, f, order, targets, cnt, maxIter, tier, m, cloneFails);
      var n := Visited(targets, cnt, maxIter);
      && |v.clones| == (if n < cnt then n else cnt - 1)
      && (forall j :: 0 <= j < |v.clones| ==> v.clones[j] == CloneOf(targets[j], j, cloneFails))
      && v.metrics.tier1Clones + v.metrics.tier2Clones + v.metrics.drops[DR_CLONE_FAIL]
         == m.tier1Clones + m.tier2Clones + m.drops[DR_CLONE_FAIL] + |v.clones|
      && (tier == 1 ==> v.metrics.tier1Clones == m.tier1Clones + Delivered(v.clones) && v.metrics.tier2Clones == m.tier2Clones)
      && (tier == 2 ==> v.metrics.tier2Clones == m.tier2Clones + Delivered(v.clones) && v.metrics.tier1Clones == m.tier1Clones)
      && v.metrics.drops[DR_CLONE_FAIL] == m.drops[DR_CLONE_FAIL] + Failed(v.clones)
      && (forall k :: 0 <= k < DR_MAX && k != DR_CLONE_FAIL ==> v.metrics.drops[k] == m.drops[k])
  {
    var v := FanOutSpec(pkt, f, order, targets, cnt, maxIter, tier, m, cloneFails);
    var n := Visited(targets, cnt, maxIter);
    forall j | 0 <= j < |v.clones| ensures v.clones[j] == CloneOf(targets[j], j, cloneFails) {
      ClonesOfIndex(targets, Cloned(n, cnt), cloneFails, j);
    }
    DeliveredPlusFailed(v.clones);
  }

  /** At hop 0 with a non-empty node set, the packet left behind has hop 1,
      the address and port of the last node visited, and every other byte
      as it arrived. */
  lemma Tier1Packet(skb: seq<u8>, f: Fields, cfg: CfgRec, g: Generation, m: Metrics,
                    order: ByteOrder, cloneFails: set<nat>)
    requires Fits(|skb|, f)
    requires var th := TopicOf(skb, f, order);
      th.hop == 0 && th.topicId in g.topicNodes && CountOf(g.topicCnt, th.topicId) != 0
    ensures var th := TopicOf(skb, f, order);
      var inner, cnt := g.topicNodes[th.topicId], CountOf(g.topicCnt, th.topicId);
      var n := Min(Min(cnt, MAX_FANOUT), |inner|);
      var r := Dispatch(skb, f, cfg, g, m, order, cloneFails).packet;
      && TopicOf(r, f, order) == th.(hop := 1)
      && (n == 0 ==> r == SetHop(skb, f, 1, order))
      && (n > 0 ==> DaddrOf(r, f, order) == inner[n - 1].daddr && DportOf(r, f, order) == inner[n - 1].dport)
      && (forall i :: 0 <= i < |skb| && !InRewrittenField(f, i) && !(f.hop <= i < f.hop + 2) ==> r[i] == skb[i])
  {
    var th := TopicOf(skb, f, order);
    var inner, cnt := g.topicNodes[th.topicId], CountOf(g.topicCnt, th.topicId);
    var targets := Tier1Targets(inner, cfg);
    var n := Visited(targets, cnt, MAX_FANOUT);
    DispatchTier1(skb, f, cfg, g, m, order, cloneFails);
    HopFanOutPacket(skb, f, order, 1, targets, cnt, MAX_FANOUT, 1, m, cloneFails);
    if n > 0 {
      assert targets[n - 1].daddr == inner[n - 1].daddr && targets[n - 1].dport == inner[n - 1].dport;
    }
  }

  /** At hop 0 with a non-empty node set, node entry `j` is cloned for each
      visited `j` but the last of the count, in index order, to the egress
      device; every clone is counted once. */
  lemma Tier1Clones(skb: seq<u8>, f: Fields, cfg: CfgRec, g: Generation, m: Metrics,
                    order: ByteOrder, cloneFails: set<nat>)
    requires Fits(|skb|, f)
    requires var th := TopicOf(skb, f, order);
      th.hop == 0 && th.topicId in g.topicNodes && CountOf(g.topicCnt, th.topicId) != 0
    ensures var th := TopicOf(skb, f, order);
      var inner, cnt := g.topicNodes[th.topicId], CountOf(g.topicCnt, th.topicId);
      var n := Min(Min(cnt, MAX_FANOUT), |inner|);
      var v := Dispatch(skb, f, cfg, g, m, order, cloneFails);
      && |v.clones| == (if n < cnt then n else cnt - 1)
      && (forall j :: 0 <= j < |v.clones| ==>
            v.clones[j] == Clone(cfg.egressIfindex, inner[j].daddr, inner[j].dport, j !in cloneFails))
      && v.metrics.tier1Clones + v.metrics.drops[DR_CLONE_FAIL] == m.tier1Clones + m.drops[DR_CLONE_FAIL] + |v.clones|
      && v.metrics.tier1Clones == m.tier1Clones + Delivered(v.clones)
      && v.metrics.drops[DR_CLONE_FAIL] == m.drops[DR_CLONE_FAIL] + Failed(v.clones)
      && v.metrics.tier2Clones == m.tier2Clones
      && (forall k :: 0 <= k < DR_MAX && k != DR_CLONE_FAIL ==> v.metrics.drops[k] == m.drops[k])
  {
    var th := TopicOf(skb, f, order);
    var targets := Tier1Targets(g.topicNodes[th.topicId], cfg);
    DispatchTier1(skb, f, cfg, g, m, order, cloneFails);
    FanOutClones(SetHop(skb, f, 1, order), f, order, targets, CountOf(g.topicCnt, th.topicId), MAX_FANOUT, 1, m, cloneFails);
  }

  /** At hop 1 with a non-empty subscriber set for this node, the packet
      left behind has hop 2, the address and port of the last subscriber
      visited, and every other byte as it arrived. */
  lemma Tier2Packet(skb: seq<u8>, f: Fields, cfg: CfgRec, g: Generation, m: Metrics,
                    order: ByteOrder, cloneFails: set<nat>)
    requires Fits(|skb|, f)
    requires var th := TopicOf(skb, f, order);
      th.hop == 1 && cfg.localNodeId in g.nodeSubs && CountOf(g.nodeCnt, cfg.localNodeId) != 0
    ensures var th := TopicOf(skb, f, order);
      var inner, cnt := g.nodeSubs[cfg.localNodeId], CountOf(g.nodeCnt, cfg.localNodeId);
      var n := Min(Min(cnt, MAX_LOCAL_SUB), |inner|);
      var r := Dispatch(skb, f, cfg, g, m, order, cloneFails).packet;
      && TopicOf(r, f, order) == th.(hop := 2)
      && (n == 0 ==> r == SetHop(skb, f, 2, order))
      && (n > 0 ==> DaddrOf(r, f, order) == inner[n - 1].daddr && DportOf(r, f, order) == inner[n - 1].dport)
      && (forall i :: 0 <= i < |skb| && !InRewrittenField(f, i) && !(f.hop <= i < f.hop + 2) ==> r[i] == skb[i])
  {
    var inner, cnt := g.nodeSubs[cfg.localNodeId], CountOf(g.nodeCnt, cfg.localNodeId);
    var targets := Tier2Targets(inner, cfg);
    var n := Visited(targets, cnt, MAX_LOCAL_SUB);
    DispatchTier2(skb, f, cfg, g, m, order, cloneFails);
    HopFanOutPacket(skb, f, order, 2, targets, cnt, MAX_LOCAL_SUB, 2, m, cloneFails);
    if n > 0 {
      assert targets[n - 1].daddr == inner[n - 1].daddr && targets[n - 1].dport == inner[n - 1].dport;
    }
  }

  /** At hop 1 with a non-empty subscriber set, subscriber entry `j` is
      cloned for each visited `j` but the last of the count, in index order,
      to its own interface or, when that is 0, to the local route interface;
      every clone is counted once. */
  lemma Tier2Clones(skb: seq<u8>, f: Fields, cfg: CfgRec, g: Generation, m: Metrics,
                    order: ByteOrder, cloneFails: set<nat>)
    requires Fits(|skb|, f)
    requires var th := TopicOf(skb, f, order);
      th.hop == 1 && cfg.localNodeId in g.nodeSubs && CountOf(g.nodeCnt, cfg.localNodeId) != 0
    ensures var inner, cnt := g.nodeSubs[cfg.localNodeId], CountOf(g.nodeCnt, cfg.localNodeId);
      var n := Min(Min(cnt, MAX_LOCAL_SUB), |inner|);
      var v := Dispatch(skb, f, cfg, g, m, order, cloneFails);
      && |v.clones| == (if n < cnt then n else cnt - 1)
      && (forall j :: 0 <= j < |v.clones| ==>
            v.clones[j] == Clone(if inner[j].ifindex != 0 then inner[j].ifindex else cfg.localRouteIfindex,
                                 inner[j].daddr, inner[j].dport, j !in cloneFails))
      && v.metrics.tier2Clones + v.metrics.drops[DR_CLONE_FAIL] == m.tier2Clones + m.drops[DR_CLONE_FAIL] + |v.clones|
      && v.metrics.tier2Clones == m.tier2Clones + Delivered(v.clones)
      && v.metrics.drops[DR_CLONE_FAIL] == m.drops[DR_CLONE_FAIL] + Failed(v.clones)
      && v.metrics.tier1Clones == m.tier1Clones
      && (forall k :: 0 <= k < DR_MAX && k != DR_CLONE_FAIL ==> v.metrics.drops[k] == m.drops[k])
  {
    var targets := Tier2Targets(g.nodeSubs[cfg.localNodeId], cfg);
    DispatchTier2(skb, f, cfg, g, m, order, cloneFails);
    FanOutClones(SetHop(skb, f, 2, order), f, order, targets, CountOf(g.nodeCnt, cfg.localNodeId), MAX_LOCAL_SUB, 2, m, cloneFails);
  }
}
