/** The single-hop user-space relay (cmd/broker/main.go): it decodes the
    topic header of each received datagram and re-sends the datagram to
    every configured subscriber with the hop forced to 1. */
module Broker {
  import opened Bytes
  import opened Commons
  import Wire

  /** `parseHdr`: the big-endian topic header and the payload after it,
      or nothing when the datagram is shorter than the header. */
  function ParseHdr(b: seq<u8>): (r: Option<(TopicHdr, seq<u8>)>)
    ensures r.None? <==> |b| < TOPIC_HDR_LEN
    ensures r.Some? ==> TopicHdrBytes(r.value.0, BigEndian) + r.value.1 == b
  {
    if |b| < TOPIC_HDR_LEN then None
    else
      ReadBe32Inverse(b);
      ReadBe16Inverse(b[4..]);
      ReadBe16Inverse(b[6..]);
      assert b == b[..4] + (b[4..][..2] + b[6..][..2]) + b[8..];
      Some((TopicHdr(ReadBe32(b), ReadBe16(b[4..]), ReadBe16(b[6..])), b[8..]))
  }

  /** Parsing what `MarshalTo` wrote, followed by any payload, gives back
      the header and the payload. */
  lemma {:induction false} ParseInvertsMarshal(h: TopicHdr, payload: seq<u8>)
    ensures ParseHdr(TopicHdrBytes(h, BigEndian) + payload) == Some((h, payload))
  {
    var b := TopicHdrBytes(h, BigEndian) + payload;
    assert b[..4] == Be32(h.topicId);
    assert b[4..][..2] == Be16(h.flags);
    assert b[6..][..2] == Be16(h.hop);
    Be32Inverse(h.topicId);
    Be16Inverse(h.flags);
    Be16Inverse(h.hop);
    assert b[8..] == payload;
  }

  /** A resolved subscriber address (name resolution is not modelled). */
  datatype UdpAddr = UdpAddr(host: string, port: int)

  /** One datagram handed to `WriteToUDP`. */
  datatype Datagram = Datagram(to: UdpAddr, data: seq<u8>)

  /** The subscribers whose address resolved, in configuration order. */
  function Resolved(subs: seq<Option<UdpAddr>>): (r: seq<UdpAddr>)
    ensures |r| <= |subs|
  {
    if subs == [] then [] else Resolved(subs[..|subs| - 1]) + Entry(subs[|subs| - 1])
  }

  /** A subscriber's address, if it resolved. */
  function Entry(o: Option<UdpAddr>): seq<UdpAddr>
  {
    if o.Some? then [o.value] else []
  }

  /** An address is sent to exactly when some subscriber resolved to it. */
  lemma {:induction false} ResolvedMembers(subs: seq<Option<UdpAddr>>)
    ensures forall a :: a in Resolved(subs) <==> Some(a) in subs
  {
    if subs != [] {
      var init := subs[..|subs| - 1];
      ResolvedMembers(init);
      assert subs == init + [subs[|subs| - 1]];
    }
  }

  /** When every subscriber resolved, the relay sends to all of them, in
      configuration order. */
  lemma {:induction false} ResolvedAll(subs: seq<Option<UdpAddr>>)
    requires forall i :: 0 <= i < |subs| ==> subs[i].Some?
    ensures |Resolved(subs)| == |subs|
    ensures forall i :: 0 <= i < |subs| ==> Resolved(subs)[i] == subs[i].value
  {
    if subs != [] {
      ResolvedAll(subs[..|subs| - 1]);
    }
  }

  /** Builds one outgoing packet the way the relay loop does: a fresh
      buffer of 8 + |payload| bytes, the header written big-endian, then the
      payload copied after it. */
  method BuildPacket(h: TopicHdr, payload: seq<u8>) returns (pkt: seq<u8>)
    ensures |pkt| == TOPIC_HDR_LEN + |payload|
    ensures ParseHdr(pkt) == Some((h, payload))
  {
    var a := new u8[TOPIC_HDR_LEN + |payload|];
    Wire.MarshalTo(h, a);
    ghost var hdr := a[..TOPIC_HDR_LEN];
    var i := 0;
    while i < |payload|
      invariant 0 <= i <= |payload|
      invariant a[..TOPIC_HDR_LEN] == hdr == TopicHdrBytes(h, BigEndian)
      invariant a[TOPIC_HDR_LEN..TOPIC_HDR_LEN + i] == payload[..i]
    {
      a[TOPIC_HDR_LEN + i] := payload[i];
      i := i + 1;
    }
    pkt := a[..];
    assert pkt[..TOPIC_HDR_LEN] == TopicHdrBytes(h, BigEndian);
    assert pkt[TOPIC_HDR_LEN..] == a[TOPIC_HDR_LEN..TOPIC_HDR_LEN + |payload|] == payload;
    assert pkt == TopicHdrBytes(h, BigEndian) + payload by {
      assert pkt == pkt[..TOPIC_HDR_LEN] + pkt[TOPIC_HDR_LEN..];
    }
    ParseInvertsMarshal(h, payload);
  }

  /** One pass of the relay loop for one received datagram `b`: nothing is
      sent when the header does not parse; otherwise every subscriber whose
      address resolved receives, in order, a packet of the same length as
      `b` with the same topic, flags and payload and the hop set to 1. */
  method Relay(b: seq<u8>, subs: seq<Option<UdpAddr>>) returns (sent: seq<Datagram>)
    ensures |b| < TOPIC_HDR_LEN ==> sent == []
    ensures |b| >= TOPIC_HDR_LEN ==>
      var h := ParseHdr(b).value.0;
      |sent| == |Resolved(subs)|
      && forall i :: 0 <= i < |sent| ==>
        sent[i].to == Resolved(subs)[i]
        && Carries(sent[i].data, TopicHdr(h.topicId, h.flags, 1), b[TOPIC_HDR_LEN..])
  {
    sent := [];
    var parsed := ParseHdr(b);
    if parsed.None? {
      return;
    }
    var h, payload := parsed.value.0, parsed.value.1;
    h := h.(hop := 1);
    var j := 0;
    while j < |subs|
      invariant 0 <= j <= |subs|
      invariant |sent| == |Resolved(subs[..j])|
      invariant forall i :: 0 <= i < |sent| ==> sent[i].to == Resolved(subs[..j])[i] && Carries(sent[i].data, h, payload)
    {
      assert subs[..j + 1][..j] == subs[..j];
      if subs[j].Some? {
        var pkt := BuildPacket(h, payload);
        sent := sent + [Datagram(subs[j].value, pkt)];
      }
      j := j + 1;
    }
    assert subs[..|subs|] == subs;
  }

  /** `d` is the packet the relay builds for header `h` and `payload`: it is
      as long as the two together and parses back to them. */
  predicate Carries(d: seq<u8>, h: TopicHdr, payload: seq<u8>)
  {
    |d| == TOPIC_HDR_LEN + |payload| && ParseHdr(d) == Some((h, payload))
  }
}
