/** The Go-side serialisation of the topic header (pkg/proto/wire.go). */
module Wire {
  import opened Bytes
  import opened Commons

  /** `TopicHdr.MarshalTo`: writes the topic big-endian into bytes 0-3,
      the flags into bytes 4-5 and the hop into bytes 6-7 of `b`, in place,
      and leaves every byte from index 8 on as it was. Go panics on a slice
      shorter than 8 bytes, so callers must pass at least 8. */
  method MarshalTo(h: TopicHdr, b: array<u8>)
    requires b.Length >= TOPIC_HDR_LEN
    modifies b
    ensures b[..4] == Be32(h.topicId)
    ensures b[4..6] == Be16(h.flags) && b[6..8] == Be16(h.hop)
    ensures b[8..] == old(b[8..])
    ensures b[..] == TopicHdrBytes(h, BigEndian) + old(b[8..])
  {
    var t, f, p := Be32(h.topicId), Be16(h.flags), Be16(h.hop);
    b[0], b[1], b[2], b[3] := t[0], t[1], t[2], t[3];
    b[4], b[5] := f[0], f[1];
    b[6], b[7] := p[0], p[1];
    assert b[..] == b[..8] + b[8..];
  }
}
