/** The rosserial packet and its two checksums, as the writer makes them and the server checks them. */
module Frame {
  import opened Bytes
  import opened MessageSerialization

  const OVERHEAD := 8

  datatype Message = Message(topic: u16, payload: seq<byte>)

  /** A payload whose length fits the 16-bit length field. */
  predicate Sendable(payload: seq<byte>) {
    |payload| < 0x1_0000
  }

  function LenCheck(len: u16): byte {
    0xFF - DataSum16(len)
  }

  function MsgCheck(topic: u16, payload: seq<byte>): byte {
    (0xFF - (DataSum(payload) + DataSum16(topic)) as int) % 256
  }

  function Header(len: u16, topic: u16): (h: seq<byte>)
    ensures |h| == 7
  {
    [0xFF, 0xFE] + Le16(len) + [LenCheck(len)] + Le16(topic)
  }

  function Encode(topic: u16, payload: seq<byte>): (f: seq<byte>)
    requires Sendable(payload)
    ensures |f| == OVERHEAD + |payload|
  {
    Header(|payload|, topic) + payload + [MsgCheck(topic, payload)]
  }

  /** The server adds in int and compares with 0xFF, without cutting to eight bits. */
  predicate ServerAcceptsLength(len: u16, check: byte) {
    DataSum16(len) as int + check == 0xFF
  }

  predicate ServerAcceptsBody(topic: u16, payload: seq<byte>, check: byte) {
    DataSum(payload) as int + DataSum16(topic) as int + check == 0xFF
  }

  /** No carry: the two eight-bit sums of the body do not overflow eight bits together. */
  predicate NoCarry(topic: u16, payload: seq<byte>) {
    DataSum(payload) as int + DataSum16(topic) as int <= 0xFF
  }

  /** The server accepts every length the writer sends, and a body exactly when nothing carries. */
  lemma ServerAcceptsWriter(topic: u16, payload: seq<byte>)
    requires Sendable(payload)
    ensures ServerAcceptsLength(|payload|, LenCheck(|payload|))
    ensures ServerAcceptsBody(topic, payload, MsgCheck(topic, payload)) <==> NoCarry(topic, payload)
  {
  }

  /** A body with a carry is accepted under no check byte at all. */
  lemma CarryIsHopeless(topic: u16, payload: seq<byte>)
    ensures (exists check: byte :: ServerAcceptsBody(topic, payload, check)) <==> NoCarry(topic, payload)
  {
    if NoCarry(topic, payload) {
      assert ServerAcceptsBody(topic, payload, MsgCheck(topic, payload));
    }
  }

  /** A carry does happen: topic 255 with the one-byte payload 1. */
  lemma CarryExample()
    ensures !NoCarry(255, [1])
  {
    assert [1 as byte][..0] == [];
    assert Sum([1]) == Sum([1 as byte][..0]) + 1;
  }

  /** A packet byte for byte: topic 125 with the payload 41. */
  lemma EncodeExample()
    ensures Encode(125, [0x41]) == [0xFF, 0xFE, 0x01, 0x00, 0xFE, 0x7D, 0x00, 0x41, 0x41]
  {
    assert Sum([0x41]) == Sum([0x41 as byte][..0]) + 0x41;
    assert Le16(1) == [1, 0] && Le16(125) == [125, 0];
    assert DataSum16(1) == 1 && DataSum16(125) == 125;
  }

  /** The bytes at each position of a packet followed by anything. */
  lemma EncodeParts(topic: u16, payload: seq<byte>, rest: seq<byte>)
    requires Sendable(payload)
    ensures var w := Encode(topic, payload) + rest; var n := |payload|;
            && |w| == OVERHEAD + n + |rest|
            && w[0] == 0xFF && w[1] == 0xFE
            && U16(w[2..4]) == n && w[4] == LenCheck(n) && U16(w[5..7]) == topic
            && w[7..7 + n] == payload && w[7 + n] == MsgCheck(topic, payload)
            && w[..7] == Header(n, topic) && w[8 + n..] == rest
  {
    var w, n := Encode(topic, payload) + rest, |payload|;
    U16Inverse(n);
    U16Inverse(topic);
    assert w[2..4] == Le16(n);
    assert w[5..7] == Le16(topic);
  }

  lemma SplitHeader(h: seq<byte>)
    requires |h| == 7
    ensures h == [h[0], h[1]] + h[2..4] + [h[4]] + h[5..7]
  {
  }

  /** A packet is its header, its payload and its check byte: nothing else begins like it. */
  lemma HeaderFromParts(h: seq<byte>)
    requires |h| == 7 && h[0] == 0xFF && h[1] == 0xFE
    requires ServerAcceptsLength(U16(h[2..4]), h[4])
    ensures h == Header(U16(h[2..4]), U16(h[5..7]))
  {
    Le16Inverse(h[2..4]);
    Le16Inverse(h[5..7]);
    SplitHeader(h);
    assert LenCheck(U16(h[2..4])) == h[4];
  }
}
