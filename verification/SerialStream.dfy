/** The read cursor over raw bytes, and the registration message read through it. */
module SerialStream {
  import opened Bytes
  import opened Outcomes

  /** A window of a byte buffer with a read position; data is null until a window is assigned. */
  class RosStream {
    var data: array?<byte>
    var head: nat
    var cur: nat
    var end: nat
    var length: nat

    ghost predicate Valid()
      reads this
    {
      if data == null then head == cur == end == 0
      else head <= cur <= end <= data.Length && length == end - head
    }

    function Remaining(): seq<byte>
      requires Valid()
      reads this, data
    {
      if data == null then [] else data[cur..end]
    }

    constructor (buffer: array<byte>, start: nat, length: nat)
      requires start + length <= buffer.Length
      ensures Valid() && data == buffer && Remaining() == buffer[start..start + length]
      ensures head == cur == start && end == start + length
    {
      this.data := buffer;
      this.head, this.cur, this.end := start, start, start + length;
      this.length := length;
    }

    constructor Unset(length: nat)
      ensures Valid() && data == null && this.length == length
    {
      this.data := null;
      this.head, this.cur, this.end := 0, 0, 0;
      this.length := length;
    }

    function GetLength(): nat
      requires Valid()
      reads this
    {
      if data == null then length else end - cur
    }

    /** operator>> for a value of n bytes.  A refused read leaves the cursor where it was. */
    method Take(n: nat) returns (r: Outcome<seq<byte>>)
      requires Valid()
      modifies `cur
      ensures Valid()
      ensures data == null ==> r == Threw
      ensures data != null ==> r == TakeBytes(old(Remaining()), n)
      ensures Remaining() == if r.Done? then r.rest else old(Remaining())
    {
      if data == null {
        return Threw;
      }
      if cur + n <= end {
        ghost var window := Remaining();
        var value := data[cur..cur + n];
        cur := cur + n;
        assert value == window[..n] && data[cur..end] == window[n..];
        r := Done(value, data[cur..end]);
      } else {
        r := Threw;
      }
    }

    /** operator>> for a string already resized to n characters. */
    method TakeString(n: nat) returns (r: Outcome<seq<byte>>)
      requires Valid()
      modifies `cur
      ensures Valid()
      ensures data == null ==> r == Threw
      ensures data != null ==> r == TakeText(old(Remaining()), n)
      ensures Remaining() == if r.Done? then r.rest else old(Remaining())
    {
      if data == null || n == 0 || GetLength() < n {
        return Threw;
      }
      ghost var window := Remaining();
      var value := data[cur..cur + n];
      cur := cur + n;
      assert value == window[..n] && data[cur..end] == window[n..];
      r := Done(value, data[cur..end]);
    }

    /** operator>> for a sub-stream: part becomes a window on the next GetLength() bytes of this
        stream, sharing the memory. */
    method TakeStream(part: RosStream) returns (ok: bool)
      requires Valid() && part.Valid() && part != this
      modifies `cur, part
      ensures Valid() && part.Valid()
      ensures ok <==> data != null && old(part.GetLength()) <= |old(Remaining())|
      ensures !ok ==> unchanged(this) && unchanged(part)
      ensures ok ==> part.data == data && part.head == part.cur
      ensures ok ==> part.Remaining() == old(Remaining())[..old(part.GetLength())]
      ensures ok ==> Remaining() == old(Remaining())[old(part.GetLength())..]
    {
      var request := part.GetLength();
      if data == null {
        return false;
      }
      if cur + request <= end {
        part.data := data;
        part.length := request;
        part.head, part.cur, part.end := cur, cur, cur + request;
        cur := cur + request;
        return true;
      }
      return false;
    }
  }

  const MAX_STRING := 400

  datatype TopicInfo = TopicInfo(
    topicId: u16, topicName: seq<byte>, messageType: seq<byte>, md5sum: seq<byte>, bufferSize: i32)

  /** A string as a client packs it: a 32-bit length and the characters. */
  function Prefixed(s: seq<byte>): seq<byte> {
    Le32(|s| % 0x1_0000_0000) + s
  }

  function TakePrefixed(input: seq<byte>): Outcome<seq<byte>> {
    var (lenBytes, rest) :- TakeBytes(input, 4);
    if U32(lenBytes) > MAX_STRING then Refused else TakeText(rest, U32(lenBytes))
  }

  function StringsLayout(name: seq<byte>, kind: seq<byte>, md5: seq<byte>): seq<byte> {
    Prefixed(name) + (Prefixed(kind) + Prefixed(md5))
  }

  /** The packed layout of a registration message. */
  function Layout(info: TopicInfo): seq<byte> {
    Le16(info.topicId) + (StringsLayout(info.topicName, info.messageType, info.md5sum) + LeI32(info.bufferSize))
  }

  function ParseStrings(input: seq<byte>): Outcome<(seq<byte>, seq<byte>, seq<byte>)> {
    var (name, r1) :- TakePrefixed(input);
    var (kind, r2) :- TakePrefixed(r1);
    var (md5, r3) :- TakePrefixed(r2);
    Done((name, kind, md5), r3)
  }

  function ParseTopicInfo(input: seq<byte>): Outcome<TopicInfo> {
    var (id, r0) :- TakeBytes(input, 2);
    var (strings, r1) :- ParseStrings(r0);
    var (size, r2) :- TakeBytes(r1, 4);
    Done(TopicInfo(U16(id), strings.0, strings.1, strings.2, I32(size)), r2)
  }

  predicate GoodString(s: seq<byte>) {
    1 <= |s| <= MAX_STRING
  }

  predicate WithinLimits(info: TopicInfo) {
    GoodString(info.topicName) && GoodString(info.messageType) && GoodString(info.md5sum)
  }

  lemma PrefixedTaken(s: seq<byte>, rest: seq<byte>)
    requires GoodString(s)
    ensures TakePrefixed(Prefixed(s) + rest) == Done(s, rest)
  {
    U32Inverse(|s|);
    assert Prefixed(s) + rest == Le32(|s|) + (s + rest);
    TakeBytesAppend(Le32(|s|), s + rest);
    TakeBytesAppend(s, rest);
  }

  lemma TakenIsPrefixed(input: seq<byte>, s: seq<byte>, rest: seq<byte>)
    requires TakePrefixed(input) == Done(s, rest)
    ensures GoodString(s) && input == Prefixed(s) + rest
  {
    Le32Inverse(input[..4]);
    assert input == input[..4] + (s + rest);
  }

  /** Exactly the strings of 1 to 400 characters come back, and only from their own layout. */
  lemma TakePrefixedExact(input: seq<byte>, s: seq<byte>, rest: seq<byte>)
    ensures TakePrefixed(input) == Done(s, rest) <==> GoodString(s) && input == Prefixed(s) + rest
  {
    hide TakePrefixed, Prefixed;
    if GoodString(s) && input == Prefixed(s) + rest {
      PrefixedTaken(s, rest);
    }
    if TakePrefixed(input) == Done(s, rest) {
      TakenIsPrefixed(input, s, rest);
    }
  }

  lemma StringsParse(name: seq<byte>, kind: seq<byte>, md5: seq<byte>, rest: seq<byte>)
    requires GoodString(name) && GoodString(kind) && GoodString(md5)
    ensures ParseStrings(StringsLayout(name, kind, md5) + rest) == Done((name, kind, md5), rest)
  {
    hide TakePrefixed, Prefixed;
    var r2 := Prefixed(md5) + rest;
    var r1 := Prefixed(kind) + r2;
    assert StringsLayout(name, kind, md5) + rest == Prefixed(name) + r1;
    TakePrefixedExact(Prefixed(name) + r1, name, r1);
    TakePrefixedExact(r1, kind, r2);
    TakePrefixedExact(r2, md5, rest);
  }

  lemma ParsedStrings(input: seq<byte>, name: seq<byte>, kind: seq<byte>, md5: seq<byte>, rest: seq<byte>)
    requires ParseStrings(input) == Done((name, kind, md5), rest)
    ensures GoodString(name) && GoodString(kind) && GoodString(md5)
    ensures input == StringsLayout(name, kind, md5) + rest
  {
    hide TakePrefixed, Prefixed;
    var r1 := TakePrefixed(input).rest;
    var r2 := TakePrefixed(r1).rest;
    TakePrefixedExact(input, name, r1);
    TakePrefixedExact(r1, kind, r2);
    TakePrefixedExact(r2, md5, rest);
  }

  lemma LayoutParses(info: TopicInfo, rest: seq<byte>)
    requires WithinLimits(info)
    ensures ParseTopicInfo(Layout(info) + rest) == Done(info, rest)
  {
    hide ParseStrings, StringsLayout;
    var strings := StringsLayout(info.topicName, info.messageType, info.md5sum);
    var r1 := LeI32(info.bufferSize) + rest;
    assert Layout(info) + rest == Le16(info.topicId) + (strings + r1);
    TakeBytesAppend(Le16(info.topicId), strings + r1);
    StringsParse(info.topicName, info.messageType, info.md5sum, r1);
    TakeBytesAppend(LeI32(info.bufferSize), rest);
    I32Inverse(info.bufferSize);
    U16Inverse(info.topicId);
  }

  lemma I32Layout(b: seq<byte>)
    requires |b| == 4
    ensures LeI32(I32(b)) == b
  {
    Le32Inverse(b);
  }

  lemma ParsedIsLayout(input: seq<byte>, info: TopicInfo, rest: seq<byte>)
    requires ParseTopicInfo(input) == Done(info, rest)
    ensures WithinLimits(info) && input == Layout(info) + rest
  {
    hide ParseStrings, StringsLayout;
    var r0 := input[2..];
    var r1 := ParseStrings(r0).rest;
    ParsedStrings(r0, info.topicName, info.messageType, info.md5sum, r1);
    Le16Inverse(input[..2]);
    I32Layout(r1[..4]);
    assert input == input[..2] + r0 && r1 == r1[..4] + rest;
  }

  /** Registration parsing inverts the packed layout on exactly the messages within the limits. */
  lemma ParseTopicInfoExact(input: seq<byte>, info: TopicInfo, rest: seq<byte>)
    ensures ParseTopicInfo(input) == Done(info, rest)
       <==> WithinLimits(info) && input == Layout(info) + rest
  {
    hide ParseTopicInfo, Layout;
    if WithinLimits(info) && input == Layout(info) + rest {
      LayoutParses(info, rest);
    }
    if ParseTopicInfo(input) == Done(info, rest) {
      ParsedIsLayout(input, info, rest);
    }
  }

  method ReadPrefixed(msg: RosStream) returns (r: Outcome<seq<byte>>)
    requires msg.Valid() && msg.data != null
    modifies msg`cur
    ensures msg.Valid()
    ensures r == TakePrefixed(old(msg.Remaining()))
    ensures r.Done? ==> msg.Remaining() == r.rest
  {
    var len := msg.Take(4);
    if !len.Done? {
      return Threw;
    }
    if U32(len.value) > MAX_STRING {
      return Refused;
    }
    r := msg.TakeString(U32(len.value));
  }

  method ReadStrings(msg: RosStream) returns (r: Outcome<(seq<byte>, seq<byte>, seq<byte>)>)
    requires msg.Valid() && msg.data != null
    modifies msg`cur
    ensures msg.Valid()
    ensures r == ParseStrings(old(msg.Remaining()))
    ensures r.Done? ==> msg.Remaining() == r.rest
  {
    hide TakePrefixed;
    var name := ReadPrefixed(msg);
    if !name.Done? {
      return name.PropagateFailure();
    }
    var kind := ReadPrefixed(msg);
    if !kind.Done? {
      return kind.PropagateFailure();
    }
    var md5 := ReadPrefixed(msg);
    if !md5.Done? {
      return md5.PropagateFailure();
    }
    r := Done((name.value, kind.value, md5.value), msg.Remaining());
  }

  /** Whatever the bytes, the cursor stays inside the window (Valid). */
  method GetTopicInfo(msg: RosStream) returns (r: Outcome<TopicInfo>)
    requires msg.Valid() && msg.data != null
    modifies msg`cur
    ensures msg.Valid()
    ensures r == ParseTopicInfo(old(msg.Remaining()))
    ensures r.Done? ==> msg.Remaining() == r.rest
  {
    hide ParseStrings;
    var id := msg.Take(2);
    if !id.Done? {
      return Threw;
    }
    var strings := ReadStrings(msg);
    if !strings.Done? {
      return strings.PropagateFailure();
    }
    var size := msg.Take(4);
    if !size.Done? {
      return Threw;
    }
    var (name, kind, md5) := strings.value;
    r := Done(TopicInfo(U16(id.value), name, kind, md5, I32(size.value)), msg.Remaining());
  }

  // ----- how a parse can fail

  /** A length field above the limit of 400 characters. */
  predicate TooLong(s: seq<byte>) {
    |s| >= 4 && U32(s[..4]) > 400
  }

  /** A string is refused for its length alone, and throws when it is empty or not all there. */
  lemma TakePrefixedOutcomes(input: seq<byte>)
    ensures TakePrefixed(input).Refused? <==> TooLong(input)
    ensures TakePrefixed(input).Threw? <==>
              |input| < 4 || U32(input[..4]) == 0 || |input| - 4 < U32(input[..4]) <= 400
    ensures !TakePrefixed(input).Unspecified?
  {
  }

  /** What follows a good string at the front. */
  predicate Follows(input: seq<byte>, s: seq<byte>, rest: seq<byte>) {
    1 <= |s| <= 400 && input == Prefixed(s) + rest
  }

  lemma FollowsTaken(input: seq<byte>, s: seq<byte>, rest: seq<byte>)
    ensures Follows(input, s, rest) <==> TakePrefixed(input) == Done(s, rest)
  {
    hide TakePrefixed, Prefixed;
    TakePrefixedExact(input, s, rest);
  }

  lemma RefusedAfter(input: seq<byte>, name: seq<byte>, r1: seq<byte>)
    requires Follows(input, name, r1)
    requires TooLong(r1) || exists kind, r2 :: Follows(r1, kind, r2) && TooLong(r2)
    ensures ParseStrings(input).Refused?
  {
    hide TakePrefixed, Follows, TooLong;
    FollowsTaken(input, name, r1);
    TakePrefixedOutcomes(r1);
    if !TooLong(r1) {
      var kind, r2 :| Follows(r1, kind, r2) && TooLong(r2);
      FollowsTaken(r1, kind, r2);
      TakePrefixedOutcomes(r2);
    }
  }

  /** A registration is refused exactly for a length above 400 in front of the name, or after a good
      name, or after a good name and type; what comes later is not looked at. */
  lemma ParseTopicInfoRefused(input: seq<byte>)
    ensures ParseTopicInfo(input).Refused? <==>
              |input| >= 2 && (TooLong(input[2..])
                               || exists name, r1 :: Follows(input[2..], name, r1)
                                    && (TooLong(r1) || exists kind, r2 :: Follows(r1, kind, r2) && TooLong(r2)))
    ensures !ParseTopicInfo(input).Unspecified?
  {
    hide TakePrefixed, Follows, TooLong;
    if |input| >= 2 {
      var r0 := input[2..];
      var name := TakePrefixed(r0);
      TakePrefixedOutcomes(r0);
      if name.Done? {
        FollowsTaken(r0, name.value, name.rest);
        var kind := TakePrefixed(name.rest);
        TakePrefixedOutcomes(name.rest);
        if kind.Done? {
          FollowsTaken(name.rest, kind.value, kind.rest);
          TakePrefixedOutcomes(kind.rest);
        }
      }
      if exists name, r1 :: Follows(r0, name, r1)
           && (TooLong(r1) || exists kind, r2 :: Follows(r1, kind, r2) && TooLong(r2)) {
        var s, r1 :| Follows(r0, s, r1) && (TooLong(r1) || exists kind, r2 :: Follows(r1, kind, r2) && TooLong(r2));
        RefusedAfter(r0, s, r1);
      }
    }
  }

  /** A string on the wire: its length, low byte first, and its characters. */
  lemma PrefixedBytes(s: seq<byte>)
    requires |s| < 0x1_0000_0000
    ensures var n := |s|;
            Prefixed(s) == [n % 0x100, n / 0x100 % 0x100, n / 0x1_0000 % 0x100, n / 0x100_0000] + s
  {
    hide Le32;
    Le32Digits(|s|);
  }

  lemma StringsExample()
    ensures StringsLayout([0x74], [0x61, 0x62], [0x63])
         == [1, 0, 0, 0, 0x74, 2, 0, 0, 0, 0x61, 0x62, 1, 0, 0, 0, 0x63]
  {
    hide Prefixed;
    PrefixedBytes([0x74]);
    PrefixedBytes([0x61, 0x62]);
    PrefixedBytes([0x63]);
  }

  /** A registration byte by byte: topic 125, name "t", type "ab", md5 "c", buffer size 512. */
  lemma LayoutExample()
    ensures Layout(TopicInfo(125, [0x74], [0x61, 0x62], [0x63], 512))
         == [125, 0, 1, 0, 0, 0, 0x74, 2, 0, 0, 0, 0x61, 0x62, 1, 0, 0, 0, 0x63, 0, 2, 0, 0]
  {
    hide Le32, Le16, StringsLayout;
    StringsExample();
    Le32Digits(512);
    assert Le16(125) == [125, 0] by {
      Le16Small(125);
    }
  }
}
