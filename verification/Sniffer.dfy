/** The stream sniffer: a second frame parser, run on whatever has arrived and keeping what is incomplete. */
module Sniffer {
  import opened Bytes
  import opened MessageSerialization
  import opened Frame
  import opened Scanner

  function CalcLenChecksum(lengthL: byte, lengthH: byte): byte {
    0xFF - (lengthL as int + lengthH as int) % 256
  }

  function CalcMsgChecksum(topicL: byte, topicH: byte, payload: seq<byte>): byte {
    0xFF - (topicL as int + topicH as int + Sum(payload)) % 256
  }

  /** A parsed frame; offset counts from the start of the buffer it was found in. */
  datatype Record = Record(
    offset: nat, frame: seq<byte>, topic: u16, payload: seq<byte>, lenChecksumOk: bool, msgChecksumOk: bool)

  predicate Synced(s: seq<byte>)
    requires |s| >= OVERHEAD
  {
    s[0] == 0xFF && s[1] == 0xFE
  }

  /** Whole size of the frame that starts here, by its length field. */
  function TotalLen(s: seq<byte>): (n: nat)
    requires |s| >= OVERHEAD
    ensures n >= OVERHEAD
  {
    OVERHEAD + U16(s[2..4])
  }

  function MakeRecord(s: seq<byte>, offset: nat): Record
    requires |s| >= OVERHEAD && TotalLen(s) <= |s|
  {
    var n := U16(s[2..4]);
    var payload := s[7..7 + n];
    Record(offset, s[..OVERHEAD + n], U16(s[5..7]), payload,
           s[4] == CalcLenChecksum(s[2], s[3]), s[7 + n] == CalcMsgChecksum(s[5], s[6], payload))
  }

  /** The frames found from here on, and what is left for later. */
  datatype Parsed = Parsed(frames: seq<Record>, left: seq<byte>)

  function ParseFrom(s: seq<byte>, offset: nat): (p: Parsed)
    ensures |p.left| <= |s|
    decreases |s|
  {
    if |s| < OVERHEAD then Parsed([], s)
    else if !Synced(s) then ParseFrom(s[1..], offset + 1)
    else if TotalLen(s) > |s| then Parsed([], s)
    else
      var tail := ParseFrom(s[TotalLen(s)..], offset + TotalLen(s));
      Parsed([MakeRecord(s, offset)] + tail.frames, tail.left)
  }

  /** One step of the parser, for the proofs that go step by step. */
  lemma ParseStep(s: seq<byte>, offset: nat)
    ensures |s| < OVERHEAD ==> ParseFrom(s, offset) == Parsed([], s)
    ensures |s| >= OVERHEAD && !Synced(s) ==> ParseFrom(s, offset) == ParseFrom(s[1..], offset + 1)
    ensures |s| >= OVERHEAD && Synced(s) && TotalLen(s) > |s| ==> ParseFrom(s, offset) == Parsed([], s)
    ensures |s| >= OVERHEAD && Synced(s) && TotalLen(s) <= |s| ==>
              var tail := ParseFrom(s[TotalLen(s)..], offset + TotalLen(s));
              ParseFrom(s, offset) == Parsed([MakeRecord(s, offset)] + tail.frames, tail.left)
  {
  }

  /** parse_rosserial_frames: the index loop over the buffer. */
  method ParseRosserialFrames(buffer: seq<byte>) returns (frames: seq<Record>, i: nat)
    ensures i <= |buffer|
    ensures ParseFrom(buffer, 0) == Parsed(frames, buffer[i..])
  {
    hide ParseFrom, MakeRecord, U16;
    frames, i := [], 0;
    assert buffer[0..] == buffer;
    while i + OVERHEAD <= |buffer|
      invariant i <= |buffer|
      invariant var later := ParseFrom(buffer[i..], i);
                ParseFrom(buffer, 0) == Parsed(frames + later.frames, later.left)
    {
      var rest := buffer[i..];
      ParseStep(rest, i);
      if !(rest[0] == 0xFF && rest[1] == 0xFE) {
        assert rest[1..] == buffer[i + 1..];
        i := i + 1;
        continue;
      }
      var total := TotalLen(rest);
      if i + total > |buffer| {
        break;
      }
      assert rest[total..] == buffer[i + total..];
      frames := frames + [MakeRecord(rest, i)];
      i := i + total;
    }
    ParseStep(buffer[i..], i);
  }

  // ----- incremental use

  function Shift(frames: seq<Record>, distance: nat): (r: seq<Record>)
    ensures |r| == |frames|
  {
    seq(|frames|, i requires 0 <= i < |frames| => frames[i].(offset := frames[i].offset + distance))
  }

  lemma ShiftFirst(s: seq<byte>, offset: nat, k: nat, tail: seq<Record>)
    requires |s| >= OVERHEAD && TotalLen(s) <= |s|
    ensures Shift([MakeRecord(s, offset)] + tail, k) == [MakeRecord(s, offset + k)] + Shift(tail, k)
  {
    hide CalcLenChecksum, CalcMsgChecksum, U16;
  }

  lemma {:induction false} ParseShift(s: seq<byte>, offset: nat, k: nat)
    ensures ParseFrom(s, offset + k) == Parsed(Shift(ParseFrom(s, offset).frames, k), ParseFrom(s, offset).left)
    decreases |s|
  {
    hide ParseFrom, MakeRecord, Synced, TotalLen;
    ParseStep(s, offset);
    ParseStep(s, offset + k);
    if |s| >= OVERHEAD {
      if !Synced(s) {
        ParseShift(s[1..], offset + 1, k);
      } else if TotalLen(s) <= |s| {
        ParseShift(s[TotalLen(s)..], offset + TotalLen(s), k);
        ShiftFirst(s, offset, k, ParseFrom(s[TotalLen(s)..], offset + TotalLen(s)).frames);
      }
    }
  }

  /** What is decided at the front does not depend on bytes that arrive later. */
  lemma FrontStable(a: seq<byte>, b: seq<byte>, offset: nat)
    requires |a| >= OVERHEAD
    ensures Synced(a + b) == Synced(a) && TotalLen(a + b) == TotalLen(a)
    ensures TotalLen(a) <= |a| ==> MakeRecord(a + b, offset) == MakeRecord(a, offset)
  {
    hide U16, CalcLenChecksum, CalcMsgChecksum;
    SliceOfConcat(a, b, 2, 4);
    SliceOfConcat(a, b, 5, 7);
    var n := TotalLen(a);
    if n <= |a| {
      SliceOfConcat(a, b, 0, n);
      SliceOfConcat(a, b, 7, n - 1);
    }
  }

  /** Parsing can stop at the incomplete rest and go on when more has arrived. */
  lemma {:induction false} ParseExtend(a: seq<byte>, b: seq<byte>, offset: nat)
    ensures var first := ParseFrom(a, offset);
            var next := ParseFrom(first.left + b, offset + |a| - |first.left|);
            ParseFrom(a + b, offset) == Parsed(first.frames + next.frames, next.left)
    decreases |a|
  {
    hide ParseFrom, MakeRecord, Synced, TotalLen;
    ParseStep(a, offset);
    if |a| >= OVERHEAD {
      FrontStable(a, b, offset);
      ParseStep(a + b, offset);
      if !Synced(a) {
        assert (a + b)[1..] == a[1..] + b;
        ParseExtend(a[1..], b, offset + 1);
      } else if TotalLen(a) <= |a| {
        var n := TotalLen(a);
        assert (a + b)[n..] == a[n..] + b;
        ParseExtend(a[n..], b, offset + n);
      }
    }
  }

  /** main's loop over chunks: extend, parse from the front, delete what was consumed.  base counts
      the bytes deleted so far, so that offsets can be told apart. */
  function Feed(chunks: seq<seq<byte>>): (r: (Parsed, nat)) {
    if chunks == [] then (Parsed([], []), 0)
    else
      var (before, base) := Feed(chunks[..|chunks| - 1]);
      var buffer := before.left + chunks[|chunks| - 1];
      var p := ParseFrom(buffer, 0);
      (Parsed(before.frames + Shift(p.frames, base), p.left), base + |buffer| - |p.left|)
  }

  /** Incremental equals batch: however the bytes are cut, the same frames at the same places of the
      stream, and the same bytes left over. */
  lemma {:induction false} IncrementalIsBatch(chunks: seq<seq<byte>>)
    ensures Feed(chunks).0 == ParseFrom(Flat(chunks), 0)
    ensures Feed(chunks).1 == |Flat(chunks)| - |Feed(chunks).0.left|
    decreases |chunks|
  {
    hide ParseFrom;
    var n := |chunks|;
    if n == 0 {
      ParseStep([], 0);
    } else {
      IncrementalIsBatch(chunks[..n - 1]);
      var (before, base) := Feed(chunks[..n - 1]);
      var buffer := before.left + chunks[n - 1];
      assert chunks == chunks[..n - 1] + [chunks[n - 1]];
      FlatSnoc(chunks[..n - 1], chunks[n - 1]);
      ParseExtend(Flat(chunks[..n - 1]), chunks[n - 1], 0);
      ParseShift(buffer, 0, base);
    }
  }

  /** The sniffer object: the buffer kept between chunks and the frames reported so far. */
  class StreamSniffer {
    var frameBuf: seq<byte>
    var frames: seq<Record>
    ghost var chunks: seq<seq<byte>>
    var base: nat

    /** What was reported and what is kept is what one parse of the whole capture gives. */
    ghost predicate Valid()
      reads this
    {
      && Parsed(frames, frameBuf) == ParseFrom(Flat(chunks), 0)
      && base == |Flat(chunks)| - |frameBuf|
    }

    constructor ()
      ensures Valid() && chunks == []
    {
      frameBuf, frames, chunks, base := [], [], [], 0;
    }

    method OnChunk(chunk: seq<byte>)
      requires Valid()
      modifies this
      ensures Valid() && chunks == old(chunks) + [chunk]
    {
      hide ParseFrom;
      ghost var all := Flat(chunks);
      FlatSnoc(chunks, chunk);
      ParseExtend(all, chunk, 0);
      chunks := chunks + [chunk];
      frameBuf := frameBuf + chunk;
      var found, consumed := ParseRosserialFrames(frameBuf);
      ParseShift(frameBuf, 0, base);
      frames := frames + Shift(found, base);
      if consumed > 0 {
        frameBuf := frameBuf[consumed..];
      } else {
        assert frameBuf[consumed..] == frameBuf;
      }
      base := base + consumed;
    }
  }

  // ----- framing inverse

  /** The record of a packet of the writer: both checksums are right, with or without a carry. */
  function RecordOf(m: Message, offset: nat): Record
    requires Sendable(m.payload)
  {
    Record(offset, Encode(m.topic, m.payload), m.topic, m.payload, true, true)
  }

  lemma SplitMod(a: int)
    ensures a == 256 * (a / 256) + a % 256
  {
  }

  lemma ComplementOfSum(a: int, b: int)
    ensures (0xFF - (b % 256 + a % 256)) % 256 == 0xFF - (a + b) % 256
  {
    SplitMod(a);
    SplitMod(b);
    var s := a % 256 + b % 256;
    Mod256(s, a / 256 + b / 256);
    assert a + b == s + 256 * (a / 256 + b / 256);
    if s >= 256 {
      Mod256(s - 256, 1);
      Mod256(0xFF - s, 1);
    }
  }

  /** The writer's check bytes are the ones the sniffer expects, for every topic and payload. */
  lemma ChecksumsAgree(topic: u16, payload: seq<byte>)
    requires Sendable(payload)
    ensures LenCheck(|payload|) == CalcLenChecksum(Le16(|payload|)[0], Le16(|payload|)[1])
    ensures MsgCheck(topic, payload) == CalcMsgChecksum(Le16(topic)[0], Le16(topic)[1], payload)
  {
    DataSum16Bytes(|payload|);
    DataSum16Bytes(topic);
    ComplementOfSum(Le16(topic)[0] as int + Le16(topic)[1] as int, Sum(payload));
  }

  lemma PacketRecord(m: Message, rest: seq<byte>, offset: nat)
    requires Sendable(m.payload)
    ensures var s := Encode(m.topic, m.payload) + rest;
            Synced(s) && TotalLen(s) == OVERHEAD + |m.payload| && MakeRecord(s, offset) == RecordOf(m, offset)
  {
    hide Encode, CalcLenChecksum, CalcMsgChecksum, LenCheck, MsgCheck;
    var s, n := Encode(m.topic, m.payload) + rest, |m.payload|;
    EncodeParts(m.topic, m.payload, rest);
    ChecksumsAgree(m.topic, m.payload);
    Le16Inverse(s[2..4]);
    Le16Inverse(s[5..7]);
    assert s[2] == s[2..4][0] && s[3] == s[2..4][1] && s[5] == s[5..7][0] && s[6] == s[5..7][1];
    assert s[..OVERHEAD + n] == Encode(m.topic, m.payload);
  }

  /** The records of a list of messages, back to back. */
  function RecordsOf(ms: seq<Message>, offset: nat): seq<Record>
    requires forall i :: 0 <= i < |ms| ==> Sendable(ms[i].payload)
  {
    if ms == [] then []
    else [RecordOf(ms[0], offset)] + RecordsOf(ms[1..], offset + OVERHEAD + |ms[0].payload|)
  }

  function Frames(ms: seq<Message>): seq<seq<byte>>
    requires forall i :: 0 <= i < |ms| ==> Sendable(ms[i].payload)
  {
    if ms == [] then [] else [Encode(ms[0].topic, ms[0].payload)] + Frames(ms[1..])
  }

  /** The parser inverts the writer's framing on every list of messages and uses up every byte. */
  lemma {:induction false} ParseInvertsFraming(ms: seq<Message>, offset: nat)
    requires forall i :: 0 <= i < |ms| ==> Sendable(ms[i].payload)
    ensures ParseFrom(Flat(Frames(ms)), offset) == Parsed(RecordsOf(ms, offset), [])
    decreases |ms|
  {
    hide ParseFrom, Encode, MakeRecord, Synced, TotalLen, RecordOf;
    if ms == [] {
      ParseStep([], offset);
    } else {
      var f, rest := Encode(ms[0].topic, ms[0].payload), Flat(Frames(ms[1..]));
      PacketRecord(ms[0], rest, offset);
      assert Flat(Frames(ms)) == f + rest && (f + rest)[|f|..] == rest;
      ParseStep(f + rest, offset);
      ParseInvertsFraming(ms[1..], offset + |f|);
    }
  }

  /** Whatever the server accepts has checksums the sniffer reports as right. */
  lemma ServerAcceptedPassesSniffer(s: seq<byte>, offset: nat)
    requires NextUnit(s).Accept?
    ensures |s| >= OVERHEAD && Synced(s) && TotalLen(s) <= |s|
    ensures var r := MakeRecord(s, offset);
            && r.lenChecksumOk && r.msgChecksumOk
            && r.topic == NextUnit(s).topic && r.payload == NextUnit(s).payload && r.frame == s[..NextUnit(s).size]
  {
    hide Encode;
    var v := NextUnit(s);
    AcceptedIsPacket(s);
    assert s == s[..v.size] + s[v.size..];
    PacketRecord(Message(v.topic, v.payload), s[v.size..], offset);
  }

  // ----- what is reported

  lemma Complement(a: int, check: byte)
    ensures check == 0xFF - a % 256 <==> (a + check) % 256 == 0xFF
  {
    SplitMod(a);
    Mod256(a % 256 + check, a / 256);
    if a % 256 + check >= 256 {
      Mod256(a % 256 + check - 256, 1);
    }
  }

  lemma OneByteOff(sum: int, b: byte, x: byte)
    requires sum % 256 == 0xFF && b != x
    ensures (sum - b + x) % 256 != 0xFF
  {
  }

  /** The record of a complete frame, byte by byte: it is reported as it is, and each flag says whether
      the bytes it covers sum up to 255 modulo 256. */
  lemma RecordExact(s: seq<byte>, offset: nat)
    requires |s| >= 8 && |s| >= 8 + s[2] as int + 256 * s[3] as int
    ensures TotalLen(s) == 8 + s[2] as int + 256 * s[3] as int
    ensures var n := s[2] as int + 256 * s[3] as int;
            var r := MakeRecord(s, offset);
            && r.offset == offset && r.frame == s[..8 + n] && r.payload == s[7..7 + n]
            && r.topic == s[5] as int + 256 * s[6] as int
            && (r.lenChecksumOk <==> (s[2] as int + s[3] as int + s[4] as int) % 256 == 0xFF)
            && (r.msgChecksumOk <==> Sum(s[5..8 + n]) % 256 == 0xFF)
  {
    hide Sum;
    var n := s[2] as int + 256 * s[3] as int;
    var ends := [s[5], s[6]];
    assert s[5..8 + n] == ends + s[7..7 + n] + [s[7 + n]];
    SumAppend(ends + s[7..7 + n], [s[7 + n]]);
    SumAppend(ends, s[7..7 + n]);
    assert ends == [s[5]] + [s[6]];
    SumAppend([s[5]], [s[6]]);
    SumOne(s[5]);
    SumOne(s[6]);
    SumOne(s[7 + n]);
    Complement(s[5] as int + s[6] as int + Sum(s[7..7 + n]), s[7 + n]);
    Complement(s[2] as int + s[3] as int, s[4]);
  }

  /** A packet of the writer with one byte of topic, payload or check changed is found at the same place,
      takes the same bytes, and is reported as bad. */
  lemma CorruptionSeen(m: Message, i: nat, x: byte, rest: seq<byte>, offset: nat)
    requires Sendable(m.payload) && 5 <= i < 8 + |m.payload| && x != Encode(m.topic, m.payload)[i]
    ensures var f := Encode(m.topic, m.payload)[i := x];
            var found := ParseFrom(f + rest, offset);
            && found.frames != [] && found.frames[0].offset == offset && found.frames[0].frame == f
            && found.frames[0].lenChecksumOk && !found.frames[0].msgChecksumOk
            && Parsed(found.frames[1..], found.left) == ParseFrom(rest, offset + |f|)
  {
    hide ParseFrom, MakeRecord, Encode, Sum;
    var e := Encode(m.topic, m.payload);
    var f := e[i := x];
    var s := f + rest;
    var n := |m.payload|;
    EncodeParts(m.topic, m.payload, []);
    assert e + [] == e;
    PacketRecord(m, [], offset);
    U16Inverse(n);
    assert e[2..4] == [e[2], e[3]];
    RecordExact(e, offset);
    RecordExact(s, offset);
    assert s[5..8 + n] == e[5..][i - 5 := x];
    assert e[5..8 + n] == e[5..];
    SumUpdate(e[5..], i - 5, x);
    OneByteOff(Sum(e[5..]), e[i], x);
    ParseStep(s, offset);
    assert s[8 + n..] == rest && s[..8 + n] == f;
  }

  /** With the length checksum changed instead, it is that flag that is down. */
  lemma LengthCorruptionSeen(m: Message, x: byte, rest: seq<byte>, offset: nat)
    requires Sendable(m.payload) && x != Encode(m.topic, m.payload)[4]
    ensures var f := Encode(m.topic, m.payload)[4 := x];
            var found := ParseFrom(f + rest, offset);
            && found.frames != [] && found.frames[0].offset == offset && found.frames[0].frame == f
            && !found.frames[0].lenChecksumOk && found.frames[0].msgChecksumOk
  {
    hide ParseFrom, MakeRecord, Encode, Sum;
    var e := Encode(m.topic, m.payload);
    var f := e[4 := x];
    var s := f + rest;
    var n := |m.payload|;
    EncodeParts(m.topic, m.payload, []);
    assert e + [] == e;
    PacketRecord(m, [], offset);
    assert e[2..4] == [e[2], e[3]];
    RecordExact(e, offset);
    RecordExact(s, offset);
    assert s[5..8 + n] == e[5..8 + n];
    OneByteOff(e[2] as int + e[3] as int + e[4] as int, e[4], x);
    ParseStep(s, offset);
    assert s[..8 + n] == f;
  }

  /** A frame reported at a place of the capture is there, byte for byte, after two sync bytes. */
  ghost predicate Reported(s: seq<byte>, offset: nat, r: Record) {
    var k := r.offset - offset;
    && 0 <= k && k + 8 <= |s| && k + TotalLen(s[k..]) <= |s|
    && s[k] == 0xFF && s[k + 1] == 0xFE
    && r == MakeRecord(s[k..], r.offset)
  }

  lemma FrameSize(s: seq<byte>, offset: nat)
    requires |s| >= OVERHEAD && TotalLen(s) <= |s|
    ensures MakeRecord(s, offset).offset == offset && |MakeRecord(s, offset).frame| == TotalLen(s)
  {
  }

  lemma Later(s: seq<byte>, n: nat, offset: nat, r: Record)
    requires n <= |s| && Reported(s[n..], offset + n, r)
    ensures Reported(s, offset, r)
  {
    var k := r.offset - offset - n;
    assert s[n..][k..] == s[n + k..];
  }

  /** Every frame reported is really there. */
  lemma {:induction false} ReportedIsThere(s: seq<byte>, offset: nat, j: nat)
    requires j < |ParseFrom(s, offset).frames|
    ensures Reported(s, offset, ParseFrom(s, offset).frames[j])
    decreases |s|
  {
    hide ParseFrom, MakeRecord, TotalLen;
    ParseStep(s, offset);
    assert s[0..] == s;
    if !Synced(s) {
      ReportedIsThere(s[1..], offset + 1, j);
      Later(s, 1, offset, ParseFrom(s, offset).frames[j]);
    } else if j == 0 {
      FrameSize(s, offset);
    } else {
      var n := TotalLen(s);
      ReportedIsThere(s[n..], offset + n, j - 1);
      Later(s, n, offset, ParseFrom(s, offset).frames[j]);
    }
  }

  /** A place is inside a frame that was reported. */
  ghost predicate Covered(frames: seq<Record>, place: nat) {
    exists j :: 0 <= j < |frames| && frames[j].offset <= place < frames[j].offset + |frames[j].frame|
  }

  /** Nothing is overlooked: before the bytes that are kept, two sync bytes start a frame that was
      reported, or lie inside one. */
  lemma {:induction false} NothingOverlooked(s: seq<byte>, offset: nat, k: nat)
    requires k + 1 < |s| && k < |s| - |ParseFrom(s, offset).left| && s[k] == 0xFF && s[k + 1] == 0xFE
    ensures Covered(ParseFrom(s, offset).frames, offset + k)
    decreases |s|
  {
    hide ParseFrom, MakeRecord, TotalLen;
    ParseStep(s, offset);
    if !Synced(s) {
      NothingOverlooked(s[1..], offset + 1, k - 1);
    } else {
      var n := TotalLen(s);
      var all, tail := ParseFrom(s, offset).frames, ParseFrom(s[n..], offset + n).frames;
      FrameSize(s, offset);
      if k < n {
        assert all[0].offset <= offset + k < all[0].offset + |all[0].frame|;
      } else {
        NothingOverlooked(s[n..], offset + n, k - n);
        var j :| 0 <= j < |tail| && tail[j].offset <= offset + k < tail[j].offset + |tail[j].frame|;
        assert all[j + 1] == tail[j];
      }
    }
  }

  lemma HeaderOfPacket(m: Message)
    requires Sendable(m.payload)
    ensures var e := Encode(m.topic, m.payload);
            && |e| == 8 + |m.payload| && e[0] == 0xFF && e[1] == 0xFE
            && e[2] as int + 256 * e[3] as int == |m.payload|
            && (e[2] as int + e[3] as int) % 256 + e[4] as int == 0xFF
  {
    hide Encode, DataSum16;
    var e := Encode(m.topic, m.payload);
    EncodeParts(m.topic, m.payload, []);
    assert e + [] == e;
    TwoBytes(e, 2);
  }

  lemma BadRecordNotAccepted(s: seq<byte>)
    requires ParseFrom(s, 0).frames != [] && ParseFrom(s, 0).frames[0].offset == 0
    requires !ParseFrom(s, 0).frames[0].msgChecksumOk
    ensures !NextUnit(s).Accept?
  {
    hide NextUnit, ParseFrom, MakeRecord, TotalLen;
    ParseStep(s, 0);
    if NextUnit(s).Accept? {
      ServerAcceptedPassesSniffer(s, 0);
    }
  }

  /** The server rejects it as a whole, so the next packet is met. */
  lemma CorruptionRejected(m: Message, i: nat, x: byte, rest: seq<byte>)
    requires |m.payload| <= 511 && 5 <= i < 8 + |m.payload| && x != Encode(m.topic, m.payload)[i]
    ensures NextUnit(Encode(m.topic, m.payload)[i := x] + rest) == Reject(8 + |m.payload|)
  {
    hide NextUnit, Encode, ParseFrom, Sum;
    var s := Encode(m.topic, m.payload)[i := x] + rest;
    HeaderOfPacket(m);
    VerdictInBytes(s);
    CorruptionSeen(m, i, x, rest, 0);
    BadRecordNotAccepted(s);
  }
}
