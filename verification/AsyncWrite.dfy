/** The writer object: framing into a growable buffer, and the queue shared by several callers. */
module AsyncWrite {
  import opened Bytes
  import opened SerialStream
  import opened MessageSerialization
  import opened Frame
  import opened WriteQueue

  /** The part of a payload that goes out: its length is cut to sixteen bits. */
  function Sent(payload: seq<byte>): (p: seq<byte>)
    ensures Sendable(p)
  {
    payload[..|payload| % 0x1_0000]
  }

  /** What goes out of a payload is its beginning, and all of it below 65536 bytes. */
  lemma SentIsPayload(payload: seq<byte>)
    ensures Sent(payload) <= payload && |Sent(payload)| == |payload| % 65536
    ensures |payload| < 65536 ==> Sent(payload) == payload
  {
  }

  /** A packet holds the payload from its eighth byte on. */
  lemma PacketHolds(topic: u16, payload: seq<byte>)
    ensures var n := |payload| % 65536; Encode(topic, Sent(payload))[7..7 + n] == payload[..n]
    ensures |payload| < 65536 ==> Encode(topic, Sent(payload)) == Encode(topic, payload)
  {
    hide MsgCheck, Header;
    SentIsPayload(payload);
  }

  class AsyncWriteBuffer {
    var sendBufs: seq<seq<byte>>
    /** Writes handed to the executor. */
    var ops: seq<WriteOp>
    /** Everything the port has sent. */
    var wire: seq<byte>
    ghost var frames: seq<seq<byte>>
    ghost var fortunes: seq<Fortune>

    ghost function State(): Writer
      reads this
    {
      Writer(sendBufs, ops, wire, frames, fortunes)
    }

    ghost predicate Valid()
      reads this
    {
      Safe(State())
    }

    constructor ()
      ensures Valid() && State() == IDLE
    {
      sendBufs, ops, wire := [], [], [];
      frames, fortunes := [], [];
    }

    /** Sync flags, length and its checksum, topic id. */
    static method PackageHeader(writeBuf: WriteBuffer, dataLen: u16, topicId: u16)
      requires writeBuf.Valid() && writeBuf.writeLen == 0
      modifies writeBuf, writeBuf.mem
      ensures writeBuf.Valid() && (writeBuf.mem == old(writeBuf.mem) || fresh(writeBuf.mem))
      ensures writeBuf.Written() == Header(dataLen, topicId)
      ensures writeBuf.mem.Length == WriteBuffer.Grown(old(writeBuf.mem.Length), 7)
    {
      hide DataSum16, Le16;
      writeBuf.Put([0xFF, 0xFE]);
      writeBuf.Put(Le16(dataLen));
      var lenCheck := 0xFF - DataSum16(dataLen);
      writeBuf.Put([lenCheck]);
      writeBuf.Put(Le16(topicId));
      assert writeBuf.writeLen == |writeBuf.Written()|;
    }

    /** The message checksum over the first dataLen bytes of the payload buffer. */
    static method MessageCheck(data: array<byte>, dataLen: u16, topicId: u16) returns (check: byte)
      requires dataLen <= data.Length
      ensures check == MsgCheck(topicId, data[..dataLen])
    {
      hide DataSum16, Sum;
      var stream := new RosStream(data, 0, dataLen);
      var sum := StreamDataSum(stream);
      check := (0xFF - (sum as int + DataSum16(topicId) as int)) % 0x100;
    }

    /** The vector sent is exactly the packet: 8 bytes and the payload length modulo 65536, even when
        the 16-bit preallocation length wraps and the vector grows with each write. */
    static method PackagingMsg(serialMsg: WriteBuffer, topicId: u16) returns (writeBuf: WriteBuffer)
      requires serialMsg.Valid()
      ensures fresh(writeBuf) && fresh(writeBuf.mem) && writeBuf.Valid()
      ensures writeBuf.mem[..] == Encode(topicId, Sent(serialMsg.Written()))
      ensures var n := serialMsg.writeLen % 65536; writeBuf.mem[7..7 + n] == serialMsg.mem[..n]
      ensures serialMsg.writeLen < 65536 ==> writeBuf.mem[..] == Encode(topicId, serialMsg.Written())
      ensures writeBuf.mem.Length == OVERHEAD + serialMsg.writeLen % 0x1_0000
    {
      hide MsgCheck, Header, DataSum16;
      var dataLen: u16 := serialMsg.writeLen % 0x1_0000;
      var length := (OVERHEAD + dataLen) % 0x1_0000;
      writeBuf := new WriteBuffer(length);
      var payload := serialMsg.mem[..dataLen];
      assert payload == Sent(serialMsg.Written());
      PackageHeader(writeBuf, dataLen, topicId);
      writeBuf.Put(payload);
      var msgCheck := MessageCheck(serialMsg.mem, dataLen, topicId);
      writeBuf.Put([msgCheck]);
      assert writeBuf.writeLen == |writeBuf.Written()|;
      assert writeBuf.Written() == writeBuf.mem[..];
      PacketHolds(topicId, serialMsg.Written());
    }

    method DoWrite()
      requires sendBufs != []
      modifies `ops
      ensures State() == Start(old(State()))
    {
      ops := ops + [WriteOp(sendBufs[0], 0)];
    }

    method EnterQueue(payload: seq<byte>)
      requires Valid()
      modifies this
      ensures Valid() && State() == Enqueue(old(State()), payload)
    {
      hide Safe;
      StepSafe(State(), Put(payload));
      var needWrite := sendBufs == [];
      sendBufs := sendBufs + [payload];
      frames, fortunes := frames + [payload], fortunes + [Pending];
      if needWrite {
        DoWrite();
      }
    }

    /** Package outside the lock, then the locked part. */
    method WriteToSerial(serialMsg: WriteBuffer, topicId: u16)
      requires Valid() && serialMsg.Valid()
      modifies this
      ensures Valid()
      ensures State() == Enqueue(old(State()), Encode(topicId, Sent(serialMsg.Written())))
      ensures serialMsg.writeLen < 65536 ==>
                State() == Enqueue(old(State()), Encode(topicId, serialMsg.Written()))
    {
      var writeBuf := PackagingMsg(serialMsg, topicId);
      EnterQueue(writeBuf.mem[..]);
    }

    /** The port puts the next n bytes of the write in flight on the wire. */
    method TransmitBytes(n: nat)
      requires Valid() && Enabled(State(), Emit(0, n))
      modifies this
      ensures Valid() && State() == Transmit(old(State()), 0, n)
    {
      hide Safe;
      StepSafe(State(), Emit(0, n));
      wire := wire + ops[0].bytes[ops[0].sent..ops[0].sent + n];
      ops := ops[0 := ops[0].(sent := ops[0].sent + n)];
    }

    /** The queue once the write in flight has ended. */
    static ghost function AfterWrite(w: Writer, error: bool): Writer
      requires Safe(w) && w.ops != [] && (error <==> w.ops[0].sent < |w.ops[0].bytes|)
    {
      Step(w, if error then Fail(0) else Finished(0))
    }

    method WriteEcCallback(error: bool, ghost sent: nat)
      requires !error ==> sendBufs != [] && 0 <= Oldest(State()) < |fortunes|
      modifies this
      ensures error ==> State() == Abandon(old(State()), sent)
      ensures error ==> sendBufs == [] && ops == old(ops) && wire == old(wire)
      ensures !error ==> State() == Finish(old(State()))
    {
      ghost var front := Oldest(State());
      if error {
        sendBufs := [];
        fortunes := Abandoned(fortunes, front, sent);
        return;
      }
      sendBufs := sendBufs[1..];
      fortunes := fortunes[front := Completed];
      if sendBufs != [] {
        DoWrite();
      }
    }

    /** The executor reports the write in flight as finished (all bytes out) or failed (before that). */
    method CompleteWrite(error: bool)
      requires Valid() && ops != []
      requires error <==> ops[0].sent < |ops[0].bytes|
      modifies this
      ensures Valid()
      ensures State() == AfterWrite(old(State()), error)
      ensures wire == old(wire) && (error ==> sendBufs == [] && ops == [])
    {
      if !error {
        DoneFindsItsFrame(State(), 0);
      }
      StepSafe(State(), if error then Fail(0) else Finished(0));
      hide Safe;
      ghost var before := State();
      ghost var sent := ops[0].sent;
      ops := ops[1..];
      assert State() == WithoutOp(before, 0);
      WriteEcCallback(error, sent);
    }
  }
}
