/** The buffered asynchronous reader: a fixed array with two indices, refining a queue of unread
    bytes with one continuation. */
module AsyncRead {
  import opened Bytes

  /** An operation handed to the executor and not completed yet.  Memory is named by position. */
  datatype Op<C> =
    | AsyncRead(at: nat, size: nat, least: nat)   // async_read with transfer_at_least(least)
    | ReadSome(at: nat, size: nat)                // async_read_some
    | Post(run: C, at: nat, len: nat)             // a posted handler and the view it was given

  datatype Why = RefusedRequest | PortError | HandlerThrew

  datatype Cont<C> =
    | Waiting(run: C, need: nat)
    | Ready(run: C, view: seq<byte>)
    | Stopped(why: Why)

  /** What a client of the reader can tell: how it will go on, and the bytes kept for later. */
  datatype Channel<C> = Channel(cont: Cont<C>, unread: seq<byte>)

  /** Ask for the next need bytes, to be handed to run. */
  function Ask<C>(unread: seq<byte>, need: nat, run: C, capacity: nat): Channel<C> {
    if need > capacity || need == 0 then Channel(Stopped(RefusedRequest), unread)
    else if need > |unread| then Channel(Waiting(run, need), unread)
    else Channel(Ready(run, unread[..need]), unread[need..])
  }

  class AsyncReadBuffer<C(0)> {
    const mem: array<byte>
    var writeIndex: nat
    var readIndex: nat
    var requested: nat
    var callback: C
    var ops: seq<Op<C>>
    ghost var why: Why

    ghost predicate ValidOp(op: Op<C>)
      reads this
    {
      match op
      case AsyncRead(at, size, least) =>
        && at == writeIndex && size == mem.Length - writeIndex
        && 0 < least <= size && requested == writeIndex - readIndex + least
      case ReadSome(at, size) =>
        && at == writeIndex && size == mem.Length - writeIndex && writeIndex - readIndex < requested <= mem.Length
      case Post(_, at, len) =>
        0 < len && at + len <= mem.Length
    }

    /** Indices in order, at most one operation outstanding, and an outstanding read aimed strictly
        inside the buffer with room for what is missing. */
    ghost predicate Valid()
      reads this
    {
      && readIndex <= writeIndex <= mem.Length
      && |ops| <= 1
      && (|ops| == 1 ==> ValidOp(ops[0]))
    }

    /** An empty buffer starts at 0.  Read can do without it and keeps it. */
    ghost predicate Rewound()
      reads this
    {
      readIndex == writeIndex ==> readIndex == 0
    }

    ghost function Unread(): seq<byte>
      requires Valid()
      reads this, mem
    {
      mem[readIndex..writeIndex]
    }

    ghost function Abs(): Channel<C>
      requires Valid()
      reads this, mem
    {
      if ops == [] then Channel(Stopped(why), Unread())
      else match ops[0]
        case Post(run, at, len) => Channel(Ready(run, mem[at..at + len]), Unread())
        case _ => Channel(Waiting(callback, requested), Unread())
    }

    constructor (capacity: nat, callback: C)
      ensures Valid() && Rewound() && fresh(mem) && mem.Length == capacity
      ensures ops == [] && Unread() == []
    {
      mem := new byte[capacity](_ => 0);
      writeIndex, readIndex, requested := 0, 0, 0;
      this.callback := callback;
      ops := [];
      why := RefusedRequest;
    }

    function AlreadyBytes(): nat
      requires readIndex <= writeIndex
      reads this
    {
      writeIndex - readIndex
    }

    function TailRemainBytes(): nat
      requires writeIndex <= mem.Length
      reads this
    {
      mem.Length - writeIndex
    }

    method Reset()
      modifies `readIndex, `writeIndex
      ensures readIndex == writeIndex == 0
    {
      readIndex, writeIndex := 0, 0;
    }

    /** memmove of the unread bytes to the front. */
    method Compact()
      requires Valid() && readIndex < writeIndex && ops == []
      modifies `readIndex, `writeIndex, mem
      ensures Valid() && Unread() == old(Unread()) && readIndex == 0
    {
      var n := AlreadyBytes();
      forall i | 0 <= i < n {
        mem[i] := mem[readIndex + i];
      }
      writeIndex := n;
      readIndex := 0;
    }

    method CallSuccessCallback()
      requires Valid() && ops == [] && 0 < requested <= writeIndex - readIndex
      modifies `readIndex, `writeIndex, `ops
      ensures Valid() && Rewound() && |ops| == 1 && ops[0].Post?
      ensures Abs() == Ask(old(Unread()), requested, callback, mem.Length)
    {
      ghost var unread := Unread();
      var view := readIndex;
      assert mem[view..view + requested] == unread[..requested];
      assert mem[view + requested..writeIndex] == unread[requested..];
      readIndex := readIndex + requested;
      ops := ops + [Post(callback, view, requested)];
      if readIndex == writeIndex {
        Reset();
      }
    }

    /** Called from the single chain of handlers, so with nothing outstanding. */
    method Read(requestedBytes: nat, callback: C)
      requires Valid() && ops == []
      modifies this, mem
      ensures Valid() && Abs() == Ask(old(Unread()), requestedBytes, callback, mem.Length)
      ensures ops != [] ==> !ops[0].ReadSome?
      ensures requestedBytes == 0 || requestedBytes > mem.Length ==>
                ops == [] && why == RefusedRequest && Unread() == old(Unread())
      ensures old(Rewound()) ==> Rewound()
    {
      this.callback := callback;
      requested := requestedBytes;
      if requested > mem.Length || requested == 0 {
        why := RefusedRequest;
        return;
      }
      if requested > AlreadyBytes() {
        var diff := requested - AlreadyBytes();
        if diff > TailRemainBytes() {
          if readIndex == writeIndex {
            Reset();
          } else {
            Compact();
          }
        }
        ops := ops + [AsyncRead(writeIndex, TailRemainBytes(), diff)];
      } else {
        CallSuccessCallback();
      }
    }

    /** The callback of both kinds of read. */
    method ReadCallback(error: bool, transferred: nat)
      requires Valid() && ops == [] && transferred <= mem.Length - writeIndex
      requires 0 < requested <= mem.Length
      modifies `readIndex, `writeIndex, `requested, `ops, `why
      ensures Valid() && (old(Rewound()) ==> Rewound())
      ensures error ==> ops == [] && requested == 0 && Abs() == Channel(Stopped(PortError), old(Unread()))
      ensures !error ==> requested == old(requested)
      ensures !error ==>
                Abs() == Ask(mem[old(readIndex)..old(writeIndex) + transferred], requested, callback, mem.Length)
      ensures !error && requested <= old(writeIndex) - old(readIndex) + transferred ==>
                |ops| == 1 && ops[0].Post? && Rewound()
    {
      if error {
        requested := 0;
        why := PortError;
        return;
      }
      writeIndex := writeIndex + transferred;
      if requested <= AlreadyBytes() {
        CallSuccessCallback();
      } else {
        ops := ops + [ReadSome(writeIndex, TailRemainBytes())];
      }
    }

    /** The transfer itself: bytes land in the buffer given to the read. */
    method Land(at: nat, chunk: seq<byte>)
      requires at + |chunk| <= mem.Length
      modifies mem
      ensures mem[..at] == old(mem[..at]) && mem[at..at + |chunk|] == chunk
    {
      forall i | 0 <= i < |chunk| {
        mem[at + i] := chunk[i];
      }
    }

    /** The executor finishes the outstanding async_read: between least and size bytes arrived. */
    method CompleteRead(chunk: seq<byte>)
      requires Valid() && |ops| == 1 && ops[0].AsyncRead?
      requires ops[0].least <= |chunk| <= ops[0].size
      modifies this, mem
      ensures Valid() && Rewound() && |ops| == 1 && ops[0].Post?
      ensures Abs() == Ask(old(Unread()) + chunk, old(requested), old(callback), mem.Length)
    {
      ghost var unread := Unread();
      Land(ops[0].at, chunk);
      assert mem[readIndex..writeIndex + |chunk|] == unread + chunk by {
        assert mem[readIndex..writeIndex] == mem[..writeIndex][readIndex..];
      }
      ops := [];
      ReadCallback(false, |chunk|);
    }

    /** The executor reports an error on the outstanding read. */
    method FailRead()
      requires Valid() && |ops| == 1 && !ops[0].Post? && 0 < requested <= mem.Length
      modifies this
      ensures Valid() && (old(Rewound()) ==> Rewound())
      ensures ops == [] && Abs() == Channel(Stopped(PortError), old(Unread()))
    {
      ops := [];
      ReadCallback(true, 0);
    }
  }
}
