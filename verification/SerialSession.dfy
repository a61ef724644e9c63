/** The session object: the handler chain over the buffered reader, the routing maps and the polling loop. */
module SerialSession {
  import opened Bytes
  import opened Outcomes
  import opened SerialStream
  import opened MessageSerialization
  import opened Frame
  import opened Routing
  import opened TopicHandle
  import opened Scanner
  import opened AsyncRead
  import opened Session

  const MAX_POLLS := 50

  /** A completion of the session: a posted handler runs, or the outstanding read fails or takes some of
      the bytes on the line. */
  ghost predicate SessionCompletion(env: Env, s: State, line: seq<byte>, t: State, line': seq<byte>) {
    || (Enabled(s, RunHandler) && t == Step(env, s, RunHandler) && line' == line)
    || (Enabled(s, PortFails) && t == Step(env, s, PortFails) && line' == line)
    || (exists n :: 0 <= n <= |line| && Enabled(s, Arrive(line[..n])) && t == Step(env, s, Arrive(line[..n]))
                    && line' == line[n..])
  }

  /** Any completion: one of another operation leaves the session alone. */
  ghost predicate Completion(env: Env, s: State, line: seq<byte>, t: State, line': seq<byte>) {
    (t == s && line' == line) || SessionCompletion(env, s, line, t, line')
  }

  /** n completions, one after the other. */
  ghost predicate Completions(env: Env, n: nat, s: State, line: seq<byte>, t: State, line': seq<byte>) {
    if n == 0 then s == t && line == line'
    else exists u, rest :: Completions(env, n - 1, s, line, u, rest) && Completion(env, u, rest, t, line')
  }

  /** A handler never reports a port error. */
  lemma HandlerKeepsPort(env: Env, s: State)
    requires Enabled(s, RunHandler)
    ensures Step(env, s, RunHandler).channel.cont != Stopped(PortError)
  {
    hide Dispatch;
  }

  lemma NoneYet(env: Env, s: State, line: seq<byte>)
    ensures Completions(env, 0, s, line, s, line)
  {
  }

  lemma OneMore(env: Env, n: nat, s: State, line: seq<byte>, u: State, rest: seq<byte>, t: State, line': seq<byte>)
    requires Completions(env, n, s, line, u, rest)
    requires Completion(env, u, rest, t, line')
    ensures Completions(env, n + 1, s, line, t, line')
  {
    hide Completion;
    assert Completions(env, (n + 1) - 1, s, line, u, rest);
  }

  class SerialDrive {
    const env: Env
    const reader: AsyncReadBuffer<Stage>
    var callbacks: map<u16, Handler>
    var publishers: map<u16, Endpoint>
    var subscribers: map<u16, Endpoint>
    /** What the dispatched frames came to, in order. */
    var log: seq<Entry>
    /** Bytes that have arrived at the port and were not transferred yet. */
    var line: seq<byte>
    /** The port has an error to report to the outstanding read. */
    var broken: bool
    /** Completions of other operations ready on the same executor: writes, and the steps inside a
        composed read.  They do not touch the session. */
    var others: nat
    /** Bytes transferred so far. */
    ghost var received: seq<byte>

    function Routes(): Router
      reads this
    {
      Router(callbacks, publishers, subscribers, log)
    }

    ghost predicate ReaderOk()
      reads this, reader
    {
      && reader.Valid() && reader.Rewound() && reader.mem.Length == CAPACITY
      && (reader.ops != [] ==> !reader.ops[0].ReadSome?)
    }

    ghost function Abs(): State
      requires reader.Valid()
      reads this, reader, reader.mem
    {
      State(reader.Abs(), Routes())
    }

    /** The reader is in order and the session is what the scanner makes of the bytes received. */
    ghost predicate Valid()
      reads this, reader, reader.mem
    {
      ReaderOk() && Refines(env, Abs(), received)
    }

    /** A handler is about to run on a view of n bytes: its operation has left the executor. */
    ghost predicate HandlerReady(stream: RosStream, n: nat)
      reads this, reader, stream, stream.data
    {
      && ReaderOk() && reader.ops == []
      && stream.Valid() && stream.data == reader.mem && stream.head == stream.cur && |stream.Remaining()| == n
    }

    method ReadAsyncHead()
      requires ReaderOk() && reader.ops == []
      modifies reader, reader.mem
      ensures ReaderOk()
      ensures Abs() == AskHead(old(reader.Unread()), Routes())
    {
      reader.Read(1, First);
    }

    /** The constructor and start_read. */
    constructor (env: Env)
      ensures Valid() && fresh(reader) && fresh(reader.mem) && received == [] && line == []
      ensures this.env == env && Abs() == INITIAL
    {
      hide Refines;
      this.env := env;
      this.reader := new AsyncReadBuffer<Stage>(CAPACITY, First);
      this.callbacks := map[ID_PUBLISHER := CreatePublisher, ID_SUBSCRIBER := CreateSubscriber];
      this.publishers, this.subscribers := map[], map[];
      this.log, this.line, this.received := [], [], [];
      this.others, this.broken := 0, false;
      new;
      ReadAsyncHead();
      InitialRefines(env);
    }

    /** stream >> value for a byte and for a 16-bit number that are there. */
    static method NextByte(stream: RosStream) returns (b: byte)
      requires stream.Valid() && stream.data != null && stream.Remaining() != []
      modifies stream`cur
      ensures stream.Valid() && b == old(stream.Remaining())[0] && stream.Remaining() == old(stream.Remaining())[1..]
    {
      var r := stream.Take(1);
      b := r.value[0];
    }

    static method NextU16(stream: RosStream) returns (v: u16)
      requires stream.Valid() && stream.data != null && |stream.Remaining()| >= 2
      modifies stream`cur
      ensures stream.Valid()
      ensures v == U16(old(stream.Remaining())[..2]) && stream.Remaining() == old(stream.Remaining())[2..]
    {
      var r := stream.Take(2);
      v := U16(r.value);
    }

    method ReadAsyncFirst(stream: RosStream)
      requires HandlerReady(stream, 1)
      modifies stream, reader, reader.mem
      ensures ReaderOk()
      ensures Abs() == RunStage(env, First, old(stream.Remaining()), old(reader.Unread()), Routes())
      ensures Abs().channel.cont != Stopped(HandlerThrew)
    {
      var flag := NextByte(stream);
      if flag == 0xFF {
        reader.Read(1, Second);
      } else {
        ReadAsyncHead();
      }
    }

    method ReadAsyncSecond(stream: RosStream) returns (threw: bool)
      requires HandlerReady(stream, 1)
      modifies stream, reader, reader.mem
      ensures ReaderOk()
      ensures Abs() == RunStage(env, Second, old(stream.Remaining()), old(reader.Unread()), Routes())
      ensures threw <==> Abs().channel.cont == Stopped(HandlerThrew)
    {
      var version := NextByte(stream);
      if version == 0xFE {
        reader.Read(5, Length);
      } else {
        if version == 0xFF {
          reader.why := HandlerThrew;
          return true;
        }
        ReadAsyncHead();
      }
      threw := false;
    }

    /** The reads and the check of read_length. */
    static method CheckLength(stream: RosStream) returns (ok: bool, length: u16, topic: u16)
      requires stream.Valid() && stream.data != null && |stream.Remaining()| == 5
      modifies stream`cur
      ensures var view := old(stream.Remaining());
              && (ok <==> ServerAcceptsLength(U16(view[..2]), view[2]))
              && (ok ==> length == U16(view[..2]) && topic == U16(view[3..]))
    {
      hide DataSum16, U16;
      ghost var view := stream.Remaining();
      topic := 0;
      length := NextU16(stream);
      var check := NextByte(stream);
      ok := DataSum16(length) as int + check as int == 0xFF;
      if ok {
        assert stream.Remaining() == view[3..];
        topic := NextU16(stream);
        assert view[3..][..2] == view[3..];
      }
    }

    method ReadLength(stream: RosStream)
      requires HandlerReady(stream, 5)
      modifies stream, reader, reader.mem
      ensures ReaderOk()
      ensures Abs() == RunStage(env, Length, old(stream.Remaining()), old(reader.Unread()), Routes())
      ensures Abs().channel.cont != Stopped(HandlerThrew)
    {
      hide ServerAcceptsLength, U16;
      var ok, length, topic := CheckLength(stream);
      if !ok {
        ReadAsyncHead();
      } else {
        reader.Read(length as int + 1, Body(topic));
      }
    }

    /** The first half of read_body: split the view into payload and check byte, and check them. */
    method CheckBody(stream: RosStream, topic: u16) returns (ok: bool, body: RosStream)
      requires stream.Valid() && stream.data != null && stream.Remaining() != []
      modifies stream
      ensures fresh(body) && body.Valid() && body.data != null
      ensures var view := old(stream.Remaining()); var n := |view| - 1;
              body.Remaining() == view[..n] && (ok <==> ServerAcceptsBody(topic, view[..n], view[n]))
    {
      hide Sum, DataSum16;
      ghost var view := stream.Remaining();
      body := new RosStream.Unset(stream.GetLength() - 1);
      var _ := stream.TakeStream(body);
      var check := NextByte(stream);
      var sum := StreamDataSum(body);
      assert body.Remaining() == view[..|view| - 1] && check == view[|view| - 1];
      ok := sum as int + DataSum16(topic) as int + check as int == 0xFF;
    }

    method RunCreatePublisher(topic: u16, msg: RosStream) returns (threw: bool)
      requires msg.Valid() && msg.data != null
      modifies `callbacks, `publishers, `log, msg`cur
      ensures Register(env, old(Routes()), topic, old(msg.Remaining()), CreatePublisher,
                       ParseTopicInfo(old(msg.Remaining())))
           == if threw then None else Some(Routes())
      ensures threw ==> Routes() == old(Routes())
    {
      hide ParseTopicInfo;
      var payload := msg.Remaining();
      var r := GetTopicInfo(msg);
      if r.Refused? {
        log := log + [Entry(topic, payload, RefusedRegistration)];
        return false;
      }
      if !r.Done? || env.publisherThrows(|log|, r.value) {
        return true;
      }
      var made := Endpoint(r.value, |log|, env.loads(|log|, r.value));
      publishers := publishers[r.value.topicId := made];
      callbacks := callbacks[r.value.topicId := Handle(made)];
      log := log + [Entry(topic, payload, MadePublisher(made))];
      threw := false;
    }

    method RunCreateSubscriber(topic: u16, msg: RosStream) returns (threw: bool)
      requires msg.Valid() && msg.data != null
      modifies `subscribers, `log, msg`cur
      ensures Register(env, old(Routes()), topic, old(msg.Remaining()), CreateSubscriber,
                       ParseTopicInfo(old(msg.Remaining())))
           == if threw then None else Some(Routes())
      ensures threw ==> Routes() == old(Routes())
    {
      hide ParseTopicInfo;
      var payload := msg.Remaining();
      var r := GetTopicInfo(msg);
      if r.Refused? {
        log := log + [Entry(topic, payload, RefusedRegistration)];
        return false;
      }
      if !r.Done? || env.subscriberThrows(|log|, r.value) {
        return true;
      }
      var made := Endpoint(r.value, |log|, env.loads(|log|, r.value));
      subscribers := subscribers[r.value.topicId := made];
      log := log + [Entry(topic, payload, MadeSubscriber(made))];
      threw := false;
    }

    /** Look the topic up and call what it is bound to. */
    method Call(topic: u16, body: RosStream) returns (threw: bool)
      requires body.Valid() && body.data != null
      modifies `callbacks, `publishers, `subscribers, `log, body`cur
      ensures Dispatch(env, old(Routes()), topic, old(body.Remaining())) == if threw then None else Some(Routes())
      ensures threw ==> Routes() == old(Routes())
    {
      var payload := body.Remaining();
      if topic !in callbacks {
        log := log + [Entry(topic, payload, Ignored)];
        return false;
      }
      match callbacks[topic]
      case Handle(publisher) =>
        var read;
        threw, read := Publish(env, |log|, publisher, body);
        if !threw {
          log := log + [Entry(topic, payload, Published(publisher, read))];
        }
      case CreatePublisher =>
        threw := RunCreatePublisher(topic, body);
      case CreateSubscriber =>
        threw := RunCreateSubscriber(topic, body);
    }

    method ReadBody(stream: RosStream, topic: u16) returns (threw: bool)
      requires stream.Valid() && 1 <= |stream.Remaining()| <= CAPACITY
      requires HandlerReady(stream, |stream.Remaining()|)
      modifies this, stream, reader, reader.mem
      ensures ReaderOk() && line == old(line) && received == old(received)
      ensures Abs() == RunStage(env, Body(topic), old(stream.Remaining()), old(reader.Unread()), old(Routes()))
      ensures threw <==> Abs().channel.cont == Stopped(HandlerThrew)
    {
      hide Dispatch, ServerAcceptsBody;
      var ok, body := CheckBody(stream, topic);
      if !ok {
        ReadAsyncHead();
        return false;
      }
      threw := Call(topic, body);
      if threw {
        reader.why := HandlerThrew;
        return;
      }
      ReadAsyncHead();
    }

    /** The executor takes a posted handler off its queue and runs it on the view it was posted with. */
    method RunPosted() returns (threw: bool)
      requires Valid() && reader.ops != [] && reader.ops[0].Post?
      modifies this, reader, reader.mem
      ensures Valid() && received == old(received) && line == old(line)
      ensures Enabled(old(Abs()), RunHandler) && Abs() == Step(env, old(Abs()), RunHandler)
      ensures threw <==> Abs().channel.cont == Stopped(HandlerThrew)
    {
      hide Refines, RunStage;
      ghost var before := Abs();
      ReadyEnabled(env, before, received);
      var op := reader.ops[0];
      reader.ops := [];
      var stream := new RosStream(reader.mem, op.at, op.len);
      threw := false;
      match op.run {
        case First => ReadAsyncFirst(stream);
        case Second => threw := ReadAsyncSecond(stream);
        case Length => ReadLength(stream);
        case Body(topic) => threw := ReadBody(stream, topic);
      }
      StepRefines(env, before, RunHandler, received);
      assert received + [] == received;
    }

    /** The outstanding read completes with the first n bytes on the line. */
    method Transfer(n: nat)
      requires Valid() && reader.ops != [] && reader.ops[0].AsyncRead?
      requires reader.ops[0].least <= n <= reader.ops[0].size && n <= |line|
      modifies this, reader, reader.mem
      ensures Valid() && received == old(received) + old(line)[..n] && line == old(line)[n..]
      ensures Enabled(old(Abs()), Arrive(old(line)[..n])) && Abs() == Step(env, old(Abs()), Arrive(old(line)[..n]))
      ensures reader.ops != [] && reader.ops[0].Post?
    {
      hide Refines;
      ghost var before := Abs();
      var chunk := line[..n];
      line := line[n..];
      reader.CompleteRead(chunk);
      StepRefines(env, before, Arrive(chunk), received);
      received := received + chunk;
    }

    /** The outstanding read fails. */
    method PortError()
      requires Valid() && reader.ops != [] && reader.ops[0].AsyncRead?
      modifies reader
      ensures Valid() && Enabled(old(Abs()), PortFails) && Abs() == Step(env, old(Abs()), PortFails)
      ensures Abs().channel.cont == Stopped(Why.PortError)
    {
      hide Refines;
      ghost var before := Abs();
      reader.FailRead();
      StepRefines(env, before, PortFails, received);
      assert received + [] == received;
    }

    /** A completion of the session's own that the executor could run now. */
    predicate SessionReady()
      requires |reader.ops| <= 1
      reads this, reader
    {
      reader.ops != []
      && (reader.ops[0].Post? || (reader.ops[0].AsyncRead? && (broken || reader.ops[0].least <= |line|)))
    }

    /** Anything the executor could run now. */
    predicate SomethingReady()
      requires |reader.ops| <= 1
      reads this, reader
    {
      others > 0 || SessionReady()
    }

    /** poll_one: run one ready completion, if any, whichever the executor picks; others may have become
        ready meanwhile. */
    method PollOne() returns (ran: bool, threw: bool)
      requires Valid()
      modifies this, reader, reader.mem
      ensures Valid() && received + line == old(received) + old(line)
      ensures ran <==> old(SomethingReady())
      ensures Completion(env, old(Abs()), old(line), Abs(), line)
      ensures ran && old(others) == 0 ==> SessionCompletion(env, old(Abs()), old(line), Abs(), line)
      ensures !ran ==> Abs() == old(Abs()) && line == old(line) && !SomethingReady()
      ensures Abs().channel.cont == Stopped(Why.PortError) ==>
                old(Abs().channel.cont) == Stopped(Why.PortError) || old(broken)
      ensures threw <==> ran && !old(Abs().channel.cont.Stopped?) && Abs().channel.cont == Stopped(HandlerThrew)
    {
      hide Refines, Step;
      if !SomethingReady() {
        return false, false;
      }
      ran, threw := true, false;
      var pickOther, pickError: bool := *, *;
      if !SessionReady() || (others > 0 && pickOther) {
        others := *;
      } else if reader.ops[0].Post? {
        ReadyEnabled(env, Abs(), received);
        HandlerKeepsPort(env, Abs());
        threw := RunPosted();
      } else if broken && (pickError || reader.ops[0].least > |line|) {
        PortError();
      } else {
        var n :| reader.ops[0].least <= n <= reader.ops[0].size && n <= |line|;
        Transfer(n);
      }
    }

    /** run_io_contect: at most 51 completions a call, of the session and of other operations; it stops
        early only when nothing is ready or a handler threw.  No byte is lost between line and session. */
    method RunIoContext() returns (handled: nat, threw: bool)
      requires Valid()
      modifies this, reader, reader.mem
      ensures Valid() && received + line == old(received) + old(line)
      ensures handled <= 51 && Completions(env, handled, old(Abs()), old(line), Abs(), line)
      ensures handled == 51 || threw || !SomethingReady()
      ensures threw ==> Abs().channel.cont == Stopped(HandlerThrew)
    {
      hide Refines, Completions, Completion, SessionCompletion;
      handled := 0;
      var ran;
      ghost var start, startLine := Abs(), line;
      NoneYet(env, start, startLine);
      ghost var was, wasLine := start, startLine;
      ran, threw := PollOne();
      while ran
        invariant Valid() && received + line == old(received) + old(line)
        invariant Completions(env, handled, start, startLine, was, wasLine)
        invariant Completion(env, was, wasLine, Abs(), line)
        invariant !ran ==> Abs() == was && line == wasLine
        invariant handled <= MAX_POLLS
        invariant !ran ==> !SomethingReady() && !threw
        invariant threw ==> Abs().channel.cont == Stopped(HandlerThrew)
        decreases MAX_POLLS - handled, ran
      {
        OneMore(env, handled, start, startLine, was, wasLine, Abs(), line);
        handled := handled + 1;
        was, wasLine := Abs(), line;
        if threw || handled > MAX_POLLS {
          break;
        }
        ran, threw := PollOne();
      }
    }
  }
}
