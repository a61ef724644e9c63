/** Callers, write queue, wire, re-chunked reads and handler chain together, in every interleaving. */
module EndToEnd {
  import opened Bytes
  import opened Outcomes
  import opened MessageSerialization
  import opened Frame
  import opened Routing
  import opened Scanner
  import opened AsyncRead
  import opened AsyncWrite
  import opened WriteQueue
  import opened Reception
  import Introspection
  import Codec
  import Writers
  import Session

  /** got counts the bytes of the wire that the reading side has received. */
  datatype System = System(shared: Writers.Shared, session: Session.State, got: nat)

  datatype Action = Write(a: Writers.Action) | Read(e: Session.Event)

  const QUIET := System(Writers.NOBODY, Session.INITIAL, 0)

  /** What is read is what comes next on the wire, cut anywhere; everything else is free, writes that
      fail included. */
  predicate Possible(s: System, a: Action) {
    match a
    case Write(w) => Writers.Allowed(s.shared, w)
    case Read(e) =>
      && Session.Enabled(s.session, e)
      && (e.Arrive? ==> s.got + |e.chunk| <= |s.shared.writer.wire|
                        && s.shared.writer.wire[s.got..s.got + |e.chunk|] == e.chunk)
  }

  function Act(env: Env, s: System, a: Action): System
    requires Possible(s, a)
  {
    match a
    case Write(w) => s.(shared := Writers.Act(s.shared, w))
    case Read(e) =>
      s.(session := Session.Step(env, s.session, e), got := s.got + if e.Arrive? then |e.chunk| else 0)
  }

  ghost predicate Run(env: Env, states: seq<System>, actions: seq<Action>) {
    && |states| == |actions| + 1
    && states[0] == QUIET
    && forall i :: 0 <= i < |actions| ==>
                     Possible(states[i], actions[i]) && states[i + 1] == Act(env, states[i], actions[i])
  }

  /** The queue is orderly, and the session is what the scanner makes of the part of the wire it has
      received. */
  ghost predicate Coherent(env: Env, s: System) {
    && Writers.Orderly(s.shared)
    && s.got <= |s.shared.writer.wire|
    && Session.Refines(env, s.session, s.shared.writer.wire[..s.got])
  }

  lemma WireGrows(w: Writer, e: Event)
    requires Enabled(w, e)
    ensures w.wire <= Step(w, e).wire
  {
  }

  lemma WriteCoherent(env: Env, s: System, a: Writers.Action)
    requires Coherent(env, s) && Possible(s, Write(a))
    ensures Coherent(env, Act(env, s, Write(a)))
  {
    hide Session.Refines, Safe;
    Writers.ActOrderly(s.shared, a);
    match a {
      case Package(_, _) =>
      case Enter(who) => WireGrows(s.shared.writer, Put(Writers.PacketOf(s.shared.packaged[who])));
      case Port(e) => WireGrows(s.shared.writer, e);
    }
    assert Act(env, s, Write(a)).shared.writer.wire[..s.got] == s.shared.writer.wire[..s.got];
  }

  lemma ReadCoherent(env: Env, s: System, e: Session.Event)
    requires Coherent(env, s) && Possible(s, Read(e))
    ensures Coherent(env, Act(env, s, Read(e)))
  {
    hide Session.Refines, Writers.Orderly, Session.Step, Session.Enabled;
    var wire := s.shared.writer.wire;
    Session.StepRefines(env, s.session, e, wire[..s.got]);
    if e.Arrive? {
      assert wire[..s.got + |e.chunk|] == wire[..s.got] + e.chunk;
    } else {
      assert wire[..s.got] + [] == wire[..s.got];
    }
  }

  lemma QuietCoherent(env: Env)
    ensures Coherent(env, QUIET)
  {
    hide Session.Refines;
    Writers.NobodyOrderly();
    Session.InitialRefines(env);
  }

  /** In every reachable state of the whole system, with or without write errors. */
  lemma {:induction false} RunCoherent(env: Env, states: seq<System>, actions: seq<Action>)
    requires Run(env, states, actions)
    ensures Coherent(env, states[|actions|])
    decreases |actions|
  {
    hide Coherent, Act, Possible;
    var n := |actions|;
    if n == 0 {
      QuietCoherent(env);
    } else {
      RunCoherent(env, states[..n], actions[..n - 1]);
      match actions[n - 1]
      case Write(a) => WriteCoherent(env, states[n - 1], a);
      case Read(e) => ReadCoherent(env, states[n - 1], e);
    }
  }

  // ----- what the reading side makes of the messages

  /** The messages as they go out: payload lengths cut to sixteen bits. */
  function Outgoing(entered: seq<Writers.Issue>): seq<Message> {
    if entered == [] then []
    else Outgoing(entered[..|entered| - 1])
         + [Message(entered[|entered| - 1].message.topic, Sent(entered[|entered| - 1].message.payload))]
  }

  function Packets(ms: seq<Message>): (items: seq<Item>)
    requires forall i :: 0 <= i < |ms| ==> Sendable(ms[i].payload)
    ensures |items| == |ms| && ValidItems(items)
    ensures forall i :: 0 <= i < |ms| ==> items[i] == Packet(ms[i])
  {
    seq(|ms|, i requires 0 <= i < |ms| => Packet(ms[i]))
  }

  lemma {:induction false} OutgoingSendable(entered: seq<Writers.Issue>)
    ensures |Outgoing(entered)| == |entered|
    ensures forall i :: 0 <= i < |entered| ==>
              && Outgoing(entered)[i] == Message(entered[i].message.topic, Sent(entered[i].message.payload))
              && Sendable(Outgoing(entered)[i].payload)
  {
    hide Sendable;
    if entered == [] {
    } else {
      OutgoingSendable(entered[..|entered| - 1]);
    }
  }

  lemma {:induction false} PacketsWire(ms: seq<Message>, frames: seq<seq<byte>>)
    requires |frames| == |ms|
    requires forall i :: 0 <= i < |ms| ==> Sendable(ms[i].payload) && frames[i] == Encode(ms[i].topic, ms[i].payload)
    ensures Wire(Packets(ms)) == Flat(frames) && Messages(Packets(ms)) == ms
    decreases |ms|
  {
    hide Encode, Sendable;
    if ms == [] {
    } else {
      PacketsWire(ms[1..], frames[1..]);
      assert Packets(ms)[1..] == Packets(ms[1..]);
    }
  }

  lemma NothingScanned(env: Env, r: Router)
    ensures Scan(env, r, []) == Scanned(r, Hungry, [])
  {
  }

  /** What went on the wire scans to what the messages deliver. */
  lemma ScanOutgoing(env: Env, shared: Writers.Shared)
    requires Writers.Orderly(shared)
    ensures var d := Deliver(env, START, Outgoing(shared.entered));
            var s := Scan(env, START, Flat(shared.writer.frames));
            s.router == d.router && s.fate == d.fate && (d.fate.Hungry? ==> s.rest == [])
  {
    hide Safe, Encode, Dispatch, NextUnit, Deliver;
    var ms := Outgoing(shared.entered);
    OutgoingSendable(shared.entered);
    PacketsWire(ms, shared.writer.frames);
    var wire := Flat(shared.writer.frames);
    ScanDelivers(env, START, Packets(ms), []);
    assert Wire(Packets(ms)) + [] == wire;
    NothingScanned(env, Deliver(env, START, ms).router);
  }

  /** The state of the session against what the messages deliver: never more than that, exactly that
      once everything sent was read or the session ended for a reason of its own. */
  ghost predicate Faithful(s: System, d: Delivery) {
    var cont := s.session.channel.cont;
    && s.session.router.log <= d.router.log
    && (cont == Stopped(RefusedRequest) ==> s.session.router == d.router && d.fate == Stuck)
    && (cont == Stopped(HandlerThrew) ==> s.session.router == d.router && d.fate == Raised)
    && (s.shared.writer.bufs == [] && s.got == |s.shared.writer.wire| && cont.Waiting? ==>
          d.fate == Hungry && s.session == Session.AskHead([], d.router))
  }

  /** What was read so far, scanned, against everything enqueued, scanned: never more, and the same if
      it ended on its own. */
  lemma ScanBehind(env: Env, s: System)
    requires Coherent(env, s) && NoFailure(s.shared.writer)
    ensures var first := Scan(env, START, s.shared.writer.wire[..s.got]);
            var d := Deliver(env, START, Outgoing(s.shared.entered));
            && first.router.log <= d.router.log
            && (!first.fate.Hungry? ==> first.router == d.router && first.fate == d.fate)
  {
    hide Deliver, Scan, Consistent, Safe, NoFailure, Session.Refines;
    var w := s.shared.writer;
    WireInOrder(w);
    ScanOutgoing(env, s.shared);
    var all, rx := Flat(w.frames), w.wire[..s.got];
    assert all == rx + all[s.got..];
    ScanExtend(env, START, rx, all[s.got..]);
    StartConsistent();
    ScanConsistent(env, START, rx);
    var first := Scan(env, START, rx);
    ScanConsistent(env, first.router, first.rest + all[s.got..]);
  }

  lemma DrainedWire(w: Writer)
    requires Safe(w) && NoFailure(w) && w.bufs == []
    ensures w.wire == Flat(w.frames)
  {
    WireInOrder(w);
    assert w.frames[..|w.frames|] == w.frames;
  }

  /** The log of a running session is never ahead of the scanner. */
  lemma SessionLog(env: Env, s: Session.State, rx: seq<byte>)
    requires Session.Refines(env, s, rx)
    ensures s.router.log <= Scan(env, START, rx).router.log
  {
    hide Scan, Consistent, Session.Held;
    if s.channel.cont.Ready? {
      var run, view := s.channel.cont.run, s.channel.cont.view;
      ScanConsistent(env, s.router, Session.Held(run, |view|) + (view + s.channel.unread));
    }
  }

  /** Waiting with nothing undecided is waiting for a head byte. */
  lemma WaitingDry(env: Env, s: Session.State, rx: seq<byte>)
    requires Session.Refines(env, s, rx) && s.channel.cont.Waiting?
    requires Scan(env, START, rx).fate.Hungry? ==> Scan(env, START, rx).rest == []
    ensures Scan(env, START, rx).fate.Hungry? && s == Session.AskHead([], Scan(env, START, rx).router)
  {
    hide Scan, Consistent;
    var run, need := s.channel.cont.run, s.channel.cont.need;
    assert Session.Held(run, need) + s.channel.unread == [];
    assert run == Session.First && need == 1;
  }

  lemma CoherentFaithful(env: Env, s: System)
    requires Coherent(env, s) && NoFailure(s.shared.writer)
    ensures Faithful(s, Deliver(env, START, Outgoing(s.shared.entered)))
  {
    hide Deliver, Scan, Consistent, Safe, NoFailure;
    var w := s.shared.writer;
    var rx := w.wire[..s.got];
    ScanBehind(env, s);
    SessionLog(env, s.session, rx);
    if w.bufs == [] && s.got == |w.wire| && s.session.channel.cont.Waiting? {
      DrainedWire(w);
      ScanOutgoing(env, s.shared);
      assert rx == Flat(w.frames);
      WaitingDry(env, s.session, rx);
    }
  }

  /** End to end: whatever callers, port, transfer sizes and handlers do in whatever order, if no
      write has failed the session dispatches exactly what the enqueued messages deliver, in the order
      of enqueueing, and waits for a head byte again with nothing left over. */
  lemma EndToEnd(env: Env, states: seq<System>, actions: seq<Action>)
    requires Run(env, states, actions) && NoFailure(states[|actions|].shared.writer)
    ensures var s := states[|actions|]; Faithful(s, Deliver(env, START, Outgoing(s.shared.entered)))
  {
    RunCoherent(env, states, actions);
    hide Run;
    CoherentFaithful(env, states[|actions|]);
  }

  lemma Undecided(env: Env, r: Router, s: seq<byte>)
    requires NextUnit(s).More?
    ensures Scan(env, r, s) == Scanned(r, Hungry, s)
  {
  }

  lemma EnoughLeft(env: Env, s: System)
    requires Coherent(env, s) && NoFailure(s.shared.writer)
    requires s.shared.writer.bufs == [] && s.session.channel.cont.Waiting? && s.got < |s.shared.writer.wire|
    ensures var channel := s.session.channel;
            && |channel.unread| < channel.cont.need <= CAPACITY
            && channel.cont.need - |channel.unread| <= |s.shared.writer.wire| - s.got
  {
    hide Scan, Dispatch, NextUnit, Consistent, Safe, NoFailure, Deliver;
    var w, channel := s.shared.writer, s.session.channel;
    DrainedWire(w);
    ScanOutgoing(env, s.shared);
    var rx, tail := w.wire[..s.got], w.wire[s.got..];
    assert rx + tail == w.wire;
    ScanExtend(env, START, rx, tail);
    var run, need, unread := channel.cont.run, channel.cont.need, channel.unread;
    if need - |unread| > |tail| {
      var held := Session.Held(run, need);
      assert held + unread + tail == held + (unread + tail);
      Session.AskUndecided(run, need, unread + tail);
      Undecided(env, s.session.router, held + (unread + tail));
    }
  }

  /** The reader never waits for bytes that will not come: with everything enqueued on the wire, a
      session that waits and has not read everything can be given just what it asks for. */
  lemma NeverStarves(env: Env, states: seq<System>, actions: seq<Action>) returns (chunk: seq<byte>)
    requires Run(env, states, actions)
    requires var s := states[|actions|];
             && NoFailure(s.shared.writer) && s.shared.writer.bufs == []
             && s.session.channel.cont.Waiting? && s.got < |s.shared.writer.wire|
    ensures var s := states[|actions|];
            && |s.session.channel.unread| + |chunk| == s.session.channel.cont.need
            && Possible(s, Read(Session.Arrive(chunk)))
  {
    RunCoherent(env, states, actions);
    hide Run;
    var s := states[|actions|];
    EnoughLeft(env, s);
    chunk := s.shared.writer.wire[s.got..s.got + s.session.channel.cont.need - |s.session.channel.unread|];
  }

  // ----- every message arrives

  /** On the messages as they go out: if all are acceptable and none breaks its handler, the session
      never stops of itself, dispatches them in order, and once all is read has dispatched every one and
      waits for a head byte. */
  lemma OutgoingArrives(env: Env, states: seq<System>, actions: seq<Action>)
    requires Run(env, states, actions) && NoFailure(states[|actions|].shared.writer)
    requires var ms := Outgoing(states[|actions|].shared.entered); AllAcceptable(ms) && Survives(env, 0, map[], ms)
    ensures var s := states[|actions|];
            var ms, cont := Outgoing(s.shared.entered), s.session.channel.cont;
            && (cont.Stopped? ==> cont == Stopped(PortError))
            && Dispatched(s.session.router.log) <= ms
            && (s.shared.writer.bufs == [] && s.got == |s.shared.writer.wire| && cont.Waiting? ==>
                  s.session == Session.AskHead([], s.session.router) && Dispatched(s.session.router.log) == ms)
  {
    EndToEnd(env, states, actions);
    hide Run, NoFailure, AllAcceptable, Survives, Deliver;
    var s := states[|actions|];
    var d := Deliver(env, START, Outgoing(s.shared.entered));
    NothingLostExact(env, Outgoing(s.shared.entered));
    assert d.fate.Hungry?;
    if s.session.channel.cont.Stopped? {
      assert s.session.channel.cont.why != RefusedRequest && s.session.channel.cont.why != HandlerThrew;
    }
    DispatchedPrefix(s.session.router.log, d.router.log);
  }

  /** A message that gets through: at most 511 bytes, and the two eight-bit sums of its body do not
      carry. */
  predicate Modest(m: Message) {
    |m.payload| <= 511 && Sum(m.payload) % 256 + (m.topic % 256 + m.topic / 256) % 256 <= 255
  }

  ghost predicate AllModest(ms: seq<Message>) {
    forall i :: 0 <= i < |ms| ==> Modest(ms[i])
  }

  lemma ModestIsAcceptable(m: Message)
    ensures Modest(m) <==> Acceptable(m)
  {
    hide Sum;
    DataSum16Bytes(m.topic);
  }

  lemma AllModestAcceptable(ms: seq<Message>)
    ensures AllModest(ms) <==> AllAcceptable(ms)
  {
    hide Modest, Acceptable;
    forall i | 0 <= i < |ms| {
      ModestIsAcceptable(ms[i]);
    }
  }

  /** The messages that the callers packaged, in the order in which they entered the queue. */
  function Entered(entered: seq<Writers.Issue>): (ms: seq<Message>)
    ensures |ms| == |entered| && forall i :: 0 <= i < |ms| ==> ms[i] == entered[i].message
  {
    seq(|entered|, i requires 0 <= i < |entered| => entered[i].message)
  }

  lemma OutgoingIsEntered(entered: seq<Writers.Issue>)
    requires AllModest(Entered(entered))
    ensures Outgoing(entered) == Entered(entered)
  {
    hide Outgoing;
    OutgoingSendable(entered);
    forall i | 0 <= i < |entered| ensures Outgoing(entered)[i] == Entered(entered)[i] {
      assert Modest(Entered(entered)[i]);
      SentIsPayload(entered[i].message.payload);
    }
  }

  /** The frames of a log are the first messages of a list, with their payloads. */
  ghost predicate InTurn(log: seq<Entry>, ms: seq<Message>) {
    && |log| <= |ms|
    && forall i :: 0 <= i < |log| ==> log[i].topic == ms[i].topic && log[i].payload == ms[i].payload
  }

  lemma DispatchedInTurn(log: seq<Entry>, ms: seq<Message>)
    requires Dispatched(log) <= ms
    ensures InTurn(log, ms) && (Dispatched(log) == ms ==> |log| == |ms|)
  {
    hide Dispatched;
    if log == [] {
      NothingDispatched();
    }
    forall i | 0 <= i < |log| ensures |log| <= |ms| && log[i].topic == ms[i].topic && log[i].payload == ms[i].payload {
      DispatchedAt(log, i);
      assert Dispatched(log)[i] == ms[i];
    }
    if log != [] {
      DispatchedAt(log, 0);
    }
  }

  /** Closed form, on the messages that the callers packaged: if none is long or carries, and none
      breaks its handler, then whatever callers, port, transfer sizes and handlers do in whatever order
      without a failed write, the session never stops of itself, dispatches those messages with their
      payloads in the order of enqueueing, and once all is read has dispatched every one. */
  lemma EveryMessageArrives(env: Env, states: seq<System>, actions: seq<Action>)
    requires Run(env, states, actions) && NoFailure(states[|actions|].shared.writer)
    requires var ms := Entered(states[|actions|].shared.entered); AllModest(ms) && Survives(env, 0, map[], ms)
    ensures var s := states[|actions|];
            var ms, cont := Entered(s.shared.entered), s.session.channel.cont;
            && (cont.Stopped? ==> cont == Stopped(PortError))
            && InTurn(s.session.router.log, ms)
            && (s.shared.writer.bufs == [] && s.got == |s.shared.writer.wire| && cont.Waiting? ==>
                  s.session == Session.AskHead([], s.session.router) && |s.session.router.log| == |ms|)
  {
    var s := states[|actions|];
    hide Run, NoFailure, AllModest, Survives, InTurn, Dispatched, Session.AskHead;
    OutgoingIsEntered(s.shared.entered);
    AllModestAcceptable(Entered(s.shared.entered));
    OutgoingArrives(env, states, actions);
    DispatchedInTurn(s.session.router.log, Entered(s.shared.entered));
  }

  /** If moreover the ROS side does not throw and the messages carry values of the types that their
      topics are registered with, in no state has a publisher got anything but the value that was sent
      to it, read to the last byte. */
  lemma EveryValueArrives(env: Env, states: seq<System>, actions: seq<Action>)
    requires Run(env, states, actions) && NoFailure(states[|actions|].shared.writer) && QuietRos(env)
    requires var ms := Entered(states[|actions|].shared.entered); AllModest(ms) && GoodTraffic(env, 0, map[], ms)
    ensures var s := states[|actions|];
            var ms, cont := Entered(s.shared.entered), s.session.channel.cont;
            && (cont.Stopped? ==> cont == Stopped(PortError))
            && InTurn(s.session.router.log, ms) && AllReadBack(s.session.router.log)
            && (s.shared.writer.bufs == [] && s.got == |s.shared.writer.wire| && cont.Waiting? ==>
                  s.session == Session.AskHead([], s.session.router) && |s.session.router.log| == |ms|)
  {
    var s := states[|actions|];
    var ms := Entered(s.shared.entered);
    EndToEnd(env, states, actions);
    GoodTrafficSurvives(env, 0, map[], ms);
    EveryMessageArrives(env, states, actions);
    OutgoingIsEntered(s.shared.entered);
    hide Run, NoFailure, QuietRos, AllModest, GoodTraffic, Survives, Deliver, InTurn, Consistent, ReadBack;
    StartConsistent();
    assert START.publishers == map[];
    DeliverReadsBack(env, START, ms);
  }

  // ----- every run can be finished

  /** Bytes of the front frame that are not on the wire. */
  function Unsent(w: Writer): nat {
    if w.ops == [] || |w.ops[0].bytes| <= w.ops[0].sent then 0 else |w.ops[0].bytes| - w.ops[0].sent
  }

  function Unread(s: System): nat {
    if s.got <= |s.shared.writer.wire| then |s.shared.writer.wire| - s.got else 0
  }

  /** Frames in the queue, then bytes of the front one, then bytes on the wire, then bytes to work on. */
  predicate Closer(t: System, s: System) {
    var w, v := s.shared.writer, t.shared.writer;
    || |v.bufs| < |w.bufs|
    || (|v.bufs| == |w.bufs| && Unsent(v) < Unsent(w))
    || (v == w && Unread(t) < Unread(s))
    || (v == w && Unread(t) == Unread(s) && |Session.Kept(t.session)| < |Session.Kept(s.session)|)
  }

  /** Everything is sent, and the session has stopped or has read it all and waits. */
  predicate Finished(s: System) {
    && s.shared.writer.bufs == []
    && (s.session.channel.cont.Stopped? || (s.session.channel.cont.Waiting? && s.got == |s.shared.writer.wire|))
  }

  lemma WriterProgress(env: Env, s: System) returns (a: Action)
    requires Coherent(env, s) && NoFailure(s.shared.writer) && s.shared.writer.bufs != []
    ensures a.Write? && Possible(s, a) && Closer(Act(env, s, a), s)
    ensures NoFailure(Act(env, s, a).shared.writer) && Act(env, s, a).shared.entered == s.shared.entered
  {
    hide Session.Refines, Emitted;
    var w := s.shared.writer;
    if Unsent(w) > 0 {
      a := Write(Writers.Port(Emit(0, Unsent(w))));
    } else {
      DoneFindsItsFrame(w, 0);
      a := Write(Writers.Port(WriteQueue.Event.Finished(0)));
    }
  }

  lemma ReaderProgress(env: Env, s: System) returns (a: Action)
    requires Coherent(env, s) && NoFailure(s.shared.writer) && s.shared.writer.bufs == [] && !Finished(s)
    ensures a.Read? && Possible(s, a) && Closer(Act(env, s, a), s)
  {
    hide NoFailure, Writers.Orderly;
    var wire, channel := s.shared.writer.wire, s.session.channel;
    if channel.cont.Ready? {
      hide Session.Refines;
      a := Read(Session.RunHandler);
      Session.HandlerShrinks(env, s.session, wire[..s.got]);
    } else {
      hide Session.Refines;
      EnoughLeft(env, s);
      a := Read(Session.Arrive(wire[s.got..s.got + channel.cont.need - |channel.unread|]));
    }
  }

  lemma RunExtends(env: Env, states: seq<System>, actions: seq<Action>, a: Action)
    requires Run(env, states, actions) && Possible(states[|actions|], a)
    ensures Run(env, states + [Act(env, states[|actions|], a)], actions + [a])
  {
    hide Possible, Act;
  }

  lemma ReadKeepsWriter(env: Env, s: System, a: Action)
    requires a.Read? && Possible(s, a)
    ensures Act(env, s, a).shared == s.shared
  {
  }

  /** From every reachable state without a failed write the system can go on to a finished one, with
      just the frames already enqueued: neither side ever blocks the other. */
  lemma {:induction false} CanFinish(env: Env, states: seq<System>, actions: seq<Action>)
    returns (states': seq<System>, actions': seq<Action>)
    requires Run(env, states, actions) && NoFailure(states[|actions|].shared.writer)
    ensures Run(env, states', actions') && states <= states' && actions <= actions'
    ensures var t := states'[|actions'|];
            Finished(t) && NoFailure(t.shared.writer) && t.shared.entered == states[|actions|].shared.entered
    decreases |states[|actions|].shared.writer.bufs|, Unsent(states[|actions|].shared.writer),
              Unread(states[|actions|]), |Session.Kept(states[|actions|].session)|
  {
    RunCoherent(env, states, actions);
    hide Run, NoFailure, Coherent, Possible, Act, Finished, Unsent, Unread, Session.Kept;
    var s := states[|actions|];
    if Finished(s) {
      states', actions' := states, actions;
    } else {
      var a;
      if s.shared.writer.bufs != [] {
        a := WriterProgress(env, s);
      } else {
        a := ReaderProgress(env, s);
        ReadKeepsWriter(env, s, a);
      }
      RunExtends(env, states, actions, a);
      states', actions' := CanFinish(env, states + [Act(env, s, a)], actions + [a]);
    }
  }

  // ----- a value arrives

  /** Codec and framing together: a value of a readable type that fits and does not carry is accepted
      off the wire as one packet, and reading its payload gives the value back. */
  lemma ValueArrives(topic: u16, ms: seq<Introspection.Member>, vs: seq<Codec.Value>, rest: seq<byte>)
    requires Introspection.WellFormedAll(ms) && Codec.TypedAll(ms, vs)
    requires Codec.ReadableAll(ms) && Codec.GoodStringsAll(ms, vs)
    requires Acceptable(Message(topic, Codec.EncodeAll(ms, vs).bytes))
    ensures var payload := Codec.EncodeAll(ms, vs).bytes;
            && Sendable(payload)
            && NextUnit(Encode(topic, payload) + rest) == Accept(topic, payload, OVERHEAD + |payload|)
            && Codec.DecodeAll(ms, payload) == Outcome.Done(vs, [])
  {
    hide NextUnit, Encode, Codec.DecodeAll, Codec.EncodeAll;
    var payload := Codec.EncodeAll(ms, vs).bytes;
    PacketVerdict(Message(topic, payload), rest);
    Codec.RoundTripExact(ms, vs, []);
    assert payload + [] == payload;
  }
}
