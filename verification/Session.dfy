/** The session as a state machine over its events, and its agreement with the scanner in every run. */
module Session {
  import opened Bytes
  import opened Frame
  import opened Routing
  import opened Scanner
  import opened AsyncRead

  /** Which handler a read was requested for. */
  datatype Stage = First | Second | Length | Body(topic: u16)

  datatype State = State(channel: Channel<Stage>, router: Router)

  function Request(unread: seq<byte>, need: nat, run: Stage, r: Router): State {
    State(Ask(unread, need, run, CAPACITY), r)
  }

  function AskHead(unread: seq<byte>, r: Router): State {
    Request(unread, 1, First, r)
  }

  /** The sizes each stage is asked for and given. */
  predicate RightSize(run: Stage, n: nat) {
    match run
    case First => n == 1
    case Second => n == 1
    case Length => n == 5
    case Body(_) => 1 <= n <= 0x1_0000
  }

  /** One handler on its view, up to and including the next read it asks for. */
  function RunStage(env: Env, run: Stage, view: seq<byte>, unread: seq<byte>, r: Router): State
    requires RightSize(run, |view|)
  {
    match run
    case First =>
      if view[0] == 0xFF then Request(unread, 1, Second, r) else AskHead(unread, r)
    case Second =>
      if view[0] == 0xFE then Request(unread, 5, Length, r)
      else if view[0] == 0xFF then State(Channel(Stopped(HandlerThrew), unread), r)
      else AskHead(unread, r)
    case Length =>
      if !ServerAcceptsLength(U16(view[..2]), view[2]) then AskHead(unread, r)
      else Request(unread, U16(view[..2]) + 1, Body(U16(view[3..])), r)
    case Body(topic) =>
      var n := |view| - 1;
      if !ServerAcceptsBody(topic, view[..n], view[n]) then AskHead(unread, r)
      else match Dispatch(env, r, topic, view[..n])
        case None => State(Channel(Stopped(HandlerThrew), unread), r)
        case Some(r') => AskHead(unread, r')
  }

  // ----- events

  datatype Event = Arrive(chunk: seq<byte>) | PortFails | RunHandler

  const INITIAL := AskHead([], START)

  /** A read completes with at least what is missing and at most what the buffer can take. */
  predicate Enabled(s: State, e: Event) {
    match e
    case Arrive(chunk) =>
      s.channel.cont.Waiting? && s.channel.cont.need <= |s.channel.unread| + |chunk| <= CAPACITY
    case PortFails => s.channel.cont.Waiting?
    case RunHandler => s.channel.cont.Ready? && RightSize(s.channel.cont.run, |s.channel.cont.view|)
  }

  function Step(env: Env, s: State, e: Event): State
    requires Enabled(s, e)
  {
    match e
    case Arrive(chunk) => Request(s.channel.unread + chunk, s.channel.cont.need, s.channel.cont.run, s.router)
    case PortFails => s.(channel := Channel(Stopped(PortError), s.channel.unread))
    case RunHandler => RunStage(env, s.channel.cont.run, s.channel.cont.view, s.channel.unread, s.router)
  }

  /** states[i] is the state after the first i events. */
  ghost predicate Run(env: Env, states: seq<State>, events: seq<Event>) {
    && |states| == |events| + 1
    && states[0] == INITIAL
    && forall i :: 0 <= i < |events| ==>
                     Enabled(states[i], events[i]) && states[i + 1] == Step(env, states[i], events[i])
  }

  /** All the bytes that came in during some events. */
  function Received(events: seq<Event>): seq<byte> {
    if events == [] then []
    else Received(events[..|events| - 1])
         + (if events[|events| - 1].Arrive? then events[|events| - 1].chunk else [])
  }

  // ----- agreement with the scanner

  /** The bytes of the current unit that earlier stages have taken already. */
  function Held(run: Stage, n: nat): seq<byte>
    requires RightSize(run, n)
  {
    match run
    case First => []
    case Second => [0xFF]
    case Length => [0xFF, 0xFE]
    case Body(topic) => Header(n - 1, topic)
  }

  /** The state is what the scanner makes of the whole stream: the same log and maps, and the bytes
      not decided yet are those the current unit holds plus the unread ones. */
  ghost predicate Agrees(env: Env, s: State, whole: Scanned) {
    var unread := s.channel.unread;
    match s.channel.cont
    case Waiting(run, need) =>
      && RightSize(run, need) && |unread| < need <= CAPACITY
      && whole == Scanned(s.router, Hungry, Held(run, need) + unread)
    case Ready(run, view) =>
      RightSize(run, |view|) && |view| <= CAPACITY && whole == Scan(env, s.router, Held(run, |view|) + (view + unread))
    case Stopped(PortError) => whole.router == s.router && whole.fate == Hungry
    case Stopped(RefusedRequest) => whole.router == s.router && whole.fate == Stuck
    case Stopped(HandlerThrew) => whole.router == s.router && whole.fate == Raised
  }

  /** The bytes received and not worked on yet: those a posted handler was given, then the unread ones. */
  function Kept(s: State): seq<byte> {
    if s.channel.cont.Ready? then s.channel.cont.view + s.channel.unread else s.channel.unread
  }

  /** They are the end of the stream, in order. */
  predicate InOrder(s: State, received: seq<byte>) {
    var kept := Kept(s);
    |kept| <= |received| && received[|received| - |kept|..] == kept
  }

  ghost predicate Refines(env: Env, s: State, received: seq<byte>) {
    Agrees(env, s, Scan(env, START, received)) && InOrder(s, received) && Consistent(s.router)
  }

  /** A posted handler always has a view of the size its stage expects. */
  lemma ReadyEnabled(env: Env, s: State, received: seq<byte>)
    requires Refines(env, s, received) && s.channel.cont.Ready?
    ensures Enabled(s, RunHandler) && |s.channel.cont.view| <= CAPACITY
  {
  }

  lemma AskUndecided(run: Stage, need: nat, unread: seq<byte>)
    requires RightSize(run, need) && need <= CAPACITY && |unread| < need
    ensures NextUnit(Held(run, need) + unread).More?
  {
    if run.Body? {
      HeaderVerdict(need - 1, run.topic, unread);
    }
  }

  lemma RequestAgrees(env: Env, unread: seq<byte>, need: nat, run: Stage, r: Router)
    requires RightSize(run, need)
    ensures Agrees(env, Request(unread, need, run, r), Scan(env, r, Held(run, need) + unread))
  {
    hide NextUnit, Dispatch, Header;
    if need > CAPACITY {
      HeaderVerdict(need - 1, run.topic, unread);
    } else if need > |unread| {
      AskUndecided(run, need, unread);
    } else {
      assert unread == unread[..need] + unread[need..];
    }
  }

  /** After a rejected unit the scanner and the session both look at what follows. */
  lemma HeadAgrees(env: Env, r: Router, s: seq<byte>, unread: seq<byte>)
    requires NextUnit(s).Reject? && s[NextUnit(s).size..] == unread
    ensures Agrees(env, AskHead(unread, r), Scan(env, r, s))
  {
    hide NextUnit, Dispatch;
    RequestAgrees(env, unread, 1, First, r);
    assert Held(First, 1) + unread == unread;
  }

  lemma FirstAgrees(env: Env, b: byte, unread: seq<byte>, r: Router)
    ensures Agrees(env, RunStage(env, First, [b], unread, r), Scan(env, r, [b] + unread))
  {
    var s := [b] + unread;
    if b == 0xFF {
      RequestAgrees(env, unread, 1, Second, r);
    } else {
      assert NextUnit(s) == Reject(1) && s[1..] == unread;
      HeadAgrees(env, r, s, unread);
    }
  }

  lemma PairVerdict(b: byte, unread: seq<byte>)
    requires b != 0xFE
    ensures NextUnit([0xFF] + ([b] + unread)) == if b == 0xFF then Raises else Reject(2)
  {
    hide ServerAcceptsLength, ServerAcceptsBody;
    assert ([0xFF] + ([b] + unread))[1] == b;
  }

  lemma SecondAgrees(env: Env, b: byte, unread: seq<byte>, r: Router)
    ensures Agrees(env, RunStage(env, Second, [b], unread, r), Scan(env, r, [0xFF] + ([b] + unread)))
  {
    hide NextUnit, Dispatch;
    var s := [0xFF] + ([b] + unread);
    if b == 0xFE {
      RequestAgrees(env, unread, 5, Length, r);
      assert s == Held(Length, 5) + unread;
    } else {
      PairVerdict(b, unread);
      if b != 0xFF {
        assert s[2..] == unread;
        HeadAgrees(env, r, s, unread);
      }
    }
  }

  lemma BadLengthVerdict(view: seq<byte>, unread: seq<byte>)
    requires |view| == 5 && !ServerAcceptsLength(U16(view[..2]), view[2])
    ensures NextUnit([0xFF, 0xFE] + (view + unread)) == Reject(7)
  {
    hide ServerAcceptsLength, ServerAcceptsBody;
    var s := [0xFF, 0xFE] + (view + unread);
    assert s[2..4] == view[..2] && s[4] == view[2];
  }

  lemma LengthAgrees(env: Env, view: seq<byte>, unread: seq<byte>, r: Router)
    requires |view| == 5
    ensures Agrees(env, RunStage(env, Length, view, unread, r), Scan(env, r, [0xFF, 0xFE] + (view + unread)))
  {
    hide NextUnit, Dispatch, ServerAcceptsLength;
    var h := [0xFF, 0xFE] + view;
    var s := [0xFF, 0xFE] + (view + unread);
    assert s == h + unread;
    if ServerAcceptsLength(U16(view[..2]), view[2]) {
      assert h[2..4] == view[..2] && h[5..7] == view[3..];
      HeaderFromParts(h);
      RequestAgrees(env, unread, U16(view[..2]) + 1, Body(U16(view[3..])), r);
    } else {
      BadLengthVerdict(view, unread);
      assert s[7..] == unread;
      HeadAgrees(env, r, s, unread);
    }
  }

  lemma BodyAgrees(env: Env, topic: u16, view: seq<byte>, unread: seq<byte>, r: Router)
    requires 1 <= |view| <= CAPACITY
    ensures Agrees(env, RunStage(env, Body(topic), view, unread, r),
                   Scan(env, r, Header(|view| - 1, topic) + (view + unread)))
  {
    hide NextUnit, Dispatch, Header;
    var n := |view| - 1;
    var s := Header(n, topic) + (view + unread);
    HeaderVerdict(n, topic, view + unread);
    assert (view + unread)[..n] == view[..n] && (view + unread)[n] == view[n];
    assert s[OVERHEAD + n..] == unread;
    if !ServerAcceptsBody(topic, view[..n], view[n]) {
      HeadAgrees(env, r, s, unread);
    } else if Dispatch(env, r, topic, view[..n]).Some? {
      var r' := Dispatch(env, r, topic, view[..n]).value;
      RequestAgrees(env, unread, 1, First, r');
      assert Held(First, 1) + unread == unread;
    }
  }

  lemma HandlerAgrees(env: Env, run: Stage, view: seq<byte>, unread: seq<byte>, r: Router)
    requires RightSize(run, |view|) && |view| <= CAPACITY
    ensures Agrees(env, RunStage(env, run, view, unread, r), Scan(env, r, Held(run, |view|) + (view + unread)))
  {
    hide NextUnit, Dispatch, Header, RunStage, Agrees;
    match run
    case First => assert view == [view[0]]; FirstAgrees(env, view[0], unread, r);
                  assert Held(run, 1) + (view + unread) == view + unread;
    case Second => assert view == [view[0]]; SecondAgrees(env, view[0], unread, r);
    case Length => LengthAgrees(env, view, unread, r);
    case Body(topic) => BodyAgrees(env, topic, view, unread, r);
  }

  // ----- every run

  lemma RequestKeeps(unread: seq<byte>, need: nat, run: Stage, r: Router)
    ensures Kept(Request(unread, need, run, r)) == unread && Request(unread, need, run, r).router == r
  {
    if need <= |unread| {
      assert unread[..need] + unread[need..] == unread;
    }
  }

  lemma ArriveRefines(env: Env, s: State, chunk: seq<byte>, received: seq<byte>)
    requires Refines(env, s, received) && Enabled(s, Arrive(chunk))
    ensures Refines(env, Step(env, s, Arrive(chunk)), received + chunk)
  {
    hide Scan, Held, Consistent;
    var run, need, unread := s.channel.cont.run, s.channel.cont.need, s.channel.unread;
    ScanExtend(env, START, received, chunk);
    assert Held(run, need) + unread + chunk == Held(run, need) + (unread + chunk);
    RequestAgrees(env, unread + chunk, need, run, s.router);
    RequestKeeps(unread + chunk, need, run, s.router);
  }

  /** A handler uses up its view and nothing else, and keeps the maps in step with the log. */
  lemma HandlerKeeps(env: Env, run: Stage, view: seq<byte>, unread: seq<byte>, r: Router)
    requires RightSize(run, |view|) && Consistent(r)
    ensures Kept(RunStage(env, run, view, unread, r)) == unread
    ensures Consistent(RunStage(env, run, view, unread, r).router)
  {
    hide Dispatch, Consistent, Request, ServerAcceptsBody;
    forall need, next, r' {
      RequestKeeps(unread, need, next, r');
    }
    if run.Body? && Dispatch(env, r, run.topic, view[..|view| - 1]).Some? {
      DispatchConsistent(env, r, run.topic, view[..|view| - 1]);
    }
  }

  /** Every handler run leaves fewer bytes to work on, so a posted handler leads, after at most as many
      runs as there are bytes, to a read in flight or to an end. */
  lemma HandlerShrinks(env: Env, s: State, received: seq<byte>)
    requires Refines(env, s, received) && s.channel.cont.Ready?
    ensures Enabled(s, RunHandler) && |Kept(Step(env, s, RunHandler))| < |Kept(s)|
  {
    hide RunStage, Scan, Consistent;
    ReadyEnabled(env, s, received);
    HandlerKeeps(env, s.channel.cont.run, s.channel.cont.view, s.channel.unread, s.router);
  }

  lemma HandlerOrder(env: Env, s: State, received: seq<byte>)
    requires InOrder(s, received) && Enabled(s, RunHandler) && Consistent(s.router)
    ensures InOrder(Step(env, s, RunHandler), received) && Consistent(Step(env, s, RunHandler).router)
  {
    hide RunStage, Consistent;
    var view, unread := s.channel.cont.view, s.channel.unread;
    HandlerKeeps(env, s.channel.cont.run, view, unread, s.router);
    assert received[|received| - |unread|..] == received[|received| - |view + unread|..][|view|..];
  }

  /** Each event keeps the session in agreement with the scanner on all that was received. */
  lemma StepRefines(env: Env, s: State, e: Event, received: seq<byte>)
    requires Refines(env, s, received) && Enabled(s, e)
    ensures Refines(env, Step(env, s, e), received + if e.Arrive? then e.chunk else [])
  {
    hide Scan, Dispatch, Consistent, RunStage;
    match e
    case Arrive(chunk) => ArriveRefines(env, s, chunk, received);
    case PortFails => assert received + [] == received;
    case RunHandler =>
      assert received + [] == received;
      HandlerOrder(env, s, received);
      HandlerAgrees(env, s.channel.cont.run, s.channel.cont.view, s.channel.unread, s.router);
  }

  lemma InitialRefines(env: Env)
    ensures Refines(env, INITIAL, [])
  {
    StartConsistent();
    RequestAgrees(env, [], 1, First, START);
    assert Held(First, 1) + [] == [];
  }

  /** Whatever the transfer sizes and the interleaving, every state of every run agrees with one scan
      of the unchunked stream. */
  lemma {:induction false} RunRefines(env: Env, states: seq<State>, events: seq<Event>)
    requires Run(env, states, events)
    ensures Refines(env, states[|events|], Received(events))
    decreases |events|
  {
    hide Scan, Dispatch, Consistent, Step;
    var n := |events|;
    if n == 0 {
      InitialRefines(env);
    } else {
      RunRefines(env, states[..n], events[..n - 1]);
      StepRefines(env, states[n - 1], events[n - 1], Received(events[..n - 1]));
    }
  }

  /** The undecided bytes tell at which stage the session waits. */
  lemma HeldDetermines(run: Stage, n: nat, u: seq<byte>, run': Stage, n': nat, u': seq<byte>)
    requires RightSize(run, n) && RightSize(run', n') && |u| < n && |u'| < n'
    requires Held(run, n) + u == Held(run', n') + u'
    ensures run == run' && n == n' && u == u'
  {
    var h, h' := Held(run, n), Held(run', n');
    assert |h| == |h'|;
    assert h == (h + u)[..|h|] == h' && u == (h + u)[|h|..] == u';
    if run.Body? {
      U16Inverse(n - 1);
      U16Inverse(n' - 1);
      U16Inverse(run.topic);
      U16Inverse(run'.topic);
      assert h[2..4] == Le16(n - 1) && h'[2..4] == Le16(n' - 1);
      assert h[5..7] == Le16(run.topic) && h'[5..7] == Le16(run'.topic);
    }
  }

  /** Two runs that received the same bytes and both wait for more are in the same state, however
      the bytes were cut. */
  lemma ChunkingIrrelevant(env: Env, s: seq<State>, es: seq<Event>, t: seq<State>, fs: seq<Event>)
    requires Run(env, s, es) && Run(env, t, fs) && Received(es) == Received(fs)
    requires s[|es|].channel.cont.Waiting? && t[|fs|].channel.cont.Waiting?
    ensures s[|es|] == t[|fs|]
  {
    hide Scan, Consistent, Received;
    RunRefines(env, s, es);
    RunRefines(env, t, fs);
    var a, b := s[|es|].channel, t[|fs|].channel;
    HeldDetermines(a.cont.run, a.cont.need, a.unread, b.cont.run, b.cont.need, b.unread);
  }

  /** A session that has stopped stays as it is: no event can happen any more. */
  lemma StoppedIsLast(env: Env, states: seq<State>, events: seq<Event>, i: nat)
    requires Run(env, states, events) && i <= |events| && states[i].channel.cont.Stopped?
    ensures i == |events|
  {
    assert forall j :: 0 <= j < |events| ==> Enabled(states[j], events[j]) && !states[j].channel.cont.Stopped?;
  }

  /** After a port error nothing is read and nothing is dispatched any more; the bytes already there
      stay where they are. */
  lemma PortErrorEnds(env: Env, states: seq<State>, events: seq<Event>, i: nat)
    requires Run(env, states, events) && i < |events| && events[i].PortFails?
    ensures i + 1 == |events|
    ensures states[i + 1] == State(Channel(Stopped(PortError), states[i].channel.unread), states[i].router)
  {
    hide RunStage, Request;
    StoppedIsLast(env, states, events, i + 1);
  }
}
