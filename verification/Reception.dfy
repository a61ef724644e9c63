/** What becomes of a list of messages: which get through, and when a handler throws on the way. */
module Reception {
  import opened Bytes
  import opened Outcomes
  import opened SerialStream
  import opened Introspection
  import opened Codec
  import opened Frame
  import opened Routing
  import opened Scanner

  /** The messages that get through: those without a carry, up to the first that does not fit. */
  function Accepted(ms: seq<Message>): (got: seq<Message>)
    ensures |got| <= |ms|
  {
    if ms == [] || !FitsBuffer(ms[0]) then []
    else (if NoCarry(ms[0].topic, ms[0].payload) then [ms[0]] else []) + Accepted(ms[1..])
  }

  /** The frames of a log. */
  function Dispatched(log: seq<Entry>): seq<Message> {
    if log == [] then []
    else Dispatched(log[..|log| - 1]) + [Message(log[|log| - 1].topic, log[|log| - 1].payload)]
  }

  lemma NothingDispatched()
    ensures Dispatched([]) == []
  {
  }

  lemma {:induction false} DispatchedAt(log: seq<Entry>, i: nat)
    requires i < |log|
    ensures |Dispatched(log)| == |log| && Dispatched(log)[i] == Message(log[i].topic, log[i].payload)
    decreases |log|
  {
    var n := |log|;
    if n == 1 {
    } else if i == n - 1 {
      DispatchedAt(log[..n - 1], 0);
    } else {
      DispatchedAt(log[..n - 1], i);
    }
  }

  lemma {:induction false} DispatchedPrefix(a: seq<Entry>, b: seq<Entry>)
    requires a <= b
    ensures Dispatched(a) <= Dispatched(b)
    decreases |b|
  {
    if a == b {
    } else {
      DispatchedPrefix(a, b[..|b| - 1]);
    }
  }

  lemma DispatchLogs(env: Env, r: Router, m: Message)
    requires Consistent(r) && Dispatch(env, r, m.topic, m.payload).Some?
    ensures var r' := Dispatch(env, r, m.topic, m.payload).value;
            Consistent(r') && |r'.log| == |r.log| + 1 && Dispatched(r'.log) == Dispatched(r.log) + [m]
  {
    hide Consistent, Dispatch;
    DispatchConsistent(env, r, m.topic, m.payload);
  }

  /** The frames dispatched are the messages that get through: all of them if no handler throws, the
      first ones otherwise. */
  lemma {:induction false} DeliverAccepts(env: Env, r: Router, ms: seq<Message>)
    requires Consistent(r)
    ensures var d := Deliver(env, r, ms);
            && Dispatched(d.router.log) <= Dispatched(r.log) + Accepted(ms)
            && (!d.fate.Raised? ==> Dispatched(d.router.log) == Dispatched(r.log) + Accepted(ms))
            && (d.fate.Stuck? ==> exists i :: 0 <= i < |ms| && !FitsBuffer(ms[i]))
            && (d.fate.Hungry? ==> forall i :: 0 <= i < |ms| ==> FitsBuffer(ms[i]))
    decreases |ms|
  {
    hide Consistent, Dispatch, NoCarry, FitsBuffer, Dispatched;
    if ms == [] || !FitsBuffer(ms[0]) {
    } else if !NoCarry(ms[0].topic, ms[0].payload) {
      DeliverAccepts(env, r, ms[1..]);
      assert [] + Accepted(ms[1..]) == Accepted(ms[1..]);
    } else if Dispatch(env, r, ms[0].topic, ms[0].payload).Some? {
      DispatchLogs(env, r, ms[0]);
      DeliverAccepts(env, Dispatch(env, r, ms[0].topic, ms[0].payload).value, ms[1..]);
      assert Dispatched(r.log) + [ms[0]] + Accepted(ms[1..]) == Dispatched(r.log) + ([ms[0]] + Accepted(ms[1..]));
    }
  }

  ghost predicate AllAcceptable(ms: seq<Message>) {
    forall i :: 0 <= i < |ms| ==> Acceptable(ms[i])
  }

  /** Nothing is lost if and only if every message fits the buffer and does not carry. */
  lemma {:induction false} AllAccepted(ms: seq<Message>)
    ensures Accepted(ms) == ms <==> AllAcceptable(ms)
    decreases |ms|
  {
    hide NoCarry;
    if ms == [] {
    } else if Acceptable(ms[0]) {
      AllAccepted(ms[1..]);
      assert ms == [ms[0]] + ms[1..];
      assert Accepted(ms)[1..] == Accepted(ms[1..]);
      if AllAcceptable(ms[1..]) {
        forall i | 0 <= i < |ms| ensures Acceptable(ms[i]) {
          assert i > 0 ==> ms[i] == ms[1..][i - 1];
        }
      }
      if AllAcceptable(ms) {
        forall i | 0 <= i < |ms| - 1 ensures Acceptable(ms[1..][i]) {
          assert ms[1..][i] == ms[i + 1];
        }
      }
    } else {
      assert |Accepted(ms)| < |ms|;
    }
  }

  // ----- when a handler throws

  type Publishers = map<u16, Endpoint>

  /** The handler of a message ends with an exception when n frames were dispatched before it.  Reading
      the payload throws, by the type of its topic's publisher or as a registration, or the ROS side
      does. */
  predicate Breaks(env: Env, n: nat, pubs: Publishers, m: Message) {
    if m.topic in pubs then
      var read := Reading(pubs[m.topic], m.payload);
      read.Threw? || env.publishThrows(n, pubs[m.topic], read)
    else if m.topic == ID_PUBLISHER || m.topic == ID_SUBSCRIBER then
      match ParseTopicInfo(m.payload)
      case Done(info, _) =>
        if m.topic == ID_PUBLISHER then env.publisherThrows(n, info) else env.subscriberThrows(n, info)
      case Refused => false
      case _ => true
    else false
  }

  /** The publishers after a message, when n frames were dispatched before it. */
  function Registered(env: Env, n: nat, pubs: Publishers, m: Message): Publishers {
    var parsed := ParseTopicInfo(m.payload);
    if m.topic == ID_PUBLISHER && m.topic !in pubs && parsed.Done?
    then pubs[parsed.value.topicId := Endpoint(parsed.value, n, env.loads(n, parsed.value))] else pubs
  }

  /** No message that gets through breaks its handler.  This looks at the messages, at the types of the
      topics they register and at the answers of the ROS side, and runs no byte of the protocol. */
  predicate Survives(env: Env, n: nat, pubs: Publishers, ms: seq<Message>)
    decreases |ms|
  {
    if ms == [] || !FitsBuffer(ms[0]) then true
    else if !NoCarry(ms[0].topic, ms[0].payload) then Survives(env, n, pubs, ms[1..])
    else !Breaks(env, n, pubs, ms[0]) && Survives(env, n + 1, Registered(env, n, pubs, ms[0]), ms[1..])
  }

  lemma DispatchBreaks(env: Env, r: Router, m: Message)
    requires Consistent(r)
    ensures Dispatch(env, r, m.topic, m.payload) == None <==> Breaks(env, |r.log|, r.publishers, m)
  {
    hide ParseTopicInfo, Consistent, Dispatch, Reading;
    DispatchThrowsExact(env, r, m.topic, m.payload);
    ParseTopicInfoRefused(m.payload);
  }

  lemma DispatchRegisters(env: Env, r: Router, m: Message)
    requires Consistent(r) && Dispatch(env, r, m.topic, m.payload).Some?
    ensures Dispatch(env, r, m.topic, m.payload).value.publishers == Registered(env, |r.log|, r.publishers, m)
  {
    hide ParseTopicInfo, Explained, Reading;
    assert m.topic in r.callbacks <==> m.topic in r.publishers || m.topic == ID_PUBLISHER || m.topic == ID_SUBSCRIBER;
  }

  /** The session ends with an exception exactly when a message that gets through breaks its handler. */
  lemma {:induction false} DeliverSurvives(env: Env, r: Router, ms: seq<Message>)
    requires Consistent(r)
    ensures !Deliver(env, r, ms).fate.Raised? <==> Survives(env, |r.log|, r.publishers, ms)
    decreases |ms|
  {
    hide Consistent, Dispatch, NoCarry, FitsBuffer, Breaks, Registered;
    if ms == [] || !FitsBuffer(ms[0]) {
    } else if !NoCarry(ms[0].topic, ms[0].payload) {
      DeliverSurvives(env, r, ms[1..]);
    } else {
      DispatchBreaks(env, r, ms[0]);
      if Dispatch(env, r, ms[0].topic, ms[0].payload).Some? {
        DispatchRegisters(env, r, ms[0]);
        DispatchLogs(env, r, ms[0]);
        DeliverSurvives(env, Dispatch(env, r, ms[0].topic, ms[0].payload).value, ms[1..]);
      }
    }
  }

  /** Everything is dispatched and the server waits for more, if and only if every message is acceptable
      and none breaks its handler. */
  lemma NothingLostExact(env: Env, ms: seq<Message>)
    ensures var d := Deliver(env, START, ms);
            d.fate.Hungry? && Dispatched(d.router.log) == ms <==> AllAcceptable(ms) && Survives(env, 0, map[], ms)
  {
    hide Deliver, Survives, Accepted, NoCarry, Consistent;
    StartConsistent();
    DeliverAccepts(env, START, ms);
    DeliverSurvives(env, START, ms);
    AllAccepted(ms);
    assert Dispatched(START.log) + Accepted(ms) == Accepted(ms);
    assert START.publishers == map[];
  }

  /** One payload that cannot be read ends the session: a registration that creates a publisher, then a
      frame for it whose reading throws. */
  lemma BrokenPayloadRaises(env: Env, info: TopicInfo, payload: seq<byte>)
    requires WithinLimits(info)
    requires Acceptable(Message(ID_PUBLISHER, Layout(info))) && Acceptable(Message(info.topicId, payload))
    requires Reading(Endpoint(info, 0, env.loads(0, info)), payload).Threw?
    ensures var ms := [Message(ID_PUBLISHER, Layout(info)), Message(info.topicId, payload)];
            AllAcceptable(ms) && !Survives(env, 0, map[], ms) && Deliver(env, START, ms).fate.Raised?
  {
    hide ParseTopicInfo, Layout, WithinLimits, Reading, FitsBuffer, NoCarry, Deliver, Consistent;
    var ms := [Message(ID_PUBLISHER, Layout(info)), Message(info.topicId, payload)];
    ParseTopicInfoExact(Layout(info), info, []);
    assert Layout(info) + [] == Layout(info);
    StartConsistent();
    DeliverSurvives(env, START, ms);
    assert ms[1..] == [ms[1]];
  }

  const EMPTY_TEXT: seq<byte> := [0, 0, 0, 0]

  lemma EmptyTextAcceptable(topic: u16)
    ensures Acceptable(Message(topic, EMPTY_TEXT))
  {
    var s: seq<byte> := EMPTY_TEXT;
    assert s[..3][..2] == s[..2] && s[..2][..1] == s[..1] && s[..1][..0] == [];
    assert Sum(s) == Sum(s[..1]) == Sum(s[..1][..0]);
  }

  lemma EmptyTextThrows(ms: seq<Member>)
    requires ms != [] && ms[0].kind.Text? && !ms[0].isArray
    ensures DecodeAll(ms, EMPTY_TEXT).Threw?
  {
    assert U32(EMPTY_TEXT) == 0;
    assert TakePrefixed(EMPTY_TEXT).Threw?;
    assert DecodeMember(ms[0], EMPTY_TEXT).Threw?;
  }

  /** So does an empty string sent to a publisher whose type begins with a string, although both frames
      pass every check. */
  lemma EmptyTextRaises(env: Env, info: TopicInfo, d: MessageType)
    requires WithinLimits(info) && Acceptable(Message(ID_PUBLISHER, Layout(info)))
    requires env.loads(0, info) == Some(d) && d.members != [] && d.members[0].kind.Text? && !d.members[0].isArray
    ensures var ms := [Message(ID_PUBLISHER, Layout(info)), Message(info.topicId, EMPTY_TEXT)];
            AllAcceptable(ms) && Deliver(env, START, ms).fate.Raised?
  {
    hide Layout, WithinLimits, Deliver, DecodeAll, Acceptable, Survives;
    EmptyTextAcceptable(info.topicId);
    EmptyTextThrows(d.members);
    BrokenPayloadRaises(env, info, EMPTY_TEXT);
  }

  // ----- values of the types that the topics are registered with

  /** A payload is the encoding of a value that can be read back. */
  ghost predicate Carries(d: MessageType, payload: seq<byte>, vs: seq<Value>) {
    && TypedAll(d.members, vs) && ReadableAll(d.members) && GoodStringsAll(d.members, vs)
    && payload == EncodeAll(d.members, vs).bytes
  }

  lemma CarriedIsRead(p: Endpoint, payload: seq<byte>, vs: seq<Value>)
    requires p.members.Some? && Carries(p.members.value, payload, vs)
    ensures Reading(p, payload) == Done(vs, [])
  {
    hide EncodeAll, DecodeAll, TypedAll, ReadableAll, GoodStringsAll, WellFormedAll, Fits, Separate;
    RoundTripExact(p.members.value.members, vs, []);
    assert payload + [] == payload;
  }

  /** To a topic with a publisher goes a value of its type, to a built-in handler a registration that
      parses or is refused for its lengths, and to other topics anything. */
  ghost predicate Good(pubs: Publishers, m: Message) {
    if m.topic in pubs then
      pubs[m.topic].members.Some? && exists vs :: Carries(pubs[m.topic].members.value, m.payload, vs)
    else
      m.topic == ID_PUBLISHER || m.topic == ID_SUBSCRIBER ==>
        ParseTopicInfo(m.payload).Done? || ParseTopicInfo(m.payload).Refused?
  }

  /** Every message that gets through is a good one when its turn comes. */
  ghost predicate GoodTraffic(env: Env, n: nat, pubs: Publishers, ms: seq<Message>)
    decreases |ms|
  {
    if ms == [] || !FitsBuffer(ms[0]) then true
    else if !NoCarry(ms[0].topic, ms[0].payload) then GoodTraffic(env, n, pubs, ms[1..])
    else Good(pubs, ms[0]) && GoodTraffic(env, n + 1, Registered(env, n, pubs, ms[0]), ms[1..])
  }

  /** No constructor of the ROS side and nothing that is called to publish ever throws.  What reading a
      payload does is not assumed. */
  ghost predicate QuietRos(env: Env) {
    && (forall n, info :: !env.publisherThrows(n, info))
    && (forall n, info :: !env.subscriberThrows(n, info))
    && (forall n, p, read :: !env.publishThrows(n, p, read))
  }

  lemma GoodNeverBreaks(env: Env, n: nat, pubs: Publishers, m: Message)
    requires QuietRos(env) && Good(pubs, m)
    ensures !Breaks(env, n, pubs, m)
  {
    hide Carries, Reading, ParseTopicInfo;
    if m.topic in pubs {
      var vs :| Carries(pubs[m.topic].members.value, m.payload, vs);
      CarriedIsRead(pubs[m.topic], m.payload, vs);
    }
  }

  lemma {:induction false} GoodTrafficSurvives(env: Env, n: nat, pubs: Publishers, ms: seq<Message>)
    requires QuietRos(env) && GoodTraffic(env, n, pubs, ms)
    ensures Survives(env, n, pubs, ms)
    decreases |ms|
  {
    hide QuietRos, Good, Breaks, Registered, NoCarry, FitsBuffer;
    if ms == [] || !FitsBuffer(ms[0]) {
    } else if !NoCarry(ms[0].topic, ms[0].payload) {
      GoodTrafficSurvives(env, n, pubs, ms[1..]);
    } else {
      GoodNeverBreaks(env, n, pubs, ms[0]);
      GoodTrafficSurvives(env, n + 1, Registered(env, n, pubs, ms[0]), ms[1..]);
    }
  }

  /** A frame that went to a publisher was read as the value it carries, to the last byte. */
  ghost predicate ReadBack(e: Entry) {
    e.effect.Published? ==>
      && e.effect.publisher.members.Some?
      && exists vs :: Carries(e.effect.publisher.members.value, e.payload, vs) && e.effect.read == Done(vs, [])
  }

  ghost predicate AllReadBack(log: seq<Entry>) {
    forall i :: 0 <= i < |log| ==> ReadBack(log[i])
  }

  lemma EntryReadBack(p: Endpoint, e: Entry)
    requires e.effect == Published(p, Reading(p, e.payload)) && p.members.Some?
    requires exists vs :: Carries(p.members.value, e.payload, vs)
    ensures ReadBack(e)
  {
    hide Carries, Reading;
    var vs :| Carries(p.members.value, e.payload, vs);
    CarriedIsRead(p, e.payload, vs);
  }

  lemma NotPublished(e: Entry)
    requires !e.effect.Published?
    ensures ReadBack(e)
  {
  }

  lemma DispatchReadsBack(env: Env, r: Router, m: Message)
    requires Consistent(r) && Good(r.publishers, m) && AllReadBack(r.log)
    requires Dispatch(env, r, m.topic, m.payload).Some?
    ensures AllReadBack(Dispatch(env, r, m.topic, m.payload).value.log)
  {
    hide Carries, Reading, ParseTopicInfo, Explained, ReadBack, Dispatch;
    var e := DispatchExplained(env, r, m.topic, m.payload);
    if m.topic in r.publishers {
      EntryReadBack(r.publishers[m.topic], e);
    } else {
      NotPublished(e);
    }
  }

  /** Good traffic is read as the values it carries, in full. */
  lemma {:induction false} DeliverReadsBack(env: Env, r: Router, ms: seq<Message>)
    requires Consistent(r) && AllReadBack(r.log) && GoodTraffic(env, |r.log|, r.publishers, ms)
    ensures AllReadBack(Deliver(env, r, ms).router.log)
    decreases |ms|
  {
    hide Consistent, Dispatch, NoCarry, FitsBuffer, Good, Registered, AllReadBack, Dispatched;
    if ms == [] || !FitsBuffer(ms[0]) {
    } else if !NoCarry(ms[0].topic, ms[0].payload) {
      DeliverReadsBack(env, r, ms[1..]);
    } else if Dispatch(env, r, ms[0].topic, ms[0].payload).Some? {
      DispatchRegisters(env, r, ms[0]);
      DispatchLogs(env, r, ms[0]);
      DispatchReadsBack(env, r, ms[0]);
      DeliverReadsBack(env, Dispatch(env, r, ms[0].topic, ms[0].payload).value, ms[1..]);
    }
  }
}
