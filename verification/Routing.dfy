/** Topic registration and routing: the three maps of the session, and what they mean in terms
    of the frames dispatched so far. */
module Routing {
  import opened Bytes
  import opened Outcomes
  import opened SerialStream
  import opened Introspection
  import opened Codec

  const ID_PUBLISHER: u16 := 0
  const ID_SUBSCRIBER: u16 := 1

  /** A publisher or subscriber object; born tells objects with equal TopicInfo apart, members is the
      description of the message type, None if it could not be loaded. */
  datatype Endpoint = Endpoint(info: TopicInfo, born: nat, members: Option<MessageType>)

  /** What a callback in the map is bound to. */
  datatype Handler = CreatePublisher | CreateSubscriber | Handle(publisher: Endpoint)

  datatype Effect =
    | MadePublisher(publisher: Endpoint)
    | MadeSubscriber(subscriber: Endpoint)
    | RefusedRegistration
    | Published(publisher: Endpoint, read: Outcome<seq<Value>>)
    | Ignored

  /** One dispatched frame and what came of it. */
  datatype Entry = Entry(topic: u16, payload: seq<byte>, effect: Effect)

  datatype Router = Router(
    callbacks: map<u16, Handler>, publishers: map<u16, Endpoint>, subscribers: map<u16, Endpoint>, log: seq<Entry>)

  /** The ROS side: which calls into it end with an exception, and what type support is loaded for an
      endpoint.  The first argument is the number of frames dispatched before: no two calls share it, so
      each call has its own answer. */
  datatype Env = Env(
    publisherThrows: (nat, TopicInfo) -> bool,
    subscriberThrows: (nat, TopicInfo) -> bool,
    loads: (nat, TopicInfo) -> Option<MessageType>,
    publishThrows: (nat, Endpoint, Outcome<seq<Value>>) -> bool)

  const START := Router(map[ID_PUBLISHER := CreatePublisher, ID_SUBSCRIBER := CreateSubscriber], map[], map[], [])

  function Logged(r: Router, topic: u16, payload: seq<byte>, effect: Effect): Router {
    r.(log := r.log + [Entry(topic, payload, effect)])
  }

  /** create_publisher and create_subscriber on a registration that parsed as given. */
  function Register(env: Env, r: Router, topic: u16, payload: seq<byte>, kind: Handler, parsed: Outcome<TopicInfo>)
    : Option<Router>
    requires !kind.Handle?
  {
    match parsed
    case Done(info, _) =>
      var made := Endpoint(info, |r.log|, env.loads(|r.log|, info));
      if kind.CreatePublisher? then
        if env.publisherThrows(|r.log|, info) then None
        else Some(Logged(r.(publishers := r.publishers[info.topicId := made],
                            callbacks := r.callbacks[info.topicId := Handle(made)]),
                         topic, payload, MadePublisher(made)))
      else
        if env.subscriberThrows(|r.log|, info) then None
        else Some(Logged(r.(subscribers := r.subscribers[info.topicId := made]), topic, payload, MadeSubscriber(made)))
    case Refused => Some(Logged(r, topic, payload, RefusedRegistration))
    case _ => None
  }

  /** What a publisher makes of a payload.  Without a type it looks at a pointer that was never set. */
  function Reading(p: Endpoint, payload: seq<byte>): Outcome<seq<Value>> {
    match p.members
    case None => Unspecified
    case Some(d) => DecodeAll(d.members, payload)
  }

  /** handle: read the payload and publish what was read, also after a refusal; None when an exception
      leaves it, of the reading or of the ROS side. */
  function Handled(env: Env, n: nat, p: Endpoint, payload: seq<byte>): Option<Outcome<seq<Value>>> {
    var read := Reading(p, payload);
    if read.Threw? || env.publishThrows(n, p, read) then None else Some(read)
  }

  /** Call the callback of a topic; None when an exception leaves it. */
  function Dispatch(env: Env, r: Router, topic: u16, payload: seq<byte>): Option<Router> {
    if topic !in r.callbacks then Some(Logged(r, topic, payload, Ignored))
    else match r.callbacks[topic]
      case Handle(p) =>
        match Handled(env, |r.log|, p, payload) {
          case None => None
          case Some(read) => Some(Logged(r, topic, payload, Published(p, read)))
        }
      case kind => Register(env, r, topic, payload, kind, ParseTopicInfo(payload))
  }

  // ----- the meaning of the maps, from the history alone

  /** The publisher of the latest successful publisher registration for an id. */
  function LatestPublisher(log: seq<Entry>, id: u16): Option<Endpoint> {
    if log == [] then None
    else match log[|log| - 1].effect
      case MadePublisher(p) => if p.info.topicId == id then Some(p) else LatestPublisher(log[..|log| - 1], id)
      case _ => LatestPublisher(log[..|log| - 1], id)
  }

  function LatestSubscriber(log: seq<Entry>, id: u16): Option<Endpoint> {
    if log == [] then None
    else match log[|log| - 1].effect
      case MadeSubscriber(s) => if s.info.topicId == id then Some(s) else LatestSubscriber(log[..|log| - 1], id)
      case _ => LatestSubscriber(log[..|log| - 1], id)
  }

  /** What a registration that parsed as given must have come to. */
  predicate RegistrationExplains(before: seq<Entry>, e: Entry, parsed: Outcome<TopicInfo>) {
    match parsed
    case Done(info, _) =>
      if e.topic == ID_PUBLISHER then
        e.effect.MadePublisher? && e.effect.publisher.info == info && e.effect.publisher.born == |before|
      else
        e.effect.MadeSubscriber? && e.effect.subscriber.info == info && e.effect.subscriber.born == |before|
    case Refused => e.effect == RefusedRegistration
    case _ => false
  }

  /** What a frame that arrives after a history must have come to, if its handler returned. */
  predicate Explains(before: seq<Entry>, e: Entry) {
    match LatestPublisher(before, e.topic)
    case Some(p) => e.effect == Published(p, Reading(p, e.payload)) && !Reading(p, e.payload).Threw?
    case None =>
      if e.topic == ID_PUBLISHER || e.topic == ID_SUBSCRIBER then
        RegistrationExplains(before, e, ParseTopicInfo(e.payload))
      else e.effect == Ignored
  }

  ghost predicate Explained(log: seq<Entry>) {
    forall k :: 0 <= k < |log| ==> Explains(log[..k], log[k])
  }

  /** The maps hold the latest registrations, and ids 0 and 1 keep the built-in handlers unless a
      publisher was registered over them. */
  ghost predicate MapsMatch(r: Router) {
    && (forall id: u16 :: LatestPublisher(r.log, id) == if id in r.publishers then Some(r.publishers[id]) else None)
    && (forall id: u16 :: LatestSubscriber(r.log, id) == if id in r.subscribers then Some(r.subscribers[id]) else None)
    && r.callbacks == START.callbacks + (map id | id in r.publishers :: Handle(r.publishers[id]))
  }

  /** Maps and log together: every entry of the log follows from those before it. */
  ghost predicate Consistent(r: Router) {
    MapsMatch(r) && Explained(r.log)
  }

  lemma StartConsistent()
    ensures Consistent(START)
  {
  }

  lemma LatestAfter(log: seq<Entry>, e: Entry, id: u16)
    ensures LatestPublisher(log + [e], id)
         == if e.effect.MadePublisher? && e.effect.publisher.info.topicId == id then Some(e.effect.publisher)
            else LatestPublisher(log, id)
    ensures LatestSubscriber(log + [e], id)
         == if e.effect.MadeSubscriber? && e.effect.subscriber.info.topicId == id then Some(e.effect.subscriber)
            else LatestSubscriber(log, id)
  {
    assert (log + [e])[..|log|] == log;
  }

  lemma ExplainedAfter(log: seq<Entry>, e: Entry)
    requires Explained(log) && Explains(log, e)
    ensures Explained(log + [e])
  {
    var log' := log + [e];
    forall k | 0 <= k < |log'| ensures Explains(log'[..k], log'[k]) {
      assert log'[..k] == log[..k];
    }
  }

  /** Bookkeeping common to all the ways a dispatch can return: one new entry, whose effect is the
      only one that touches the maps. */
  predicate Advances(r: Router, r': Router, e: Entry) {
    && r'.log == r.log + [e]
    && match e.effect
       case MadePublisher(p) =>
         && r'.publishers == r.publishers[p.info.topicId := p] && r'.subscribers == r.subscribers
         && r'.callbacks == r.callbacks[p.info.topicId := Handle(p)]
       case MadeSubscriber(s) =>
         && r'.subscribers == r.subscribers[s.info.topicId := s] && r'.publishers == r.publishers
         && r'.callbacks == r.callbacks
       case _ => r' == r.(log := r'.log)
  }

  lemma RegisterAdvances(env: Env, r: Router, topic: u16, payload: seq<byte>, kind: Handler, parsed: Outcome<TopicInfo>)
    returns (e: Entry)
    requires !kind.Handle? && Register(env, r, topic, payload, kind, parsed).Some?
    requires topic == if kind.CreatePublisher? then ID_PUBLISHER else ID_SUBSCRIBER
    ensures Advances(r, Register(env, r, topic, payload, kind, parsed).value, e)
    ensures e.topic == topic && e.payload == payload && RegistrationExplains(r.log, e, parsed)
  {
    e := Register(env, r, topic, payload, kind, parsed).value.log[|r.log|];
  }

  /** The entry that Dispatch logs is the one the history calls for. */
  lemma DispatchExplained(env: Env, r: Router, topic: u16, payload: seq<byte>) returns (e: Entry)
    requires Consistent(r) && Dispatch(env, r, topic, payload).Some?
    ensures Advances(r, Dispatch(env, r, topic, payload).value, e)
    ensures e.topic == topic && e.payload == payload && Explains(r.log, e)
  {
    assert LatestPublisher(r.log, topic) == if topic in r.publishers then Some(r.publishers[topic]) else None;
    if topic in r.callbacks && !r.callbacks[topic].Handle? {
      e := RegisterAdvances(env, r, topic, payload, r.callbacks[topic], ParseTopicInfo(payload));
    } else {
      e := Dispatch(env, r, topic, payload).value.log[|r.log|];
    }
  }

  lemma AdvanceCallbacks(r: Router, r': Router, e: Entry)
    requires Advances(r, r', e)
    requires r.callbacks == START.callbacks + (map id | id in r.publishers :: Handle(r.publishers[id]))
    ensures r'.callbacks == START.callbacks + (map id | id in r'.publishers :: Handle(r'.publishers[id]))
  {
  }

  lemma AdvanceMatches(r: Router, r': Router, e: Entry)
    requires MapsMatch(r) && Advances(r, r', e)
    ensures MapsMatch(r')
  {
    forall id: u16
      ensures LatestPublisher(r'.log, id) == if id in r'.publishers then Some(r'.publishers[id]) else None
    {
      LatestAfter(r.log, e, id);
      assert LatestPublisher(r.log, id) == if id in r.publishers then Some(r.publishers[id]) else None;
    }
    forall id: u16
      ensures LatestSubscriber(r'.log, id) == if id in r'.subscribers then Some(r'.subscribers[id]) else None
    {
      LatestAfter(r.log, e, id);
      assert LatestSubscriber(r.log, id) == if id in r.subscribers then Some(r.subscribers[id]) else None;
    }
    AdvanceCallbacks(r, r', e);
  }

  /** Every dispatch that returns keeps the maps in step with the history. */
  lemma DispatchConsistent(env: Env, r: Router, topic: u16, payload: seq<byte>)
    requires Consistent(r) && Dispatch(env, r, topic, payload).Some?
    ensures Consistent(Dispatch(env, r, topic, payload).value)
    ensures var log' := Dispatch(env, r, topic, payload).value.log;
            |log'| == |r.log| + 1 && log'[..|r.log|] == r.log
            && log'[|r.log|].topic == topic && log'[|r.log|].payload == payload
  {
    var e := DispatchExplained(env, r, topic, payload);
    AdvanceMatches(r, Dispatch(env, r, topic, payload).value, e);
    ExplainedAfter(r.log, e);
  }

  /** A frame of an unknown id changes nothing but the log. */
  lemma UnknownIdChangesNoMap(env: Env, r: Router, topic: u16, payload: seq<byte>)
    requires Consistent(r) && LatestPublisher(r.log, topic) == None && topic > ID_SUBSCRIBER
    ensures Dispatch(env, r, topic, payload) == Some(r.(log := r.log + [Entry(topic, payload, Ignored)]))
  {
    assert topic !in r.publishers;
  }

  /** A registration within the limits, sent to the built-in publisher id, creates a publisher, and the
      next frame of the registered id goes to that publisher: it is read as that type says. */
  lemma RegisteredThenPublished(env: Env, r: Router, info: TopicInfo, rest: seq<byte>, payload: seq<byte>)
    requires Consistent(r) && LatestPublisher(r.log, ID_PUBLISHER) == None
    requires WithinLimits(info) && !env.publisherThrows(|r.log|, info)
    ensures var made := Endpoint(info, |r.log|, env.loads(|r.log|, info));
            var first := Dispatch(env, r, ID_PUBLISHER, Layout(info) + rest);
            && first.Some? && first.value.log == r.log + [Entry(ID_PUBLISHER, Layout(info) + rest, MadePublisher(made))]
            && Dispatch(env, first.value, info.topicId, payload)
               == match Handled(env, |r.log| + 1, made, payload)
                  case None => None
                  case Some(read) => Some(Logged(first.value, info.topicId, payload, Published(made, read)))
  {
    hide ParseTopicInfo, Layout, WithinLimits, Handled;
    ParseTopicInfoExact(Layout(info) + rest, info, rest);
    assert ID_PUBLISHER !in r.publishers;
    assert r.callbacks[ID_PUBLISHER] == CreatePublisher;
  }

  /** When a call ends with an exception, for every ROS side: the reading of the payload throws, or the
      call into the ROS side that follows it. */
  lemma DispatchThrowsExact(env: Env, r: Router, topic: u16, payload: seq<byte>)
    requires Consistent(r)
    ensures var n, parsed := |r.log|, ParseTopicInfo(payload);
            Dispatch(env, r, topic, payload) == None <==>
              if topic in r.publishers then
                var read := Reading(r.publishers[topic], payload);
                read.Threw? || env.publishThrows(n, r.publishers[topic], read)
              else if topic == 0 then parsed.Threw? || (parsed.Done? && env.publisherThrows(n, parsed.value))
              else if topic == 1 then parsed.Threw? || (parsed.Done? && env.subscriberThrows(n, parsed.value))
              else false
  {
    hide ParseTopicInfo, Explained, Reading;
    ParseTopicInfoRefused(payload);
    assert topic in r.callbacks <==> topic in r.publishers || topic == 0 || topic == 1;
  }

  lemma BuiltIn(r: Router)
    requires Consistent(r)
    ensures 0 !in r.publishers ==> 0 in r.callbacks && r.callbacks[0] == CreatePublisher
    ensures 1 !in r.publishers ==> 1 in r.callbacks && r.callbacks[1] == CreateSubscriber
  {
    hide Explained;
  }

  /** What a registration changes when it goes through: the maps of its kind at its own id, and for a
      publisher the callback of that id. */
  lemma RegistrationEffect(env: Env, r: Router, info: TopicInfo, rest: seq<byte>)
    requires Consistent(r) && WithinLimits(info)
    ensures var id, made := info.topicId, Endpoint(info, |r.log|, env.loads(|r.log|, info));
            var payload := Layout(info) + rest;
            && (0 !in r.publishers && !env.publisherThrows(|r.log|, info) ==>
                  Dispatch(env, r, 0, payload)
                  == Some(Router(r.callbacks[id := Handle(made)], r.publishers[id := made], r.subscribers,
                                 r.log + [Entry(0, payload, MadePublisher(made))])))
            && (1 !in r.publishers && !env.subscriberThrows(|r.log|, info) ==>
                  Dispatch(env, r, 1, payload)
                  == Some(Router(r.callbacks, r.publishers, r.subscribers[id := made],
                                 r.log + [Entry(1, payload, MadeSubscriber(made))])))
  {
    hide ParseTopicInfo, Layout, WithinLimits, Explained;
    ParseTopicInfoExact(Layout(info) + rest, info, rest);
    BuiltIn(r);
  }

  /** A registration with a name, type or md5 above 400 characters is refused, and that is all: it is
      noted, no map changes, and no exception leaves the handler. */
  lemma LongRegistrationRefused(env: Env, r: Router, topic: u16, payload: seq<byte>)
    requires Consistent(r) && (topic == 0 || topic == 1) && topic !in r.publishers && |payload| >= 2
    requires || TooLong(payload[2..])
             || exists name, r1 :: Follows(payload[2..], name, r1)
                  && (TooLong(r1) || exists kind, r2 :: Follows(r1, kind, r2) && TooLong(r2))
    ensures Dispatch(env, r, topic, payload)
         == Some(Router(r.callbacks, r.publishers, r.subscribers, r.log + [Entry(topic, payload, RefusedRegistration)]))
  {
    hide ParseTopicInfo, TooLong, Follows, Explained;
    ParseTopicInfoRefused(payload);
    BuiltIn(r);
  }

  /** What a frame that is no registration changes when its handler returns: nothing but the log, which
      says what the publisher of its id read, or that there was none. */
  lemma FrameEffect(env: Env, r: Router, topic: u16, payload: seq<byte>)
    requires Consistent(r) && Dispatch(env, r, topic, payload).Some?
    requires topic in r.publishers || topic > 1
    ensures var effect :=
              if topic !in r.publishers then Ignored
              else Published(r.publishers[topic],
                             if r.publishers[topic].members == None then Unspecified
                             else DecodeAll(r.publishers[topic].members.value.members, payload));
            Dispatch(env, r, topic, payload)
            == Some(Router(r.callbacks, r.publishers, r.subscribers, r.log + [Entry(topic, payload, effect)]))
  {
    hide Explained, DecodeAll;
  }
}
