/** Several callers sharing one writer: each packages its message outside the lock and enters the
    queue later, in any order with the others and with the port. */
module Writers {
  import opened Bytes
  import opened Frame
  import opened WriteQueue
  import opened AsyncWrite

  type Caller = nat

  datatype Issue = Issue(who: Caller, message: Message)

  datatype Shared = Shared(
    writer: Writer,
    packaged: map<Caller, Message>,     // packaged, not in the queue yet
    issued: seq<Issue>,                 // history: messages in the order of packaging
    entered: seq<Issue>)                // history: messages in the order of entering the queue

  const NOBODY := Shared(IDLE, map[], [], [])

  datatype Action = Package(who: Caller, message: Message) | Enter(who: Caller) | Port(event: Event)

  /** The bytes a message goes out as. */
  function PacketOf(m: Message): seq<byte> {
    Encode(m.topic, Sent(m.payload))
  }

  predicate Allowed(s: Shared, a: Action) {
    match a
    case Package(who, _) => who !in s.packaged
    case Enter(who) => who in s.packaged
    case Port(e) => !e.Put? && Enabled(s.writer, e)
  }

  function Act(s: Shared, a: Action): Shared
    requires Allowed(s, a)
  {
    match a
    case Package(who, m) => s.(packaged := s.packaged[who := m], issued := s.issued + [Issue(who, m)])
    case Enter(who) =>
      s.(writer := Enqueue(s.writer, PacketOf(s.packaged[who])), packaged := s.packaged - {who},
         entered := s.entered + [Issue(who, s.packaged[who])])
    case Port(e) => s.(writer := Step(s.writer, e))
  }

  function MessagesBy(issues: seq<Issue>, who: Caller): seq<Message> {
    if issues == [] then []
    else MessagesBy(issues[..|issues| - 1], who)
         + if issues[|issues| - 1].who == who then [issues[|issues| - 1].message] else []
  }

  /** The queue is safe and holds the packets of the messages that entered; every caller's messages
      entered in the order it packaged them, except one that may still be on its way. */
  ghost predicate Orderly(s: Shared) {
    && Safe(s.writer)
    && |s.writer.frames| == |s.entered|
    && (forall i :: 0 <= i < |s.entered| ==> s.writer.frames[i] == PacketOf(s.entered[i].message))
    && (forall who: Caller :: MessagesBy(s.issued, who)
         == MessagesBy(s.entered, who) + if who in s.packaged then [s.packaged[who]] else [])
  }

  lemma MessagesBySnoc(issues: seq<Issue>, i: Issue, who: Caller)
    ensures MessagesBy(issues + [i], who) == MessagesBy(issues, who) + if i.who == who then [i.message] else []
  {
    assert (issues + [i])[..|issues|] == issues;
  }

  lemma PortKeepsFrames(w: Writer, e: Event)
    requires Enabled(w, e) && !e.Put?
    ensures Step(w, e).frames == w.frames
  {
  }

  lemma PackageOrderly(s: Shared, who: Caller, m: Message)
    requires Orderly(s) && Allowed(s, Package(who, m))
    ensures Orderly(Act(s, Package(who, m)))
  {
    hide Safe, PacketOf;
    forall c: Caller {
      MessagesBySnoc(s.issued, Issue(who, m), c);
    }
  }

  lemma EnterOrderly(s: Shared, who: Caller)
    requires Orderly(s) && Allowed(s, Enter(who))
    ensures Orderly(Act(s, Enter(who)))
  {
    hide Safe, PacketOf;
    var m := s.packaged[who];
    StepSafe(s.writer, Put(PacketOf(m)));
    forall c: Caller {
      MessagesBySnoc(s.entered, Issue(who, m), c);
    }
  }

  lemma PortOrderly(s: Shared, e: Event)
    requires Orderly(s) && Allowed(s, Port(e))
    ensures Orderly(Act(s, Port(e)))
  {
    hide Safe, PacketOf;
    StepSafe(s.writer, e);
    PortKeepsFrames(s.writer, e);
  }

  lemma ActOrderly(s: Shared, a: Action)
    requires Orderly(s) && Allowed(s, a)
    ensures Orderly(Act(s, a))
  {
    hide Orderly, Act;
    match a
    case Package(who, m) => PackageOrderly(s, who, m);
    case Enter(who) => EnterOrderly(s, who);
    case Port(e) => PortOrderly(s, e);
  }

  ghost predicate Run(states: seq<Shared>, actions: seq<Action>) {
    && |states| == |actions| + 1
    && states[0] == NOBODY
    && forall i :: 0 <= i < |actions| ==> Allowed(states[i], actions[i]) && states[i + 1] == Act(states[i], actions[i])
  }

  lemma NobodyOrderly()
    ensures Orderly(NOBODY)
  {
  }

  /** In every interleaving of callers and port. */
  lemma {:induction false} RunOrderly(states: seq<Shared>, actions: seq<Action>)
    requires Run(states, actions)
    ensures Orderly(states[|actions|])
    decreases |actions|
  {
    hide Orderly, Act, Allowed;
    var n := |actions|;
    if n == 0 {
      NobodyOrderly();
    } else {
      RunOrderly(states[..n], actions[..n - 1]);
      ActOrderly(states[n - 1], actions[n - 1]);
    }
  }
}
