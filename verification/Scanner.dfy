/** What the server makes of a byte stream, stated on the whole stream: no buffer, no stages, no chunks. */
module Scanner {
  import opened Bytes
  import opened Outcomes
  import opened MessageSerialization
  import opened Frame
  import opened Routing

  /** Size of the receive buffer, and so of the largest read request. */
  const CAPACITY := 512

  /** The verdict on the front of the stream. */
  datatype Verdict =
    | More                                                 // undecided until further bytes arrive
    | Reject(size: nat)                                    // skip this many bytes and look again
    | Accept(topic: u16, payload: seq<byte>, size: nat)
    | Oversized                                            // a body that the buffer cannot hold is requested
    | Raises                                               // FF FF: an exception

  function NextUnit(s: seq<byte>): (v: Verdict)
    ensures v.Reject? || v.Accept? ==> 0 < v.size <= |s|
  {
    if |s| < 1 then More
    else if s[0] != 0xFF then Reject(1)
    else if |s| < 2 then More
    else if s[1] == 0xFF then Raises
    else if s[1] != 0xFE then Reject(2)
    else if |s| < 7 then More
    else
      var len := U16(s[2..4]);
      var topic := U16(s[5..7]);
      if !ServerAcceptsLength(len, s[4]) then Reject(7)
      else if len + 1 > CAPACITY then Oversized
      else if |s| < OVERHEAD + len then More
      else if !ServerAcceptsBody(topic, s[7..7 + len], s[7 + len]) then Reject(OVERHEAD + len)
      else Accept(topic, s[7..7 + len], OVERHEAD + len)
  }

  /** A verdict once reached does not depend on what follows. */
  lemma NextUnitStable(a: seq<byte>, b: seq<byte>)
    requires !NextUnit(a).More?
    ensures NextUnit(a + b) == NextUnit(a)
  {
    if |a| >= 7 {
      SliceOfConcat(a, b, 2, 4);
      SliceOfConcat(a, b, 5, 7);
      var len := U16(a[2..4]);
      if |a| >= OVERHEAD + len {
        SliceOfConcat(a, b, 7, 7 + len as int);
      }
    }
  }

  /** With the header read and its length accepted, only the size of the body is left to see. */
  lemma HeaderVerdict(len: u16, topic: u16, rest: seq<byte>)
    ensures var s := Header(len, topic) + rest;
            NextUnit(s) == if len + 1 > CAPACITY then Oversized
                           else if |rest| < len + 1 then More
                           else if !ServerAcceptsBody(topic, rest[..len], rest[len]) then Reject(OVERHEAD + len)
                           else Accept(topic, rest[..len], OVERHEAD + len)
  {
    var s := Header(len, topic) + rest;
    assert s[2..4] == Le16(len) && s[5..7] == Le16(topic) && s[4] == LenCheck(len);
    U16Inverse(len);
    U16Inverse(topic);
    if |rest| >= len + 1 {
      assert s[7..7 + len] == rest[..len] && s[7 + len] == rest[len];
    }
  }

  lemma TwoBytes(s: seq<byte>, i: nat)
    requires i + 2 <= |s|
    ensures U16(s[i..i + 2]) == s[i] as int + 256 * s[i + 1] as int
    ensures DataSum16(U16(s[i..i + 2])) == (s[i] as int + s[i + 1] as int) % 256
  {
    Le16Inverse(s[i..i + 2]);
    DataSum16Bytes(U16(s[i..i + 2]));
    assert s[i..i + 2][0] == s[i] && s[i..i + 2][1] == s[i + 1];
  }

  /** The verdict in terms of the bytes at their places. */
  lemma VerdictInBytes(s: seq<byte>)
    ensures s == [] || s == [0xFF] ==> NextUnit(s) == More
    ensures s != [] && s[0] != 0xFF ==> NextUnit(s) == Reject(1)
    ensures |s| >= 2 && s[0] == 0xFF && s[1] == 0xFF ==> NextUnit(s) == Raises
    ensures |s| >= 2 && s[0] == 0xFF && s[1] != 0xFF && s[1] != 0xFE ==> NextUnit(s) == Reject(2)
    ensures 2 <= |s| < 7 && s[0] == 0xFF && s[1] == 0xFE ==> NextUnit(s) == More
    ensures |s| >= 7 && s[0] == 0xFF && s[1] == 0xFE ==>
              var n := s[2] as int + 256 * s[3] as int;
              NextUnit(s) == if (s[2] as int + s[3] as int) % 256 + s[4] as int != 255 then Reject(7)
                             else if n > 511 then Oversized
                             else if |s| < 8 + n then More
                             else if Sum(s[7..7 + n]) % 256 + (s[5] as int + s[6] as int) % 256 + s[7 + n] as int != 255
                             then Reject(8 + n)
                             else Accept(s[5] as int + 256 * s[6] as int, s[7..7 + n], 8 + n)
  {
    hide U16, DataSum16, Sum;
    if |s| >= 7 {
      TwoBytes(s, 2);
      TwoBytes(s, 5);
    }
  }

  // ----- scanning a whole stream

  /** Hungry: everything decidable was decided, waiting for more.  Stuck: asked for more than the
      buffer holds.  Raised: an exception ended the session. */
  datatype Fate = Hungry | Stuck | Raised

  datatype Scanned = Scanned(router: Router, fate: Fate, rest: seq<byte>)

  function Scan(env: Env, r: Router, s: seq<byte>): Scanned
    decreases |s|
  {
    match NextUnit(s)
    case More => Scanned(r, Hungry, s)
    case Oversized => Scanned(r, Stuck, s)
    case Raises => Scanned(r, Raised, s)
    case Reject(n) => Scan(env, r, s[n..])
    case Accept(topic, payload, n) =>
      match Dispatch(env, r, topic, payload)
      case None => Scanned(r, Raised, s)
      case Some(r') => Scan(env, r', s[n..])
  }

  /** Scanning can stop when it runs dry and go on later; once it ended, further bytes change nothing. */
  lemma {:induction false} ScanExtend(env: Env, r: Router, a: seq<byte>, b: seq<byte>)
    ensures var first := Scan(env, r, a);
            Scan(env, r, a + b) == if first.fate.Hungry? then Scan(env, first.router, first.rest + b)
                                   else first.(rest := first.rest + b)
    decreases |a|
  {
    var v := NextUnit(a);
    if !v.More? {
      NextUnitStable(a, b);
    }
    if v.Reject? || v.Accept? {
      assert (a + b)[v.size..] == a[v.size..] + b;
      if v.Reject? {
        ScanExtend(env, r, a[v.size..], b);
      } else if Dispatch(env, r, v.topic, v.payload).Some? {
        ScanExtend(env, Dispatch(env, r, v.topic, v.payload).value, a[v.size..], b);
      }
    }
  }

  /** The rest is a suffix of the stream that holds no decided unit. */
  lemma {:induction false} ScanRest(env: Env, r: Router, s: seq<byte>)
    ensures var d := Scan(env, r, s);
            && |d.rest| <= |s| && s[|s| - |d.rest|..] == d.rest
            && (d.fate.Hungry? <==> NextUnit(d.rest).More?)
    decreases |s|
  {
    hide NextUnit, Dispatch;
    match NextUnit(s)
    case Reject(n) => ScanRest(env, r, s[n..]);
    case Accept(topic, payload, n) =>
      if Dispatch(env, r, topic, payload).Some? {
        ScanRest(env, Dispatch(env, r, topic, payload).value, s[n..]);
      }
    case _ =>
  }

  /** The log only grows, and maps and log stay in step, whatever the bytes. */
  lemma {:induction false} ScanConsistent(env: Env, r: Router, s: seq<byte>)
    requires Consistent(r)
    ensures Consistent(Scan(env, r, s).router)
    ensures r.log <= Scan(env, r, s).router.log
    decreases |s|
  {
    hide NextUnit, Dispatch, Consistent;
    match NextUnit(s)
    case Reject(n) => ScanConsistent(env, r, s[n..]);
    case Accept(topic, payload, n) =>
      if Dispatch(env, r, topic, payload).Some? {
        DispatchConsistent(env, r, topic, payload);
        ScanConsistent(env, Dispatch(env, r, topic, payload).value, s[n..]);
      }
    case _ =>
  }

  // ----- the same on messages, with no bytes at all

  predicate FitsBuffer(m: Message) {
    |m.payload| + 1 <= CAPACITY
  }

  predicate Acceptable(m: Message) {
    FitsBuffer(m) && NoCarry(m.topic, m.payload)
  }

  datatype Delivery = Delivery(router: Router, fate: Fate)

  /** Messages with a carry are lost, one too long for the buffer ends everything, the others are
      dispatched in order. */
  function Deliver(env: Env, r: Router, ms: seq<Message>): Delivery
    decreases |ms|
  {
    if ms == [] then Delivery(r, Hungry)
    else if !FitsBuffer(ms[0]) then Delivery(r, Stuck)
    else if !NoCarry(ms[0].topic, ms[0].payload) then Deliver(env, r, ms[1..])
    else match Dispatch(env, r, ms[0].topic, ms[0].payload)
      case None => Delivery(r, Raised)
      case Some(r') => Deliver(env, r', ms[1..])
  }

  /** Bytes that the server rejects as one unit. */
  predicate IsNoise(b: seq<byte>) {
    || (|b| == 1 && b[0] != 0xFF)
    || (|b| == 2 && b[0] == 0xFF && b[1] != 0xFE && b[1] != 0xFF)
    || (|b| == 7 && b[0] == 0xFF && b[1] == 0xFE && !ServerAcceptsLength(U16(b[2..4]), b[4]))
    || (OVERHEAD <= |b| < OVERHEAD + CAPACITY && b[..7] == Header(|b| - OVERHEAD, U16(b[5..7]))
        && !ServerAcceptsBody(U16(b[5..7]), b[7..|b| - 1], b[|b| - 1]))
  }

  /** A piece of a stream: rejected bytes, or a whole packet. */
  datatype Item = Noise(bytes: seq<byte>) | Packet(message: Message)

  predicate ValidItem(i: Item) {
    match i
    case Noise(b) => IsNoise(b)
    case Packet(m) => Sendable(m.payload)
  }

  function ItemBytes(i: Item): seq<byte>
    requires ValidItem(i)
  {
    match i
    case Noise(b) => b
    case Packet(m) => Encode(m.topic, m.payload)
  }

  ghost predicate ValidItems(items: seq<Item>) {
    forall i :: 0 <= i < |items| ==> ValidItem(items[i])
  }

  function Wire(items: seq<Item>): seq<byte>
    requires ValidItems(items)
  {
    if items == [] then [] else ItemBytes(items[0]) + Wire(items[1..])
  }

  function Messages(items: seq<Item>): seq<Message> {
    if items == [] then []
    else (if items[0].Packet? then [items[0].message] else []) + Messages(items[1..])
  }

  lemma NoiseRejected(b: seq<byte>, rest: seq<byte>)
    requires IsNoise(b)
    ensures NextUnit(b + rest) == Reject(|b|)
  {
    if |b| >= OVERHEAD {
      var len, topic := |b| - OVERHEAD, U16(b[5..7]);
      U16Inverse(len);
      assert b[2..4] == b[..7][2..4] == Le16(len);
      assert b[0] == b[..7][0] && b[1] == b[..7][1] && b[4] == b[..7][4] == LenCheck(len);
    }
    assert NextUnit(b) == Reject(|b|);
    NextUnitStable(b, rest);
  }

  lemma PacketVerdict(m: Message, rest: seq<byte>)
    requires Sendable(m.payload)
    ensures NextUnit(Encode(m.topic, m.payload) + rest)
         == if !FitsBuffer(m) then Oversized
            else if !NoCarry(m.topic, m.payload) then Reject(OVERHEAD + |m.payload|)
            else Accept(m.topic, m.payload, OVERHEAD + |m.payload|)
  {
    EncodeParts(m.topic, m.payload, rest);
    ServerAcceptsWriter(m.topic, m.payload);
  }

  /** Resynchronisation: noise anywhere between packets changes nothing about what is delivered. */
  lemma {:induction false} ScanDelivers(env: Env, r: Router, items: seq<Item>, tail: seq<byte>)
    requires ValidItems(items)
    ensures var d := Deliver(env, r, Messages(items));
            var s := Scan(env, r, Wire(items) + tail);
            if d.fate.Hungry? then s == Scan(env, d.router, tail) else s.router == d.router && s.fate == d.fate
    decreases |items|
  {
    hide NextUnit, Dispatch, IsNoise, NoCarry, Encode;
    if items == [] {
      assert Wire(items) + tail == tail;
    } else {
      var b := ItemBytes(items[0]);
      var rest := Wire(items[1..]) + tail;
      assert Wire(items) + tail == b + rest && (b + rest)[|b|..] == rest;
      var ms := Messages(items);
      match items[0] {
        case Noise(_) =>
          NoiseRejected(b, rest);
          assert ms == Messages(items[1..]);
          ScanDelivers(env, r, items[1..], tail);
        case Packet(m) =>
          PacketVerdict(m, rest);
          assert ms == [m] + Messages(items[1..]) && ms[1..] == Messages(items[1..]);
          if FitsBuffer(m) && !NoCarry(m.topic, m.payload) {
            ScanDelivers(env, r, items[1..], tail);
          } else if FitsBuffer(m) && Dispatch(env, r, m.topic, m.payload).Some? {
            ScanDelivers(env, Dispatch(env, r, m.topic, m.payload).value, items[1..], tail);
          }
      }
    }
  }

  lemma RejectedIsNoise(s: seq<byte>)
    requires NextUnit(s).Reject?
    ensures IsNoise(s[..NextUnit(s).size])
  {
    var n := NextUnit(s).size;
    if n >= 7 {
      SliceOfTake(s, n, 2, 4);
      SliceOfTake(s, n, 5, 7);
    }
    if n >= OVERHEAD {
      SliceOfTake(s, n, 0, 7);
      SliceOfTake(s, n, 7, n - 1);
      SliceOfTake(s, 7, 2, 4);
      SliceOfTake(s, 7, 5, 7);
      HeaderFromParts(s[..7]);
    }
  }

  lemma AcceptedIsPacket(s: seq<byte>)
    requires NextUnit(s).Accept?
    ensures var v := NextUnit(s);
            var m := Message(v.topic, v.payload);
            Acceptable(m) && Sendable(m.payload) && s[..v.size] == Encode(v.topic, v.payload)
  {
    var v := NextUnit(s);
    SliceOfTake(s, 7, 2, 4);
    SliceOfTake(s, 7, 5, 7);
    HeaderFromParts(s[..7]);
    assert s[..v.size] == s[..7] + v.payload + [s[v.size - 1]];
    assert s[v.size - 1] == MsgCheck(v.topic, v.payload);
  }

  /** Every byte string is, from the front, rejected units and acceptable packets, then a rest on
      which the server waits, is stuck or raises. */
  lemma {:induction false} Dissect(s: seq<byte>) returns (items: seq<Item>, rest: seq<byte>)
    ensures ValidItems(items) && Wire(items) + rest == s
    ensures forall i :: 0 <= i < |items| && items[i].Packet? ==> Acceptable(items[i].message)
    ensures !NextUnit(rest).Reject? && !NextUnit(rest).Accept?
    decreases |s|
  {
    hide NextUnit, IsNoise, Encode, Acceptable;
    var v := NextUnit(s);
    if !v.Reject? && !v.Accept? {
      items, rest := [], s;
    } else {
      var more;
      more, rest := Dissect(s[v.size..]);
      var first;
      if v.Reject? {
        RejectedIsNoise(s);
        first := Noise(s[..v.size]);
      } else {
        AcceptedIsPacket(s);
        first := Packet(Message(v.topic, v.payload));
      }
      items := [first] + more;
      assert items[1..] == more;
      assert s == s[..v.size] + s[v.size..];
      assert ItemBytes(first) + (Wire(more) + rest) == ItemBytes(first) + Wire(more) + rest;
    }
  }

  /** What the server makes of any bytes at all is what their packets deliver, and then what it makes
      of the rest, if no handler threw before. */
  lemma ScanIsDelivery(env: Env, r: Router, s: seq<byte>) returns (items: seq<Item>, rest: seq<byte>)
    ensures ValidItems(items) && Wire(items) + rest == s
    ensures forall i :: 0 <= i < |items| && items[i].Packet? ==> Acceptable(items[i].message)
    ensures var d := Deliver(env, r, Messages(items));
            var scanned := Scan(env, r, s);
            if d.fate.Hungry? then
              scanned == Scanned(d.router, if NextUnit(rest).More? then Hungry
                                           else if NextUnit(rest).Oversized? then Stuck else Raised, rest)
            else scanned.router == d.router && scanned.fate == d.fate
  {
    items, rest := Dissect(s);
    hide Deliver, Dispatch, NextUnit, Acceptable;
    ScanDelivers(env, r, items, rest);
  }

  // ----- where resynchronisation works, and where it stops working

  predicate Decided(v: Verdict) {
    v.Reject? || v.Accept?
  }

  /** The routing state with which the server looks for the next unit; None if there is no next. */
  function After(env: Env, r: Router, v: Verdict): Option<Router> {
    match v
    case Reject(_) => Some(r)
    case Accept(topic, payload, _) => Dispatch(env, r, topic, payload)
    case _ => None
  }

  /** The server comes to look for a new unit exactly k bytes into the stream. */
  predicate MetAt(env: Env, r: Router, s: seq<byte>, k: nat)
    decreases |s|
  {
    var v := NextUnit(s);
    k == 0
    || (Decided(v) && v.size <= k && After(env, r, v).Some?
        && MetAt(env, After(env, r, v).value, s[v.size..], k - v.size))
  }

  /** The bytes are whole units, one after the other, with nothing left over. */
  predicate WholeUnits(s: seq<byte>)
    decreases |s|
  {
    s == [] || (Decided(NextUnit(s)) && WholeUnits(s[NextUnit(s).size..]))
  }

  /** The messages of the units at the front that pass the checks. */
  function PacketsIn(s: seq<byte>): seq<Message>
    decreases |s|
  {
    var v := NextUnit(s);
    if !Decided(v) then []
    else (if v.Accept? then [Message(v.topic, v.payload)] else []) + PacketsIn(s[v.size..])
  }

  /** A verdict depends only on the bytes it disposes of. */
  lemma NextUnitLocal(a: seq<byte>, b: seq<byte>)
    requires Decided(NextUnit(a + b)) && NextUnit(a + b).size <= |a|
    ensures NextUnit(a) == NextUnit(a + b)
  {
    var n := NextUnit(a + b).size;
    if n >= 7 {
      SliceOfConcat(a, b, 2, 4);
      SliceOfConcat(a, b, 5, 7);
      if n >= OVERHEAD {
        SliceOfConcat(a, b, 7, n - 1);
      }
    }
  }

  lemma EmptyUndecided()
    ensures NextUnit([]).More?
  {
  }

  lemma {:induction false} MetIsScanned(env: Env, r: Router, p: seq<byte>, x: seq<byte>)
    ensures MetAt(env, r, p + x, |p|) <==> Scan(env, r, p).fate.Hungry? && Scan(env, r, p).rest == []
    decreases |p|
  {
    hide NextUnit, Dispatch;
    if p == [] {
      assert NextUnit([]).More? by {
        EmptyUndecided();
      }
    } else {
      var v := NextUnit(p + x);
      if Decided(v) && v.size <= |p| {
        NextUnitLocal(p, x);
      }
      if Decided(NextUnit(p)) {
        NextUnitStable(p, x);
        assert (p + x)[v.size..] == p[v.size..] + x;
        if After(env, r, v).Some? {
          MetIsScanned(env, After(env, r, v).value, p[v.size..], x);
        }
      }
    }
  }

  /** A packet after some bytes is met at its first byte if and only if the server, given those bytes
      alone, waits with none of them left; what follows is then scanned as from a fresh start. */
  lemma ResyncExact(env: Env, r: Router, p: seq<byte>, x: seq<byte>)
    ensures MetAt(env, r, p + x, |p|) <==> Scan(env, r, p).fate.Hungry? && Scan(env, r, p).rest == []
    ensures MetAt(env, r, p + x, |p|) ==> Scan(env, r, p + x) == Scan(env, Scan(env, r, p).router, x)
  {
    hide MetAt, Scan;
    MetIsScanned(env, r, p, x);
    ScanExtend(env, r, p, x);
    assert [] + x == x;
  }

  /** The same in terms of the bytes and the handlers: those bytes are whole units, and no handler
      throws on the packets among them. */
  lemma {:induction false} ResyncByUnits(env: Env, r: Router, p: seq<byte>, x: seq<byte>)
    ensures MetAt(env, r, p + x, |p|) <==> WholeUnits(p) && Deliver(env, r, PacketsIn(p)).fate.Hungry?
    decreases |p|
  {
    hide NextUnit, Dispatch, FitsBuffer, NoCarry, Encode;
    if p == [] {
      EmptyUndecided();
    } else {
      var v := NextUnit(p + x);
      if Decided(v) && v.size <= |p| {
        NextUnitLocal(p, x);
      }
      if Decided(NextUnit(p)) {
        NextUnitStable(p, x);
        assert (p + x)[v.size..] == p[v.size..] + x;
        if v.Accept? {
          AcceptedIsPacket(p);
          assert PacketsIn(p)[1..] == PacketsIn(p[v.size..]);
        } else {
          assert PacketsIn(p) == PacketsIn(p[v.size..]);
        }
        if After(env, r, v).Some? {
          ResyncByUnits(env, After(env, r, v).value, p[v.size..], x);
        }
      }
    }
  }

  /** One stray sync flag in front of any packet ends the session. */
  lemma StrayFlagRaises(env: Env, r: Router, m: Message, rest: seq<byte>)
    requires Sendable(m.payload)
    ensures var s := [0xFF] + (Encode(m.topic, m.payload) + rest);
            !WholeUnits([0xFF]) && !MetAt(env, r, s, 1) && Scan(env, r, s) == Scanned(r, Raised, s)
  {
    EncodeParts(m.topic, m.payload, rest);
    var s := [0xFF] + (Encode(m.topic, m.payload) + rest);
    assert s[1] == 0xFF;
  }

  /** So does a registration with an empty payload, although it is a whole unit: its handler throws. */
  lemma EmptyRegistrationRaises(env: Env, x: seq<byte>)
    ensures var p := Encode(ID_PUBLISHER, []);
            WholeUnits(p) && !MetAt(env, START, p + x, |p|) && Scan(env, START, p + x) == Scanned(START, Raised, p + x)
  {
    hide NextUnit, Encode;
    var p := Encode(ID_PUBLISHER, []);
    var m := Message(ID_PUBLISHER, []);
    assert NoCarry(ID_PUBLISHER, []);
    PacketVerdict(m, x);
    PacketVerdict(m, []);
    assert p + [] == p && p[|p|..] == [];
  }

  // ----- a packet cut short in front of others

  /** The first bytes of a packet are harmless only if there are none. */
  lemma CutSpoils(env: Env, r: Router, m: Message, sent: nat, x: seq<byte>)
    requires Sendable(m.payload) && sent < OVERHEAD + |m.payload|
    ensures MetAt(env, r, Encode(m.topic, m.payload)[..sent] + x, sent) <==> sent == 0
  {
    hide NextUnit, Encode, Dispatch;
    var f := Encode(m.topic, m.payload);
    var cut := f[..sent];
    if sent > 0 && Decided(NextUnit(cut + x)) && NextUnit(cut + x).size <= sent {
      NextUnitLocal(cut, x);
      NextUnitStable(cut, f[sent..]);
      assert cut + f[sent..] == f + [];
      PacketVerdict(m, []);
    }
  }

  /** Cut after its header, a packet takes just the bytes it lacks from what follows, and is then
      rejected or, if the sum happens to fit, accepted with a payload completed from there. */
  lemma CutSwallows(m: Message, sent: nat, x: seq<byte>)
    requires Sendable(m.payload) && FitsBuffer(m)
    requires 7 <= sent < OVERHEAD + |m.payload| <= sent + |x|
    ensures var n := |m.payload|;
            var v := NextUnit(Encode(m.topic, m.payload)[..sent] + x);
            && Decided(v) && v.size == OVERHEAD + n
            && (v.Accept? ==> v.topic == m.topic && v.payload == (m.payload[..sent - 7] + x)[..n])
  {
    var n := |m.payload|;
    var body := m.payload[..sent - 7] + x;
    assert Encode(m.topic, m.payload)[..sent] + x == Header(n, m.topic) + body;
    hide NextUnit, Header;
    HeaderVerdict(n, m.topic, body);
  }
}
