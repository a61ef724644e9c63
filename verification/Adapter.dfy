/** The two conversions as they run: loops over the members of a description, reading and writing the
    message object in flat memory. */
module Adapter {
  import opened Bytes
  import opened Outcomes
  import opened SerialStream
  import opened MessageSerialization
  import opened Introspection
  import opened Codec

  /** A byte of memory; a std::string object is one unit, named by its first byte. */
  datatype Cell = Raw(b: byte) | Str(chars: seq<byte>) | Tail

  // ----- what it means for memory to hold a value

  predicate HoldsWord(mem: seq<Cell>, at: nat, bytes: seq<byte>) {
    at + |bytes| <= |mem| && forall i :: 0 <= i < |bytes| ==> mem[at + i] == Raw(bytes[i])
  }

  predicate HoldsString(mem: seq<Cell>, at: nat, chars: seq<byte>) {
    at + STRING_SIZE <= |mem| && mem[at] == Str(chars) && forall i :: at < i < at + STRING_SIZE ==> mem[i] == Tail
  }

  predicate HoldsElem(mem: seq<Cell>, at: nat, k: Kind, v: Value)
    decreases k
  {
    match k
    case Plain(s) => v.Word? && |v.bytes| == Width(s) && HoldsWord(mem, at, v.bytes)
    case Text => v.Chars? && HoldsString(mem, at, v.chars)
    case Nested(sub) => v.Record? && HoldsAll(mem, at, sub.members, v.fields)
    case Other => true
  }

  predicate HoldsMember(mem: seq<Cell>, base: nat, m: Member, v: Value)
    decreases m
  {
    if Dynamic(m) then true
    else if m.isArray then
      v.Array? && |v.elems| == m.arraySize && forall k :: 0 <= k < |v.elems| ==>
        HoldsElem(mem, base + m.offset + k * ElemSize(m.kind), m.kind, v.elems[k])
    else HoldsElem(mem, base + m.offset, m.kind, v)
  }

  predicate HoldsAll(mem: seq<Cell>, base: nat, ms: seq<Member>, vs: seq<Value>)
    decreases ms
  {
    |ms| == |vs| && forall i :: 0 <= i < |ms| ==> HoldsMember(mem, base, ms[i], vs[i])
  }

  /** The memories agree on n bytes from some place on. */
  predicate SameOn(a: seq<Cell>, b: seq<Cell>, at: nat, n: nat) {
    at + n <= |a| == |b| && forall i :: at <= i < at + n ==> a[i] == b[i]
  }

  lemma SlotInside(k: nat, n: nat, size: nat)
    requires k < n
    ensures 0 <= k * size && k * size + size <= n * size
  {
    assert n * size == (k + 1) * size + (n - k - 1) * size;
  }

  lemma {:induction false} ElemFrame(a: seq<Cell>, b: seq<Cell>, at: nat, k: Kind, v: Value)
    requires KindFits(k) && SameOn(a, b, at, ElemSize(k)) && HoldsElem(a, at, k, v)
    ensures HoldsElem(b, at, k, v)
    decreases k
  {
    hide Extent, HoldsMember;
    match k
    case Nested(sub) =>
      forall i | 0 <= i < |sub.members| ensures HoldsMember(b, at, sub.members[i], v.fields[i]) {
        assert HoldsMember(a, at, sub.members[i], v.fields[i]);
        MemberFrame(a, b, at, sub.members[i], v.fields[i]);
      }
    case _ =>
  }

  /** A member keeps its value while the bytes of its extent do not change. */
  lemma {:induction false} MemberFrame(a: seq<Cell>, b: seq<Cell>, base: nat, m: Member, v: Value)
    requires KindFits(m.kind) && SameOn(a, b, base + m.offset, Extent(m)) && HoldsMember(a, base, m, v)
    ensures HoldsMember(b, base, m, v)
    decreases m
  {
    hide HoldsElem, KindFits, ElemSize;
    if Dynamic(m) {
    } else if m.isArray {
      var size := ElemSize(m.kind);
      forall k | 0 <= k < |v.elems| ensures HoldsElem(b, base + m.offset + k * size, m.kind, v.elems[k]) {
        SlotInside(k, m.arraySize, size);
        ElemFrame(a, b, base + m.offset + k * size, m.kind, v.elems[k]);
      }
    } else {
      ElemFrame(a, b, base + m.offset, m.kind, v);
    }
  }

  /** What is found in memory at the place of an element, a member, a list of members: what the ROS
      side, which walks the same description, gets to see of a message object. */
  function ElemValue(mem: seq<Cell>, at: nat, k: Kind): Value
    decreases k
  {
    match k
    case Plain(s) =>
      Word(seq(Width(s), i requires 0 <= i => if at + i < |mem| && mem[at + i].Raw? then mem[at + i].b else 0))
    case Text => Chars(if at < |mem| && mem[at].Str? then mem[at].chars else [])
    case Nested(sub) => Record(ObjectValue(mem, at, sub.members))
    case Other => Word([])
  }

  function MemberValue(mem: seq<Cell>, base: nat, m: Member): Value
    decreases m
  {
    if Dynamic(m) then Array([])
    else if m.isArray then
      Array(seq(m.arraySize, i requires 0 <= i => ElemValue(mem, base + m.offset + i * ElemSize(m.kind), m.kind)))
    else ElemValue(mem, base + m.offset, m.kind)
  }

  function ObjectValue(mem: seq<Cell>, base: nat, ms: seq<Member>): seq<Value>
    decreases ms
  {
    if ms == [] then [] else [MemberValue(mem, base, ms[0])] + ObjectValue(mem, base, ms[1..])
  }

  lemma {:induction false} ElemFound(mem: seq<Cell>, at: nat, k: Kind, v: Value)
    requires !k.Other? && (k.Nested? ==> ReadableAll(k.sub.members))
    requires HoldsElem(mem, at, k, v)
    ensures ElemValue(mem, at, k) == v
    decreases k
  {
    match k
    case Plain(_) => assert ElemValue(mem, at, k).bytes == v.bytes;
    case Text =>
    case Nested(sub) => ObjectFound(mem, at, sub.members, v.fields);
  }

  lemma {:induction false} MemberFound(mem: seq<Cell>, base: nat, m: Member, v: Value)
    requires Readable(m) && HoldsMember(mem, base, m, v)
    ensures MemberValue(mem, base, m) == v
    decreases m
  {
    hide HoldsElem, ElemValue;
    if m.isArray {
      forall i | 0 <= i < m.arraySize
        ensures ElemValue(mem, base + m.offset + i * ElemSize(m.kind), m.kind) == v.elems[i]
      {
        ElemFound(mem, base + m.offset + i * ElemSize(m.kind), m.kind, v.elems[i]);
      }
    } else {
      ElemFound(mem, base + m.offset, m.kind, v);
    }
  }

  /** The value that a message object of a readable type holds is the one found there. */
  lemma {:induction false} ObjectFound(mem: seq<Cell>, base: nat, ms: seq<Member>, vs: seq<Value>)
    requires ReadableAll(ms) && HoldsAll(mem, base, ms, vs)
    ensures ObjectValue(mem, base, ms) == vs
    decreases ms
  {
    hide HoldsMember, Readable, MemberValue;
    if ms == [] {
    } else {
      assert HoldsMember(mem, base, ms[0], vs[0]);
      MemberFound(mem, base, ms[0], vs[0]);
      ObjectFound(mem, base, ms[1..], vs[1..]);
    }
  }

  /** How far apart two elements lie. */
  function Apartness(k: Kind): nat {
    match k
    case Plain(s) => if s.Bool? || s.Byte? then 1 else if s.Double? then 8 else 4
    case Text => 32
    case Nested(sub) => sub.sizeOf
    case Other => 0
  }

  /** A scalar lies in memory byte by byte, a string object takes 32 bytes. */
  lemma ElemInPlace(mem: seq<Cell>, at: nat, k: Kind, v: Value)
    requires HoldsElem(mem, at, k, v)
    ensures k.Plain? ==>
              v.Word? && |v.bytes| == Apartness(k)
              && forall i :: 0 <= i < |v.bytes| ==> at + i < |mem| && mem[at + i] == Raw(v.bytes[i])
    ensures k.Text? ==> v.Chars? && at + 32 <= |mem| && mem[at] == Str(v.chars)
  {
  }

  /** A member lies at its offset, and the elements of a fixed array as far apart as one is large. */
  lemma HeldInPlace(mem: seq<Cell>, base: nat, m: Member, v: Value)
    requires HoldsMember(mem, base, m, v)
    ensures !m.isArray ==> HoldsElem(mem, base + m.offset, m.kind, v)
    ensures FixedArray(m) ==>
              v.Array? && |v.elems| == m.arraySize && forall k :: 0 <= k < m.arraySize ==>
                HoldsElem(mem, base + m.offset + k * Apartness(m.kind), m.kind, v.elems[k])
  {
    hide HoldsElem;
  }

  /** So it holds at most one. */
  lemma AllHeldOnce(mem: seq<Cell>, base: nat, ms: seq<Member>, vs: seq<Value>, ws: seq<Value>)
    requires ReadableAll(ms) && HoldsAll(mem, base, ms, vs) && HoldsAll(mem, base, ms, ws)
    ensures vs == ws
  {
    hide HoldsAll, ReadableAll, ObjectValue;
    ObjectFound(mem, base, ms, vs);
    ObjectFound(mem, base, ms, ws);
  }

  // ----- reading

  /** Memory outside n bytes from some place on is as before. */
  predicate Outside(a: seq<Cell>, b: seq<Cell>, at: nat, n: nat) {
    |a| == |b| && forall i :: 0 <= i < |a| && (i < at || at + n <= i) ==> a[i] == b[i]
  }

  lemma NothingOutside(a: seq<Cell>, at: nat, n: nat)
    ensures Outside(a, a, at, n)
  {
  }

  /** A later change inside the same region. */
  lemma OutsideThen(a: seq<Cell>, b: seq<Cell>, c: seq<Cell>, at: nat, n: nat, at': nat, n': nat)
    requires Outside(a, b, at, n) && Outside(b, c, at', n') && at <= at' && at' + n' <= at + n
    ensures Outside(a, c, at, n)
  {
  }

  /** How a method ended and where it left the stream, against what reading the bytes gives. */
  predicate Matches<T>(o: Outcome<T>, status: Status, rest: seq<byte>) {
    match o
    case Done(_, r) => status == Ok && rest == r
    case Refused => status == Refuses
    case Threw => status == Throws
    case Unspecified => status == Undefined
  }

  function Prepend(vs: seq<Value>, o: Outcome<seq<Value>>): Outcome<seq<Value>> {
    match o
    case Done(more, rest) => Done(vs + more, rest)
    case _ => o
  }

  method StoreWord(mem: array<Cell>, at: nat, bytes: seq<byte>)
    requires at + |bytes| <= mem.Length
    modifies mem
    ensures HoldsWord(mem[..], at, bytes) && Outside(old(mem[..]), mem[..], at, |bytes|)
  {
    forall i | 0 <= i < |bytes| {
      mem[at + i] := Raw(bytes[i]);
    }
  }

  method StoreString(mem: array<Cell>, at: nat, chars: seq<byte>)
    requires at + STRING_SIZE <= mem.Length
    modifies mem
    ensures HoldsString(mem[..], at, chars) && Outside(old(mem[..]), mem[..], at, STRING_SIZE)
  {
    forall i | at <= i < at + STRING_SIZE {
      mem[i] := if i == at then Str(chars) else Tail;
    }
  }

  /** One stream >> val for a scalar, and the store into the member. */
  method DeserializeWord(stream: RosStream, mem: array<Cell>, at: nat, s: Scalar) returns (status: Status)
    requires stream.Valid() && stream.data != null && stream.data as object != mem
    requires at + Width(s) <= mem.Length
    modifies stream`cur, mem
    ensures stream.Valid() && Outside(old(mem[..]), mem[..], at, Width(s))
    ensures Matches(DecodeWord(s, old(stream.Remaining())), status, stream.Remaining())
    ensures status.Ok? ==> HoldsElem(mem[..], at, Plain(s), DecodeWord(s, old(stream.Remaining())).value)
  {
    var r := stream.Take(Width(s));
    if !r.Done? {
      return Throws;
    }
    if s.Bool? && r.value[0] > 1 {
      return Undefined;
    }
    StoreWord(mem, at, r.value);
    status := Ok;
  }

  lemma PrependNothing(o: Outcome<seq<Value>>)
    ensures Prepend([], o) == o
  {
    if o.Done? {
      assert [] + o.value == o.value;
    }
  }

  lemma PrependTwice(vs: seq<Value>, v: Value, o: Outcome<seq<Value>>)
    ensures Prepend(vs, Prepend([v], o)) == Prepend(vs + [v], o)
  {
    if o.Done? {
      assert vs + ([v] + o.value) == vs + [v] + o.value;
    }
  }

  lemma DoublesStep(vs: seq<Value>, n: nat, input: seq<byte>)
    requires n > 0
    ensures var first := DecodeWord(Double, input);
            && (first.Done? ==>
                  Prepend(vs, DecodeDoubles(n, input)) == Prepend(vs + [first.value], DecodeDoubles(n - 1, first.rest)))
            && (!first.Done? ==> Prepend(vs, DecodeDoubles(n, input)) == first.PropagateFailure())
  {
    hide DecodeWord;
    var first := DecodeWord(Double, input);
    if first.Done? {
      PrependTwice(vs, first.value, DecodeDoubles(n - 1, first.rest));
    }
  }

  predicate HoldsDoubles(mem: seq<Cell>, at: nat, vs: seq<Value>) {
    forall k :: 0 <= k < |vs| ==> HoldsElem(mem, at + k * 8, Plain(Double), vs[k])
  }

  lemma HoldsOneMore(a: seq<Cell>, b: seq<Cell>, at: nat, vs: seq<Value>, v: Value)
    requires HoldsDoubles(a, at, vs) && Outside(a, b, at + |vs| * 8, 8)
    requires HoldsElem(b, at + |vs| * 8, Plain(Double), v)
    ensures HoldsDoubles(b, at, vs + [v])
  {
    forall k | 0 <= k < |vs| ensures HoldsElem(b, at + k * 8, Plain(Double), vs[k]) {
      assert HoldsElem(a, at + k * 8, Plain(Double), vs[k]);
    }
  }

  lemma DoublesEnd(vs: seq<Value>, rest: seq<byte>)
    ensures Prepend(vs, DecodeDoubles(0, rest)) == Done(vs, rest)
  {
    assert vs + [] == vs;
  }

  lemma HoldsNoDoubles(mem: seq<Cell>, at: nat)
    ensures HoldsDoubles(mem, at, [])
  {
  }

  /** The element-by-element read of a fixed array of doubles. */
  method DeserializeDoubles(stream: RosStream, mem: array<Cell>, at: nat, n: nat) returns (status: Status)
    requires stream.Valid() && stream.data != null && stream.data as object != mem
    requires at + n * 8 <= mem.Length
    modifies stream`cur, mem
    ensures stream.Valid() && Outside(old(mem[..]), mem[..], at, n * 8)
    ensures Matches(DecodeDoubles(n, old(stream.Remaining())), status, stream.Remaining())
    ensures status.Ok? ==> |DecodeDoubles(n, old(stream.Remaining())).value| == n
    ensures status.Ok? ==> HoldsDoubles(mem[..], at, DecodeDoubles(n, old(stream.Remaining())).value)
  {
    hide DecodeWord, HoldsElem, HoldsDoubles, DecodeDoubles, Prepend, Outside, RosStream.Remaining, RosStream.Valid;
    ghost var input, start := stream.Remaining(), mem[..];
    ghost var vs := [];
    NothingOutside(start, at, n * 8);
    PrependNothing(DecodeDoubles(n, input));
    HoldsNoDoubles(start, at);
    ghost var cells := start;
    for k := 0 to n
      invariant stream.Valid() && cells == mem[..] && Outside(start, cells, at, n * 8)
      invariant |vs| == k
      invariant DecodeDoubles(n, input) == Prepend(vs, DecodeDoubles(n - k, stream.Remaining()))
      invariant HoldsDoubles(cells, at, vs)
    {
      ghost var rest, before := stream.Remaining(), cells;
      DoublesStep(vs, n - k, rest);
      var got := DeserializeWord(stream, mem, at + k * 8, Double);
      cells := mem[..];
      OutsideThen(start, before, cells, at, n * 8, at + k * 8, 8);
      if !got.Ok? {
        return got;
      }
      ghost var v := DecodeWord(Double, rest).value;
      HoldsOneMore(before, cells, at, vs, v);
      vs := vs + [v];
    }
    DoublesEnd(vs, stream.Remaining());
    status := Ok;
  }

  /** The search for a member called stamp. */
  method FindStamp(d: Description) returns (found: bool)
    ensures found <==> HasStamp(d)
  {
    for h := 0 to |d.members|
      invariant forall i :: 0 <= i < h ==> d.members[i].name != "stamp"
    {
      if d.members[h].name == "stamp" {
        return true;
      }
    }
    found := false;
  }

  lemma PrefixedDefined(input: seq<byte>)
    ensures TakePrefixed(input) != Unspecified
  {
  }

  /** Read and store a length-prefixed string. */
  method DeserializeText(stream: RosStream, mem: array<Cell>, at: nat) returns (status: Status)
    requires stream.Valid() && stream.data != null && stream.data as object != mem
    requires at + STRING_SIZE <= mem.Length
    modifies stream`cur, mem
    ensures stream.Valid() && Outside(old(mem[..]), mem[..], at, STRING_SIZE)
    ensures Matches(TakePrefixed(old(stream.Remaining())), status, stream.Remaining())
    ensures status.Ok? ==> HoldsString(mem[..], at, TakePrefixed(old(stream.Remaining())).value)
  {
    hide TakePrefixed;
    var r := ReadPrefixed(stream);
    PrefixedDefined(old(stream.Remaining()));
    match r
    case Done(s, _) => StoreString(mem, at, s); status := Ok;
    case Refused => status := Refuses;
    case _ => status := Throws;
  }

  /** Drop the 4-byte seq that the ROS 1 side puts in front of a standard header. */
  method DropSeq(stream: RosStream, m: Member) returns (ok: bool)
    requires stream.Valid() && stream.data != null && m.kind.Nested?
    modifies stream`cur
    ensures stream.Valid()
    ensures ok <==> SkipSeq(m, old(stream.Remaining())).Done?
    ensures !ok ==> SkipSeq(m, old(stream.Remaining())) == Threw
    ensures ok ==> stream.Remaining() == SkipSeq(m, old(stream.Remaining())).rest
  {
    if m.name == "header" {
      var isStdHeader := FindStamp(m.kind.sub);
      if isStdHeader {
        var skipped := stream.Take(4);
        return skipped.Done?;
      }
    }
    ok := true;
  }

  lemma DoublesHeld(mem: seq<Cell>, base: nat, m: Member, vs: seq<Value>)
    requires FixedArray(m) && m.kind == Plain(Double)
    ensures |vs| == m.arraySize && HoldsDoubles(mem, base + m.offset, vs) ==> HoldsMember(mem, base, m, Array(vs))
  {
    hide HoldsElem;
  }

  lemma ElemHeld(mem: seq<Cell>, base: nat, m: Member, v: Value)
    ensures !m.isArray && HoldsElem(mem, base + m.offset, m.kind, v) ==> HoldsMember(mem, base, m, v)
    ensures v.Chars? && m.kind.Text? && HoldsString(mem, base + m.offset, v.chars) ==>
              HoldsElem(mem, base + m.offset, m.kind, v)
    ensures v.Record? && m.kind.Nested? && HoldsAll(mem, base + m.offset, m.kind.sub.members, v.fields) ==>
              HoldsElem(mem, base + m.offset, m.kind, v)
  {
  }

  /** One turn of the member loop: only the member's extent changes, and it then holds what was read. */
  method DeserializeMember(stream: RosStream, mem: array<Cell>, base: nat, m: Member) returns (status: Status)
    requires stream.Valid() && stream.data != null && stream.data as object != mem
    requires KindFits(m.kind) && base + m.offset + Extent(m) <= mem.Length
    modifies stream`cur, mem
    ensures stream.Valid() && Outside(old(mem[..]), mem[..], base + m.offset, Extent(m))
    ensures Matches(DecodeMember(m, old(stream.Remaining())), status, stream.Remaining())
    ensures status.Ok? && KindSeparate(m.kind) ==>
              HoldsMember(mem[..], base, m, DecodeMember(m, old(stream.Remaining())).value)
    decreases m
  {
    hide DecodeDoubles, DecodeWord, TakePrefixed, SkipSeq, HoldsMember, HoldsDoubles, HoldsElem;
    hide RosStream.Remaining, RosStream.Valid;
    forall after, v {
      ElemHeld(after, base, m, v);
    }
    var at := base + m.offset;
    if m.isArray && !m.upperBound && m.arraySize > 0 && m.kind == Plain(Double) {
      status := DeserializeDoubles(stream, mem, at, m.arraySize);
      DoublesHeld(mem[..], base, m,
                  if status.Ok? then DecodeDoubles(m.arraySize, old(stream.Remaining())).value else []);
    } else if m.isArray {
      status := Refuses;
    } else {
      match m.kind {
        case Plain(s) => status := DeserializeWord(stream, mem, at, s);
        case Text => status := DeserializeText(stream, mem, at);
        case Nested(sub) =>
          var ok := DropSeq(stream, m);
          if !ok {
            return Throws;
          }
          status := DeserializeRos1ToStruct(stream, mem, at, sub);
        case Other => status := Refuses;
      }
    }
  }

  lemma AllStep(vs: seq<Value>, ms: seq<Member>, i: nat, input: seq<byte>)
    requires i < |ms|
    ensures var first := DecodeMember(ms[i], input);
            && (first.Done? ==>
                  Prepend(vs, DecodeAll(ms[i..], input))
                  == Prepend(vs + [first.value], DecodeAll(ms[i + 1..], first.rest)))
            && (!first.Done? ==> Prepend(vs, DecodeAll(ms[i..], input)) == first.PropagateFailure())
  {
    hide DecodeMember;
    var first := DecodeMember(ms[i], input);
    assert ms[i..][1..] == ms[i + 1..];
    if first.Done? {
      PrependTwice(vs, first.value, DecodeAll(ms[i + 1..], first.rest));
    }
  }

  lemma AllStart(ms: seq<Member>, input: seq<byte>)
    ensures Prepend([], DecodeAll(ms[0..], input)) == DecodeAll(ms, input)
  {
    hide DecodeMember;
    assert ms[0..] == ms;
    PrependNothing(DecodeAll(ms, input));
  }

  lemma AllEnd(vs: seq<Value>, ms: seq<Member>, rest: seq<byte>)
    ensures Prepend(vs, DecodeAll(ms[|ms|..], rest)) == Done(vs, rest)
    ensures ms[..|ms|] == ms
  {
    assert vs + [] == vs && ms[|ms|..] == [];
  }

  /** Storing a member disturbs none of those stored before it. */
  lemma HoldsNext(a: seq<Cell>, b: seq<Cell>, base: nat, d: Description, i: nat, vs: seq<Value>, v: Value)
    requires i < |d.members| && Fits(d) && Separate(d) && base + d.sizeOf <= |a|
    requires HoldsAll(a, base, d.members[..i], vs)
    requires Outside(a, b, base + d.members[i].offset, Extent(d.members[i]))
    requires HoldsMember(b, base, d.members[i], v)
    ensures HoldsAll(b, base, d.members[..i + 1], vs + [v])
  {
    hide HoldsMember, Extent, KindFits, KindSeparate;
    var ms := d.members;
    forall j | 0 <= j < i ensures HoldsMember(b, base, ms[j], vs[j]) {
      assert HoldsMember(a, base, ms[..i][j], vs[j]);
      assert Apart(ms[j], ms[i]);
      MemberFrame(a, b, base, ms[j], vs[j]);
    }
    forall j | 0 <= j < i + 1 ensures HoldsMember(b, base, ms[..i + 1][j], (vs + [v])[j]) {
    }
  }

  lemma HoldsNothing(mem: seq<Cell>, base: nat, ms: seq<Member>)
    ensures HoldsAll(mem, base, ms[..0], [])
  {
  }

  lemma FitsMember(d: Description, i: nat)
    requires Fits(d) && i < |d.members|
    ensures KindFits(d.members[i].kind) && d.members[i].offset + Extent(d.members[i]) <= d.sizeOf
  {
  }

  lemma SeparateMember(d: Description, i: nat)
    requires Separate(d) && i < |d.members|
    ensures KindSeparate(d.members[i].kind)
  {
  }

  /** deserialize_ros1_to_struct.  It ends as reading the bytes ends and leaves the cursor there; only
      the message object changes; and if no members overlap, the object then holds the value read. */
  method DeserializeRos1ToStruct(stream: RosStream, mem: array<Cell>, base: nat, d: Description)
    returns (status: Status)
    requires stream.Valid() && stream.data != null && stream.data as object != mem
    requires Fits(d) && base + d.sizeOf <= mem.Length
    modifies stream`cur, mem
    ensures stream.Valid() && Outside(old(mem[..]), mem[..], base, d.sizeOf)
    ensures Matches(DecodeAll(d.members, old(stream.Remaining())), status, stream.Remaining())
    ensures status.Ok? && Separate(d) ==>
              HoldsAll(mem[..], base, d.members, DecodeAll(d.members, old(stream.Remaining())).value)
    decreases d
  {
    hide Outside, Prepend, DecodeAll, DecodeMember, HoldsAll, HoldsMember;
    hide KindFits, KindSeparate, Separate, Fits, Extent, RosStream.Remaining, RosStream.Valid;
    ghost var input, start := stream.Remaining(), mem[..];
    ghost var vs := [];
    NothingOutside(start, base, d.sizeOf);
    AllStart(d.members, input);
    HoldsNothing(start, base, d.members);
    ghost var cells := start;
    for i := 0 to |d.members|
      invariant stream.Valid() && cells == mem[..] && Outside(start, cells, base, d.sizeOf)
      invariant |vs| == i
      invariant DecodeAll(d.members, input) == Prepend(vs, DecodeAll(d.members[i..], stream.Remaining()))
      invariant Separate(d) ==> HoldsAll(cells, base, d.members[..i], vs)
    {
      ghost var rest, before := stream.Remaining(), cells;
      var m := d.members[i];
      FitsMember(d, i);
      AllStep(vs, d.members, i, rest);
      status := DeserializeMember(stream, mem, base, m);
      cells := mem[..];
      OutsideThen(start, before, cells, base, d.sizeOf, base + m.offset, Extent(m));
      if !status.Ok? {
        return;
      }
      ghost var v := DecodeMember(m, rest).value;
      if Separate(d) {
        SeparateMember(d, i);
        HoldsNext(before, cells, base, d, i, vs, v);
      }
      vs := vs + [v];
    }
    AllEnd(vs, d.members, stream.Remaining());
    status := Ok;
  }

  // ----- writing

  predicate IsRaw(mem: seq<Cell>, at: nat, n: nat) {
    at + n <= |mem| && forall i :: at <= i < at + n ==> mem[i].Raw?
  }

  /** n bytes of memory, as memcpy copies them. */
  function RawBytes(mem: seq<Cell>, at: nat, n: nat): (b: seq<byte>)
    requires IsRaw(mem, at, n)
    ensures |b| == n
  {
    seq(n, i requires 0 <= i < n => mem[at + i].b)
  }

  lemma BlockSnoc(mem: seq<Cell>, at: nat, n: nat, bytes: seq<byte>)
    requires IsRaw(mem, at, n) && HoldsWord(mem, at + n, bytes)
    ensures IsRaw(mem, at, n + |bytes|)
    ensures RawBytes(mem, at, n + |bytes|) == RawBytes(mem, at, n) + bytes
  {
    forall i | at <= i < at + n + |bytes| ensures mem[i].Raw? {
      if i >= at + n {
        assert mem[at + n + (i - at - n)] == Raw(bytes[i - at - n]);
      }
    }
  }

  /** A fixed array of scalars goes out in one block: that is its elements one after the other. */
  lemma {:induction false} BlockIsElements(mem: seq<Cell>, at: nat, s: Scalar, vs: seq<Value>)
    requires forall k :: 0 <= k < |vs| ==> TypedElem(Plain(s), vs[k])
    requires forall k :: 0 <= k < |vs| ==> HoldsElem(mem, at + k * Width(s), Plain(s), vs[k])
    requires at <= |mem|
    ensures EncodeElems(Plain(s), vs).status.Ok?
    ensures IsRaw(mem, at, |vs| * Width(s))
    ensures RawBytes(mem, at, |vs| * Width(s)) == EncodeElems(Plain(s), vs).bytes
    decreases |vs|
  {
    hide Width;
    var n, w := |vs|, Width(s);
    if n == 0 {
    } else {
      assert n * w == (n - 1) * w + w;
      BlockIsElements(mem, at, s, vs[..n - 1]);
      assert HoldsElem(mem, at + (n - 1) * w, Plain(s), vs[n - 1]);
      BlockSnoc(mem, at, (n - 1) * w, vs[n - 1].bytes);
    }
  }

  function Count(m: Member): nat {
    if m.isArray then m.arraySize else 1
  }

  lemma PlainInside(mem: seq<Cell>, at: nat, s: Scalar, v: Value)
    requires HoldsElem(mem, at + 0 * Width(s), Plain(s), v)
    ensures at <= |mem|
  {
  }

  lemma SingleElement(k: Kind, v: Value)
    requires TypedElem(k, v)
    ensures EncodeElems(k, [v]) == EncodeElem(k, v)
  {
    hide EncodeElem, TypedElem;
    assert [v][..0] == [];
    assert [] + EncodeElem(k, v).bytes == EncodeElem(k, v).bytes;
  }

  lemma PlainBlock(mem: seq<Cell>, base: nat, m: Member, s: Scalar, v: Value)
    requires m.kind == Plain(s) && !Dynamic(m) && Typed(m, v) && HoldsMember(mem, base, m, v)
    ensures IsRaw(mem, base + m.offset, Count(m) * Width(s))
    ensures EncodeMember(m, v) == Written(RawBytes(mem, base + m.offset, Count(m) * Width(s)), Ok)
  {
    hide Width, EncodeElem, EncodeElems, TypedElem, HoldsElem, RawBytes, IsRaw;
    var at := base + m.offset;
    var elems := if m.isArray then v.elems else [v];
    assert 0 * Width(s) == 0;
    PlainInside(mem, at, s, elems[0]);
    BlockIsElements(mem, at, s, elems);
    if !m.isArray {
      SingleElement(Plain(s), v);
    }
  }

  /** What a run of the writer promises about the buffer: it grew by what was written. */
  twostate predicate Appended(wb: WriteBuffer, bytes: seq<byte>)
    reads wb, wb.mem
  {
    && old(wb.Valid()) && wb.Valid()
    && (wb.mem == old(wb.mem) || fresh(wb.mem))
    && wb.Written() == old(wb.Written()) + bytes
  }

  /** read_and_mv_ptr: a single scalar or a fixed array of them, copied as one block; sequences throw. */
  method ReadAndMvPtr(wb: WriteBuffer, mem: array<Cell>, base: nat, m: Member, s: Scalar, ghost v: Value)
    returns (status: Status)
    requires wb.Valid() && m.kind == Plain(s) && Typed(m, v) && HoldsMember(mem[..], base, m, v)
    requires wb as object != mem && wb.mem as object != mem
    modifies wb, wb.mem
    ensures Appended(wb, EncodeMember(m, v).bytes) && status == EncodeMember(m, v).status
  {
    hide Width, IsRaw, HoldsMember, Typed, EncodeElem, EncodeElems, TypedElem;
    if m.isArray && (m.upperBound || m.arraySize == 0) {
      assert wb.Written() + [] == wb.Written();
      return Throws;
    }
    PlainBlock(mem[..], base, m, s, v);
    hide EncodeMember;
    wb.Put(RawBytes(mem[..], base + m.offset, Count(m) * Width(s)));
    status := Ok;
  }

  /** The text case: each string's length, then its characters. */
  method SerializeText(wb: WriteBuffer, chars: seq<byte>)
    requires wb.Valid()
    modifies wb, wb.mem
    ensures Appended(wb, Prefixed(chars))
  {
    hide Le32;
    ghost var before := wb.Written();
    wb.Put(Le32(|chars| % 0x1_0000_0000));
    wb.Put(chars);
    assert wb.Written() == before + Prefixed(chars);
  }

  /** One element at a place in memory: a string or a nested message. */
  method SerializeElem(wb: WriteBuffer, mem: array<Cell>, at: nat, k: Kind, ghost v: Value) returns (status: Status)
    requires wb.Valid() && !k.Plain? && !k.Other? && TypedElem(k, v) && HoldsElem(mem[..], at, k, v)
    requires wb as object != mem && wb.mem as object != mem
    modifies wb, wb.mem
    ensures Appended(wb, EncodeElem(k, v).bytes) && status == EncodeElem(k, v).status
    decreases k, 0
  {
    match k
    case Text =>
      SerializeText(wb, mem[at].chars);
      status := Ok;
    case Nested(sub) =>
      status := SerializedStructToRos1(wb, mem, at, sub, v.fields);
  }

  /** An element that does not go through ends the array there. */
  lemma {:induction false} ElemsStop(k: Kind, vs: seq<Value>, i: nat)
    requires i < |vs| && (forall j :: 0 <= j < |vs| ==> TypedElem(k, vs[j]))
    requires EncodeElems(k, vs[..i]).status.Ok? && !EncodeElem(k, vs[i]).status.Ok?
    ensures EncodeElems(k, vs) == Then(EncodeElems(k, vs[..i]), EncodeElem(k, vs[i]))
    decreases |vs|
  {
    hide EncodeElem, TypedElem;
    var n := |vs|;
    if i < n - 1 {
      assert vs[..n - 1][..i] == vs[..i];
      ElemsStop(k, vs[..n - 1], i);
    }
  }

  /** The loop over the elements of a string or message member; one turn when it is no array. */
  method SerializeElems(wb: WriteBuffer, mem: array<Cell>, at: nat, k: Kind, n: nat, ghost vs: seq<Value>)
    returns (status: Status)
    requires wb.Valid() && !k.Plain? && !k.Other? && n == |vs|
    requires forall i :: 0 <= i < n ==> TypedElem(k, vs[i]) && HoldsElem(mem[..], at + i * ElemSize(k), k, vs[i])
    requires wb as object != mem && wb.mem as object != mem
    modifies wb, wb.mem
    ensures Appended(wb, EncodeElems(k, vs).bytes) && status == EncodeElems(k, vs).status
    decreases k, 1
  {
    hide TypedElem, HoldsElem, EncodeElem, ElemSize, WriteBuffer.Written, WriteBuffer.Valid;
    assert wb.Written() + [] == wb.Written();
    for i := 0 to n
      invariant wb.Valid() && (wb.mem == old(wb.mem) || fresh(wb.mem))
      invariant wb as object != mem && wb.mem as object != mem && mem[..] == old(mem[..])
      invariant EncodeElems(k, vs[..i]).status.Ok?
      invariant wb.Written() == old(wb.Written()) + EncodeElems(k, vs[..i]).bytes
    {
      assert vs[..i + 1][..i] == vs[..i];
      status := SerializeElem(wb, mem, at + i * ElemSize(k), k, vs[i]);
      if !status.Ok? {
        ElemsStop(k, vs, i);
        return;
      }
    }
    assert vs[..n] == vs;
    status := Ok;
  }

  /** A standard header gets a zero seq in front. */
  method PutHeaderSeq(wb: WriteBuffer, m: Member)
    requires wb.Valid() && m.kind.Nested?
    modifies wb, wb.mem
    ensures Appended(wb, HeaderSeq(m))
  {
    hide Le32, HasStamp;
    if m.arraySize == 0 && m.name == "header" {
      var isStdHeader := FindStamp(m.kind.sub);
      if isStdHeader {
        wb.Put(Le32(0));
        return;
      }
    }
    assert wb.Written() + [] == wb.Written();
  }

  /** The elements of a member that is a fixed array or no array. */
  function Elements(m: Member, v: Value): seq<Value>
    requires Typed(m, v) && !Dynamic(m)
  {
    if m.isArray then v.elems else [v]
  }

  lemma ElementsEncode(m: Member, v: Value)
    requires Typed(m, v) && !Dynamic(m)
    ensures |Elements(m, v)| == Count(m) && forall i :: 0 <= i < Count(m) ==> TypedElem(m.kind, Elements(m, v)[i])
    ensures m.kind.Text? ==> EncodeMember(m, v) == EncodeElems(m.kind, Elements(m, v))
    ensures m.kind.Nested? ==>
              EncodeMember(m, v) == Then(Written(HeaderSeq(m), Ok), EncodeElems(m.kind, Elements(m, v)))
  {
    hide EncodeElem, EncodeElems, TypedElem, HeaderSeq;
    if !m.isArray {
      SingleElement(m.kind, v);
    }
  }

  lemma ElementsHeld(mem: seq<Cell>, base: nat, m: Member, v: Value)
    requires Typed(m, v) && !Dynamic(m) && HoldsMember(mem, base, m, v)
    ensures |Elements(m, v)| == Count(m)
    ensures forall i :: 0 <= i < Count(m) ==>
              TypedElem(m.kind, Elements(m, v)[i])
              && HoldsElem(mem, base + m.offset + i * ElemSize(m.kind), m.kind, Elements(m, v)[i])
  {
    hide TypedElem, HoldsElem, ElemSize;
    if !m.isArray {
      assert 0 * ElemSize(m.kind) == 0;
    }
  }

  method SerializeElements(wb: WriteBuffer, mem: array<Cell>, base: nat, m: Member, ghost v: Value)
    returns (status: Status)
    requires wb.Valid() && !Dynamic(m) && !m.kind.Plain? && !m.kind.Other?
    requires Typed(m, v) && HoldsMember(mem[..], base, m, v)
    requires wb as object != mem && wb.mem as object != mem
    modifies wb, wb.mem
    ensures |Elements(m, v)| == Count(m) && forall i :: 0 <= i < Count(m) ==> TypedElem(m.kind, Elements(m, v)[i])
    ensures Appended(wb, EncodeElems(m.kind, Elements(m, v)).bytes)
    ensures status == EncodeElems(m.kind, Elements(m, v)).status
    decreases m.kind, 2
  {
    hide Typed, TypedElem, HoldsMember, HoldsElem, ElemSize, Elements, EncodeElems;
    ElementsHeld(mem[..], base, m, v);
    status := SerializeElems(wb, mem, base + m.offset, m.kind, Count(m), Elements(m, v));
  }

  /** One turn of the member loop. */
  method SerializeMember(wb: WriteBuffer, mem: array<Cell>, base: nat, m: Member, ghost v: Value)
    returns (status: Status)
    requires wb.Valid() && Typed(m, v) && HoldsMember(mem[..], base, m, v)
    requires wb as object != mem && wb.mem as object != mem
    modifies wb, wb.mem
    ensures Appended(wb, EncodeMember(m, v).bytes) && status == EncodeMember(m, v).status
    decreases m
  {
    hide HoldsMember, Typed, TypedElem, EncodeElem, EncodeElems, HeaderSeq, Elements;
    hide WriteBuffer.Written, WriteBuffer.Valid;
    ghost var before := wb.Written();
    assert before + [] == before;
    match m.kind
    case Plain(s) =>
      status := ReadAndMvPtr(wb, mem, base, m, s, v);
    case Text =>
      if m.isArray && (m.upperBound || m.arraySize == 0) {
        return Throws;
      }
      ElementsEncode(m, v);
      status := SerializeElements(wb, mem, base, m, v);
    case Nested(sub) =>
      if m.isArray && m.arraySize > 0 && m.upperBound {
        return Undefined;
      }
      PutHeaderSeq(wb, m);
      if m.isArray && m.arraySize == 0 {
        return Ok;
      }
      ElementsEncode(m, v);
      status := SerializeElements(wb, mem, base, m, v);
    case Other =>
      status := Refuses;
  }

  /** One turn of the writing loop, on what is left to write. */
  lemma EncodeStep(ms: seq<Member>, vs: seq<Value>, i: nat, done: seq<byte>)
    requires i < |ms| == |vs| && TypedAll(ms[i..], vs[i..])
    ensures Typed(ms[i], vs[i]) && TypedAll(ms[i + 1..], vs[i + 1..])
    ensures var first := EncodeMember(ms[i], vs[i]);
            Then(Written(done, Ok), EncodeAll(ms[i..], vs[i..]))
            == if first.status.Ok? then Then(Written(done + first.bytes, Ok), EncodeAll(ms[i + 1..], vs[i + 1..]))
               else Written(done + first.bytes, first.status)
  {
    hide EncodeMember, Typed;
    assert ms[i..][1..] == ms[i + 1..] && vs[i..][1..] == vs[i + 1..];
    ThenAssociates(Written(done, Ok), EncodeMember(ms[i], vs[i]), EncodeAll(ms[i + 1..], vs[i + 1..]));
  }

  lemma EncodeStart(ms: seq<Member>, vs: seq<Value>)
    requires TypedAll(ms, vs)
    ensures |ms| == |vs| && TypedAll(ms[0..], vs[0..])
    ensures Then(NOTHING, EncodeAll(ms[0..], vs[0..])) == EncodeAll(ms, vs)
  {
    hide EncodeMember, Typed;
    assert ms[0..] == ms && vs[0..] == vs;
    assert [] + EncodeAll(ms, vs).bytes == EncodeAll(ms, vs).bytes;
  }

  lemma EncodeEnd(ms: seq<Member>, vs: seq<Value>, done: seq<byte>)
    requires |ms| == |vs| && TypedAll(ms[|ms|..], vs[|vs|..])
    ensures Then(Written(done, Ok), EncodeAll(ms[|ms|..], vs[|vs|..])) == Written(done, Ok)
  {
    assert done + [] == done;
  }

  /** serialized_struct_to_ros1: appends exactly what the value held by the memory encodes to, also
      when it stops on the way. */
  method SerializedStructToRos1(wb: WriteBuffer, mem: array<Cell>, base: nat, d: Description, ghost vs: seq<Value>)
    returns (status: Status)
    requires wb.Valid() && TypedAll(d.members, vs) && HoldsAll(mem[..], base, d.members, vs)
    requires wb as object != mem && wb.mem as object != mem
    modifies wb, wb.mem
    ensures Appended(wb, EncodeAll(d.members, vs).bytes) && status == EncodeAll(d.members, vs).status
    decreases d
  {
    hide EncodeAll, EncodeMember, Typed, TypedAll, Then, HoldsMember, WriteBuffer.Written, WriteBuffer.Valid;
    ghost var ms, before := d.members, wb.Written();
    ghost var done: seq<byte> := [];
    EncodeStart(ms, vs);
    for i := 0 to |d.members|
      invariant wb.Valid() && (wb.mem == old(wb.mem) || fresh(wb.mem))
      invariant wb as object != mem && wb.mem as object != mem && mem[..] == old(mem[..])
      invariant TypedAll(ms[i..], vs[i..])
      invariant EncodeAll(ms, vs) == Then(Written(done, Ok), EncodeAll(ms[i..], vs[i..]))
      invariant wb.Written() == before + done
    {
      EncodeStep(ms, vs, i, done);
      status := SerializeMember(wb, mem, base, d.members[i], vs[i]);
      done := done + EncodeMember(ms[i], vs[i]).bytes;
      if !status.Ok? {
        return;
      }
    }
    EncodeEnd(ms, vs, done);
    status := Ok;
  }

  // ----- from one message object to another

  /** A message object written out, and the bytes read into another object of its type: the other then
      holds the same value, and the bytes are used up. */
  method Transcribe(a: array<Cell>, b: array<Cell>, d: MessageType, ghost vs: seq<Value>) returns (status: Status)
    requires a != b && d.sizeOf <= a.Length && d.sizeOf <= b.Length
    requires TypedAll(d.members, vs) && HoldsAll(a[..], 0, d.members, vs)
    requires ReadableAll(d.members) && GoodStringsAll(d.members, vs)
    modifies b
    ensures status == Ok && HoldsAll(b[..], 0, d.members, vs)
    ensures ObjectValue(b[..], 0, d.members) == ObjectValue(a[..], 0, d.members) == vs
  {
    hide DecodeAll, EncodeAll, TypedAll, GoodStringsAll, ReadableAll, HoldsAll, ObjectValue;
    hide WellFormedAll, Fits, Separate;
    ghost var bytes := EncodeAll(d.members, vs).bytes;
    AllRoundTrip(d.members, vs, []);
    ObjectFound(a[..], 0, d.members, vs);
    var wb := new WriteBuffer(d.sizeOf);
    status := SerializedStructToRos1(wb, a, 0, d, vs);
    var stream := new RosStream(wb.mem, 0, wb.writeLen);
    assert stream.Remaining() == bytes == bytes + [];
    status := DeserializeRos1ToStruct(stream, b, 0, d);
    ObjectFound(b[..], 0, d.members, vs);
  }
}
