/** The packed ROS 1 layout of messages, driven by a runtime description of their type: reading and
    writing on values, and how far each undoes the other. */
module Codec {
  import opened Bytes
  import opened Outcomes
  import opened SerialStream
  import opened Introspection

  // ----- values of a type

  /** Scalars of every kind are kept as their bytes in memory. */
  datatype Value =
    | Word(bytes: seq<byte>)
    | Chars(chars: seq<byte>)
    | Array(elems: seq<Value>)
    | Record(fields: seq<Value>)

  /** The bytes of a scalar; a C++ bool holds 0 or 1. */
  predicate TypedWord(s: Scalar, v: Value) {
    v.Word? && |v.bytes| == Width(s) && (s.Bool? ==> v.bytes[0] <= 1)
  }

  predicate TypedElem(k: Kind, v: Value)
    decreases k
  {
    match k
    case Plain(s) => TypedWord(s, v)
    case Text => v.Chars?
    case Nested(sub) => v.Record? && TypedAll(sub.members, v.fields)
    case Other => true
  }

  predicate Typed(m: Member, v: Value)
    decreases m
  {
    if Dynamic(m) then true
    else if m.isArray then
      v.Array? && |v.elems| == m.arraySize && forall i :: 0 <= i < |v.elems| ==> TypedElem(m.kind, v.elems[i])
    else TypedElem(m.kind, v)
  }

  predicate TypedAll(ms: seq<Member>, vs: seq<Value>)
    decreases ms
  {
    |ms| == |vs| && (ms != [] ==> Typed(ms[0], vs[0]) && TypedAll(ms[1..], vs[1..]))
  }

  // ----- writing: serialized_struct_to_ros1

  datatype Status = Ok | Refuses | Throws | Undefined

  /** What was written before the run ended, and how it ended. */
  datatype Written = Written(bytes: seq<byte>, status: Status)

  function Then(a: Written, b: Written): Written {
    if a.status.Ok? then Written(a.bytes + b.bytes, b.status) else a
  }

  const NOTHING := Written([], Ok)

  function EncodeElem(k: Kind, v: Value): Written
    requires TypedElem(k, v)
    decreases k, 0
  {
    match k
    case Plain(_) => Written(v.bytes, Ok)
    case Text => Written(Prefixed(v.chars), Ok)
    case Nested(sub) => EncodeAll(sub.members, v.fields)
    case Other => Written([], Refuses)
  }

  function EncodeElems(k: Kind, vs: seq<Value>): Written
    requires forall i :: 0 <= i < |vs| ==> TypedElem(k, vs[i])
    decreases k, 1, |vs|
  {
    if vs == [] then NOTHING else Then(EncodeElems(k, vs[..|vs| - 1]), EncodeElem(k, vs[|vs| - 1]))
  }

  /** The seq that a header gets on the ROS 1 side. */
  function HeaderSeq(m: Member): seq<byte> {
    if m.arraySize == 0 && IsStdHeader(m) then Le32(0) else []
  }

  function EncodeMember(m: Member, v: Value): Written
    requires Typed(m, v)
    decreases m
  {
    match m.kind
    case Other => Written([], Refuses)
    case Nested(_) =>
      if m.isArray && m.arraySize == 0 then Written(HeaderSeq(m), Ok)
      else if m.isArray && m.upperBound then Written([], Undefined)   // walks the vector object itself
      else Then(Written(HeaderSeq(m), Ok), if m.isArray then EncodeElems(m.kind, v.elems) else EncodeElem(m.kind, v))
    case _ =>
      if Dynamic(m) then Written([], Throws)
      else if m.isArray then EncodeElems(m.kind, v.elems)
      else EncodeElem(m.kind, v)
  }

  function EncodeAll(ms: seq<Member>, vs: seq<Value>): Written
    requires TypedAll(ms, vs)
    decreases ms
  {
    if ms == [] then NOTHING else Then(EncodeMember(ms[0], vs[0]), EncodeAll(ms[1..], vs[1..]))
  }

  // ----- reading: deserialize_ros1_to_struct

  function DecodeWord(s: Scalar, input: seq<byte>): Outcome<Value> {
    var (b, rest) :- TakeBytes(input, Width(s));
    if s.Bool? && b[0] > 1 then Unspecified else Done(Word(b), rest)
  }

  function DecodeDoubles(n: nat, input: seq<byte>): Outcome<seq<Value>> {
    if n == 0 then Done([], input)
    else
      var (v, r1) :- DecodeWord(Double, input);
      var (vs, r2) :- DecodeDoubles(n - 1, r1);
      Done([v] + vs, r2)
  }

  function SkipSeq(m: Member, input: seq<byte>): Outcome<seq<byte>> {
    if IsStdHeader(m) then TakeBytes(input, 4) else Done([], input)
  }

  function DecodeMember(m: Member, input: seq<byte>): Outcome<Value>
    decreases m
  {
    if FixedArray(m) && m.kind == Plain(Double) then
      var (vs, rest) :- DecodeDoubles(m.arraySize, input);
      Done(Array(vs), rest)
    else if m.isArray then Refused
    else match m.kind
      case Plain(s) => DecodeWord(s, input)
      case Text =>
        var (s, rest) :- TakePrefixed(input);
        Done(Chars(s), rest)
      case Nested(sub) =>
        var (_, body) :- SkipSeq(m, input);
        var (vs, rest) :- DecodeAll(sub.members, body);
        Done(Record(vs), rest)
      case Other => Refused
  }

  function DecodeAll(ms: seq<Member>, input: seq<byte>): Outcome<seq<Value>>
    decreases ms
  {
    if ms == [] then Done([], input)
    else
      var (v, r1) :- DecodeMember(ms[0], input);
      var (vs, r2) :- DecodeAll(ms[1..], r1);
      Done([v] + vs, r2)
  }

  // ----- which types and values make the trip

  /** Reading takes single fields and fixed arrays of doubles, no other arrays. */
  predicate Readable(m: Member)
    decreases m
  {
    if m.isArray then FixedArray(m) && m.kind == Plain(Double)
    else !m.kind.Other? && (m.kind.Nested? ==> ReadableAll(m.kind.sub.members))
  }

  predicate ReadableAll(ms: seq<Member>)
    decreases ms
  {
    ms != [] ==> Readable(ms[0]) && ReadableAll(ms[1..])
  }

  /** Every string of a value has 1 to 400 characters. */
  predicate GoodStrings(m: Member, v: Value)
    requires Typed(m, v)
    decreases m
  {
    !m.isArray ==>
      assert TypedElem(m.kind, v);
      && (m.kind.Text? ==> GoodString(v.chars))
      && (m.kind.Nested? ==> GoodStringsAll(m.kind.sub.members, v.fields))
  }

  predicate GoodStringsAll(ms: seq<Member>, vs: seq<Value>)
    requires TypedAll(ms, vs)
    decreases ms
  {
    ms != [] ==> GoodStrings(ms[0], vs[0]) && GoodStringsAll(ms[1..], vs[1..])
  }

  // ----- round trip

  lemma WordRoundTrip(s: Scalar, v: Value, suffix: seq<byte>)
    requires TypedWord(s, v)
    ensures DecodeWord(s, v.bytes + suffix) == Done(v, suffix)
  {
    TakeBytesAppend(v.bytes, suffix);
  }

  lemma ThenAssociates(a: Written, b: Written, c: Written)
    ensures Then(Then(a, b), c) == Then(a, Then(b, c))
  {
  }

  lemma {:induction false} EncodeElemsFront(k: Kind, vs: seq<Value>)
    requires vs != [] && forall i :: 0 <= i < |vs| ==> TypedElem(k, vs[i])
    ensures EncodeElems(k, vs) == Then(EncodeElem(k, vs[0]), EncodeElems(k, vs[1..]))
    decreases |vs|
  {
    hide EncodeElem, TypedElem;
    var n := |vs|;
    if n == 1 {
      assert vs[..0] == [] && vs[1..] == [];
      assert EncodeElem(k, vs[0]).bytes + [] == EncodeElem(k, vs[0]).bytes;
    } else {
      EncodeElemsFront(k, vs[..n - 1]);
      assert vs[1..][..n - 2] == vs[..n - 1][1..];
      ThenAssociates(EncodeElem(k, vs[0]), EncodeElems(k, vs[1..][..n - 2]), EncodeElem(k, vs[n - 1]));
    }
  }

  lemma {:induction false} DoublesRoundTrip(vs: seq<Value>, suffix: seq<byte>)
    requires forall i :: 0 <= i < |vs| ==> TypedElem(Plain(Double), vs[i])
    ensures EncodeElems(Plain(Double), vs).status.Ok?
    ensures DecodeDoubles(|vs|, EncodeElems(Plain(Double), vs).bytes + suffix) == Done(vs, suffix)
    decreases |vs|
  {
    hide DecodeWord;
    if vs == [] {
      assert [] + suffix == suffix;
    } else {
      var inner := EncodeElems(Plain(Double), vs[1..]).bytes;
      EncodeElemsFront(Plain(Double), vs);
      DoublesRoundTrip(vs[1..], suffix);
      WordRoundTrip(Double, vs[0], inner + suffix);
      assert vs[0].bytes + inner + suffix == vs[0].bytes + (inner + suffix);
      assert vs == [vs[0]] + vs[1..];
    }
  }

  lemma SeqRoundTrip(m: Member, rest: seq<byte>)
    requires m.arraySize == 0
    ensures SkipSeq(m, HeaderSeq(m) + rest) == Done(HeaderSeq(m), rest)
  {
    TakeBytesAppend(HeaderSeq(m), rest);
    assert [] + rest == rest;
  }

  lemma {:induction false} MemberRoundTrip(m: Member, v: Value, suffix: seq<byte>)
    requires WellFormed(m) && Typed(m, v) && Readable(m) && GoodStrings(m, v)
    ensures EncodeMember(m, v).status.Ok?
    ensures DecodeMember(m, EncodeMember(m, v).bytes + suffix) == Done(v, suffix)
    decreases m
  {
    hide TakePrefixed, Prefixed, DecodeWord;
    if m.isArray {
      DoublesRoundTrip(v.elems, suffix);
    } else {
      match m.kind
      case Plain(s) => WordRoundTrip(s, v, suffix);
      case Text => TakePrefixedExact(Prefixed(v.chars) + suffix, v.chars, suffix);
      case Nested(sub) =>
        var inner := EncodeAll(sub.members, v.fields).bytes;
        AllRoundTrip(sub.members, v.fields, suffix);
        SeqRoundTrip(m, inner + suffix);
        assert HeaderSeq(m) + inner + suffix == HeaderSeq(m) + (inner + suffix);
    }
  }

  lemma {:induction false} AllRoundTrip(ms: seq<Member>, vs: seq<Value>, suffix: seq<byte>)
    requires WellFormedAll(ms) && TypedAll(ms, vs) && ReadableAll(ms) && GoodStringsAll(ms, vs)
    ensures EncodeAll(ms, vs).status.Ok?
    ensures DecodeAll(ms, EncodeAll(ms, vs).bytes + suffix) == Done(vs, suffix)
    decreases ms
  {
    hide EncodeMember, DecodeMember, Typed, Readable, GoodStrings, WellFormed;
    if ms == [] {
      assert [] + suffix == suffix;
    } else {
      var rest := EncodeAll(ms[1..], vs[1..]).bytes + suffix;
      AllRoundTrip(ms[1..], vs[1..], suffix);
      MemberRoundTrip(ms[0], vs[0], rest);
      var first, later := EncodeMember(ms[0], vs[0]).bytes, EncodeAll(ms[1..], vs[1..]).bytes;
      assert EncodeAll(ms, vs).bytes == first + later;
      assert first + later + suffix == first + rest;
      assert vs == [vs[0]] + vs[1..];
    }
  }

  lemma {:induction false} DoublesDecoded(n: nat, input: seq<byte>)
    requires DecodeDoubles(n, input).Done?
    ensures var vs := DecodeDoubles(n, input).value;
            |vs| == n && forall i :: 0 <= i < n ==> TypedElem(Plain(Double), vs[i])
    decreases n
  {
    if n == 0 {
    } else {
      DoublesDecoded(n - 1, DecodeWord(Double, input).rest);
    }
  }

  /** Only readable types are read, and only values of the type with good strings come out. */
  lemma {:induction false} MemberDecoded(m: Member, input: seq<byte>)
    requires DecodeMember(m, input).Done?
    ensures var v := DecodeMember(m, input).value; Readable(m) && Typed(m, v) && GoodStrings(m, v)
    decreases m
  {
    hide TakePrefixed, DecodeDoubles;
    if m.isArray {
      DoublesDecoded(m.arraySize, input);
    } else {
      match m.kind
      case Plain(_) =>
      case Text =>
        var p := TakePrefixed(input);
        TakePrefixedExact(input, p.value, p.rest);
      case Nested(sub) => AllDecoded(sub.members, SkipSeq(m, input).rest);
    }
  }

  lemma {:induction false} AllDecoded(ms: seq<Member>, input: seq<byte>)
    requires DecodeAll(ms, input).Done?
    ensures var vs := DecodeAll(ms, input).value; ReadableAll(ms) && TypedAll(ms, vs) && GoodStringsAll(ms, vs)
    decreases ms
  {
    hide DecodeMember, Typed, Readable, GoodStrings;
    if ms == [] {
    } else {
      var first := DecodeMember(ms[0], input);
      MemberDecoded(ms[0], input);
      AllDecoded(ms[1..], first.rest);
      var vs := DecodeAll(ms, input).value;
      assert vs[0] == first.value && vs[1..] == DecodeAll(ms[1..], first.rest).value;
    }
  }

  /** Reading undoes writing on exactly the readable types and the values whose strings have 1 to 400
      characters, whatever follows in the stream. */
  lemma RoundTripExact(ms: seq<Member>, vs: seq<Value>, suffix: seq<byte>)
    requires WellFormedAll(ms) && TypedAll(ms, vs)
    ensures DecodeAll(ms, EncodeAll(ms, vs).bytes + suffix) == Done(vs, suffix)
       <==> ReadableAll(ms) && GoodStringsAll(ms, vs)
  {
    hide DecodeAll, EncodeAll, TypedAll, ReadableAll, GoodStringsAll, WellFormedAll;
    var input := EncodeAll(ms, vs).bytes + suffix;
    if ReadableAll(ms) && GoodStringsAll(ms, vs) {
      AllRoundTrip(ms, vs, suffix);
    }
    if DecodeAll(ms, input) == Done(vs, suffix) {
      AllDecoded(ms, input);
    }
  }

  // ----- the reverse

  /** Which bytes of an encoding are a header's seq. */
  function SeqMask(m: Member, v: Value): seq<bool>
    requires Typed(m, v)
    decreases m
  {
    if m.kind.Nested? && !m.isArray then
      assert TypedElem(m.kind, v);
      seq(|HeaderSeq(m)|, _ => true) + SeqMaskAll(m.kind.sub.members, v.fields)
    else seq(|EncodeMember(m, v).bytes|, _ => false)
  }

  function SeqMaskAll(ms: seq<Member>, vs: seq<Value>): seq<bool>
    requires TypedAll(ms, vs)
    decreases ms
  {
    if ms == [] then [] else SeqMask(ms[0], vs[0]) + SeqMaskAll(ms[1..], vs[1..])
  }

  /** The bytes with the masked ones zeroed. */
  function Blank(bytes: seq<byte>, mask: seq<bool>): (b: seq<byte>)
    requires |bytes| == |mask|
    ensures |b| == |bytes|
  {
    seq(|bytes|, i requires 0 <= i < |bytes| => if mask[i] then 0 else bytes[i])
  }

  /** Re-encoding v gives back the input up to the rest, with the seq bytes zeroed. */
  ghost predicate Returns(input: seq<byte>, rest: seq<byte>, out: Written, mask: seq<bool>) {
    && out.status.Ok? && |out.bytes| == |mask| && |mask| + |rest| == |input|
    && input[|mask|..] == rest
    && out.bytes == Blank(input[..|mask|], mask)
  }

  lemma ReturnsThen(input: seq<byte>, mid: seq<byte>, rest: seq<byte>, a: Written, b: Written,
                    ma: seq<bool>, mb: seq<bool>)
    requires Returns(input, mid, a, ma) && Returns(mid, rest, b, mb)
    ensures Returns(input, rest, Then(a, b), ma + mb)
  {
    assert input[|ma + mb|..] == mid[|mb|..];
    assert input[..|ma + mb|] == input[..|ma|] + mid[..|mb|];
  }

  lemma ReturnsPlain(input: seq<byte>, b: seq<byte>, rest: seq<byte>)
    requires input == b + rest
    ensures Returns(input, rest, Written(b, Ok), seq(|b|, _ => false))
  {
    assert input[..|b|] == b;
  }

  lemma WordReturns(s: Scalar, input: seq<byte>)
    requires DecodeWord(s, input).Done?
    ensures var d := DecodeWord(s, input); d.value.Word? && input == d.value.bytes + d.rest
  {
  }

  lemma {:induction false} DoublesReturn(n: nat, input: seq<byte>)
    requires DecodeDoubles(n, input).Done?
    requires var vs := DecodeDoubles(n, input).value; forall i :: 0 <= i < |vs| ==> TypedElem(Plain(Double), vs[i])
    ensures EncodeElems(Plain(Double), DecodeDoubles(n, input).value).status.Ok?
    ensures input == EncodeElems(Plain(Double), DecodeDoubles(n, input).value).bytes + DecodeDoubles(n, input).rest
    decreases n
  {
    hide DecodeWord, TypedElem;
    var d := DecodeDoubles(n, input);
    if n == 0 {
    } else {
      var first := DecodeWord(Double, input);
      var later := DecodeDoubles(n - 1, first.rest);
      assert d.value[1..] == later.value;
      WordReturns(Double, input);
      forall i | 0 <= i < |later.value| ensures TypedElem(Plain(Double), later.value[i]) {
        assert later.value[i] == d.value[i + 1];
      }
      DoublesReturn(n - 1, first.rest);
      EncodeElemsFront(Plain(Double), d.value);
      var inner := EncodeElems(Plain(Double), later.value).bytes;
      assert first.value.bytes + (inner + d.rest) == first.value.bytes + inner + d.rest;
    }
  }

  lemma SeqReturns(m: Member, input: seq<byte>)
    requires m.arraySize == 0 && SkipSeq(m, input).Done?
    ensures Returns(input, SkipSeq(m, input).rest, Written(HeaderSeq(m), Ok), seq(|HeaderSeq(m)|, _ => true))
  {
    assert Le32(0) == [0, 0, 0, 0];
  }

  lemma {:induction false} MemberReturns(m: Member, input: seq<byte>)
    requires WellFormed(m) && DecodeMember(m, input).Done? && Typed(m, DecodeMember(m, input).value)
    ensures var d := DecodeMember(m, input);
            Returns(input, d.rest, EncodeMember(m, d.value), SeqMask(m, d.value))
    decreases m
  {
    hide TakePrefixed, Returns, DecodeDoubles, EncodeElems, Prefixed;
    var d := DecodeMember(m, input);
    if m.isArray {
      DoublesReturn(m.arraySize, input);
      ReturnsPlain(input, EncodeElems(Plain(Double), d.value.elems).bytes, d.rest);
    } else {
      match m.kind
      case Plain(_) => ReturnsPlain(input, d.value.bytes, d.rest);
      case Text =>
        TakePrefixedExact(input, d.value.chars, d.rest);
        ReturnsPlain(input, Prefixed(d.value.chars), d.rest);
      case Nested(sub) =>
        var body := SkipSeq(m, input).rest;
        SeqReturns(m, input);
        AllReturn(sub.members, body);
        ReturnsThen(input, body, d.rest, Written(HeaderSeq(m), Ok), EncodeAll(sub.members, d.value.fields),
                    seq(|HeaderSeq(m)|, _ => true), SeqMaskAll(sub.members, d.value.fields));
    }
  }

  lemma {:induction false} AllReturn(ms: seq<Member>, input: seq<byte>)
    requires WellFormedAll(ms) && DecodeAll(ms, input).Done? && TypedAll(ms, DecodeAll(ms, input).value)
    ensures var d := DecodeAll(ms, input);
            Returns(input, d.rest, EncodeAll(ms, d.value), SeqMaskAll(ms, d.value))
    decreases ms
  {
    hide DecodeMember, EncodeMember, SeqMask, Typed, Returns, WellFormed;
    var d := DecodeAll(ms, input);
    if ms == [] {
      ReturnsPlain(input, [], input);
      assert seq(0, (_: int) => false) == [];
    } else {
      var first := DecodeMember(ms[0], input);
      var later := DecodeAll(ms[1..], first.rest);
      assert d.value[0] == first.value && d.value[1..] == later.value;
      MemberReturns(ms[0], input);
      AllReturn(ms[1..], first.rest);
      ReturnsThen(input, first.rest, d.rest, EncodeMember(ms[0], first.value), EncodeAll(ms[1..], later.value),
                  SeqMask(ms[0], first.value), SeqMaskAll(ms[1..], later.value));
    }
  }

  /** Whatever bytes were read with success, writing the value again gives the same bytes up to the
      rest, with the seq of each header zeroed. */
  lemma WritingUndoesReading(ms: seq<Member>, input: seq<byte>)
    requires WellFormedAll(ms) && DecodeAll(ms, input).Done?
    ensures var d := DecodeAll(ms, input);
            && TypedAll(ms, d.value)
            && Returns(input, d.rest, EncodeAll(ms, d.value), SeqMaskAll(ms, d.value))
  {
    hide DecodeAll, EncodeAll, TypedAll, SeqMaskAll, Returns, WellFormedAll;
    AllDecoded(ms, input);
    AllReturn(ms, input);
  }

  // ----- the bytes themselves

  /** sizeof of each scalar kind. */
  lemma ScalarSizes(s: Scalar, v: Value, input: seq<byte>)
    requires TypedWord(s, v)
    ensures var n := if s.Bool? || s.Byte? then 1 else if s.Double? then 8 else 4;
            && EncodeElem(Plain(s), v) == Written(v.bytes, Ok) && |v.bytes| == n
            && (|input| < n ==> DecodeWord(s, input) == Threw)
            && (|input| >= n && (s.Bool? ==> input[0] <= 1) ==>
                  DecodeWord(s, input) == Done(Word(input[..n]), input[n..]))
            && (|input| >= n && s.Bool? && input[0] > 1 ==> DecodeWord(s, input) == Unspecified)
  {
  }

  /** The bytes that a scalar member is given: as many as its kind has, and 0 or 1 for a bool. */
  predicate SizedFor(m: Member, b: seq<byte>) {
    && !m.isArray && m.kind.Plain?
    && match m.kind.scalar
       case Bool => |b| == 1 && b[0] <= 1
       case Byte => |b| == 1
       case Int32 => |b| == 4
       case UInt32 => |b| == 4
       case Float => |b| == 4
       case Double => |b| == 8
  }

  function Words(parts: seq<seq<byte>>): (vs: seq<Value>)
    ensures |vs| == |parts| && forall i :: 0 <= i < |vs| ==> vs[i] == Word(parts[i])
  {
    seq(|parts|, i requires 0 <= i < |parts| => Word(parts[i]))
  }

  lemma WordMember(m: Member, b: seq<byte>, rest: seq<byte>)
    requires SizedFor(m, b)
    ensures Typed(m, Word(b)) && EncodeMember(m, Word(b)) == Written(b, Ok)
    ensures DecodeMember(m, b + rest) == Done(Word(b), rest)
  {
    TakeBytesAppend(b, rest);
  }

  /** Scalar members lie one after the other in the order of the type, without padding, in both
      directions: one of each kind takes 22 bytes. */
  lemma {:induction false} ScalarsInOrder(ms: seq<Member>, parts: seq<seq<byte>>, rest: seq<byte>)
    requires |ms| == |parts| && forall i :: 0 <= i < |ms| ==> SizedFor(ms[i], parts[i])
    ensures TypedAll(ms, Words(parts)) && EncodeAll(ms, Words(parts)) == Written(Flat(parts), Ok)
    ensures DecodeAll(ms, Flat(parts) + rest) == Done(Words(parts), rest)
    decreases |ms|
  {
    hide SizedFor, DecodeMember, EncodeMember, Typed;
    if ms == [] {
      assert [] + rest == rest;
    } else {
      var later := Flat(parts[1..]);
      ScalarsInOrder(ms[1..], parts[1..], rest);
      WordMember(ms[0], parts[0], later + rest);
      assert Words(parts)[1..] == Words(parts[1..]);
      assert Flat(parts) + rest == parts[0] + (later + rest);
      assert [Word(parts[0])] + Words(parts[1..]) == Words(parts);
    }
  }

  function AsRecord(o: Outcome<seq<Value>>): Outcome<Value> {
    match o
    case Done(vs, rest) => Done(Record(vs), rest)
    case _ => o.PropagateFailure()
  }

  /** A standard header: a member called header, one of whose members is called stamp. */
  predicate CalledHeader(m: Member) {
    && m.kind.Nested? && m.name == "header"
    && exists h :: 0 <= h < |m.kind.sub.members| && m.kind.sub.members[h].name == "stamp"
  }

  lemma SameHeader(m: Member)
    ensures IsStdHeader(m) <==> CalledHeader(m)
  {
  }

  lemma SeqDigits(m: Member)
    requires m.arraySize == 0
    ensures HeaderSeq(m) == if CalledHeader(m) then [0, 0, 0, 0] else []
  {
    hide Le32, IsStdHeader, CalledHeader;
    SameHeader(m);
    Le32Digits(0);
  }

  lemma NestedWritten(m: Member, v: Value)
    requires m.kind.Nested? && !m.isArray && v.Record? && TypedAll(m.kind.sub.members, v.fields)
    ensures Typed(m, v)
    ensures EncodeMember(m, v) == Then(Written(HeaderSeq(m), Ok), EncodeAll(m.kind.sub.members, v.fields))
  {
    hide EncodeAll, TypedAll, HeaderSeq;
  }

  /** Four zero bytes are put in front of a nested message exactly if it is a standard header. */
  lemma SeqWritten(m: Member, v: Value)
    requires m.kind.Nested? && !m.isArray && m.arraySize == 0
    requires v.Record? && TypedAll(m.kind.sub.members, v.fields)
    ensures Typed(m, v)
    ensures var body := EncodeAll(m.kind.sub.members, v.fields);
            EncodeMember(m, v) == if CalledHeader(m) then Written([0, 0, 0, 0] + body.bytes, body.status) else body
  {
    hide EncodeAll, EncodeMember, Typed, TypedAll, HeaderSeq, CalledHeader;
    NestedWritten(m, v);
    SeqDigits(m);
    assert [] + EncodeAll(m.kind.sub.members, v.fields).bytes == EncodeAll(m.kind.sub.members, v.fields).bytes;
  }

  /** And four bytes, whatever they are, are dropped in front of exactly those when they are read. */
  lemma SeqRead(m: Member, input: seq<byte>)
    requires m.kind.Nested? && !m.isArray
    ensures DecodeMember(m, input)
         == if !CalledHeader(m) then AsRecord(DecodeAll(m.kind.sub.members, input))
            else if |input| < 4 then Threw
            else AsRecord(DecodeAll(m.kind.sub.members, input[4..]))
  {
    hide DecodeAll, IsStdHeader, CalledHeader;
    SameHeader(m);
  }

  lemma FirstMember(ms: seq<Member>, vs: seq<Value>)
    requires |ms| == |vs| && ms != [] && Typed(ms[0], vs[0]) && TypedAll(ms[1..], vs[1..])
    ensures TypedAll(ms, vs)
    ensures EncodeAll(ms, vs) == Then(EncodeMember(ms[0], vs[0]), EncodeAll(ms[1..], vs[1..]))
  {
    hide EncodeMember, Typed;
  }

  lemma TwoMembers(a: Member, b: Member, v: Value, w: Value)
    requires Typed(a, v) && Typed(b, w)
    ensures TypedAll([a, b], [v, w])
    ensures EncodeAll([a, b], [v, w]) == Then(EncodeMember(a, v), EncodeMember(b, w))
  {
    hide EncodeMember, Typed;
    FirstMember([b], [w]);
    assert [a, b][1..] == [b] && [v, w][1..] == [w];
    FirstMember([a, b], [v, w]);
    assert EncodeMember(b, w).bytes + [] == EncodeMember(b, w).bytes;
  }

  lemma StampExample(stamp: Member, v: Value)
    requires stamp.name == "stamp" && !stamp.isArray && stamp.arraySize == 0
    requires stamp.kind.Nested? && |stamp.kind.sub.members| == 2
    requires SizedFor(stamp.kind.sub.members[0], [1, 0, 0, 0]) && SizedFor(stamp.kind.sub.members[1], [2, 1, 0, 0])
    requires v == Record([Word([1, 0, 0, 0]), Word([2, 1, 0, 0])])
    ensures Typed(stamp, v) && EncodeMember(stamp, v) == Written([1, 0, 0, 0, 2, 1, 0, 0], Ok)
  {
    hide EncodeMember, EncodeAll, Typed, TypedAll, SizedFor;
    var parts: seq<seq<byte>> := [[1, 0, 0, 0], [2, 1, 0, 0]];
    ScalarsInOrder(stamp.kind.sub.members, parts, []);
    assert Words(parts) == v.fields;
    assert Flat(parts) == parts[0] + (parts[1] + Flat(parts[1..][1..]));
    SeqWritten(stamp, v);
    assert "stamp" != "header" by {
      assert "stamp"[0] != "header"[0];
    }
  }

  lemma TextExample(frame: Member, v: Value)
    requires frame.kind.Text? && !frame.isArray && v == Chars([0x61, 0x62])
    ensures Typed(frame, v) && EncodeMember(frame, v) == Written([2, 0, 0, 0, 0x61, 0x62], Ok)
  {
    hide Le32;
    Le32Digits(2);
  }

  /** A std_msgs header byte by byte: seq 0, stamp 1 s and 258 ns, frame id "ab". */
  lemma HeaderExample(stamp: Member, frame: Member, header: Member)
    requires stamp.name == "stamp" && !stamp.isArray && stamp.arraySize == 0
    requires stamp.kind.Nested? && |stamp.kind.sub.members| == 2
    requires SizedFor(stamp.kind.sub.members[0], [1, 0, 0, 0]) && SizedFor(stamp.kind.sub.members[1], [2, 1, 0, 0])
    requires frame.kind.Text? && !frame.isArray
    requires header.name == "header" && !header.isArray && header.arraySize == 0
    requires header.kind.Nested? && header.kind.sub.members == [stamp, frame]
    ensures var v := Record([Record([Word([1, 0, 0, 0]), Word([2, 1, 0, 0])]), Chars([0x61, 0x62])]);
            Typed(header, v)
            && EncodeMember(header, v) == Written([0, 0, 0, 0, 1, 0, 0, 0, 2, 1, 0, 0, 2, 0, 0, 0, 0x61, 0x62], Ok)
  {
    hide EncodeMember, EncodeAll, Typed, TypedAll, SizedFor, Prefixed;
    var times, id := Record([Word([1, 0, 0, 0]), Word([2, 1, 0, 0])]), Chars([0x61, 0x62]);
    StampExample(stamp, times);
    TextExample(frame, id);
    TwoMembers(stamp, frame, times, id);
    SeqWritten(header, Record([times, id]));
    assert header.kind.sub.members[0].name == "stamp";
  }

  /** Which members are refused when read, whatever the bytes: every array but a fixed one of doubles,
      and every kind not known.  Otherwise only a long string is. */
  lemma ReadRefusals(m: Member, input: seq<byte>)
    ensures m.isArray && !(m.kind == Plain(Double) && !m.upperBound && m.arraySize > 0) ==>
              DecodeMember(m, input).Refused?
    ensures !m.isArray && m.kind.Other? ==> DecodeMember(m, input).Refused?
    ensures !m.isArray && m.kind.Text? ==> (DecodeMember(m, input).Refused? <==> TooLong(input))
    ensures !m.isArray && m.kind.Text? ==> (DecodeMember(m, input).Threw? <==> TakePrefixed(input).Threw?)
    ensures !m.isArray && m.kind.Plain? ==> !DecodeMember(m, input).Refused?
  {
    hide TakePrefixed;
    TakePrefixedOutcomes(input);
  }

  lemma {:induction false} DoublesNeverRefused(n: nat, input: seq<byte>)
    ensures DecodeDoubles(n, input).Done? <==> |input| >= 8 * n
    ensures DecodeDoubles(n, input).Threw? <==> |input| < 8 * n
    decreases n
  {
    if n == 0 {
    } else if |input| >= 8 {
      DoublesNeverRefused(n - 1, input[8..]);
    }
  }

  lemma NoSeq(m: Member)
    requires m.arraySize > 0
    ensures HeaderSeq(m) == []
  {
  }

  /** How writing a member ends, by its type alone unless it nests. */
  lemma WriteRefusals(m: Member, v: Value)
    requires Typed(m, v)
    ensures m.kind.Other? ==> EncodeMember(m, v) == Written([], Refuses)
    ensures (m.kind.Plain? || m.kind.Text?) && m.isArray && (m.upperBound || m.arraySize == 0) ==>
              EncodeMember(m, v) == Written([], Throws)
    ensures (m.kind.Plain? || m.kind.Text?) && !m.isArray ==> EncodeMember(m, v).status == Ok
    ensures m.kind.Nested? && m.isArray && m.arraySize == 0 ==>
              EncodeMember(m, v) == Written(if CalledHeader(m) then [0, 0, 0, 0] else [], Ok)
    ensures m.kind.Nested? && m.isArray && m.arraySize > 0 && m.upperBound ==>
              EncodeMember(m, v) == Written([], Undefined)
    ensures !m.kind.Other? && m.isArray && m.arraySize > 0 && !m.upperBound ==>
              EncodeMember(m, v) == EncodeElems(m.kind, v.elems)
  {
    hide EncodeElems, EncodeAll, HeaderSeq, CalledHeader;
    if m.arraySize == 0 {
      SeqDigits(m);
    } else {
      NoSeq(m);
    }
    if FixedArray(m) {
      assert [] + EncodeElems(m.kind, v.elems).bytes == EncodeElems(m.kind, v.elems).bytes;
    }
  }

  /** Reading a message ends as its first member that is not read does, and is done if there is none. */
  lemma FirstDecides(ms: seq<Member>, input: seq<byte>)
    requires ms != []
    ensures var first, all := DecodeMember(ms[0], input), DecodeAll(ms, input);
            && (first.Refused? ==> all.Refused?) && (first.Threw? ==> all.Threw?)
            && (first.Unspecified? ==> all.Unspecified?)
            && (first.Done? ==>
                  var later := DecodeAll(ms[1..], first.rest);
                  && (later.Refused? ==> all.Refused?) && (later.Threw? ==> all.Threw?)
                  && (later.Unspecified? ==> all.Unspecified?)
                  && (later.Done? ==> all == Done([first.value] + later.value, later.rest)))
  {
    hide DecodeMember;
  }
}
