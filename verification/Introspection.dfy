/** Runtime descriptions of message types, as the type support libraries give them. */
module Introspection {
  /** The scalar type ids that both directions know. */
  datatype Scalar = Bool | Byte | Int32 | UInt32 | Float | Double

  datatype Kind = Plain(scalar: Scalar) | Text | Nested(sub: Description) | Other

  datatype Member = Member(
    name: string, kind: Kind, isArray: bool, upperBound: bool, arraySize: nat, offset: nat)

  datatype Description = Description(members: seq<Member>, sizeOf: nat)

  function Width(s: Scalar): nat {
    match s
    case Bool => 1
    case Byte => 1
    case Int32 => 4
    case UInt32 => 4
    case Float => 4
    case Double => 8
  }

  predicate FixedArray(m: Member) {
    m.isArray && !m.upperBound && m.arraySize > 0
  }

  /** Unbounded and bounded sequences. */
  predicate Dynamic(m: Member) {
    m.isArray && !FixedArray(m)
  }

  predicate HasStamp(d: Description) {
    exists h :: 0 <= h < |d.members| && d.members[h].name == "stamp"
  }

  /** A nested std_msgs header, which on the ROS 1 side begins with a 4-byte seq. */
  predicate IsStdHeader(m: Member) {
    m.kind.Nested? && m.name == "header" && HasStamp(m.kind.sub)
  }

  /** What the type support generator guarantees: array sizes only on arrays. */
  predicate WellFormed(m: Member)
    decreases m
  {
    (!m.isArray ==> m.arraySize == 0) && (m.kind.Nested? ==> WellFormedAll(m.kind.sub.members))
  }

  predicate WellFormedAll(ms: seq<Member>)
    decreases ms
  {
    forall i :: 0 <= i < |ms| ==> WellFormed(ms[i])
  }

  // ----- layout in memory

  /** sizeof(std::string). */
  const STRING_SIZE := 32

  function ElemSize(k: Kind): nat {
    match k
    case Plain(s) => Width(s)
    case Text => STRING_SIZE
    case Nested(sub) => sub.sizeOf
    case Other => 0
  }

  /** The memory that the conversions touch for a member. */
  function Extent(m: Member): nat {
    if Dynamic(m) then 0 else if m.isArray then m.arraySize * ElemSize(m.kind) else ElemSize(m.kind)
  }

  predicate KindFits(k: Kind)
    decreases k
  {
    k.Nested? ==> Fits(k.sub)
  }

  /** Every member lies inside its message, at every level. */
  predicate Fits(d: Description)
    decreases d
  {
    forall i :: 0 <= i < |d.members| ==>
      d.members[i].offset + Extent(d.members[i]) <= d.sizeOf && KindFits(d.members[i].kind)
  }

  predicate Apart(a: Member, b: Member) {
    a.offset + Extent(a) <= b.offset || b.offset + Extent(b) <= a.offset
  }

  predicate KindSeparate(k: Kind)
    decreases k
  {
    k.Nested? ==> Separate(k.sub)
  }

  /** No two members of a message overlap, at every level. */
  predicate Separate(d: Description)
    decreases d
  {
    && (forall i, j :: 0 <= i < j < |d.members| ==> Apart(d.members[i], d.members[j]))
    && (forall i :: 0 <= i < |d.members| ==> KindSeparate(d.members[i].kind))
  }

  /** A description as the type support generator makes it. */
  type MessageType = d: Description | WellFormedAll(d.members) && Fits(d) && Separate(d) witness Description([], 0)
}
