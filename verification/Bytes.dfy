/** Bytes, the little-endian integers of the wire, and byte sums. */
module Bytes {
  type byte = x: int | 0 <= x < 256
  type u16 = x: int | 0 <= x < 0x1_0000
  type u32 = x: int | 0 <= x < 0x1_0000_0000
  type i32 = x: int | -0x8000_0000 <= x < 0x8000_0000

  function Le16(v: u16): (b: seq<byte>)
    ensures |b| == 2
  {
    [v % 256, v / 256]
  }

  lemma Le16Small(v: byte)
    ensures Le16(v) == [v, 0]
  {
  }

  function U16(b: seq<byte>): u16
    requires |b| == 2
  {
    b[0] as int + 256 * b[1] as int
  }

  function Le32(v: u32): (b: seq<byte>)
    ensures |b| == 4
  {
    Le16(v % 0x1_0000) + Le16(v / 0x1_0000)
  }

  function U32(b: seq<byte>): u32
    requires |b| == 4
  {
    U16(b[..2]) as int + 0x1_0000 * U16(b[2..]) as int
  }

  /** Two's complement, as memcpy into an int32_t gives it. */
  function LeI32(v: i32): seq<byte> {
    Le32(if v < 0 then v + 0x1_0000_0000 else v)
  }

  function I32(b: seq<byte>): i32
    requires |b| == 4
  {
    var u := U32(b);
    if u < 0x8000_0000 then u else u - 0x1_0000_0000
  }

  lemma U16Inverse(v: u16)
    ensures U16(Le16(v)) == v
  {
  }

  lemma Le16Inverse(b: seq<byte>)
    requires |b| == 2
    ensures Le16(U16(b)) == b
  {
    assert b == [b[0], b[1]];
  }

  lemma U32Inverse(v: u32)
    ensures U32(Le32(v)) == v
  {
    var b := Le32(v);
    assert b[..2] == Le16(v % 0x1_0000) && b[2..] == Le16(v / 0x1_0000);
    U16Inverse(v % 0x1_0000);
    U16Inverse(v / 0x1_0000);
  }

  lemma Halves(lo: u16, hi: u16)
    ensures (lo as int + 0x1_0000 * hi as int) % 0x1_0000 == lo
    ensures (lo as int + 0x1_0000 * hi as int) / 0x1_0000 == hi
  {
  }

  lemma Le32Inverse(b: seq<byte>)
    requires |b| == 4
    ensures Le32(U32(b)) == b
  {
    Le16Inverse(b[..2]);
    Le16Inverse(b[2..]);
    Halves(U16(b[..2]), U16(b[2..]));
    assert b == b[..2] + b[2..];
  }

  lemma I32Inverse(v: i32)
    ensures I32(LeI32(v)) == v
  {
    U32Inverse(if v < 0 then v + 0x1_0000_0000 else v);
  }

  lemma HalfDigits(v: int)
    ensures v % 0x1_0000 % 0x100 == v % 0x100
    ensures v % 0x1_0000 / 0x100 == v / 0x100 % 0x100
  {
  }

  lemma HighDigits(v: u32)
    ensures v / 0x1_0000 / 0x100 == v / 0x100_0000
  {
  }

  /** The byte order of 32-bit integers: low byte first. */
  lemma Le32Digits(v: u32)
    ensures Le32(v) == [v % 0x100, v / 0x100 % 0x100, v / 0x1_0000 % 0x100, v / 0x100_0000]
  {
    HalfDigits(v);
    HighDigits(v);
  }

  lemma U32Digits(b: seq<byte>)
    requires |b| == 4
    ensures U32(b) == b[0] as int + 0x100 * b[1] as int + 0x1_0000 * b[2] as int + 0x100_0000 * b[3] as int
  {
    assert b[..2][0] == b[0] && b[..2][1] == b[1] && b[2..][0] == b[2] && b[2..][1] == b[3];
  }

  /** Two's complement: the sign is in the last byte. */
  lemma I32Digits(b: seq<byte>)
    requires |b| == 4
    ensures I32(b) == U32(b) - if b[3] < 0x80 then 0 else 0x1_0000_0000
  {
    hide U32;
    U32Digits(b);
  }

  /** The sum of the bytes, without any truncation. */
  function Sum(s: seq<byte>): (n: nat) {
    if s == [] then 0 else Sum(s[..|s| - 1]) + s[|s| - 1]
  }

  lemma {:induction false} SumAppend(a: seq<byte>, b: seq<byte>)
    ensures Sum(a + b) == Sum(a) + Sum(b)
    decreases |b|
  {
    if b == [] {
      assert a + b == a;
    } else {
      assert (a + b)[..|a + b| - 1] == a + b[..|b| - 1];
      SumAppend(a, b[..|b| - 1]);
    }
  }

  lemma SumOne(x: byte)
    ensures Sum([x]) == x
  {
    assert [x][..0] == [];
  }

  /** One byte changed. */
  lemma SumUpdate(s: seq<byte>, i: nat, x: byte)
    requires i < |s|
    ensures Sum(s[i := x]) == Sum(s) - s[i] + x
  {
    assert s == s[..i] + [s[i]] + s[i + 1..];
    assert s[i := x] == s[..i] + [x] + s[i + 1..];
    SumAppend(s[..i] + [s[i]], s[i + 1..]);
    SumAppend(s[..i] + [x], s[i + 1..]);
    SumAppend(s[..i], [s[i]]);
    SumAppend(s[..i], [x]);
    SumOne(s[i]);
    SumOne(x);
  }

  /** Concatenation of a list of byte strings. */
  function Flat(parts: seq<seq<byte>>): seq<byte> {
    if parts == [] then [] else parts[0] + Flat(parts[1..])
  }

  lemma {:induction false} FlatAppend(a: seq<seq<byte>>, b: seq<seq<byte>>)
    ensures Flat(a + b) == Flat(a) + Flat(b)
  {
    if a == [] {
      assert a + b == b;
    } else {
      assert (a + b)[0] == a[0] && (a + b)[1..] == a[1..] + b;
      FlatAppend(a[1..], b);
      assert a[0] + (Flat(a[1..]) + Flat(b)) == a[0] + Flat(a[1..]) + Flat(b);
    }
  }

  lemma FlatSnoc(a: seq<seq<byte>>, x: seq<byte>)
    ensures Flat(a + [x]) == Flat(a) + x
  {
    FlatAppend(a, [x]);
    assert Flat([x]) == x;
  }

  /** A slice of a concatenation that stays inside the first part. */
  lemma SliceOfConcat(a: seq<byte>, b: seq<byte>, i: nat, j: nat)
    requires i <= j <= |a|
    ensures (a + b)[i..j] == a[i..j]
  {
  }

  /** A slice of a prefix is the slice of the whole. */
  lemma SliceOfTake(s: seq<byte>, n: nat, i: nat, j: nat)
    requires i <= j <= n <= |s|
    ensures s[..n][i..j] == s[i..j]
  {
  }
}
