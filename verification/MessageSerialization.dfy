/** Checksum sums and the growable output buffer. */
module MessageSerialization {
  import opened Bytes
  import opened Outcomes
  import opened SerialStream

  /** datasum_for_check(uint16_t): both bytes added, the result cut to eight bits. */
  function DataSum16(v: u16): byte {
    (v / 256 + v) % 256
  }

  lemma Mod256(x: int, k: int)
    ensures (x + 256 * k) % 256 == x % 256
  {
  }

  lemma SumOfHalves(lo: int, hi: int)
    ensures (hi + (256 * hi + lo)) % 256 == (lo + hi) % 256
  {
    Mod256(lo + hi, hi);
  }

  /** The truncated sum is the sum of the two bytes, modulo 256. */
  lemma DataSum16Bytes(v: u16)
    ensures DataSum16(v) == (Le16(v)[0] as int + Le16(v)[1] as int) % 256
  {
    SumOfHalves(v % 256, v / 256);
  }

  /** The eight-bit sum that datasum_for_check(Ros_Stream&) is meant to give. */
  function DataSum(s: seq<byte>): byte {
    Sum(s) % 256
  }

  lemma SumStep(s: seq<byte>, i: nat)
    requires i < |s|
    ensures Sum(s[..i + 1]) == Sum(s[..i]) + s[i]
  {
    assert s[..i + 1][..i] == s[..i];
  }

  lemma NothingSums(s: seq<byte>)
    ensures Sum(s[..0]) == 0
  {
  }

  /** datasum_for_check(Ros_Stream&): reads from the head of the window, without moving the cursor. */
  method StreamDataSum(stream: RosStream) returns (sum: byte)
    requires stream.Valid() && stream.data != null
    ensures sum == DataSum(stream.data[stream.head..stream.head + stream.GetLength()])
  {
    hide Sum;
    sum := 0;
    ghost var window := stream.data[stream.head..stream.head + stream.GetLength()];
    NothingSums(window);
    for i := 0 to stream.GetLength()
      invariant sum == Sum(window[..i]) % 256
    {
      SumStep(window, i);
      sum := (sum as int + stream.data[stream.head + i]) % 256;
    }
    assert window[..|window|] == window;
  }

  /** A vector with a write position.  Resizing replaces the storage, as std::vector does. */
  class WriteBuffer {
    var mem: array<byte>
    var writeLen: nat

    ghost predicate Valid()
      reads this
    {
      writeLen <= mem.Length
    }

    function Written(): seq<byte>
      requires Valid()
      reads this, mem
    {
      mem[..writeLen]
    }

    constructor (len: nat)
      ensures Valid() && fresh(mem) && mem.Length == len && writeLen == 0
    {
      mem := new byte[len](_ => 0);
      writeLen := 0;
    }

    method EnsureSize(size: nat)
      requires Valid()
      modifies `mem
      ensures Valid() && Written() == old(Written())
      ensures mem == old(mem) || fresh(mem)
      ensures mem.Length == if size < old(mem.Length) then old(mem.Length) else size
    {
      if size < mem.Length {
        return;
      }
      var bigger := new byte[size](_ => 0);
      forall i | 0 <= i < mem.Length {
        bigger[i] := mem[i];
      }
      assert bigger[..writeLen] == mem[..writeLen];
      mem := bigger;
    }

    /** Append n bytes of src; None stands for a null address, refused with an exception. */
    method BufferWrite(src: Option<seq<byte>>, n: nat) returns (ok: bool)
      requires Valid()
      requires src.Some? ==> n <= |src.value|
      modifies this, mem
      ensures Valid() && (mem == old(mem) || fresh(mem))
      ensures ok <==> n == 0 || src.Some?
      ensures Written() == if n == 0 || src == None then old(Written()) else old(Written()) + src.value[..n]
      ensures n == 0 ==> mem == old(mem)
      ensures ok && n > 0 ==>
                mem.Length == if old(mem.Length) < old(writeLen) + n then old(writeLen) + n else old(mem.Length)
    {
      if n == 0 {
        return true;
      }
      if src == None {
        return false;
      }
      if mem.Length - writeLen < n {
        EnsureSize(writeLen + n);
      }
      ghost var before := Written();
      forall i | 0 <= i < n {
        mem[writeLen + i] := src.value[i];
      }
      assert forall i :: 0 <= i < n ==> mem[writeLen + i] == src.value[..n][i];
      assert mem[..writeLen] == before;
      assert mem[writeLen..writeLen + n] == src.value[..n];
      writeLen := writeLen + n;
      assert mem[..writeLen] == mem[..writeLen - n] + mem[writeLen - n..writeLen];
      ok := true;
    }

    /** The size of a vector of some size once its first written bytes are used. */
    static function Grown(size: nat, written: nat): nat {
      if size < written then written else size
    }

    /** buffer_write of a whole value, whose address is never null. */
    method Put(value: seq<byte>)
      requires Valid()
      modifies this, mem
      ensures Valid() && (mem == old(mem) || fresh(mem))
      ensures Written() == old(Written()) + value
      ensures mem.Length == Grown(old(mem.Length), writeLen)
    {
      var _ := BufferWrite(Some(value), |value|);
      assert value[..|value|] == value;
      assert writeLen == |Written()|;
    }
  }
}
