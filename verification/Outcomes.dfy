/** Results of reading from a byte string, with the source's ways of not returning a value. */
module Outcomes {
  import opened Bytes

  datatype Option<+T> = None | Some(value: T)

  /** Refused: the source returned false.  Threw: an exception left the function.
      Unspecified: C++ gives the run no meaning (a bool made from a byte other than 0 and 1). */
  datatype Outcome<+T> =
    | Done(value: T, rest: seq<byte>)
    | Refused
    | Threw
    | Unspecified
  {
    predicate IsFailure() {
      !Done?
    }

    function PropagateFailure<U>(): Outcome<U>
      requires IsFailure()
    {
      match this
      case Refused => Refused
      case Threw => Threw
      case Unspecified => Unspecified
    }

    function Extract(): (T, seq<byte>)
      requires Done?
    {
      (value, rest)
    }
  }

  /** Read n bytes off the front, as operator>> does for a value of sizeof n. */
  function TakeBytes(input: seq<byte>, n: nat): Outcome<seq<byte>> {
    if n <= |input| then Done(input[..n], input[n..]) else Threw
  }

  /** Read into a std::string of size n: the source throws on size 0. */
  function TakeText(input: seq<byte>, n: nat): Outcome<seq<byte>> {
    if n == 0 then Threw else TakeBytes(input, n)
  }

  lemma TakeBytesAppend(a: seq<byte>, b: seq<byte>)
    ensures TakeBytes(a + b, |a|) == Done(a, b)
  {
    assert (a + b)[..|a|] == a && (a + b)[|a|..] == b;
  }
}
