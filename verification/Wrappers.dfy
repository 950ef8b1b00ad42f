/** The optional value used where the program has a pointer that may be null or stops with a
fatal error, the bytes of its buffers and streams, and facts about sequences. */
module Wrappers {
  datatype Option<+T> = None | Some(value: T)
  {
    predicate IsFailure() { None? }

    function PropagateFailure<U>(): Option<U>
      requires None?
    {
      None
    }

    function Extract(): T
      requires Some?
    {
      value
    }
  }

  type byte = x: int | 0 <= x < 256

  /** The size of a buffer, and with it of the largest packet. */
  const OMRPC_IO_BUF_SIZE: nat := 1024

  /** The slots of a compiled expression. */
  const NINF_EXPRESSION_LENGTH: nat := 20

  lemma Associate<T>(a: seq<T>, b: seq<T>, c: seq<T>)
    ensures (a + b) + c == a + (b + c)
  {
  }

  lemma Nil<T>(s: seq<T>)
    ensures s + [] == s && [] + s == s
  {
  }

  /** One element moves from what is left to what is done. */
  lemma Shift<T>(out: seq<T>, left: seq<T>)
    requires left != []
    ensures (out + [left[0]]) + left[1..] == out + left
  {
  }

  lemma Finished<T>(out: seq<T>, left: seq<T>)
    ensures left == [] ==> out + left == out
  {
  }

  lemma SamePrefix<T>(a: seq<T>, b: seq<T>, c: seq<T>, d: seq<T>)
    requires a + b == c + d && |a| == |c|
    ensures a == c && b == d
  {
    assert a == (a + b)[..|a|] && b == (a + b)[|a|..];
    assert c == (c + d)[..|c|] && d == (c + d)[|c|..];
  }
}
