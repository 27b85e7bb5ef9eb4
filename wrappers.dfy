/** Failure-compatible results shared by every module of the model. */
module Wrappers {

  /** A value that may be missing (a regular expression that did not match, a reference
      that does not parse). */
  datatype Option<+T> = None | Some(value: T)

  /** What a JavaScript call of the source ends with: it returns a value, it throws an
      error with a message, or it never returns (an endless loop), which the model observes
      as running out of fuel. A recursion too deep for the call stack also ends here,
      although the source would throw a RangeError for it. */
  datatype Outcome<+T> = Done(value: T) | Thrown(message: string) | Stuck
  {
    predicate IsFailure() { !Done? }

    function PropagateFailure<U>(): Outcome<U>
      requires IsFailure()
    {
      if Thrown? then Thrown(message) else Stuck
    }

    function Extract(): T
      requires Done?
    {
      value
    }
  }

  /** What reading a property of the `null` a failed regular-expression match yields throws. */
  const NULL_ERROR: string := "TypeError: cannot read properties of null"

  /** Taking one more element of a sequence appends that element. */
  lemma TakeOneMore<T>(s: seq<T>, i: nat)
    requires i < |s|
    ensures s[..i + 1] == s[..i] + [s[i]]
  {
  }

  /** Taking all of a sequence gives the sequence. */
  lemma TakeAll<T>(s: seq<T>)
    ensures s[..|s|] == s
  {
  }

  /** Concatenation regroups. */
  lemma AppendAssoc<T>(a: seq<T>, b: seq<T>, c: seq<T>)
    ensures (a + b) + c == a + (b + c)
  {
  }

  /** Appending nothing changes nothing. */
  lemma AppendEmpty<T>(a: seq<T>, e: seq<T>)
    requires e == []
    ensures a + e == a
  {
  }
}
