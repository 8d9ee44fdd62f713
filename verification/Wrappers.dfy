/** The usual optional value and failure results. */
module Wrappers {

  datatype Option<+T> = None | Some(value: T) {
    predicate IsFailure() {
      None?
    }

    function PropagateFailure<U>(): Option<U>
      requires None?
    {
      None
    }

    function Extract(): T
      requires Some?
    {
      value
    }
  }

  datatype Result<+T> = Ok(value: T) | Err {
    predicate IsFailure() {
      Err?
    }

    function PropagateFailure<U>(): Result<U>
      requires Err?
    {
      Err
    }

    function Extract(): T
      requires Ok?
    {
      value
    }
  }

  /** What remains to be read appended to what was read. */
  function Joined<T>(out: seq<T>, rest: Option<seq<T>>): Option<seq<T>> {
    if rest.Some? then Some(out + rest.value) else None
  }

  lemma JoinedNothing<T>(rest: Option<seq<T>>)
    ensures Joined([], rest) == rest
  {
    if rest.Some? {
      assert [] + rest.value == rest.value;
    }
  }

  lemma JoinedMore<T>(out: seq<T>, x: T, rest: Option<seq<T>>)
    ensures Joined(out, if rest.Some? then Some([x] + rest.value) else None) == Joined(out + [x], rest)
  {
    if rest.Some? {
      assert out + ([x] + rest.value) == (out + [x]) + rest.value;
    }
  }
}
