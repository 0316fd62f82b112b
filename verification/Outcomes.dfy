/** Results of the fail-closed tools: every check either yields a value or denies.
    The tools' denials differ only in their message text, so all are one constructor. */
module Outcomes {
  datatype Outcome<+T> = Accepted(value: T) | Denied {
    predicate IsFailure() {
      Denied?
    }

    function PropagateFailure<U>(): Outcome<U>
      requires Denied?
    {
      Denied
    }

    function Extract(): T
      requires Accepted?
    {
      value
    }
  }

  /** What was done already, in front of what is still to come. */
  function Prepend<T>(done: seq<T>, r: Outcome<seq<T>>): Outcome<seq<T>> {
    match r
    case Accepted(rest) => Accepted(done + rest)
    case Denied => Denied
  }

  datatype Option<+T> = None | Some(value: T)
}
