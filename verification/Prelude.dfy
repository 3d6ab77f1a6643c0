/** Failure-compatible datatypes shared by every component. */
module Prelude {

  datatype Option<+T> = None | Some(value: T) {
    predicate IsFailure() {
      None?
    }

    function PropagateFailure<U>(): Option<U>
      requires None?
    {
      None
    }

    function Extract(): T
      requires Some?
    {
      value
    }
  }

  /** The Rust hull reports failures as strings; only the fact of failure is modelled. */
  datatype Result<+T> = Ok(value: T) | Err {
    predicate IsFailure() {
      Err?
    }

    function PropagateFailure<U>(): Result<U>
      requires Err?
    {
      Err
    }

    function Extract(): T
      requires Ok?
    {
      value
    }
  }

  /** Moving the first element of one list to the end of the list before it. */
  lemma SeqRegroup<T>(xs: seq<T>, ys: seq<T>)
    requires ys != []
    ensures xs + ys == xs + [ys[0]] + ys[1..]
  {
  }
}
