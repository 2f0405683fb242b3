/** Failure-carrying datatypes: the Kotlin code signals every rejected input by
    throwing from `require`, which the model returns as a `Failure`/`Fail` value. */
module Wrappers {

  datatype Option<+T> = None | Some(value: T)

  datatype Result<+T, +E> = Success(value: T) | Failure(error: E)

  datatype Outcome<+E> = Pass | Fail(error: E)

  /** Sequencing of two checks: the first failure wins, as with consecutive `require` calls. */
  function Then<E>(first: Outcome<E>, next: Outcome<E>): (r: Outcome<E>)
    ensures r.Pass? <==> first.Pass? && next.Pass?
    ensures first.Fail? ==> r == first
  {
    if first.Fail? then first else next
  }
}
