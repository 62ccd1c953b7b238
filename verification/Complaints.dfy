/** Complaints in the order in which a program raises them: of several, the first one counts. */
module Complaints {
  import opened Prelude

  function When<E>(broken: bool, error: E): Option<E> {
    if broken then Some(error) else None
  }

  function Then<E>(first: Option<E>, next: Option<E>): Option<E> {
    if first.Some? then first else next
  }

  /** What a computation complains of. */
  function Of<T, E>(r: Result<T, E>): Option<E> {
    if r.Err? then Some(r.error) else None
  }
}
