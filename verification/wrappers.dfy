/** Failure-compatible result types standing in for Java's null and exceptions. */
module Wrappers {

  /** `None` is Java's `null`. */
  datatype Option<+T> = None | Some(value: T) {

    predicate IsFailure() {
      None?
    }

    function PropagateFailure<U>(): Option<U>
      requires None?
    {
      None
    }

    function Extract(): T
      requires Some?
    {
      value
    }

    /** `Map.getOrDefault` */
    function GetOr(default: T): T {
      match this
      case Some(v) => v
      case None => default
    }
  }

  /** The exceptions the modelled code throws or lets escape. */
  datatype Error =
    | IllegalArgument(reason: string)   // java.lang.IllegalArgumentException
    | IllegalState(reason: string)      // java.lang.IllegalStateException
    | Security(reason: string)          // java.lang.SecurityException
    | NullReference                     // a null dereference
    | NumberFormat                      // java.lang.NumberFormatException
    | BadTag                            // javax.crypto.AEADBadTagException

  /** A value, or the exception that replaced it. */
  datatype Result<+T> = Ok(value: T) | Err(error: Error) {

    predicate IsFailure() {
      Err?
    }

    function PropagateFailure<U>(): Result<U>
      requires Err?
    {
      Err(error)
    }

    function Extract(): T
      requires Ok?
    {
      value
    }
  }

  /** Map lookup as `Map.get`: `None` for an absent key. */
  function Lookup<K, V>(m: map<K, V>, k: K): (r: Option<V>)
    ensures r.Some? <==> k in m
    ensures r.Some? ==> r.value == m[k]
  {
    if k in m then Some(m[k]) else None
  }
}
