/** Failure-compatible optional values. A `None` stands for a Rust panic (an `unwrap` of an
    error, an arithmetic overflow or underflow, an index out of bounds) in the modelled code. */
module Options {

  datatype Option<+T> = None | Some(value: T) {

    predicate IsFailure() {
      None?
    }

    function PropagateFailure<U>(): Option<U>
      requires None?
    {
      None
    }

    function Extract(): T
      requires Some?
    {
      value
    }

    /** Rust's `unwrap_or`. */
    function GetOr(default: T): T {
      match this
      case Some(v) => v
      case None => default
    }
  }

  /** Prefix the string inside `o` with `s`; a failure stays a failure. */
  function Prepend(s: string, o: Option<string>): (r: Option<string>)
    ensures r.Some? <==> o.Some?
    ensures s == "" ==> r == o
  {
    match o
    case Some(t) => assert s == "" ==> s + t == t; Some(s + t)
    case None => None
  }

  lemma PrependTwice(s: string, t: string, o: Option<string>)
    ensures Prepend(s, Prepend(t, o)) == Prepend(s + t, o)
  {
    if o.Some? {
      assert s + (t + o.value) == (s + t) + o.value;
    }
  }
}
