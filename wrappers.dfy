/** Helpers shared by every module: the optional value used for Ruby's `nil`
    and for answers that may be missing, and regrouping of concatenations. */
module Wrappers {
  datatype Option<+T> = None | Some(value: T) {
    /** The held value, or `default` when there is none (Ruby's `x || default`). */
    function GetOr(default: T): T {
      match this
      case Some(v) => v
      case None => default
    }
  }

  /** Concatenation regroups freely. */
  lemma Assoc<T>(a: seq<T>, b: seq<T>, c: seq<T>)
    ensures a + (b + c) == a + b + c
  {
  }

  lemma Assoc4<T>(a: seq<T>, b: seq<T>, c: seq<T>, d: seq<T>)
    ensures a + b + c + d == a + (b + (c + d)) == a + (b + c + d)
  {
    Assoc(b, c, d);
    Assoc(a, b, c + d);
    Assoc(a + b, c, d);
  }
}
