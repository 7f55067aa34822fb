/** An optional value, used wherever the monitor works with `null`, `undefined`,
    a failed regular-expression match or a missing state file. */
module Options {

  datatype Option<+T> = None | Some(value: T) {

    /** The carried value, or `fallback` when there is none. */
    function GetOr(fallback: T): T {
      match this
      case Some(v) => v
      case None => fallback
    }
  }

  predicate IsSome<T>(o: Option<T>) {
    o.Some?
  }

  /** Every element wrapped in `Some`, order kept. */
  function Wrap<T>(s: seq<T>): (r: seq<Option<T>>)
    ensures |r| == |s|
    ensures forall i :: 0 <= i < |s| ==> r[i] == Some(s[i])
  {
    if |s| == 0 then [] else [Some(s[0])] + Wrap(s[1..])
  }
}
