/** Optional values and results shared by every module of the model. */
module Wrappers {
  /** A value that may be absent: JavaScript `null`/`undefined`, or `NaN` where a number failed to parse. */
  datatype Option<+T> = None | Some(value: T)

  /** The outcome of an operation that can throw: `Err` carries the thrown error. */
  datatype Result<+T, +E> = Ok(value: T) | Err(error: E)

  /** `xs.map(f)` where `f` may throw: the first element that fails ends it with that error. */
  function MapAll<A, B, E>(xs: seq<A>, f: A -> Result<B, E>): Result<seq<B>, E> {
    if xs == [] then Ok([])
    else
      match f(xs[0])
      case Err(e) => Err(e)
      case Ok(y) =>
        match MapAll(xs[1..], f)
        case Err(e) => Err(e)
        case Ok(rest) => Ok([y] + rest)
  }

  /** The map succeeds exactly when `f` succeeds on every element, and then maps each in place. */
  lemma {:induction false} MapAllEach<A, B, E>(xs: seq<A>, f: A -> Result<B, E>)
    ensures MapAll(xs, f).Ok? <==> forall i | 0 <= i < |xs| :: f(xs[i]).Ok?
    ensures MapAll(xs, f).Ok? ==>
      && |MapAll(xs, f).value| == |xs|
      && forall i | 0 <= i < |xs| :: MapAll(xs, f).value[i] == f(xs[i]).value
  {
    if xs != [] {
      var tail := xs[1..];
      MapAllEach(tail, f);
      assert forall i | 1 <= i < |xs| :: xs[i] == tail[i - 1];
    }
  }
}
