/** Failure-aware wrappers for everything the skill receives from the outside world.
    A network request, a JSON field that may be absent, or a parser run is never
    performed here: the model takes what it delivered as an input of these types. */
module Outcomes {

  /** A JSON field or request value that may be missing (`undefined` / `null`). */
  datatype Option<+T> = None | Some(value: T)

  /** The settled state of a promise: it resolved with a value, or it rejected.
      The error object itself is only ever logged, so it carries no payload. */
  datatype Outcome<+T> = Ok(value: T) | Fail

  /** Applies `f` to every element in order; the first failure aborts the whole
      run, as a throw inside a `forEach` does. */
  function MapAll<A, B>(f: A -> Outcome<B>, s: seq<A>): (r: Outcome<seq<B>>)
    ensures r.Fail? <==> exists k :: 0 <= k < |s| && f(s[k]).Fail?
    ensures r.Ok? ==> |r.value| == |s| && forall k :: 0 <= k < |s| ==> f(s[k]) == Ok(r.value[k])
  {
    if s == [] then Ok([])
    else match f(s[0])
      case Fail => Fail
      case Ok(b) =>
        var rest := MapAll(f, s[1..]);
        if rest.Fail? then
          var k :| 0 <= k < |s[1..]| && f(s[1..][k]).Fail?;
          assert f(s[k + 1]).Fail?;
          Fail
        else
          Ok([b] + rest.value)
  }
}
