/** Option and Result: the error paths of the Python code (`None` returns and raised exceptions). */
module Wrappers {
  datatype Option<+T> = None | Some(value: T)

  /** `Err` stands for a Python exception; its text names the exception. */
  datatype Result<+T> = Ok(value: T) | Err(error: string)

  /** The first `Ok` of `f` over `xs`, in order, or `None`. */
  function FirstOk<S, T>(xs: seq<S>, f: S -> Result<T>): Option<T>
    decreases |xs|
  {
    if xs == [] then None
    else if f(xs[0]).Ok? then Some(f(xs[0]).value)
    else FirstOk(xs[1..], f)
  }

  /** There is a first `Ok` exactly when some element gives one, and every earlier element erred. */
  lemma {:induction false} FirstOkSpec<S, T>(xs: seq<S>, f: S -> Result<T>)
    ensures FirstOk(xs, f).Some? <==> exists k :: 0 <= k < |xs| && f(xs[k]).Ok?
    ensures FirstOk(xs, f).Some? ==>
      exists k :: 0 <= k < |xs| && f(xs[k]) == Ok(FirstOk(xs, f).value) && forall j :: 0 <= j < k ==> f(xs[j]).Err?
    decreases |xs|
  {
    if xs != [] && f(xs[0]).Err? {
      var tail := xs[1..];
      FirstOkSpec(tail, f);
      assert forall k :: 1 <= k < |xs| ==> xs[k] == tail[k - 1];
      if FirstOk(tail, f).Some? {
        var k :| 0 <= k < |tail| && f(tail[k]) == Ok(FirstOk(tail, f).value) && forall j :: 0 <= j < k ==> f(tail[j]).Err?;
        assert xs[k + 1] == tail[k];
      }
    }
  }
}
