/** Outcome of an operation whose C++ counterpart has undefined behaviour on
    some inputs (an index of -1, a read from an empty vector, a table read
    past its end, a float converted to an integer type that cannot hold it).
    The model reports those inputs instead of excluding them. */
module Results {

  datatype Error =
    | EmptyNoteList                 // a track's `notes[0]` is read while empty
    | EmptyEventList                // a source's `events[0]` is read while empty
    | NoteIndexBelowZero            // the optimiser's note cursor reaches -1
    | BadSourceIndex(index: int)    // a source index that is neither -1 nor valid
    | EmptySource(index: int)       // a bound source with no events reaches the encoder
    | TrackCount(count: nat)        // bit_mask_from_value has no entry for this count
    | ZeroDuration                  // a play percentage divides by a combined duration of 0
    | ZeroResolution                // the clock base divides 48 by 0 ticks per quarter
    | ByteOutOfRange                // a float truncates to a value no byte can hold

  datatype Result<+T> = Ok(value: T) | Fail(error: Error) {
    predicate IsFailure() {
      Fail?
    }

    function PropagateFailure<U>(): Result<U>
      requires Fail?
    {
      Fail(error)
    }

    function Extract(): T
      requires Ok?
    {
      value
    }
  }

  /** `f` applied to each of `xs`, or the first failure among the outcomes. */
  function CollectEach<X, T>(xs: seq<X>, f: X -> Result<T>): (r: Result<seq<T>>)
    ensures r.Ok? <==> forall k :: 0 <= k < |xs| ==> f(xs[k]).Ok?
    ensures r.Ok? ==> |r.value| == |xs| && forall k :: 0 <= k < |xs| ==> f(xs[k]) == Ok(r.value[k])
  {
    var rs := seq(|xs|, k requires 0 <= k < |xs| => f(xs[k]));
    assert forall k :: 0 <= k < |xs| ==> rs[k] == f(xs[k]);
    Collect(rs)
  }

  /** The values of a list of outcomes, or the first failure among them. */
  function Collect<T>(rs: seq<Result<T>>): (r: Result<seq<T>>)
    ensures r.Ok? <==> forall k :: 0 <= k < |rs| ==> rs[k].Ok?
    ensures r.Ok? ==> |r.value| == |rs| && forall k :: 0 <= k < |rs| ==> r.value[k] == rs[k].value
    ensures r.Fail? ==> exists k :: 0 <= k < |rs| && rs[k].Fail? && r.error == rs[k].error
  {
    if |rs| == 0 then Ok([])
    else
      var first :- rs[0];
      var rest :- Collect(rs[1..]);
      assert forall k :: 1 <= k < |rs| ==> rs[k] == rs[1..][k - 1];
      Ok([first] + rest)
  }
}
