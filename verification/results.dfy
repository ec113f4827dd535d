/**
 * The failures the recaptioning code can raise, and a Result type that
 * carries either a value or one of them. Each error names the Python
 * exception it stands for.
 */
module Results {

  datatype Error =
    | PixelOutOfRange   // IndexError: `getpixel` asked for a pixel past the frame
    | CaptionTooLong    // ValueError: the measured caption is wider than the frame
    | NoGifsFetched     // RuntimeError: the sampling loop pooled no gif post
    | EmptyRandomRange  // ValueError: `randint(0, -1)` on an empty gif list

  datatype Result<+T> = Ok(value: T) | Err(error: Error) {

    predicate IsFailure() {
      Err?
    }

    function PropagateFailure<U>(): Result<U>
      requires Err?
    {
      Err(error)
    }

    function Extract(): T
      requires Ok?
    {
      value
    }
  }

  /**
   * Runs a sequence of steps in order and stops at the first failure: all
   * values when every step succeeds, otherwise the first step's error.
   */
  function Collect<T>(rs: seq<Result<T>>): (r: Result<seq<T>>)
    ensures r.Ok? <==> forall i :: 0 <= i < |rs| ==> rs[i].Ok?
    ensures r.Ok? ==> |r.value| == |rs| && forall i :: 0 <= i < |rs| ==> r.value[i] == rs[i].value
    ensures r.Err? ==> exists i :: (0 <= i < |rs| && rs[i] == Err(r.error)
      && forall j :: 0 <= j < i ==> rs[j].Ok?)
  {
    if |rs| == 0 then
      Ok([])
    else if rs[0].Err? then
      Err(rs[0].error)
    else
      var rest := Collect(rs[1..]);
      if rest.Err? then
        var k :| 0 <= k < |rs| - 1 && rs[1..][k] == Err(rest.error)
          && forall j :: 0 <= j < k ==> rs[1..][j].Ok?;
        assert rs[k + 1] == Err(rest.error);
        Err(rest.error)
      else
        Ok([rs[0].value] + rest.value)
  }
}
