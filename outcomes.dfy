/** Values shared by the whole model.  The C++ program reports its failures by
    throwing std::out_of_range (from the extended logarithm and from
    std::map::at); the model returns them as values instead. */
module Outcomes {

  datatype Option<+T> = None | Some(value: T)

  /** The ways an operation of the model can fail. */
  datatype Error =
    | NegativeInput     // eln of a negative number: out_of_range("Negative Input Error")
    | MissingEntry      // std::map::at on a key that was never inserted: out_of_range
    | NullBackPointer   // the Viterbi walk reaches a node whose back-pointer is null
    | ZeroStateCount    // a count ratio whose denominator is zero (IEEE NaN/inf in C++)

  datatype Result<+T> = Ok(value: T) | Err(error: Error)

  /** The elements of xs in reverse order (the C++ code reverses strings and
      walks with rbegin/rend). */
  function Reverse<T>(xs: seq<T>): (r: seq<T>)
    ensures |r| == |xs|
    ensures forall i :: 0 <= i < |xs| ==> r[i] == xs[|xs| - 1 - i]
  {
    if xs == [] then [] else [xs[|xs| - 1]] + Reverse(xs[..|xs| - 1])
  }
}
