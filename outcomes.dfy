/** Failure-carrying values and the few pieces of Python semantics the engine
    relies on (list indexing with negative positions, `int(a / b)`). */
module Outcomes {
  import opened Arith

  datatype Option<+T> = None | Some(value: T) {
    function GetOr(default: T): T {
      match this
      case Some(v) => v
      case None => default
    }
  }

  /** The exceptions the modelled code raises, by kind. */
  datatype Error =
    | BlockOutOfRange   // ValueError 'There are only {} blocks in your image.'
    | IndexOutOfRange   // IndexError of a Python list or numpy axis
    | BandOverflow      // ValueError: the function output more bands than declared
    | MissingNoData     // ValueError: a fully masked block and no nodata value
    | ShapeMismatch     // numpy broadcast / reshape failure
    | UnknownExtension  // Warning raised for an unrecognised vector extension
    | NoMinimum         // np.iinfo / np.finfo refusing the dtype
    | UnboundName       // UnboundLocalError

  datatype Result<+T> = Ok(value: T) | Err(error: Error)

  /** Python's `s[i]`: negative positions count from the end. */
  function PyIndex<T>(s: seq<T>, i: int): (r: Result<T>)
    ensures r.Ok? <==> -|s| <= i < |s|
    ensures 0 <= i < |s| ==> r == Ok(s[i])
    ensures -|s| <= i < 0 ==> r == Ok(s[|s| + i])
  {
    if 0 <= i < |s| then Ok(s[i])
    else if -|s| <= i < 0 then Ok(s[|s| + i])
    else Err(IndexOutOfRange)
  }

  /** Python's `int(a / b)` for a positive divisor: true division, then
      truncation toward zero (Dafny's `/` rounds toward minus infinity). */
  function TruncDiv(a: int, b: int): (q: int)
    requires b > 0
    ensures a >= 0 ==> 0 <= q * b <= a < q * b + b
    ensures a < 0 ==> q * b - b < a <= q * b <= 0
  {
    if a >= 0 then
      QuotientBounds(a, b);
      a / b
    else
      NegatedQuotientBounds(a, b);
      -((-a) / b)
  }
}
