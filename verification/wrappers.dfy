/** Option and Result, the error-carrying values used throughout the model. */
module Wrappers {

  datatype Option<+T> = None | Some(value: T)

  datatype Result<+R, +E> = Success(value: R) | Failure(error: E)

  /** Some(the values) when every entry is present; None as soon as one is missing. */
  function AllPresent<T>(rs: seq<Option<T>>): (r: Option<seq<T>>)
    ensures r.Some? <==> forall i :: 0 <= i < |rs| ==> rs[i].Some?
    ensures r.Some? ==> |r.value| == |rs| && forall i :: 0 <= i < |rs| ==> rs[i] == Some(r.value[i])
  {
    if rs == [] then Some([])
    else match rs[0]
      case None => None
      case Some(x) =>
        match AllPresent(rs[1..])
        case None => None
        case Some(xs) => Some([x] + xs)
  }
}
