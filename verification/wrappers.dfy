/** Values standing in for JavaScript's `null`/`undefined` and for thrown errors. */
module Wrappers {

  /** A value that may be absent (`null` or `undefined` in the source). */
  datatype Option<+T> = None | Some(value: T) {

    /** The carried value, or `default` when absent (the source's `x || default`). */
    function GetOr(default: T): T {
      match this
      case Some(v) => v
      case None => default
    }
  }

  /** The outcome of a step that may throw: a value, or the thrown error's message. */
  datatype Result<+T> = Ok(value: T) | Err(message: string)

  /**
    Running steps one after the other until one throws: all the values, in
    order, when none throws; otherwise the error of the first that throws.
  */
  function AllOk<T>(rs: seq<Result<T>>): (r: Result<seq<T>>)
    ensures r.Ok? <==> forall i :: 0 <= i < |rs| ==> rs[i].Ok?
    ensures r.Ok? ==> |r.value| == |rs| && forall i :: 0 <= i < |rs| ==> r.value[i] == rs[i].value
    ensures r.Err? ==> exists i :: && 0 <= i < |rs| && rs[i] == Err(r.message)
                                  && forall j :: 0 <= j < i ==> rs[j].Ok?
  {
    if |rs| == 0 then Ok([])
    else
      match rs[0]
      case Err(m) => Err(m)
      case Ok(v) =>
        var rest := AllOk(rs[1..]);
        assert forall j :: 1 <= j < |rs| ==> rs[j] == rs[1..][j - 1];
        match rest
        case Err(m) => Err(m)
        case Ok(vs) => Ok([v] + vs)
  }
}
