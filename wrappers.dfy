/** Optional values, results and pass/fail outcomes shared by the model, and
    the search by name that every lookup of the model uses. */
module Wrappers {

  datatype Option<+T> = None | Some(value: T)

  datatype Result<+R, +E> = Ok(value: R) | Err(error: E)

  /** The outcome of a step that either completes or aborts with an error. */
  datatype Outcome<+E> = Pass | Fail(error: E)

  /** The position of the first occurrence of `name` in `names`, if any. */
  function FindName(names: seq<string>, name: string): (r: Option<nat>)
    ensures r.Some? ==> r.value < |names| && names[r.value] == name
    ensures r.Some? ==> forall j :: 0 <= j < r.value ==> names[j] != name
    ensures r.None? <==> forall j :: 0 <= j < |names| ==> names[j] != name
  {
    if |names| == 0 then None
    else if names[0] == name then Some(0)
    else match FindName(names[1..], name)
      case None => None
      case Some(j) => Some(j + 1)
  }
}
