/** Shared building blocks of the OSCAL model: optional values, results
    with an error side, name/value properties, and first-match search. */
module Common {

  datatype Option<+T> = None | Some(value: T)

  datatype Result<+T, +E> = Ok(value: T) | Err(error: E)

  /** An OSCAL name/value property (the `props` entries of most elements). */
  datatype Property = Property(name: string, value: string)

  /** The elements of an optional list, or none when the list is absent
      (Python's `self.xs or []`). */
  function OrEmpty<T>(list: Option<seq<T>>): seq<T>
  {
    if list.Some? then list.value else []
  }

  /** Index of the first element satisfying `p`, as `next(filter(p, s))` finds it. */
  function FirstWhere<T>(s: seq<T>, p: T -> bool): (r: Option<nat>)
    ensures r.Some? ==> r.value < |s| && p(s[r.value])
    ensures r.Some? ==> forall j :: 0 <= j < r.value ==> !p(s[j])
    ensures r.None? <==> forall j :: 0 <= j < |s| ==> !p(s[j])
  {
    if s == [] then None
    else if p(s[0]) then Some(0)
    else match FirstWhere(s[1..], p)
      case None => None
      case Some(k) => Some(k + 1)
  }
}
