/**
 * Candidate lookup shared by the plurality and the instant-runoff programs:
 * both validate a ballot name with a case-sensitive linear scan over the
 * roster (`strcmp(name, candidates[i].name) == 0`) and stop at the first match.
 */
module Names {

  datatype Option<T> = None | Some(value: T)

  /** The index of the first roster entry equal to `name`, or None. */
  function FirstIndex(names: seq<string>, name: string): (r: Option<nat>)
    ensures r.Some? <==> name in names
    ensures r.Some? ==> r.value < |names| && names[r.value] == name
    ensures r.Some? ==> forall j :: 0 <= j < r.value ==> names[j] != name
  {
    if |names| == 0 then None
    else if names[0] == name then Some(0)
    else
      match FirstIndex(names[1..], name)
      case None => None
      case Some(k) => Some(k + 1)
  }

  /** Two first-match characterisations pick the same index. */
  lemma FirstIndexUnique(names: seq<string>, name: string, i: nat)
    requires i < |names| && names[i] == name
    requires forall j :: 0 <= j < i ==> names[j] != name
    ensures FirstIndex(names, name) == Some(i)
  {
  }
}
