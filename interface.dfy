/**
 * Resolving the optional interface name of the server to an interface index
 * (the `if_index` block of `run_server`). `CString::new` refuses a name with
 * a NUL byte; the platform lookup `if_nametoindex` is a parameter, and its
 * result 0 means "no such interface".
 */
module Interface {
  import opened Bytes
  import opened Wrappers

  datatype InterfaceError =
    | InvalidName(nulPosition: nat)  // `CString::new` failed: a NUL byte at this position
    | NotFound(name: Bytes)          // the lookup returned 0

  /** The position of the first `b` in `s`, if there is one. */
  function FirstIndex(s: Bytes, b: uint8): (r: Option<nat>)
    ensures r.None? <==> b !in s
    ensures r.Some? ==> r.value < |s| && s[r.value] == b && b !in s[..r.value]
  {
    if s == [] then None
    else if s[0] == b then Some(0)
    else
      match FirstIndex(s[1..], b)
      case None => None
      case Some(i) =>
        assert s[..i + 1] == [s[0]] + s[1..][..i];
        Some(i + 1)
  }

  /** `CString::new(name)`: the name itself when it has no NUL byte, else
      the position of its first NUL. */
  function CStringNew(name: Bytes): (r: Result<Bytes, nat>)
    ensures r.Ok? <==> 0 !in name
    ensures r.Ok? ==> r.value == name
    ensures r.Err? ==> r.error < |name| && name[r.error] == 0 && 0 !in name[..r.error]
  {
    match FirstIndex(name, 0)
    case None => Ok(name)
    case Some(i) => Err(i)
  }

  /** The interface index `run_server` joins the group on. */
  function ResolveInterface(ifName: Option<Bytes>, nameToIndex: Bytes -> uint32): (r: Result<uint32, InterfaceError>)
    ensures ifName.None? ==> r == Ok(0)
    ensures ifName.Some? ==> (r.Err? && r.error.InvalidName? <==> 0 in ifName.value)
    ensures ifName.Some? ==> (r == Err(NotFound(ifName.value)) <==> 0 !in ifName.value && nameToIndex(ifName.value) == 0)
    ensures ifName.Some? && r.Ok? ==> r.value == nameToIndex(ifName.value) && r.value != 0
    ensures ifName.Some? && 0 in ifName.value ==> r == Err(InvalidName(CStringNew(ifName.value).error))
    ensures ifName.Some? && 0 !in ifName.value && nameToIndex(ifName.value) != 0 ==> r == Ok(nameToIndex(ifName.value))
  {
    match ifName
    case None => Ok(0)
    case Some(name) =>
      match CStringNew(name)
      case Err(position) => Err(InvalidName(position))
      case Ok(c) =>
        var idx := nameToIndex(c);
        if idx == 0 then Err(NotFound(name)) else Ok(idx)
  }

  /** A resolved index is 0 exactly when no name was given: a supplied name
      either fails or resolves to a nonzero index. */
  lemma ResolvedIndexZeroIffDefault(ifName: Option<Bytes>, nameToIndex: Bytes -> uint32)
    requires ResolveInterface(ifName, nameToIndex).Ok?
    ensures ResolveInterface(ifName, nameToIndex).value == 0 <==> ifName.None?
  {
  }
}
