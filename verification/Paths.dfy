/** The files of a session and their types. */
module Paths {
  import opened Text

  const TYPE_UNSET := 0
  const TYPE_DEFAULT := 1
  const NUMBER_PATH_TYPE := 11

  const TYPE_STRINGS: seq<string> :=
    ["<unset>", "default", "conf", "data", "exec", "http", "icon", "id", "lib", "plug", "public"]

  predicate TypeIsValid(t: int) {
    TYPE_UNSET < t < NUMBER_PATH_TYPE
  }

  function TypeName(t: int): string {
    if TYPE_UNSET <= t < NUMBER_PATH_TYPE then TYPE_STRINGS[t] else "invalid"
  }

  /** The valid type of the given name, or TYPE_UNSET. */
  function TypeOf(name: string): (t: int)
    ensures t == TYPE_UNSET || (TypeIsValid(t) && TypeName(t) == name)
    ensures t == TYPE_UNSET ==> forall u :: TypeIsValid(u) ==> TypeName(u) != name
  {
    if exists u :: TYPE_UNSET < u < NUMBER_PATH_TYPE && TypeName(u) == name then
      TypesHaveDistinctNames();
      var u :| TYPE_UNSET < u < NUMBER_PATH_TYPE && TypeName(u) == name;
      u
    else TYPE_UNSET
  }

  lemma TypesHaveDistinctNames()
    ensures forall t, u :: TypeIsValid(t) && TypeIsValid(u) && TypeName(t) == TypeName(u) ==> t == u
  {
    assert |"default"| == 7 && |"conf"| == 4 && |"data"| == 4 && |"exec"| == 4 && |"http"| == 4 && |"icon"| == 4;
    assert "conf"[0] == 'c' && "data"[0] == 'd' && "exec"[0] == 'e' && "http"[0] == 'h' && "icon"[0] == 'i'
        && "plug"[0] == 'p';
    assert |"id"| == 2 && |"lib"| == 3 && |"plug"| == 4 && |"public"| == 6;
  }

  /** Type names round trip: the name of a valid type denotes that type, and no other name does. */
  lemma TypeRoundTrip(t: int)
    requires TypeIsValid(t)
    ensures TypeOf(TypeName(t)) == t
    ensures forall name :: TypeOf(name) == t <==> name == TypeName(t)
  {
    TypesHaveDistinctNames();
  }

  /** The search from the last type down to the first. */
  method PathTypeGet(name: string) returns (t: int)
    ensures t == TypeOf(name)
  {
    t := NUMBER_PATH_TYPE - 1;
    while t != TYPE_UNSET && name != TYPE_STRINGS[t]
      invariant TYPE_UNSET <= t < NUMBER_PATH_TYPE
      invariant forall u :: t < u < NUMBER_PATH_TYPE ==> TypeName(u) != name
    {
      t := t - 1;
    }
    if t != TYPE_UNSET {
      assert TypeName(t) == name;
      TypeRoundTrip(t);
    }
  }

  datatype PathItem = PathItem(path: string, pathType: int)

  predicate HasPath(paths: seq<PathItem>, path: string) {
    exists i :: 0 <= i < |paths| && paths[i].path == path
  }

  class PathSet {
    var paths: seq<PathItem>

    constructor ()
      ensures paths == []
    {
      paths := [];
    }

    method Clear()
      modifies this
      ensures paths == []
    {
      while |paths| > 0
      {
        paths := paths[..|paths| - 1];
      }
    }

    /** Whether a path is there already is for the caller to check. */
    method Add(path: string, pathType: int) returns (rc: int)
      modifies this
      ensures if 1 <= |path| < MAX_SIZE_PATH && TypeIsValid(pathType)
              then rc == 0 && paths == old(paths) + [PathItem(path, pathType)]
              else rc == -EINVAL && paths == old(paths)
    {
      if |path| < 1 || |path| >= MAX_SIZE_PATH {
        return -EINVAL;
      }
      if !TypeIsValid(pathType) {
        return -EINVAL;
      }
      paths := paths + [PathItem(path, pathType)];
      rc := 0;
    }

    method Has(path: string) returns (b: bool)
      ensures b == HasPath(paths, path)
    {
      var idx := 0;
      while idx < |paths|
        invariant 0 <= idx <= |paths|
        invariant forall i :: 0 <= i < idx ==> paths[i].path != path
      {
        if path == paths[idx].path {
          return true;
        }
        idx := idx + 1;
      }
      b := false;
    }
  }
}
