/** Common vocabulary: optional values, C strings and error numbers. */
module Text {

  datatype Option<+T> = None | Some(value: T)

  /** The bytes of a C program are the characters of code 0 to 255; zero ends a C string. */
  const NUL := '\0'

  predicate NulFree(s: string) {
    forall i :: 0 <= i < |s| ==> s[i] != NUL
  }

  /** What a C reader sees of the bytes s: everything before the first zero. */
  function CStr(s: string): (r: string)
    ensures NulFree(r) && |r| <= |s| && r == s[..|r|]
    ensures |r| < |s| ==> s[|r|] == NUL
  {
    if s == "" || s[0] == NUL then "" else [s[0]] + CStr(s[1..])
  }

  lemma {:induction false} CStrStops(s: string, t: string)
    requires NulFree(s)
    ensures CStr(s + [NUL] + t) == s
    ensures CStr(s) == s
  {
    if s == "" {
      assert (s + [NUL] + t)[0] == NUL;
    } else {
      assert (s + [NUL] + t)[1..] == s[1..] + [NUL] + t;
      CStrStops(s[1..], t);
    }
  }

  /** A zero inside s hides everything after it. */
  lemma {:induction false} CStrPrefix(s: string, t: string)
    requires NUL in s
    ensures CStr(s + t) == CStr(s)
  {
    assert (s + t)[0] == s[0];
    if s[0] != NUL {
      assert (s + t)[1..] == s[1..] + t;
      CStrPrefix(s[1..], t);
    }
  }

  lemma Associate<T>(a: seq<T>, b: seq<T>, c: seq<T>)
    ensures a + b + c == a + (b + c)
  {
  }

  lemma DropOfSum<T>(a: seq<T>, b: seq<T>, k: nat)
    requires k <= |a|
    ensures (a + b)[k..] == a[k..] + b
  {
  }

  /** Size of a path, its zero not counted. */
  const MAX_SIZE_PATH := 1024

  // Error numbers of Linux; the program returns them negated.
  const ENOENT := 2
  const EAGAIN := 11
  const ENOMEM := 12
  const EACCES := 13
  const EEXIST := 17
  const ENOTDIR := 20
  const EINVAL := 22
  const EPERM := 1
  const ENODATA := 61
  const EPROTO := 71
  const EMSGSIZE := 90
  const ENOBUFS := 105
  const ECANCELED := 125
  const ENOTRECOVERABLE := 131
}
