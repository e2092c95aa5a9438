/** The permissions of a session, in an array that grows by blocks of eight. */
module Permissions {
  import opened Text

  const MIN_SIZE_PERMISSION := 2
  const MAX_SIZE_PERMISSION := 1024
  const BLOCK := 8

  function Lower(c: char): char {
    if 'A' <= c <= 'Z' then c - 'A' + 'a' else c
  }

  function Fold(s: string): string {
    if s == "" then "" else [Lower(s[0])] + Fold(s[1..])
  }

  /** The comparison the program is built with: with or without regard to case. */
  predicate Same(distinctCase: bool, a: string, b: string) {
    if distinctCase then a == b else Fold(a) == Fold(b)
  }

  lemma {:induction false} FoldAt(s: string)
    ensures |Fold(s)| == |s|
    ensures forall i :: 0 <= i < |s| ==> Fold(s)[i] == Lower(s[i])
  {
    if s != "" {
      FoldAt(s[1..]);
    }
  }

  /** The codes of the two characters are those of one letter, large and small. */
  predicate OneLetter(a: char, b: char) {
    (65 <= a as int <= 90 && b as int == a as int + 32) || (65 <= b as int <= 90 && a as int == b as int + 32)
  }

  /** The comparison by the characters. */
  lemma SameIs(a: string, b: string)
    ensures Same(true, a, b) <==> a == b
    ensures Same(false, a, b) <==> |a| == |b| && forall i :: 0 <= i < |a| ==> a[i] == b[i] || OneLetter(a[i], b[i])
  {
    FoldAt(a);
    FoldAt(b);
    hide Fold;
    if |a| == |b| && forall i :: 0 <= i < |a| ==> a[i] == b[i] || OneLetter(a[i], b[i]) {
      assert Fold(a) == Fold(b);
    }
    if Fold(a) == Fold(b) {
      forall i | 0 <= i < |a| ensures a[i] == b[i] || OneLetter(a[i], b[i]) {
        assert Lower(a[i]) == Fold(a)[i] == Lower(b[i]);
      }
    }
  }

  predicate Has(distinctCase: bool, perms: seq<string>, p: string) {
    exists i :: 0 <= i < |perms| && Same(distinctCase, p, perms[i])
  }

  predicate GoodSize(p: string) {
    MIN_SIZE_PERMISSION <= |p| <= MAX_SIZE_PERMISSION
  }

  /** An addition leaves the list alone when the permission is there, or has no legal size. */
  function AddSpec(distinctCase: bool, perms: seq<string>, p: string): (seq<string>, int) {
    if Has(distinctCase, perms, p) then (perms, 0)
    else if !GoodSize(p) then (perms, -EINVAL)
    else (perms + [p], 0)
  }

  predicate Distinct(distinctCase: bool, perms: seq<string>) {
    && (forall i :: 0 <= i < |perms| ==> GoodSize(perms[i]))
    && (forall i, j :: 0 <= i < j < |perms| ==> !Same(distinctCase, perms[j], perms[i]))
  }

  /** Additions keep the permissions pairwise different and of legal size. */
  lemma AddKeepsDistinct(distinctCase: bool, perms: seq<string>, p: string)
    requires Distinct(distinctCase, perms)
    ensures Distinct(distinctCase, AddSpec(distinctCase, perms, p).0)
  {
  }

  class PermissionSet {
    const distinctCase: bool
    var permissions: array?<string>
    var size: nat

    constructor (distinctCase: bool)
      ensures Valid() && Value() == [] && this.distinctCase == distinctCase && permissions == null
    {
      this.distinctCase := distinctCase;
      permissions, size := null, 0;
    }

    /** The array has room for whole blocks, just enough of them. */
    ghost predicate Valid()
      reads this
    {
      if permissions == null then size == 0
      else size > 0 && permissions.Length == (size + BLOCK - 1) / BLOCK * BLOCK
    }

    ghost function Repr(): set<object>
      reads this
    {
      {this} + if permissions == null then {} else {permissions}
    }

    ghost function Value(): (v: seq<string>)
      requires Valid()
      reads this, Repr()
      ensures |v| == size
    {
      if permissions == null then [] else permissions[..size]
    }

    method Clear()
      requires Valid()
      modifies this
      ensures Valid() && Value() == [] && Repr() == {this}
    {
      while size > 0
      {
        size := size - 1;
      }
      permissions := null;
    }

    /** The permissions in order, for those who only read them. */
    method List() returns (perms: seq<string>)
      requires Valid()
      ensures perms == Value()
    {
      if permissions == null {
        return [];
      }
      perms := permissions[..size];
    }

    method HasPermission(p: string) returns (b: bool)
      requires Valid()
      ensures b == Has(distinctCase, Value(), p)
    {
      var idxp := 0;
      while idxp < size
        invariant 0 <= idxp <= size
        invariant forall i :: 0 <= i < idxp ==> !Same(distinctCase, p, Value()[i])
      {
        if Same(distinctCase, p, permissions[idxp]) {
          assert Value()[idxp] == permissions[idxp];
          return true;
        }
        idxp := idxp + 1;
      }
      b := false;
    }

    method Add(p: string) returns (rc: int)
      requires Valid()
      modifies Repr()
      ensures Valid() && fresh(Repr() - old(Repr()))
      ensures (Value(), rc) == AddSpec(distinctCase, old(Value()), p)
    {
      var present := HasPermission(p);
      if present {
        return 0;
      }
      if |p| < MIN_SIZE_PERMISSION || |p| > MAX_SIZE_PERMISSION {
        return -EINVAL;
      }
      if size % BLOCK == 0 {
        Grow();
      }
      Append(p);
      rc := 0;
    }

    /** Moves the permissions to an array with one more block. */
    method Grow()
      requires Valid() && size % BLOCK == 0
      modifies this`permissions
      ensures permissions != null && fresh(permissions) && permissions.Length == size + BLOCK
      ensures permissions[..size] == old(Value())
    {
      var bigger := new string[size + BLOCK](_ => "");
      if permissions != null {
        forall i | 0 <= i < size {
          bigger[i] := permissions[i];
        }
      }
      permissions := bigger;
    }

    method Append(p: string)
      requires permissions != null && size < permissions.Length == (size + BLOCK) / BLOCK * BLOCK
      modifies this`size, permissions
      ensures Valid() && permissions == old(permissions) && Value() == old(permissions[..size]) + [p]
    {
      permissions[size] := p;
      assert permissions[..size] == old(permissions[..size]);
      size := size + 1;
    }
  }
}
