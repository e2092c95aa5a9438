/** The session data as the program keeps it: a fixed array for the identity and three collections. */
module Contexts {
  import opened Text
  import Perm = Permissions
  import Pa = Paths
  import Pl = Plugs
  import PathStd
  import opened ContextSpec
  import opened Replay

  /** The length of a legal identity, or an error. */
  method IsValidId(id: string) returns (rc: int)
    ensures rc == if ValidId(id) then |id| else -EINVAL
  {
    var idx := 0;
    while true
      invariant 0 <= idx <= |id| && idx <= Pl.MAX_SIZE_ID
      invariant forall i :: 0 <= i < idx ==> IdChar(id[i])
      decreases |id| - idx
    {
      if idx == |id| {
        if idx < Pl.MIN_SIZE_ID {
          return -EINVAL;
        }
        return idx;
      }
      if idx >= Pl.MAX_SIZE_ID {
        return -EINVAL;
      }
      if !IdChar(id[idx]) {
        return -EINVAL;
      }
      idx := idx + 1;
    }
  }

  /** Normalises into a buffer of the program's size; None when the path is too long or not from the root. */
  method Locate(path: string) returns (r: Option<string>)
    requires NulFree(path)
    ensures r == if Locates(path) then Some(PathStd.Std(path)) else None
  {
    var buffer := new char[MAX_PATH_BUFFER];
    var len := PathStd.Normalize(buffer, MAX_PATH_BUFFER, path);
    if len >= MAX_PATH_BUFFER {
      return None;
    }
    if len < 1 || buffer[0] != '/' {
      assert PathStd.Std(path) == buffer[..len];
      return None;
    }
    assert buffer[..len][0] == '/';
    r := Some(buffer[..len]);
  }

  class Context {
    const distinctCase: bool
    const id: array<char>
    const permissionSet: Perm.PermissionSet
    const pathSet: Pa.PathSet
    const plugSet: Pl.PlugSet
    var needId: bool
    var errorFlag: bool

    /** All bytes of the identity are zeroed but the last; the allocator leaves it as it finds it. */
    constructor (distinctCase: bool, stray: char)
      ensures Valid() && fresh(Repr()) && this.distinctCase == distinctCase
      ensures Value() == NewCtx().(id := NewCtx().id[Pl.MAX_SIZE_ID := stray])
    {
      this.distinctCase := distinctCase;
      id := new char[ID_BYTES](i => if i == Pl.MAX_SIZE_ID then stray else NUL);
      permissionSet := new Perm.PermissionSet(distinctCase);
      pathSet := new Pa.PathSet();
      plugSet := new Pl.PlugSet();
      needId, errorFlag := false, false;
      new;
      assert id[..] == NewCtx().id[Pl.MAX_SIZE_ID := stray];
    }

    ghost function Repr(): set<object>
      reads this, permissionSet
    {
      {this, id, pathSet, plugSet} + permissionSet.Repr()
    }

    ghost predicate Valid()
      reads this, permissionSet, plugSet
    {
      && id.Length == ID_BYTES && permissionSet.Valid() && permissionSet.distinctCase == distinctCase
      && plugSet.Valid()
    }

    ghost function Value(): (c: Ctx)
      requires Valid()
      reads this, permissionSet, plugSet, Repr()
      ensures |c.id| == ID_BYTES
    {
      Ctx(id[..], permissionSet.Value(), pathSet.paths, plugSet.Value(), needId, errorFlag)
    }

    method Clear()
      requires Valid()
      modifies Repr()
      ensures Valid() && fresh(Repr() - old(Repr()))
      ensures Value() == ClearSpec(old(Value()))
    {
      id[0] := NUL;
      permissionSet.Clear();
      plugSet.Clear();
      pathSet.Clear();
      needId, errorFlag := false, false;
    }

    method RaiseError()
      requires Valid()
      modifies this`errorFlag
      ensures Valid() && Repr() == old(Repr())
      ensures Value() == RaiseSpec(old(Value()))
    {
      errorFlag := true;
    }

    method SetId(src: string) returns (rc: int)
      requires Valid()
      modifies id
      ensures Valid() && Repr() == old(Repr())
      ensures (Value(), rc) == SetIdSpec(old(Value()), src)
    {
      if errorFlag {
        return -ENOTRECOVERABLE;
      }
      if id[0] != NUL {
        return -EEXIST;
      }
      rc := IsValidId(src);
      if rc >= 0 {
        forall i | 0 <= i < rc {
          id[i] := src[i];
        }
        assert id[..] == Overwrite(old(id[..]), src);
        rc := 0;
      }
      if rc < 0 {
        id[0] := NUL;
        assert id[..] == old(id[..]);
      }
    }

    method AddPermission(p: string) returns (rc: int)
      requires Valid()
      modifies Repr()
      ensures Valid() && fresh(Repr() - old(Repr()))
      ensures (Value(), rc) == AddPermissionSpec(distinctCase, old(Value()), p)
    {
      if errorFlag {
        return -ENOTRECOVERABLE;
      }
      var present := permissionSet.HasPermission(p);
      if present {
        return -EEXIST;
      }
      rc := permissionSet.Add(p);
      if rc < 0 {
        return;
      }
      needId := true;
      rc := 0;
    }

    method AddPath(path: string, pathType: string, files: Files) returns (rc: int)
      requires Valid() && NulFree(path)
      modifies this`needId, pathSet
      ensures Valid() && Repr() == old(Repr())
      ensures (Value(), rc) == AddPathSpec(old(Value()), path, pathType, files)
    {
      hide PathStd.Std, PathStd.Fits, PathStd.Segments;
      if errorFlag {
        return -ENOTRECOVERABLE;
      }
      var t := Pa.PathTypeGet(pathType);
      if !Pa.TypeIsValid(t) {
        return -EINVAL;
      }
      var std := Locate(path);
      if std.None? {
        return -EINVAL;
      }
      var present := pathSet.Has(std.value);
      if present {
        return -EEXIST;
      }
      rc := files.path(std.value);
      if rc < 0 {
        return;
      }
      rc := pathSet.Add(std.value, t);
      if rc < 0 {
        return;
      }
      if t != Pa.TYPE_DEFAULT {
        needId := true;
      }
      rc := 0;
    }

    method AddPlug(expdir: string, impid: string, impdir: string, files: Files) returns (rc: int)
      requires Valid() && NulFree(expdir) && NulFree(impdir)
      modifies this`needId, plugSet
      ensures Valid() && Repr() == old(Repr())
      ensures (Value(), rc) == AddPlugSpec(old(Value()), expdir, impid, impdir, files)
    {
      hide PathStd.Std, PathStd.Fits, PathStd.Segments;
      if errorFlag {
        return -ENOTRECOVERABLE;
      }
      var from := Locate(expdir);
      if from.None? {
        return -EINVAL;
      }
      var into := Locate(impdir);
      if into.None? {
        return -EINVAL;
      }
      var present := plugSet.Has(None, None, Some(into.value));
      assert present <==> HasImport(Value().plugs, into.value) by {
        forall i | 0 <= i < |Value().plugs|
          ensures Pl.Matches(plugSet.Value()[i], None, None, Some(into.value))
                  <==> Value().plugs[i].impdir == into.value {
        }
      }
      if present {
        return -EEXIST;
      }
      rc := IsValidId(impid);
      if rc < 0 {
        return;
      }
      rc := files.directory(from.value);
      if rc < 0 {
        return;
      }
      rc := files.directory(into.value);
      if rc < 0 {
        return;
      }
      LocatesGoodPath(expdir);
      LocatesGoodPath(impdir);
      rc := plugSet.Add(from.value, impid, into.value);
      if rc < 0 {
        return;
      }
      needId := true;
      rc := 0;
    }

    method HasPermission(p: string) returns (b: bool)
      requires Valid()
      ensures b == Perm.Has(distinctCase, Value().perms, p)
    {
      b := permissionSet.HasPermission(p);
    }

    method VisitPaths(visitor: Visited -> int, rc0: int, visited0: seq<Visited>, ghost items: seq<Visited>)
      returns (rc: int, visited: seq<Visited>)
      requires Valid() && (rc0, visited0) == VisitSpec(items, visitor)
      ensures (rc, visited) == VisitSpec(items + PathItems(Value().paths), visitor)
    {
      hide VisitSpec;
      rc, visited := rc0, visited0;
      ghost var part := PathItems(Value().paths);
      var i := 0;
      assert items + part[..0] == items;
      while rc == 0 && i < |pathSet.paths|
        invariant 0 <= i <= |part|
        invariant (rc, visited) == VisitSpec(items + part[..i], visitor)
      {
        var v := VisitedPath(pathSet.paths[i].path, Pa.TypeName(pathSet.paths[i].pathType));
        VisitNext(items, part, i, visitor);
        rc := visitor(v);
        visited := visited + [v];
        i := i + 1;
      }
      Through(items, part, i, rc, visited, visitor);
    }

    method VisitPermissions(visitor: Visited -> int, rc0: int, visited0: seq<Visited>, ghost items: seq<Visited>)
      returns (rc: int, visited: seq<Visited>)
      requires Valid() && (rc0, visited0) == VisitSpec(items, visitor)
      ensures (rc, visited) == VisitSpec(items + PermItems(Value().perms), visitor)
    {
      hide VisitSpec;
      rc, visited := rc0, visited0;
      ghost var part := PermItems(Value().perms);
      var i := 0;
      assert items + part[..0] == items;
      while rc == 0 && i < permissionSet.size
        invariant 0 <= i <= |part|
        invariant (rc, visited) == VisitSpec(items + part[..i], visitor)
      {
        var v := VisitedPermission(permissionSet.permissions[i]);
        VisitNext(items, part, i, visitor);
        rc := visitor(v);
        visited := visited + [v];
        i := i + 1;
      }
      Through(items, part, i, rc, visited, visitor);
    }

    method VisitPlugs(visitor: Visited -> int, rc0: int, visited0: seq<Visited>, ghost items: seq<Visited>)
      returns (rc: int, visited: seq<Visited>)
      requires Valid() && (rc0, visited0) == VisitSpec(items, visitor)
      ensures (rc, visited) == VisitSpec(items + PlugItems(Value().plugs), visitor)
    {
      hide VisitSpec;
      rc, visited := rc0, visited0;
      ghost var plugs := Value().plugs;
      ghost var part := PlugItems(plugs);
      var plug := plugSet.head;
      ghost var k := 0;
      assert items + part[..0] == items && plugs[0..] == plugs;
      while rc == 0 && plug != null
        invariant 0 <= k <= |plugs| && Pl.List(plug) && Pl.Items(plug) == plugs[k..]
        invariant (rc, visited) == VisitSpec(items + part[..k], visitor)
        decreases |plugs| - k
      {
        Pl.ListStep(plug);
        var v := VisitedPlug(plug.item);
        assert plug.item == plugs[k..][0] == plugs[k];
        assert Pl.Items(plug.next) == plugs[k..][1..] == plugs[k + 1..];
        VisitNext(items, part, k, visitor);
        rc := visitor(v);
        visited := visited + [v];
        plug := plug.next;
        k := k + 1;
      }
      Through(items, part, k, rc, visited, visitor);
    }

    /**
     Shows the items of the context to the visitor one after the other until it
     answers something else than zero.
     */
    method Visit(visitor: Visited -> int) returns (rc: int, visited: seq<Visited>)
      requires Valid()
      ensures (rc, visited) == VisitSpec(Items(Value()), visitor)
    {
      rc, visited := 0, [];
      ghost var ids := IdItems(id[..]);
      var shown := CStr(id[..]);
      if id[0] != NUL {
        rc, visited := visitor(VisitedId(shown)), [VisitedId(shown)];
      }
      VisitMore([], VisitedId(shown), visitor);
      assert [] + [VisitedId(shown)] == [VisitedId(shown)];
      assert (rc, visited) == VisitSpec(ids, visitor);
      hide VisitSpec;
      rc, visited := VisitPaths(visitor, rc, visited, ids);
      rc, visited := VisitPermissions(visitor, rc, visited, ids + PathItems(Value().paths));
      rc, visited := VisitPlugs(visitor, rc, visited, ids + PathItems(Value().paths) + PermItems(Value().perms));
    }
  }

  /** The items shown up to the first refusal, and its answer. */
  function VisitSpec(items: seq<Visited>, visitor: Visited -> int): (int, seq<Visited>) {
    if items == [] then (0, [])
    else
      var n := |items| - 1;
      var (rc, visited) := VisitSpec(items[..n], visitor);
      if rc != 0 then (rc, visited) else (visitor(items[n]), visited + [items[n]])
  }

  lemma VisitMore(items: seq<Visited>, v: Visited, visitor: Visited -> int)
    ensures var (rc, visited) := VisitSpec(items, visitor);
            VisitSpec(items + [v], visitor) == if rc != 0 then (rc, visited) else (visitor(v), visited + [v])
  {
    assert (items + [v])[..|items|] == items;
  }

  /** After a refusal the remaining items make no difference. */
  lemma {:induction false} VisitStops(items: seq<Visited>, more: seq<Visited>, visitor: Visited -> int)
    requires VisitSpec(items, visitor).0 != 0
    ensures VisitSpec(items + more, visitor) == VisitSpec(items, visitor)
    decreases |more|
  {
    if more == [] {
      assert items + more == items;
    } else {
      VisitStops(items, more[..|more| - 1], visitor);
      VisitMore(items + more[..|more| - 1], more[|more| - 1], visitor);
      assert items + more[..|more| - 1] + [more[|more| - 1]] == items + more;
    }
  }

  lemma VisitNext(items: seq<Visited>, part: seq<Visited>, i: nat, visitor: Visited -> int)
    requires i < |part|
    ensures var (rc, visited) := VisitSpec(items + part[..i], visitor);
            rc == 0 ==> VisitSpec(items + part[..i + 1], visitor) == (visitor(part[i]), visited + [part[i]])
  {
    VisitMore(items + part[..i], part[i], visitor);
    assert items + part[..i + 1] == items + part[..i] + [part[i]];
  }

  /** A part of the context has been shown, entirely or up to a refusal. */
  lemma Through(items: seq<Visited>, part: seq<Visited>, i: nat, rc: int, visited: seq<Visited>,
      visitor: Visited -> int)
    requires i <= |part| && (rc == 0 ==> i == |part|)
    requires (rc, visited) == VisitSpec(items + part[..i], visitor)
    ensures (rc, visited) == VisitSpec(items + part, visitor)
  {
    if rc != 0 {
      VisitStops(items + part[..i], part[i..], visitor);
      assert items + part[..i] + part[i..] == items + part;
    } else {
      assert part[..i] == part;
    }
  }
}
