/** What a display of the session shows, and that it can be played back. */
module Replay {
  import opened Text
  import Perm = Permissions
  import opened Paths
  import opened Plugs
  import opened PathStd
  import opened PathNormal
  import opened ContextSpec

  datatype Visited =
    | VisitedId(id: string)
    | VisitedPath(path: string, typeName: string)
    | VisitedPermission(perm: string)
    | VisitedPlug(item: Item)

  function IdItems(id: string): seq<Visited> {
    if CStr(id) == "" then [] else [VisitedId(CStr(id))]
  }

  function PathItems(paths: seq<PathItem>): (r: seq<Visited>)
    ensures |r| == |paths|
  {
    seq(|paths|, i requires 0 <= i < |paths| => VisitedPath(paths[i].path, TypeName(paths[i].pathType)))
  }

  function PermItems(perms: seq<string>): (r: seq<Visited>)
    ensures |r| == |perms|
  {
    seq(|perms|, i requires 0 <= i < |perms| => VisitedPermission(perms[i]))
  }

  function PlugItems(plugs: seq<Item>): (r: seq<Visited>)
    ensures |r| == |plugs|
  {
    seq(|plugs|, i requires 0 <= i < |plugs| => VisitedPlug(plugs[i]))
  }

  /** Everything a visit of the context meets, in order. */
  function Items(c: Ctx): seq<Visited> {
    IdItems(c.id) + PathItems(c.paths) + PermItems(c.perms) + PlugItems(c.plugs)
  }

  /** The setting that an item shown stands for. */
  function AsOp(v: Visited, files: Files): Op {
    match v
    case VisitedId(id) => SetId(id)
    case VisitedPath(path, typeName) => AddPath(path, typeName, files)
    case VisitedPermission(perm) => AddPermission(perm)
    case VisitedPlug(item) => AddPlug(item.expdir, item.impid, item.impdir, files)
  }

  function AsOps(vs: seq<Visited>, files: Files): (r: seq<Op>)
    ensures |r| == |vs|
  {
    seq(|vs|, i requires 0 <= i < |vs| => AsOp(vs[i], files))
  }

  /** All the settings ops are accepted from c on. */
  ghost predicate AllAccepted(distinctCase: bool, c: Ctx, ops: seq<Op>)
    requires |c.id| == ID_BYTES
    decreases |ops|
  {
    ops == [] ||
    (Do(distinctCase, c, ops[0]).1 == 0 && AllAccepted(distinctCase, Do(distinctCase, c, ops[0]).0, ops[1..]))
  }

  /** The file system still has what the session names. */
  ghost predicate FilesPresent(c: Ctx, files: Files) {
    && (forall i :: 0 <= i < |c.paths| ==> files.path(c.paths[i].path) >= 0)
    && (forall i :: 0 <= i < |c.plugs| ==>
          files.directory(c.plugs[i].expdir) >= 0 && files.directory(c.plugs[i].impdir) >= 0)
  }

  function Reverse(items: seq<Item>): (r: seq<Item>)
    ensures |r| == |items|
  {
    if items == [] then [] else Reverse(items[1..]) + [items[0]]
  }

  lemma {:induction false} DoAllAppend(distinctCase: bool, c: Ctx, s: seq<Op>, t: seq<Op>)
    requires |c.id| == ID_BYTES
    ensures DoAll(distinctCase, c, s + t) == DoAll(distinctCase, DoAll(distinctCase, c, s), t)
    ensures AllAccepted(distinctCase, c, s + t)
            <==> AllAccepted(distinctCase, c, s) && AllAccepted(distinctCase, DoAll(distinctCase, c, s), t)
    decreases |s|
  {
    hide Do;
    if s == [] {
      assert s + t == t;
    } else {
      assert (s + t)[0] == s[0] && (s + t)[1..] == s[1..] + t;
      DoAllAppend(distinctCase, Do(distinctCase, c, s[0]).0, s[1..], t);
    }
  }

  lemma DoOne(distinctCase: bool, c: Ctx, op: Op)
    requires |c.id| == ID_BYTES
    ensures DoAll(distinctCase, c, [op]) == Do(distinctCase, c, op).0
    ensures AllAccepted(distinctCase, c, [op]) <==> Do(distinctCase, c, op).1 == 0
  {
    assert [op][1..] == [];
    var c' := Do(distinctCase, c, op).0;
    assert DoAll(distinctCase, c', []) == c';
  }

  lemma DoAllSnoc(distinctCase: bool, c: Ctx, ops: seq<Op>, op: Op)
    requires |c.id| == ID_BYTES && AllAccepted(distinctCase, c, ops)
    requires Do(distinctCase, DoAll(distinctCase, c, ops), op).1 == 0
    ensures AllAccepted(distinctCase, c, ops + [op])
    ensures DoAll(distinctCase, c, ops + [op]) == Do(distinctCase, DoAll(distinctCase, c, ops), op).0
  {
    DoAllAppend(distinctCase, c, ops, [op]);
    DoOne(distinctCase, DoAll(distinctCase, c, ops), op);
  }

  /** A stored path is accepted again as it is: its normal form is itself and fits all along. */
  lemma GoodPathLocates(p: string)
    requires GoodPath(p) && |p| < MAX_PATH_BUFFER
    ensures Locates(p) && Std(p) == p
  {
    ComponentsOfForm(p);
    var segs := Segments(p);
    var comps := Resolve(segs);
    forall i | 0 <= i < |segs| ensures segs[i] != ".." {
      if i > 0 && comps != [] {
        assert segs[i] == comps[i - 1];
      }
    }
    NoDotsFit(Stack([], false), segs, true, MAX_PATH_BUFFER);
  }

  lemma {:induction false} NoDotsFit(st: Stack, segs: seq<string>, absolute: bool, size: nat)
    requires forall i :: 0 <= i < |segs| ==> segs[i] != ".."
    ensures Fits(st, segs, absolute, size)
    decreases |segs|
  {
    if segs != [] {
      NoDotsFit(Apply(st, segs[0], |segs| == 1, absolute), segs[1..], absolute, size);
    }
  }

  // ---------- Each part of the display ----------

  lemma ReplayId(distinctCase: bool, c: Ctx, id: string, files: Files)
    requires c == NewCtx() && GoodId(id)
    ensures var ops := AsOps(IdItems(id), files);
            && AllAccepted(distinctCase, c, ops)
            && var c' := DoAll(distinctCase, c, ops);
               c' == c.(id := c'.id) && CStr(c'.id) == CStr(id)
  {
    var s := CStr(id);
    ShownIdIsLegal(id);
    if s == "" {
      assert AsOps(IdItems(id), files) == [];
      assert CStr(c.id) == "";
    } else {
      var ops := AsOps(IdItems(id), files);
      assert ops == [SetId(s)];
      DoOne(distinctCase, c, SetId(s));
      var zeros := c.id[|s|..];
      assert zeros[0] == NUL;
      CStrConcat(s, zeros);
      assert s + "" == s;
    }
  }

  lemma {:induction false} ReplayPaths(distinctCase: bool, c: Ctx, paths: seq<PathItem>, n: nat, files: Files)
    requires |c.id| == ID_BYTES && !c.error && c.paths == [] && n <= |paths|
    requires GoodPaths(paths) && forall i :: 0 <= i < |paths| ==> files.path(paths[i].path) >= 0
    ensures var ops := AsOps(PathItems(paths[..n]), files);
            && AllAccepted(distinctCase, c, ops)
            && DoAll(distinctCase, c, ops) == c.(paths := paths[..n], needId := c.needId || Special(paths[..n]))
    decreases n
  {
    hide Do, AsOps, PathItems, TypeName, GoodPath;
    if n == 0 {
      NoOps(files);
      assert paths[..0] == [];
    } else {
      ReplayPaths(distinctCase, c, paths, n - 1, files);
      hide DoAll, AllAccepted, Special;
      var item := paths[n - 1];
      var d := c.(paths := paths[..n - 1], needId := c.needId || Special(paths[..n - 1]));
      ReplayPath(distinctCase, d, item, files);
      assert paths[..n] == paths[..n - 1] + [item];
      OpsSnoc(PathItems(paths[..n - 1]), VisitedPath(item.path, TypeName(item.pathType)), files);
      PathItemsSnoc(paths[..n - 1], item);
      DoAllSnoc(distinctCase, c, AsOps(PathItems(paths[..n - 1]), files),
          AddPath(item.path, TypeName(item.pathType), files));
      SpecialSnoc(paths[..n - 1], item);
    }
  }

  lemma NoOps(files: Files)
    ensures AsOps(PathItems([]), files) == [] && AsOps(PlugItems([]), files) == []
  {
  }

  lemma OpsSnoc(items: seq<Visited>, item: Visited, files: Files)
    ensures AsOps(items + [item], files) == AsOps(items, files) + [AsOp(item, files)]
  {
  }

  lemma PathItemsSnoc(paths: seq<PathItem>, item: PathItem)
    ensures PathItems(paths + [item]) == PathItems(paths) + [VisitedPath(item.path, TypeName(item.pathType))]
  {
    hide TypeName;
  }

  lemma PlugItemsSnoc(plugs: seq<Item>, item: Item)
    ensures PlugItems(plugs + [item]) == PlugItems(plugs) + [VisitedPlug(item)]
  {
  }

  lemma SpecialSnoc(paths: seq<PathItem>, item: PathItem)
    ensures Special(paths + [item]) <==> Special(paths) || item.pathType != TYPE_DEFAULT
  {
    var all := paths + [item];
    assert all[|paths|] == item;
    if Special(paths) {
      var i :| 0 <= i < |paths| && paths[i].pathType != TYPE_DEFAULT;
      assert all[i].pathType != TYPE_DEFAULT;
    }
  }

  lemma ReplayPath(distinctCase: bool, c: Ctx, item: PathItem, files: Files)
    requires |c.id| == ID_BYTES && !c.error && !HasPath(c.paths, item.path)
    requires GoodPath(item.path) && 1 <= |item.path| < MAX_SIZE_PATH && TypeIsValid(item.pathType)
    requires files.path(item.path) >= 0
    ensures Do(distinctCase, c, AddPath(item.path, TypeName(item.pathType), files))
         == (c.(paths := c.paths + [item], needId := c.needId || item.pathType != TYPE_DEFAULT), 0)
  {
    hide Std, Fits, Segments, TypeOf;
    GoodPathLocates(item.path);
    TypeRoundTrip(item.pathType);
  }

  lemma {:induction false} ReplayPerms(distinctCase: bool, c: Ctx, perms: seq<string>, n: nat, files: Files)
    requires |c.id| == ID_BYTES && !c.error && c.perms == [] && n <= |perms| && Perm.Distinct(distinctCase, perms)
    ensures var ops := AsOps(PermItems(perms[..n]), files);
            && AllAccepted(distinctCase, c, ops)
            && DoAll(distinctCase, c, ops) == c.(perms := perms[..n], needId := c.needId || n > 0)
    decreases n
  {
    if n == 0 {
      assert AsOps(PermItems(perms[..0]), files) == [];
    } else {
      ReplayPerms(distinctCase, c, perms, n - 1, files);
      var before := AsOps(PermItems(perms[..n - 1]), files);
      var op := AddPermission(perms[n - 1]);
      assert AsOps(PermItems(perms[..n]), files) == before + [op];
      var d := c.(perms := perms[..n - 1], needId := c.needId || n > 1);
      ReplayPerm(distinctCase, d, perms, n - 1);
      hide Do, DoAll, AllAccepted, AsOps, PermItems;
      DoAllSnoc(distinctCase, c, before, op);
      assert perms[..n] == perms[..n - 1] + [perms[n - 1]];
    }
  }

  lemma ReplayPerm(distinctCase: bool, c: Ctx, perms: seq<string>, k: nat)
    requires |c.id| == ID_BYTES && !c.error && k < |perms| && Perm.Distinct(distinctCase, perms)
             && c.perms == perms[..k]
    ensures Do(distinctCase, c, AddPermission(perms[k])) == (c.(perms := c.perms + [perms[k]], needId := true), 0)
  {
  }

  lemma {:induction false} ReplayPlugs(distinctCase: bool, c: Ctx, plugs: seq<Item>, n: nat, files: Files)
    requires |c.id| == ID_BYTES && !c.error && c.plugs == [] && n <= |plugs| && GoodPlugs(plugs)
    requires forall i :: 0 <= i < |plugs| ==>
               files.directory(plugs[i].expdir) >= 0 && files.directory(plugs[i].impdir) >= 0
    ensures var ops := AsOps(PlugItems(plugs[..n]), files);
            && AllAccepted(distinctCase, c, ops)
            && DoAll(distinctCase, c, ops) == c.(plugs := Reverse(plugs[..n]), needId := c.needId || n > 0)
    decreases n
  {
    hide Do, AsOps, PlugItems, GoodPlugs;
    if n == 0 {
      NoOps(files);
      assert plugs[..0] == [];
    } else {
      ReplayPlugs(distinctCase, c, plugs, n - 1, files);
      hide DoAll, AllAccepted, Reverse;
      var item := plugs[n - 1];
      var d := c.(plugs := Reverse(plugs[..n - 1]), needId := c.needId || n > 1);
      ReplayPlug(distinctCase, d, plugs, n - 1, files);
      assert plugs[..n] == plugs[..n - 1] + [item];
      OpsSnoc(PlugItems(plugs[..n - 1]), VisitedPlug(item), files);
      PlugItemsSnoc(plugs[..n - 1], item);
      DoAllSnoc(distinctCase, c, AsOps(PlugItems(plugs[..n - 1]), files),
          AddPlug(item.expdir, item.impid, item.impdir, files));
      ReverseSnoc(plugs[..n - 1], item);
    }
  }

  lemma {:induction false} ReverseSnoc(items: seq<Item>, item: Item)
    ensures Reverse(items + [item]) == [item] + Reverse(items)
    ensures forall i :: 0 <= i < |items| ==> Reverse(items)[i] == items[|items| - 1 - i]
    decreases |items|
  {
    if items != [] {
      assert (items + [item])[1..] == items[1..] + [item];
      ReverseSnoc(items[1..], item);
      forall i | 0 <= i < |items| ensures Reverse(items)[i] == items[|items| - 1 - i] {
        if i < |items| - 1 {
          assert Reverse(items)[i] == items[1..][|items| - 2 - i];
        }
      }
    }
  }

  lemma ReplayPlug(distinctCase: bool, c: Ctx, plugs: seq<Item>, k: nat, files: Files)
    requires |c.id| == ID_BYTES && !c.error && k < |plugs| && GoodPlugs(plugs) && c.plugs == Reverse(plugs[..k])
    requires files.directory(plugs[k].expdir) >= 0 && files.directory(plugs[k].impdir) >= 0
    ensures var item := plugs[k];
            Do(distinctCase, c, AddPlug(item.expdir, item.impid, item.impdir, files))
            == (c.(plugs := [item] + c.plugs, needId := true), 0)
  {
    hide Std, Fits, Segments;
    GoodPathLocates(plugs[k].expdir);
    GoodPathLocates(plugs[k].impdir);
    ReverseSnoc(plugs[..k], plugs[k]);
    forall i | 0 <= i < k ensures c.plugs[i].impdir != plugs[k].impdir {
      assert c.plugs[i] == plugs[k - 1 - i];
    }
  }

  // ---------- The whole display ----------

  /** The context that a replay of what c shows rebuilds, but for the bytes behind its identity. */
  ghost predicate Rebuilt(c: Ctx, d: Ctx) {
    && CStr(d.id) == CStr(c.id) && d.paths == c.paths && d.perms == c.perms
    && d.plugs == Reverse(c.plugs) && d.needId == c.needId && !d.error
  }

  /**
   The display of any good context, played back as settings into a fresh one, is
   accepted entirely and rebuilds it; only the plug list comes out reversed.
   */
  lemma DisplayReplays(distinctCase: bool, c: Ctx, files: Files)
    requires Good(distinctCase, c) && FilesPresent(c, files)
    ensures AllAccepted(distinctCase, NewCtx(), AsOps(Items(c), files))
    ensures Rebuilt(c, DoAll(distinctCase, NewCtx(), AsOps(Items(c), files)))
  {
    ItemsSplit(c, files);
    assert NewCtx().id != "" && c.needId == (false || Special(c.paths) || |c.perms| > 0 || |c.plugs| > 0);
    hide Do, DoAll, AllAccepted, CStr, GoodId, GoodPaths, GoodPlugs, AsOps, Items, IdItems, PathItems, PermItems,
        PlugItems, Reverse;
    var d0 := NewCtx();
    var ids, paths := AsOps(IdItems(c.id), files), AsOps(PathItems(c.paths), files);
    var perms, plugs := AsOps(PermItems(c.perms), files), AsOps(PlugItems(c.plugs), files);
    ReplayId(distinctCase, d0, c.id, files);
    var d1 := DoAll(distinctCase, d0, ids);
    assert c.paths[..|c.paths|] == c.paths && c.perms[..|c.perms|] == c.perms && c.plugs[..|c.plugs|] == c.plugs;
    ReplayPaths(distinctCase, d1, c.paths, |c.paths|, files);
    var d2 := DoAll(distinctCase, d1, paths);
    ReplayPerms(distinctCase, d2, c.perms, |c.perms|, files);
    var d3 := DoAll(distinctCase, d2, perms);
    ReplayPlugs(distinctCase, d3, c.plugs, |c.plugs|, files);
    DoAllAppend(distinctCase, d2, perms, plugs);
    DoAllAppend(distinctCase, d1, paths, perms + plugs);
    DoAllAppend(distinctCase, d0, ids, paths + (perms + plugs));
  }

  lemma ItemsSplit(c: Ctx, files: Files)
    ensures AsOps(Items(c), files)
         == AsOps(IdItems(c.id), files) + (AsOps(PathItems(c.paths), files)
                                           + (AsOps(PermItems(c.perms), files) + AsOps(PlugItems(c.plugs), files)))
  {
  }

  /** For every context that a run reaches without an error. */
  lemma ReachableDisplayReplays(distinctCase: bool, ops: seq<Op>, files: Files)
    requires FilesPresent(DoAll(distinctCase, NewCtx(), ops), files)
    ensures var c := DoAll(distinctCase, NewCtx(), ops);
            && AllAccepted(distinctCase, NewCtx(), AsOps(Items(c), files))
            && Rebuilt(c, DoAll(distinctCase, NewCtx(), AsOps(Items(c), files)))
  {
    NewIsGood(distinctCase);
    ReachableIsGood(distinctCase, NewCtx(), ops);
    DisplayReplays(distinctCase, DoAll(distinctCase, NewCtx(), ops), files);
  }
}
