/** Which settings are accepted, and what each one changes, told from the characters that are received. */
module Settings {
  import opened Text
  import Perm = Permissions
  import opened Paths
  import Plugs
  import opened PathStd
  import opened PathNormal
  import opened ContextSpec
  import Replay

  // ---------- Identity ----------

  /** The code of a letter, a digit, a dash or an underscore. */
  predicate IdCode(k: int) {
    48 <= k <= 57 || 65 <= k <= 90 || 97 <= k <= 122 || k == 45 || k == 95
  }

  predicate LegalId(id: string) {
    2 <= |id| <= 200 && forall i :: 0 <= i < |id| ==> IdCode(id[i] as int)
  }

  lemma LegalIdIs(id: string)
    ensures ValidId(id) <==> LegalId(id)
  {
    if LegalId(id) {
      assert forall i :: 0 <= i < |id| ==> IdCode(id[i] as int) && IdChar(id[i]);
    }
    if ValidId(id) {
      assert forall i :: 0 <= i < |id| ==> IdChar(id[i]) && IdCode(id[i] as int);
    }
  }

  /** An identity is accepted once, if it is legal; its bytes then stand in front of those left of an earlier one. */
  lemma IdAccepted(distinctCase: bool, c: Ctx, id: string)
    requires |c.id| == 201
    ensures var (c', rc) := Do(distinctCase, c, SetId(id));
            && (rc == 0 <==> !c.error && c.id[0] as int == 0 && LegalId(id))
            && c' == (if rc == 0 then c.(id := id + c.id[|id|..]) else c)
            && (rc != 0 ==> rc == if c.error then -131 else if c.id[0] as int != 0 then -17 else -22)
  {
    LegalIdIs(id);
    hide ValidId, LegalId;
    assert c.id[0] == NUL <==> c.id[0] as int == 0;
  }

  // ---------- Permissions ----------

  /** A permission is accepted, behind the others, if it has 2 to 1024 bytes and none of them is the same. */
  lemma PermissionAccepted(distinctCase: bool, c: Ctx, p: string)
    requires |c.id| == 201
    ensures var (c', rc) := Do(distinctCase, c, AddPermission(p));
            var held := exists i :: 0 <= i < |c.perms| && Perm.Same(distinctCase, p, c.perms[i]);
            && (rc == 0 <==> !c.error && !held && 2 <= |p| <= 1024)
            && c' == (if rc == 0 then c.(perms := c.perms + [p], needId := true) else c)
            && (rc != 0 ==> rc == if c.error then -131 else if held then -17 else -22)
  {
    hide Perm.Same;
  }

  // ---------- Paths ----------

  const TYPES := ["default", "conf", "data", "exec", "http", "icon", "id", "lib", "plug", "public"]

  /** The names of the types, in their order. */
  lemma TypesByName(name: string)
    ensures TypeOf(name) != TYPE_UNSET <==> name in TYPES
    ensures TypeOf(name) != TYPE_UNSET ==> 1 <= TypeOf(name) <= 10 && TYPES[TypeOf(name) - 1] == name
    ensures TypeOf(name) == TYPE_DEFAULT <==> name == "default"
  {
    assert forall t :: 1 <= t <= 10 ==> TypeName(t) == TYPES[t - 1];
    TypeRoundTrip(TYPE_DEFAULT);
    if name in TYPES {
      var i :| 0 <= i < |TYPES| && TYPES[i] == name;
      TypeRoundTrip(i + 1);
    }
  }

  /** The normal form starts with a slash, has at most 1024 bytes, and no ".." is met beyond the buffer. */
  predicate Located(path: string) {
    && Std(path) != "" && Std(path)[0] as int == 47 && |Std(path)| <= 1024
    && Fits(Stack([], false), Segments(path), IsAbsolute(path), 1025)
  }

  lemma LocatedIs(path: string)
    ensures Locates(path) <==> Located(path)
  {
    hide Std, Segments, Fits;
  }

  /**
   Going through a long name and back leads to the root, yet the path is refused
   when the name alone did not fit in the buffer of 1025 bytes.
   */
  lemma LongWayToTheRoot(name: string)
    requires NoSlash(name) && !Dotted(name)
    ensures Std("/" + name + "/..") == "/" && (Located("/" + name + "/..") <==> |name| <= 1024)
  {
    var path := "/" + name + "/..";
    assert "" + "/" + name == "/" + name && "/" + name + "/" + ".." == path;
    SegmentsOfMore("", name);
    SegmentsOfMore("/" + name, "..");
    assert [""] + [name] + [".."] == ["", name, ".."];
    var segs := Segments(path);
    hide Segments;
    var s0, s1 := Stack([], false), Stack([], true);
    var s2 := Stack([name], true);
    assert segs[1..] == [name, ".."] && segs[1..][1..] == [".."] && segs[1..][1..][1..] == [];
    assert PathStd.Apply(s0, "", false, true) == s1 && PathStd.Apply(s1, name, false, true) == s2;
    assert [] + [name] == [name] && Body(s2) == "/" + name;
    assert PathStd.Apply(s2, "..", true, true) == s1;
    assert Walk(s0, segs, true) == Walk(s1, [name, ".."], true) == Walk(s2, [".."], true) == Walk(s1, [], true) == s1;
    assert Fits(s2, [".."], true, 1025) == (|Body(s2)| <= 1025 && Fits(s1, [], true, 1025));
    assert Fits(s0, segs, true, 1025) == Fits(s1, [name, ".."], true, 1025) == Fits(s2, [".."], true, 1025);
  }

  /** One of the paths has the components of the given one. */
  predicate HasLocation(paths: seq<PathItem>, path: string) {
    exists i :: 0 <= i < |paths| && Resolve(Segments(paths[i].path)) == Resolve(Segments(path))
  }

  lemma SameLocation(p: string, path: string)
    requires GoodPath(p) && IsAbsolute(Std(path))
    ensures p == Std(path) <==> Resolve(Segments(p)) == Resolve(Segments(path))
  {
    FormFromRoot(path);
    FormFromRoot(p);
    ComponentsOfForm(p);
    ComponentsOfForm(Std(path));
    StdIsIdempotent(path);
    FormOfForm(path);
    hide Std, Segments, Resolve, Rooted;
  }

  /** The normal form has the components of the path. */
  lemma FormOfForm(path: string)
    requires IsAbsolute(Std(path))
    ensures Resolve(Segments(Std(path))) == Resolve(Segments(path))
  {
    var st := Walk(Stack([], false), Segments(path), IsAbsolute(path));
    WalkResolves(Stack([], false), [], Segments(path), IsAbsolute(path));
    assert [] + Segments(path) == Segments(path);
    SegmentsHaveNoSlash(path);
    WalkIsProper(Stack([], false), Segments(path), IsAbsolute(path));
    if st.comps != [] {
      RootedSegments(st.comps);
    }
    FormFromRoot(path);
    hide Std, Segments, Walk;
    RootIsNothing();
  }

  lemma RootIsNothing()
    ensures Resolve(Segments("/")) == []
  {
    assert "/"[1..] == "" && Segments("/") == ["", ""];
    assert ["", ""][..1] == [""] && [""][..0] == [];
  }

  /** The segments of a path from the root of proper components resolve to these. */
  lemma {:induction false} RootedSegments(comps: seq<string>)
    requires Proper(comps) && comps != []
    ensures Segments(Rooted(comps)) == [""] + comps && Resolve([""] + comps) == comps
    decreases |comps|
  {
    var c, last := comps[..|comps| - 1], comps[|comps| - 1];
    assert comps == c + [last];
    ResolveSnoc([""] + c, last);
    assert [""] + c + [last] == [""] + comps;
    SegmentsOfMore(Rooted(c), last);
    if c == [] {
      assert [""] + c == [""] && [""][..0] == [];
      assert Segments("") == [""];
    } else {
      RootedSegments(c);
    }
  }

  lemma LocationIsHeld(paths: seq<PathItem>, path: string)
    requires GoodPaths(paths) && IsAbsolute(Std(path))
    ensures HasPath(paths, Std(path)) <==> HasLocation(paths, path)
  {
    forall i | 0 <= i < |paths|
      ensures paths[i].path == Std(path) <==> Resolve(Segments(paths[i].path)) == Resolve(Segments(path))
    {
      SameLocation(paths[i].path, path);
    }
    hide Std, Segments, Resolve;
  }

  /**
   A path is accepted exactly when no error is up, its type has one of the ten
   names, it is located from the root in at most 1023 bytes, no stored path has
   its components, and the file system does not object to its normal form.
   */
  lemma PathAccepted(distinctCase: bool, c: Ctx, path: string, typeName: string, files: Files)
    requires Good(distinctCase, c)
    ensures var (c', rc) := Do(distinctCase, c, AddPath(path, typeName, files));
            && (rc == 0 <==> !c.error && typeName in TYPES && Located(path) && |Std(path)| <= 1023
                             && !HasLocation(c.paths, path) && files.path(Std(path)) >= 0)
            && (rc != 0 ==> c' == c)
            && (rc == 0 ==>
                  && |c'.paths| == |c.paths| + 1
                  && var t := c'.paths[|c.paths|].pathType;
                     1 <= t <= 10 && TYPES[t - 1] == typeName
                     && c' == c.(paths := c.paths + [PathItem(Std(path), t)], needId := c.needId
                         || typeName != "default"))
  {
    TypesByName(typeName);
    LocatedIs(path);
    if Located(path) {
      LocationIsHeld(c.paths, path);
    }
    hide Std, Segments, Fits, Resolve, Good, TypeOf, HasLocation, HasPath;
    var t := TypeOf(typeName);
    assert typeName in TYPES ==> TYPES[t - 1] == typeName;
  }

  /** Why a path is refused, in this order; the answer of the file system is passed on. */
  lemma PathRefused(distinctCase: bool, c: Ctx, path: string, typeName: string, files: Files)
    requires Good(distinctCase, c)
    ensures var rc := Do(distinctCase, c, AddPath(path, typeName, files)).1;
            if c.error then rc == -131
            else if typeName !in TYPES || !Located(path) then rc == -22
            else if HasLocation(c.paths, path) then rc == -17
            else if files.path(Std(path)) < 0 then rc == files.path(Std(path))
            else if |Std(path)| > 1023 then rc == -22
            else rc == 0
  {
    TypesByName(typeName);
    LocatedIs(path);
    if Located(path) {
      LocationIsHeld(c.paths, path);
    }
    hide Std, Segments, Fits, Resolve, Good, TypeOf, HasLocation, HasPath;
  }

  // ---------- Plugs ----------

  /** One of the plugs is imported at the location of the path. */
  predicate HasImportAt(plugs: seq<Plugs.Item>, path: string) {
    exists i :: 0 <= i < |plugs| && Resolve(Segments(plugs[i].impdir)) == Resolve(Segments(path))
  }

  lemma ImportIsHeld(plugs: seq<Plugs.Item>, path: string)
    requires GoodPlugs(plugs) && IsAbsolute(Std(path))
    ensures HasImport(plugs, Std(path)) <==> HasImportAt(plugs, path)
  {
    forall i | 0 <= i < |plugs|
      ensures plugs[i].impdir == Std(path) <==> Resolve(Segments(plugs[i].impdir)) == Resolve(Segments(path))
    {
      SameLocation(plugs[i].impdir, path);
    }
    hide Std, Segments, Resolve;
  }

  /**
   A plug is accepted, in front of the others, exactly when no error is up, both
   directories are located from the root, no plug is imported at the location of
   the second, the identity is legal, and the file system objects to neither.
   */
  lemma PlugAccepted(distinctCase: bool, c: Ctx, expdir: string, impid: string, impdir: string, files: Files)
    requires Good(distinctCase, c)
    ensures var (c', rc) := Do(distinctCase, c, AddPlug(expdir, impid, impdir, files));
            && (rc == 0 <==> !c.error && Located(expdir) && Located(impdir) && !HasImportAt(c.plugs, impdir)
                             && LegalId(impid) && files.directory(Std(expdir)) >= 0
                                 && files.directory(Std(impdir)) >= 0)
            && c' == (if rc == 0 then c.(plugs := [Plugs.Item(Std(expdir), impid, Std(impdir))] + c.plugs, needId :=
                true)
                      else c)
  {
    LocatedIs(expdir);
    LocatedIs(impdir);
    LegalIdIs(impid);
    if Located(impdir) {
      ImportIsHeld(c.plugs, impdir);
    }
    hide Std, Segments, Fits, Resolve, Good, HasImport, HasImportAt, ValidId, LegalId;
  }

  /** Why a plug is refused, in this order. */
  lemma PlugRefused(distinctCase: bool, c: Ctx, expdir: string, impid: string, impdir: string, files: Files)
    requires Good(distinctCase, c)
    ensures var rc := Do(distinctCase, c, AddPlug(expdir, impid, impdir, files)).1;
            if c.error then rc == -131
            else if !Located(expdir) || !Located(impdir) then rc == -22
            else if HasImportAt(c.plugs, impdir) then rc == -17
            else if !LegalId(impid) then rc == -22
            else if files.directory(Std(expdir)) < 0 then rc == files.directory(Std(expdir))
            else if files.directory(Std(impdir)) < 0 then rc == files.directory(Std(impdir))
            else rc == 0
  {
    LocatedIs(expdir);
    LocatedIs(impdir);
    LegalIdIs(impid);
    if Located(impdir) {
      ImportIsHeld(c.plugs, impdir);
    }
    hide Std, Segments, Fits, Resolve, Good, HasImport, HasImportAt, ValidId, LegalId;
  }

  // ---------- Clear and the error flag ----------

  /** A clear leaves nothing to show, no need of an identity and no error; only bytes behind the first one stay. */
  lemma ClearEmpties(distinctCase: bool, c: Ctx)
    requires |c.id| == 201
    ensures var (d, rc) := Do(distinctCase, c, Clear);
            && rc == 0 && d.perms == [] && d.paths == [] && d.plugs == [] && !d.needId && !d.error
            && |d.id| == 201 && d.id[0] as int == 0 && d.id[1..] == c.id[1..] && Replay.Items(d) == []
  {
    assert ClearSpec(c).id[0] == NUL;
    assert CStr(ClearSpec(c).id) == "";
  }

  /** An error raised changes nothing else. */
  lemma RaiseRaises(distinctCase: bool, c: Ctx)
    requires |c.id| == 201
    ensures Do(distinctCase, c, RaiseError) == (Ctx(c.id, c.perms, c.paths, c.plugs, c.needId, true), 0)
  {
  }

  /** A new session. */
  lemma NewIsEmpty()
    ensures var c := NewCtx();
            && c.perms == [] && c.paths == [] && c.plugs == [] && !c.needId && !c.error
            && |c.id| == 201 && forall i :: 0 <= i < 201 ==> c.id[i] as int == 0
  {
  }
}
