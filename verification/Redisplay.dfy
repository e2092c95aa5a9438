/** The lines of a display, sent back as requests, rebuild the session they show. */
module Redisplay {
  import opened Text
  import opened Utf8
  import opened PathStd
  import opened PathNormal
  import Paths
  import opened ContextSpec
  import opened Replay
  import opened Database
  import Actions
  import Permissions
  import opened SessionSpec
  import opened Requests

  // ---------- The session holds valid texts ----------

  lemma {:induction false} PiecesAreUtf8(segs: seq<string>)
    requires segs != [] && Continues(Interlaced(segs), 0)
    ensures AllUtf8(segs)
    decreases |segs|
  {
    if |segs| > 1 {
      assert Interlaced(segs) == segs[0] + ['/'] + Interlaced(segs[1..]);
      AsciiSeparates(segs[0], '/', Interlaced(segs[1..]), 0);
      PiecesAreUtf8(segs[1..]);
      assert forall i :: 0 < i < |segs| ==> segs[i] == segs[1..][i - 1];
    }
  }

  lemma {:induction false} WalkIsUtf8(st: Stack, segs: seq<string>, absolute: bool)
    requires AllUtf8(st.comps) && AllUtf8(segs)
    ensures AllUtf8(Walk(st, segs, absolute).comps)
    decreases |segs|
  {
    hide Continues;
    if segs != [] {
      WalkIsUtf8(PathStd.Apply(st, segs[0], |segs| == 1, absolute), segs[1..], absolute);
    }
  }

  lemma {:induction false} JoinIsUtf8(comps: seq<string>)
    requires AllUtf8(comps)
    ensures Continues(Join(comps), 0)
    decreases |comps|
  {
    if |comps| > 1 {
      var before, last := comps[..|comps| - 1], comps[|comps| - 1];
      JoinIsUtf8(before);
      AsciiSeparates(Join(before), '/', last, 0);
      assert Join(comps) == Join(before) + ['/'] + last;
    }
  }

  lemma ShownIsUtf8(st: Stack)
    requires AllUtf8(st.comps)
    ensures Continues(Shown(st), 0)
  {
    JoinIsUtf8(st.comps);
    AsciiSeparates("", '/', Join(st.comps), 0);
    AsciiIsAccepted("");
    AsciiIsAccepted("/");
    AsciiIsAccepted(".");
    hide Continues, Join;
    assert "" + ['/'] + Join(st.comps) == "/" + Join(st.comps);
  }

  /** Normalisation takes valid texts to valid texts. */
  lemma StdIsUtf8(path: string)
    requires Continues(path, 0)
    ensures Continues(Std(path), 0)
  {
    hide Continues, Segments, Walk, Shown, Interlaced;
    SegmentsAreBetweenSlashes(path);
    PiecesAreUtf8(Segments(path));
    WalkIsUtf8(Stack([], false), Segments(path), IsAbsolute(path));
    ShownIsUtf8(Walk(Stack([], false), Segments(path), IsAbsolute(path)));
  }

  /** All texts of the context but its identity, which is plain anyway, are valid. */
  predicate Spoken(c: Ctx) {
    && AllUtf8(c.perms)
    && (forall i :: 0 <= i < |c.paths| ==> Continues(c.paths[i].path, 0))
    && (forall i :: 0 <= i < |c.plugs| ==> AllUtf8([c.plugs[i].expdir, c.plugs[i].impid, c.plugs[i].impdir]))
  }

  predicate SpokenOp(op: Op) {
    match op
    case AddPermission(p) => Continues(p, 0)
    case AddPath(path, _, _) => Continues(path, 0)
    case AddPlug(expdir, impid, impdir, _) => Continues(expdir, 0) && Continues(impid, 0) && Continues(impdir, 0)
    case _ => true
  }

  lemma DoKeepsSpoken(distinctCase: bool, c: Ctx, op: Op)
    requires |c.id| == 201 && Spoken(c) && SpokenOp(op)
    ensures Spoken(Do(distinctCase, c, op).0)
  {
    hide Continues, Std, Locates, ValidId, Paths.TypeOf, Paths.HasPath, HasImport;
    match op
    case AddPath(path, _, _) => StdIsUtf8(path);
    case AddPlug(expdir, impid, impdir, _) =>
      StdIsUtf8(expdir);
      StdIsUtf8(impdir);
    case _ =>
  }

  lemma {:induction false} DoAllKeepsSpoken(distinctCase: bool, c: Ctx, ops: seq<Op>)
    requires |c.id| == 201 && Spoken(c) && forall i :: 0 <= i < |ops| ==> SpokenOp(ops[i])
    ensures Spoken(DoAll(distinctCase, c, ops))
    decreases |ops|
  {
    hide Do, Spoken, SpokenOp;
    if ops != [] {
      DoKeepsSpoken(distinctCase, c, ops[0]);
      DoAllKeepsSpoken(distinctCase, Do(distinctCase, c, ops[0]).0, ops[1..]);
    }
  }

  /** Requests that are not valid texts set nothing. */
  lemma TurnIsSpoken(distinctCase: bool, s: Session, args: Record, o: Outside)
    requires |s.ctx.id| == 201
    ensures var ops := TurnOf(distinctCase, s, args, o).ops; forall i :: 0 <= i < |ops| ==> SpokenOp(ops[i])
  {
    hide Do, Actions.Perform, Answer, Continues, UpToMisfit, ShownLines;
    if args != [] && AllUtf8(args) && SettingOf(args, o.files).Some? {
      assert SpokenOp(SettingOf(args, o.files).value);
    }
  }

  lemma {:induction false} SessionsAreSpoken(distinctCase: bool, s: Session, n: nat, requests: seq<Record>,
      outs: nat -> Outside)
    requires |s.ctx.id| == 201 && Spoken(s.ctx)
    ensures Spoken(HandleAll(distinctCase, s, n, requests, outs).0.ctx)
    decreases |requests|
  {
    hide OnRequestSpec, TurnOf, Spoken, SpokenOp;
    if requests != [] && !s.invalid {
      var args, o := requests[0], outs(n);
      RequestByItsWords(distinctCase, s, args, o);
      TurnIsSpoken(distinctCase, s, args, o);
      DoAllKeepsSpoken(distinctCase, s.ctx, TurnOf(distinctCase, s, args, o).ops);
      SessionsAreSpoken(distinctCase, After(distinctCase, s, args, o), n + 1, requests[1..], outs);
    }
  }

  // ---------- One item sent back ----------

  function AsRequest(v: Visited): Record {
    match v
    case VisitedId(id) => ["id", id]
    case VisitedPath(path, typeName) => ["path", path, typeName]
    case VisitedPermission(perm) => ["permission", perm]
    case VisitedPlug(item) => ["plug", item.expdir, item.impid, item.impdir]
  }

  /** The item is in normal form, and the file system has what it names. */
  predicate Present(v: Visited, files: Files) {
    match v
    case VisitedPath(path, _) => Std(path) == path && files.path(path) >= 0
    case VisitedPlug(item) =>
      && Std(item.expdir) == item.expdir && Std(item.impdir) == item.impdir
      && files.directory(item.expdir) >= 0 && files.directory(item.impdir) >= 0
    case _ => true
  }

  /** A file system that has everything. */
  function Anything(): Files {
    Files((path: string) => 0, (path: string) => 0)
  }

  lemma RequestOfItem(v: Visited, files: Files)
    ensures SettingOf(AsRequest(v), files) == Some(AsOp(v, files))
    ensures AsRequest(v) != [] && AsRequest(v)[0] != "sec-lsm-manager"
  {
    DistinctCommands();
    assert |"sec-lsm-manager"| == 15 && |"id"| == 2 && |"path"| == 4 && |"plug"| == 4 && |"permission"| == 10;
  }

  lemma SameFiles(distinctCase: bool, c: Ctx, v: Visited, files: Files)
    requires |c.id| == 201 && Present(v, files)
    ensures Do(distinctCase, c, AsOp(v, files)) == Do(distinctCase, c, AsOp(v, Anything()))
  {
    hide Std, Locates, ValidId, Paths.TypeOf, Paths.HasPath, HasImport;
  }

  lemma ItemSentBack(distinctCase: bool, t: Session, v: Visited, o: Outside)
    requires |t.ctx.id| == 201 && AllUtf8(AsRequest(v)) && Present(v, o.files)
    requires Do(distinctCase, t.ctx, AsOp(v, Anything())).1 == 0
    ensures var (t', rs) := OnRequestSpec(distinctCase, t, AsRequest(v), o);
            && t'.ctx == Do(distinctCase, t.ctx, AsOp(v, Anything())).0 && t'.db == t.db && t'.invalid == t.invalid
            && Lines(rs) == [["done"]]
  {
    RequestTakesTurn(distinctCase, t, AsRequest(v), o);
    RequestOfItem(v, o.files);
    SameFiles(distinctCase, t.ctx, v, o.files);
    var op := AsOp(v, o.files);
    DoOne(distinctCase, t.ctx, op);
    DoNothing(distinctCase, t.ctx, t.db);
    ShownIsNoViolation([]);
    assert [] + [["done"]] == [["done"]];
    hide OnRequestSpec, AsRequest, AsOp, Do, DoAll, AllUtf8, SettingOf, Lines, Word, Actions.PerformAll;
  }

  // ---------- All of them ----------

  function SentBack(vs: seq<Visited>): (r: seq<Record>)
    ensures |r| == |vs|
  {
    seq(|vs|, i requires 0 <= i < |vs| => AsRequest(vs[i]))
  }

  /** The request is a valid text, and the files it names are there whenever it comes. */
  ghost predicate CanSend(v: Visited, outs: nat -> Outside) {
    AllUtf8(AsRequest(v)) && forall k :: Present(v, outs(k).files)
  }

  ghost predicate Resendable(vs: seq<Visited>, outs: nat -> Outside) {
    forall i :: 0 <= i < |vs| ==> CanSend(vs[i], outs)
  }

  function Dones(n: nat): (r: seq<Record>)
    ensures |r| == n && forall i :: 0 <= i < n ==> r[i] == ["done"]
  {
    seq(n, _ => ["done"])
  }

  lemma {:induction false} AllSentBack(distinctCase: bool, t: Session, n: nat, vs: seq<Visited>, outs: nat -> Outside)
    requires |t.ctx.id| == 201 && !t.invalid && Resendable(vs, outs)
    requires AllAccepted(distinctCase, t.ctx, AsOps(vs, Anything()))
    ensures var (t', rs) := HandleAll(distinctCase, t, n, SentBack(vs), outs);
            && t'.ctx == DoAll(distinctCase, t.ctx, AsOps(vs, Anything())) && t'.db == t.db && !t'.invalid
            && Lines(rs) == Dones(|vs|)
    decreases |vs|
  {
    hide OnRequestSpec, Do, AsOp, AsRequest, AllUtf8, Present, RecordOf;
    if vs != [] {
      var v, ops := vs[0], AsOps(vs, Anything());
      assert ops[0] == AsOp(v, Anything()) && ops[1..] == AsOps(vs[1..], Anything());
      assert SentBack(vs)[0] == AsRequest(v) && SentBack(vs)[1..] == SentBack(vs[1..]);
      ItemSentBack(distinctCase, t, v, outs(n));
      RequestKeepsBytes(distinctCase, t, AsRequest(v), outs(n));
      var (t1, first) := OnRequestSpec(distinctCase, t, AsRequest(v), outs(n));
      AllSentBack(distinctCase, t1, n + 1, vs[1..], outs);
      LinesAppend(first, HandleAll(distinctCase, t1, n + 1, SentBack(vs[1..]), outs).1);
      assert [["done"]] + Dones(|vs| - 1) == Dones(|vs|);
    }
  }

  // ---------- What a display shows can be sent back ----------

  lemma WordsAreUtf8()
    ensures Continues("id", 0) && Continues("path", 0) && Continues("permission", 0) && Continues("plug", 0)
  {
    hide Continues;
    AsciiIsAccepted("id");
    AsciiIsAccepted("path");
    AsciiIsAccepted("permission");
    AsciiIsAccepted("plug");
  }

  lemma TypeNamesAreUtf8(t: int)
    requires Paths.TypeIsValid(t)
    ensures Continues(Paths.TypeName(t), 0)
  {
    var names := Paths.TYPE_STRINGS;
    assert names[1] == "default" && names[2] == "conf" && names[3] == "data" && names[4] == "exec";
    assert names[5] == "http" && names[6] == "icon" && names[7] == "id" && names[8] == "lib";
    assert names[9] == "plug" && names[10] == "public";
    AsciiIsAccepted(names[t]);
  }

  lemma IdIsUtf8(id: string)
    requires GoodId(id)
    ensures Continues(CStr(id), 0)
  {
    ShownIdIsLegal(id);
    AsciiIsAccepted(CStr(id));
  }

  ghost predicate AllPresent(c: Ctx, outs: nat -> Outside) {
    forall k :: FilesPresent(c, outs(k).files)
  }

  lemma PathsCanBeSent(c: Ctx, outs: nat -> Outside, i: nat)
    requires GoodPaths(c.paths) && Spoken(c) && AllPresent(c, outs) && i < |c.paths|
    ensures CanSend(PathItems(c.paths)[i], outs)
  {
    hide Continues, Std, Paths.TypeName;
    WordsAreUtf8();
    TypeNamesAreUtf8(c.paths[i].pathType);
    forall k ensures Present(PathItems(c.paths)[i], outs(k).files) {
      assert FilesPresent(c, outs(k).files);
    }
  }

  lemma PlugsCanBeSent(c: Ctx, outs: nat -> Outside, i: nat)
    requires GoodPlugs(c.plugs) && Spoken(c) && AllPresent(c, outs) && i < |c.plugs|
    ensures CanSend(PlugItems(c.plugs)[i], outs)
  {
    hide Continues, Std;
    WordsAreUtf8();
    var item := c.plugs[i];
    var texts := [item.expdir, item.impid, item.impdir];
    assert Continues(texts[0], 0) && Continues(texts[1], 0) && Continues(texts[2], 0);
    forall k ensures Present(PlugItems(c.plugs)[i], outs(k).files) {
      assert FilesPresent(c, outs(k).files);
    }
  }

  lemma OthersCanBeSent(c: Ctx, outs: nat -> Outside)
    requires GoodId(c.id) && Spoken(c)
    ensures Resendable(IdItems(c.id), outs) && Resendable(PermItems(c.perms), outs)
  {
    hide Continues, GoodId, CStr;
    WordsAreUtf8();
    IdIsUtf8(c.id);
  }

  lemma ItemsCanBeSent(distinctCase: bool, c: Ctx, outs: nat -> Outside)
    requires Good(distinctCase, c) && Spoken(c) && AllPresent(c, outs)
    ensures Resendable(Items(c), outs)
  {
    hide CanSend, GoodId, GoodPaths, GoodPlugs, Permissions.Distinct, Spoken, AllPresent, IdItems, PathItems, PermItems,
         PlugItems;
    OthersCanBeSent(c, outs);
    forall i | 0 <= i < |c.paths| ensures CanSend(PathItems(c.paths)[i], outs) {
      PathsCanBeSent(c, outs, i);
    }
    forall i | 0 <= i < |c.plugs| ensures CanSend(PlugItems(c.plugs)[i], outs) {
      PlugsCanBeSent(c, outs, i);
    }
    ResendableSum(IdItems(c.id), PathItems(c.paths), PermItems(c.perms), PlugItems(c.plugs), outs);
  }

  lemma ResendableSum(a: seq<Visited>, b: seq<Visited>, c: seq<Visited>, d: seq<Visited>, outs: nat -> Outside)
    requires Resendable(a, outs) && Resendable(b, outs) && Resendable(c, outs) && Resendable(d, outs)
    ensures Resendable(a + b + c + d, outs)
  {
    hide CanSend;
  }

  // ---------- From the lines to the requests ----------

  /** Of the lines that begin with "string" what is behind that word. */
  function Resent(lines: seq<Record>): seq<Record> {
    if lines == [] then []
    else (if lines[0] != [] && lines[0][0] == "string" then [lines[0][1..]] else []) + Resent(lines[1..])
  }

  lemma {:induction false} ResentAre(vs: seq<Visited>)
    ensures Resent(Lines(DataOf(vs)) + [["done"]]) == SentBack(vs)
    decreases |vs|
  {
    hide AsRequest, RecordOf;
    var lines := Lines(DataOf(vs)) + [["done"]];
    if vs == [] {
      assert lines == [["done"]] && lines[1..] == [] && |"done"| == 4 && |"string"| == 6;
      assert Resent([]) == [];
    } else {
      ResentAre(vs[1..]);
      LineOfItem(vs[0]);
      assert lines[0] == RecordOf(Data(vs[0])) && lines[1..] == Lines(DataOf(vs[1..])) + [["done"]];
      assert SentBack(vs) == [AsRequest(vs[0])] + SentBack(vs[1..]);
    }
  }

  lemma LineOfItem(v: Visited)
    ensures RecordOf(Data(v)) != [] && RecordOf(Data(v))[0] == "string" && RecordOf(Data(v))[1..] == AsRequest(v)
  {
  }

  /** All the lines have been sent. */
  predicate Complete(lines: seq<Record>) {
    lines != [] && lines[|lines| - 1] == ["done"]
  }

  lemma DisplayTurn(distinctCase: bool, s: Session, o: Outside)
    requires |s.ctx.id| == 201
    ensures TurnOf(distinctCase, s, ["display"], o) == OtherTurn(s, ["display"])
  {
    hide OtherTurn, Do, Actions.Perform, Answer, Continues;
    AsciiIsAccepted("display");
    assert |"display"| == 7 && |"sec-lsm-manager"| == 15 && |"install"| == 7 && |"uninstall"| == 9;
    assert "display"[0] == 'd' && "install"[0] == 'i' && ["display"][0] == "display";
    assert ["install"][0] == "install" && ["uninstall"][0] == "uninstall";
  }

  lemma DisplayLines(distinctCase: bool, s: Session, o: Outside, lines: seq<Record>)
    requires |s.ctx.id| == 201 && !s.ctx.error
    requires lines == Lines(OnRequestSpec(distinctCase, s, ["display"], o).1) && Complete(lines)
    ensures lines == Lines(DataOf(Items(s.ctx))) + [["done"]]
  {
    RequestByItsWords(distinctCase, s, ["display"], o);
    DisplayTurn(distinctCase, s, o);
    LogWords();
    hide OnRequestSpec, TurnOf, After, ShownLines, UpToMisfit, Lines, Items, DataOf;
    assert ["clear"][0] == "clear" && ["display"][0] == "display";
    assert |"error"| == 5 && |"done"| == 4 && ["error", "internal"][0] == "error" && ["done"][0] == "done";
    ShownLinesAre(s.ctx);
    var none: seq<Reply> := [];
    assert none + DataOf(Items(s.ctx)) == DataOf(Items(s.ctx));
    var shown := UpToMisfit(ShownLines(s.ctx));
    assert (shown + [["error", "internal"]])[|shown|] == ["error", "internal"];
  }

  /** Two contexts that differ in the order of their plugs and in bytes of the identity that are not shown. */
  predicate Mirrors(c: Ctx, d: Ctx) {
    && CStr(d.id) == CStr(c.id) && d.paths == c.paths && d.perms == c.perms && d.needId == c.needId && !d.error
    && |d.plugs| == |c.plugs| && forall i :: 0 <= i < |c.plugs| ==> d.plugs[i] == c.plugs[|c.plugs| - 1 - i]
  }

  /**
   The lines of a complete display that begin with "string", sent without that
   word to a new session while the files are still there, are all answered
   "done", and the session is rebuilt with its plugs in reverse order.
   */
  lemma DisplayCanBeSentBack(distinctCase: bool, s: Session, o: Outside, lines: seq<Record>, t: Session, n: nat,
      outs: nat -> Outside)
    requires Good(distinctCase, s.ctx) && Spoken(s.ctx) && !s.ctx.error && t.ctx == NewCtx() && !t.invalid
    requires lines == Lines(OnRequestSpec(distinctCase, s, ["display"], o).1) && Complete(lines)
    requires AllPresent(s.ctx, outs)
    ensures var (t', rs) := HandleAll(distinctCase, t, n, Resent(lines), outs);
            && Lines(rs) == seq(|lines| - 1, _ => ["done"])
            && Mirrors(s.ctx, t'.ctx) && t'.db == t.db && !t'.invalid
  {
    DisplayLines(distinctCase, s, o, lines);
    ResentAre(Items(s.ctx));
    ItemsCanBeSent(distinctCase, s.ctx, outs);
    DisplayReplays(distinctCase, s.ctx, Anything());
    AllSentBack(distinctCase, t, n, Items(s.ctx), outs);
    PlugsAreReversed(s.ctx, DoAll(distinctCase, NewCtx(), AsOps(Items(s.ctx), Anything())));
    hide OnRequestSpec, HandleAll, Resent, SentBack, Items, DataOf, Good, Spoken, AllAccepted, AsOps, DoAll, Mirrors,
         Rebuilt, Resendable, RecordOf;
  }

  lemma PlugsAreReversed(c: Ctx, d: Ctx)
    requires Rebuilt(c, d)
    ensures Mirrors(c, d)
  {
    if c.plugs != [] {
      ReverseSnoc(c.plugs, c.plugs[0]);
    }
    hide CStr, Reverse;
  }

  /** So for the display of any session, whatever its requests were. */
  lemma EveryDisplayCanBeSentBack(distinctCase: bool, logging: bool, db: Db, requests: seq<Record>,
      before: nat -> Outside, s: Session, o: Outside, lines: seq<Record>, t: Session, n: nat, outs: nat -> Outside)
    requires s == HandleAll(distinctCase, Session(NewCtx(), 0, false, logging, db), 0, requests, before).0
    requires |s.ctx.id| == 201 && !s.ctx.error && t.ctx == NewCtx() && !t.invalid
    requires lines == Lines(OnRequestSpec(distinctCase, s, ["display"], o).1) && Complete(lines)
    requires AllPresent(s.ctx, outs)
    ensures var (t', rs) := HandleAll(distinctCase, t, n, Resent(lines), outs);
            && Lines(rs) == seq(|lines| - 1, _ => ["done"])
            && Mirrors(s.ctx, t'.ctx) && t'.db == t.db && !t'.invalid
  {
    NewIsGood(distinctCase);
    NewIsSpoken();
    hide OnRequestSpec, HandleAll, Resent, ContextSpec.Good, Spoken, Mirrors, AllPresent, RecordOf;
    SessionsStayGood(distinctCase, Session(NewCtx(), 0, false, logging, db), 0, requests, before);
    SessionsAreSpoken(distinctCase, Session(NewCtx(), 0, false, logging, db), 0, requests, before);
    DisplayCanBeSentBack(distinctCase, s, o, lines, t, n, outs);
  }

  lemma NewIsSpoken()
    ensures Spoken(NewCtx())
  {
  }
}
