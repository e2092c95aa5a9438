/** The requests word by word: what each does to the session and to the rules, and the lines that answer it. */
module Requests {
  import opened Text
  import opened Escaping
  import opened Utf8
  import Paths
  import opened ContextSpec
  import opened Replay
  import opened Database
  import opened Actions
  import opened SessionSpec
  import opened Settings

  // ---------- The words ----------

  /** The word for the error number rc; each command has words for some of them. */
  function Word(command: string, rc: int): string {
    if rc == -131 then "not-recoverable"
    else if rc == -22 then "invalid"
    else if rc == -17 && command in ["id", "path", "permission", "plug"] then "already-set"
    else if rc == -2 && command in ["path", "plug"] then "not-found"
    else if rc == -13 && command in ["path", "plug"] then "no-access"
    else if rc == -20 && command == "plug" then "not-dir"
    else if rc == -1 && command == "install" then "forbidden"
    else "internal"
  }

  function Answer(command: string, rc: int): Record {
    if rc >= 0 then ["done"] else ["error", Word(command, rc)]
  }

  function SettingOf(args: Record, files: Files): Option<Op> {
    if |args| == 2 && args[0] == "id" then Some(SetId(args[1]))
    else if |args| == 2 && args[0] == "permission" then Some(AddPermission(args[1]))
    else if |args| == 3 && args[0] == "path" then Some(AddPath(args[1], args[2], files))
    else if |args| == 4 && args[0] == "plug" then Some(AddPlug(args[1], args[2], args[3], files))
    else None
  }

  function ActionOf(args: Record, c: Ctx, w: World): Option<Act> {
    if args == ["install"] then Some(DoInstall(c, w))
    else if args == ["uninstall"] then Some(DoUninstall(c, w))
    else None
  }

  function TypeWord(t: int): string {
    if 1 <= t <= 10 then TYPES[t - 1] else if t == 0 then "<unset>" else "invalid"
  }

  /** The lines of a display. */
  function ShownLines(c: Ctx): seq<Record> {
    (if c.error then [["string", "error", "on"]] else [])
    + (if CStr(c.id) == "" then [] else [["string", "id", CStr(c.id)]])
    + seq(|c.paths|, i requires 0 <= i < |c.paths| =>
          ["string", "path", c.paths[i].path, TypeWord(c.paths[i].pathType)])
    + seq(|c.perms|, i requires 0 <= i < |c.perms| => ["string", "permission", c.perms[i]])
    + seq(|c.plugs|, i requires 0 <= i < |c.plugs| =>
          ["string", "plug", c.plugs[i].expdir, c.plugs[i].impid, c.plugs[i].impdir])
  }

  /** Does the record fit in the output buffer? */
  predicate OneBuffer(fs: Record) {
    |EncodeRecord(fs, false)| <= 2000
  }

  /** The lines up to the first that does not fit. */
  function UpToMisfit(lines: seq<Record>): (r: seq<Record>)
    ensures |r| <= |lines|
  {
    if lines == [] || !OneBuffer(lines[0]) then [] else [lines[0]] + UpToMisfit(lines[1..])
  }

  /** What requests do to the context and to the rules, and the lines that answer them. */
  datatype Turn = Turn(ops: seq<Op>, acts: seq<Act>, lines: seq<Record>)

  const NOTHING := Turn([], [], [])
  const VIOLATION := Turn([RaiseError], [], [["error", "protocol"]])

  /** One request that is neither a setting nor an action. */
  function OtherTurn(s: Session, args: Record): Turn {
    if args == ["clear"] then Turn([Clear], [], [["done"]])
    else if args == ["display"] then
      var shown := UpToMisfit(ShownLines(s.ctx));
      if shown == ShownLines(s.ctx) then Turn([], [], shown + [["done"]])
      else Turn([RaiseError], [], shown + [["error", "internal"]])
    else if args == ["log"] then Turn([], [], [["done", if s.logging then "on" else "off"]])
    else if args == ["log", "on"] || args == ["log", "off"] then Turn([], [], [["done", args[1]]])
    else VIOLATION
  }

  /** One request past the greeting. Whatever is answered with an error raises the flag. */
  function CommandTurn(distinctCase: bool, s: Session, args: Record, o: Outside): Turn
    requires |s.ctx.id| == 201
  {
    if SettingOf(args, o.files).Some? then
      var op := SettingOf(args, o.files).value;
      var rc := Do(distinctCase, s.ctx, op).1;
      Turn(if rc >= 0 then [op] else [op, RaiseError], [], [Answer(args[0], rc)])
    else if ActionOf(args, s.ctx, o.world).Some? then
      var a := ActionOf(args, s.ctx, o.world).value;
      var rc := Perform(distinctCase, s.db, a).1;
      Turn(if rc >= 0 then [] else [RaiseError], [a], [Answer(args[0], rc)])
    else OtherTurn(s, args)
  }

  /** One request; an empty one is nothing. */
  function TurnOf(distinctCase: bool, s: Session, args: Record, o: Outside): Turn
    requires |s.ctx.id| == 201
  {
    if args == [] then NOTHING
    else if !AllUtf8(args) then VIOLATION
    else if s.version == 0 && args[0] == "sec-lsm-manager" then
      if "1" in args[1..] then Turn([], [], [["done", "1"]]) else VIOLATION
    else CommandTurn(distinctCase, s, args, o)
  }

  // ---------- The commands behind the words ----------

  lemma CommandWords(word: string)
    ensures CommandOf(word) == Hello <==> word == "sec-lsm-manager"
    ensures CommandOf(word) == Wipe <==> word == "clear"
    ensures CommandOf(word) == Display <==> word == "display"
    ensures CommandOf(word) == Identify <==> word == "id"
    ensures CommandOf(word) == Install <==> word == "install"
    ensures CommandOf(word) == Log <==> word == "log"
    ensures CommandOf(word) == Path <==> word == "path"
    ensures CommandOf(word) == Permission <==> word == "permission"
    ensures CommandOf(word) == Plug <==> word == "plug"
    ensures CommandOf(word) == Uninstall <==> word == "uninstall"
  {
    assert |"sec-lsm-manager"| == 15 && |"clear"| == 5 && |"display"| == 7 && |"id"| == 2 && |"install"| == 7;
    assert |"log"| == 3 && |"path"| == 4 && |"permission"| == 10 && |"plug"| == 4 && |"uninstall"| == 9;
    assert "display"[0] == 'd' && "install"[0] == 'i' && "path"[1] == 'a' && "plug"[1] == 'l';
  }

  lemma DistinctCommands()
    ensures "id" != "permission" && "id" != "path" && "id" != "plug" && "id" != "install" && "id" != "uninstall"
    ensures "path" != "permission" && "path" != "plug" && "path" != "install" && "path" != "uninstall"
    ensures "plug" != "permission" && "plug" != "install" && "plug" != "uninstall"
    ensures "permission" != "install" && "permission" != "uninstall" && "install" != "uninstall"
  {
    assert |"id"| == 2 && |"install"| == 7 && |"path"| == 4 && |"permission"| == 10 && |"plug"| == 4;
    assert |"uninstall"| == 9 && "path"[1] == 'a' && "plug"[1] == 'l';
  }

  /** The names that requests have for errors. */
  lemma SettingWords(rc: int)
    requires rc < 0
    ensures ErrorText(rc, ID_ERRORS) == Word("id", rc) && ErrorText(rc, PERMISSION_ERRORS) == Word("permission", rc)
    ensures ErrorText(rc, PATH_ERRORS) == Word("path", rc) && ErrorText(rc, PLUG_ERRORS) == Word("plug", rc)
  {
    DistinctCommands();
  }

  lemma ActionWords(rc: int)
    requires rc < 0
    ensures ErrorText(rc, INSTALL_ERRORS) == Word("install", rc)
    ensures ErrorText(rc, UNINSTALL_ERRORS) == Word("uninstall", rc)
  {
    DistinctCommands();
  }

  /** The line of a result, given its error word. */
  lemma SettledLine(s: Session, rc: int, known: seq<int>, command: string)
    requires rc < 0 ==> ErrorText(rc, known) == Word(command, rc)
    ensures Settle(s, rc, known).0 == if rc >= 0 then s else s.(ctx := RaiseSpec(s.ctx))
    ensures Lines(Settle(s, rc, known).1) == [Answer(command, rc)]
  {
    hide ErrorText, Word, RaiseSpec;
    assert [DONE] + [] == ["done"];
  }

  /** A setting. */
  lemma SettingIsDone(distinctCase: bool, s: Session, args: Record, o: Outside)
    requires args != [] && |s.ctx.id| == 201 && SettingOf(args, o.files).Some?
    ensures var (c, rc) := Do(distinctCase, s.ctx, SettingOf(args, o.files).value);
            var (s', rs) := Dispatch(distinctCase, s, args, o);
            && s' == s.(ctx := if rc >= 0 then c else RaiseSpec(c))
            && Lines(rs) == [Answer(args[0], rc)]
  {
    CommandWords(args[0]);
    DistinctCommands();
    var (c, rc) := Do(distinctCase, s.ctx, SettingOf(args, o.files).value);
    if rc < 0 {
      SettingWords(rc);
    }
    var known := if args[0] == "id" then ID_ERRORS else if args[0] == "path" then PATH_ERRORS
                 else if args[0] == "permission" then PERMISSION_ERRORS else PLUG_ERRORS;
    SettledLine(s.(ctx := c), rc, known, args[0]);
    hide CommandOf, SetIdSpec, AddPathSpec, AddPlugSpec, AddPermissionSpec, InstallSpec, UninstallSpec, ErrorText, Word,
         Lines, Settle, RaiseSpec;
    assert Apply(distinctCase, s.ctx, s.db, args, o) == Some(Effect(c, s.db, rc, known));
  }

  /** An action. */
  lemma ActionIsDone(distinctCase: bool, s: Session, args: Record, o: Outside)
    requires args != [] && |s.ctx.id| == 201 && ActionOf(args, s.ctx, o.world).Some?
    ensures var (db, rc) := Perform(distinctCase, s.db, ActionOf(args, s.ctx, o.world).value);
            var (s', rs) := Dispatch(distinctCase, s, args, o);
            && s' == s.(db := db, ctx := if rc >= 0 then s.ctx else RaiseSpec(s.ctx))
            && Lines(rs) == [Answer(args[0], rc)]
  {
    CommandWords(args[0]);
    DistinctCommands();
    var (db, rc) := Perform(distinctCase, s.db, ActionOf(args, s.ctx, o.world).value);
    if rc < 0 {
      ActionWords(rc);
    }
    var known := if args[0] == "install" then INSTALL_ERRORS else UNINSTALL_ERRORS;
    SettledLine(s.(db := db), rc, known, args[0]);
    hide CommandOf, SetIdSpec, AddPathSpec, AddPlugSpec, AddPermissionSpec, InstallSpec, UninstallSpec, ErrorText, Word,
         Lines, Settle, RaiseSpec;
    assert Apply(distinctCase, s.ctx, s.db, args, o) == Some(Effect(s.ctx, db, rc, known));
  }

  // ---------- The lines of a display ----------

  lemma TypeWords(t: int)
    ensures Paths.TypeName(t) == TypeWord(t)
  {
    assert forall u :: 1 <= u <= 10 ==> Paths.TYPE_STRINGS[u] == TYPES[u - 1];
  }

  lemma ShownLinesAre(c: Ctx)
    ensures Lines(DisplayReplies(c)) == ShownLines(c)
  {
    LinesAppend(if c.error then [ErrorIsOn] else [], DataOf(Items(c)));
    PathLines(c);
    OtherLines(c);
    hide Lines, DataOf, IdItems, PathItems, PermItems, PlugItems, TypeWord;
    var ids, paths, perms, plugs := IdItems(c.id), PathItems(c.paths), PermItems(c.perms), PlugItems(c.plugs);
    DataAppend(ids + paths + perms, plugs);
    DataAppend(ids + paths, perms);
    DataAppend(ids, paths);
    Sum5(Lines(if c.error then [ErrorIsOn] else []), Lines(DataOf(ids)), Lines(DataOf(paths)), Lines(DataOf(perms)),
         Lines(DataOf(plugs)));
  }

  lemma Sum5(a: seq<Record>, b: seq<Record>, c: seq<Record>, d: seq<Record>, e: seq<Record>)
    ensures a + (b + c + d + e) == a + b + c + d + e
  {
  }

  lemma OtherLines(c: Ctx)
    ensures Lines(if c.error then [ErrorIsOn] else []) == if c.error then [["string", "error", "on"]] else []
    ensures Lines(DataOf(IdItems(c.id))) == if CStr(c.id) == "" then [] else [["string", "id", CStr(c.id)]]
    ensures Lines(DataOf(PermItems(c.perms)))
         == seq(|c.perms|, i requires 0 <= i < |c.perms| => ["string", "permission", c.perms[i]])
    ensures Lines(DataOf(PlugItems(c.plugs)))
         == seq(|c.plugs|, i requires 0 <= i < |c.plugs| =>
                ["string", "plug", c.plugs[i].expdir, c.plugs[i].impid, c.plugs[i].impdir])
  {
    hide CStr;
  }

  lemma PathLines(c: Ctx)
    ensures Lines(DataOf(PathItems(c.paths)))
         == seq(|c.paths|, i requires 0 <= i < |c.paths| =>
                ["string", "path", c.paths[i].path, TypeWord(c.paths[i].pathType)])
  {
    hide Paths.TypeName, TypeWord;
    forall i | 0 <= i < |c.paths| ensures Paths.TypeName(c.paths[i].pathType) == TypeWord(c.paths[i].pathType) {
      TypeWords(c.paths[i].pathType);
    }
  }

  lemma DataAppend(a: seq<Visited>, b: seq<Visited>)
    ensures Lines(DataOf(a + b)) == Lines(DataOf(a)) + Lines(DataOf(b))
  {
    hide RecordOf;
  }

  lemma {:induction false} UpToMisfitIs(rs: seq<Reply>)
    ensures Lines(SendablePrefix(rs)) == UpToMisfit(Lines(rs))
    decreases |rs|
  {
    hide RecordOf, EncodeRecord;
    if rs != [] {
      UpToMisfitIs(rs[1..]);
      assert Lines(rs)[1..] == Lines(rs[1..]);
      if Sendable(rs[0]) {
        assert Lines([rs[0]] + SendablePrefix(rs[1..])) == [RecordOf(rs[0])] + Lines(SendablePrefix(rs[1..]));
      }
    }
  }

  lemma {:induction false} UpToMisfitWhole(lines: seq<Record>)
    ensures UpToMisfit(lines) <= lines
    decreases |lines|
  {
    hide OneBuffer;
    if lines != [] && OneBuffer(lines[0]) {
      UpToMisfitWhole(lines[1..]);
      assert lines == [lines[0]] + lines[1..];
    }
  }

  lemma DisplayIsShown(s: Session)
    ensures var (s', rs) := DisplaySpec(s);
            var shown := UpToMisfit(ShownLines(s.ctx));
            if shown == ShownLines(s.ctx) then s' == s && Lines(rs) == shown + [["done"]]
            else s' == s.(ctx := RaiseSpec(s.ctx)) && Lines(rs) == shown + [["error", "internal"]]
  {
    hide DisplayReplies, ShownLines, SendablePrefix, UpToMisfit, RaiseSpec;
    var all := DisplayReplies(s.ctx);
    ShownLinesAre(s.ctx);
    UpToMisfitIs(all);
    var sent := SendablePrefix(all);
    LinesAppend(all, [Done([])]);
    LinesAppend(sent, [Error("internal")]);
    assert [DONE] + [] == ["done"];
    assert Lines([Done([])]) == [["done"]] && Lines([Error("internal")]) == [["error", "internal"]];
    assert |sent| == |all| ==> sent == all;
    assert |Lines(sent)| == |sent| && |Lines(all)| == |all|;
  }

  // ---------- One request ----------

  lemma LogWords()
    ensures "clear" != "display" && "clear" != "log" && "display" != "log" && "on" != "off"
    ensures AllUtf8(["log", "on"]) && AllUtf8(["log", "off"])
  {
    assert |"clear"| == 5 && |"display"| == 7 && |"log"| == 3 && |"on"| == 2 && |"off"| == 3;
    AsciiIsAccepted("log");
    AsciiIsAccepted("on");
    AsciiIsAccepted("off");
  }

  lemma LogIsDone(s: Session, args: Record)
    requires 1 <= |args| <= 2
    ensures var (s', rs) := LogSpec(s, args);
            if |args| == 2 && args[1] != "on" && args[1] != "off" then
              s' == s.(ctx := RaiseSpec(s.ctx), invalid := true) && Lines(rs) == [["error", "protocol"]]
            else
              var next := if |args| == 2 then args[1] == "on" else s.logging;
              s' == s.(logging := next) && Lines(rs) == [["done", if next then "on" else "off"]]
  {
    hide RaiseSpec;
    assert [DONE] + [ON] == ["done", "on"] && [DONE] + [OFF] == ["done", "off"];
  }

  lemma NoCommand(args: Record, s: Session, o: Outside)
    requires args != [] && SettingOf(args, o.files).None? && ActionOf(args, s.ctx, o.world).None?
    ensures !IsSettingOrAction(args)
  {
    CommandWords(args[0]);
    hide CommandOf;
    assert |args| == 1 ==> args == [args[0]];
  }

  lemma NotApplied(distinctCase: bool, s: Session, args: Record, o: Outside)
    requires args != [] && |s.ctx.id| == 201 && !IsSettingOrAction(args)
    ensures Apply(distinctCase, s.ctx, s.db, args, o) == None
  {
    hide CommandOf, SetIdSpec, AddPathSpec, AddPlugSpec, AddPermissionSpec, InstallSpec, UninstallSpec;
  }

  /** Whatever is neither a setting nor an action. */
  lemma OthersAreDone(distinctCase: bool, s: Session, args: Record, o: Outside)
    requires args != [] && |s.ctx.id| == 201
    requires SettingOf(args, o.files).None? && ActionOf(args, s.ctx, o.world).None?
    ensures var (s', rs) := Dispatch(distinctCase, s, args, o);
            if args == ["clear"] then s' == s.(ctx := ClearSpec(s.ctx)) && Lines(rs) == [["done"]]
            else if args == ["display"] then (s', rs) == DisplaySpec(s)
            else if |args| <= 2 && args[0] == "log" then (s', rs) == LogSpec(s, args)
            else s' == s.(ctx := RaiseSpec(s.ctx), invalid := true) && Lines(rs) == [["error", "protocol"]]
  {
    CommandWords(args[0]);
    NoCommand(args, s, o);
    NotApplied(distinctCase, s, args, o);
    LogWords();
    hide CommandOf, Apply, DisplaySpec, LogSpec, ClearSpec, RaiseSpec, SettingOf, ActionOf, IsSettingOrAction;
    assert |args| == 1 ==> args == [args[0]];
    assert [DONE] + [] == ["done"];
  }

  /** The state and the lines after one request are those of its turn. */
  ghost predicate Takes(distinctCase: bool, s: Session, t: Turn, r: (Session, seq<Reply>))
    requires |s.ctx.id| == 201
  {
    && r.0.ctx == DoAll(distinctCase, s.ctx, t.ops)
    && r.0.db == PerformAll(distinctCase, s.db, t.acts)
    && Lines(r.1) == t.lines
    && r.0.invalid == (s.invalid || t.lines == [["error", "protocol"]])
  }

  lemma NoViolation(command: string, rc: int)
    ensures Answer(command, rc) != ["error", "protocol"] && ["error", "internal"] != ["error", "protocol"]
    ensures forall args: Record :: ["done"] + args != ["error", "protocol"]
  {
    assert |"protocol"| == 8 && |"not-recoverable"| == 15 && |"invalid"| == 7 && |"already-set"| == 11;
    assert |"not-found"| == 9 && |"no-access"| == 9 && |"not-dir"| == 7 && |"forbidden"| == 9;
    assert "protocol"[0] == 'p' && "internal"[0] == 'i';
    assert Word(command, rc) != "protocol";
    assert ["error", Word(command, rc)][1] == Word(command, rc) && ["error", "internal"][1] == "internal";
    assert ["error", "protocol"][1] == "protocol" && ["error", "protocol"][0] == "error";
    assert |"done"| == 4 && |"error"| == 5 && ["done"][0] == "done";
    forall args: Record ensures ["done"] + args != ["error", "protocol"] {
      assert (["done"] + args)[0] == "done";
    }
  }

  lemma DoNothing(distinctCase: bool, c: Ctx, db: Db)
    requires |c.id| == 201
    ensures DoAll(distinctCase, c, []) == c && PerformAll(distinctCase, db, []) == db
  {
  }

  lemma DoRaised(distinctCase: bool, c: Ctx, op: Op)
    requires |c.id| == 201
    ensures DoAll(distinctCase, c, [op, RaiseError]) == RaiseSpec(Do(distinctCase, c, op).0)
    ensures DoAll(distinctCase, c, [RaiseError]) == RaiseSpec(c)
  {
    hide SetIdSpec, AddPathSpec, AddPlugSpec, AddPermissionSpec, ClearSpec;
    DoOne(distinctCase, c, RaiseError);
    DoOne(distinctCase, Do(distinctCase, c, op).0, RaiseError);
    assert [op, RaiseError][1..] == [RaiseError];
  }

  lemma PerformOne(distinctCase: bool, db: Db, a: Act)
    ensures PerformAll(distinctCase, db, [a]) == Perform(distinctCase, db, a).0
  {
    assert [a][..0] == [];
    assert PerformAll(distinctCase, db, []) == db;
    hide Perform;
  }

  lemma NothingTakes(distinctCase: bool, s: Session)
    requires |s.ctx.id| == 201
    ensures Takes(distinctCase, s, NOTHING, (s, []))
  {
    DoNothing(distinctCase, s.ctx, s.db);
    LinesOfNone();
  }

  lemma ViolationTakes(distinctCase: bool, s: Session)
    requires |s.ctx.id| == 201
    ensures Takes(distinctCase, s, VIOLATION, Violate(s))
  {
    DoRaised(distinctCase, s.ctx, RaiseError);
    hide RaiseSpec;
  }

  lemma GreetingTakes(distinctCase: bool, s: Session)
    requires |s.ctx.id| == 201
    ensures Takes(distinctCase, s, Turn([], [], [["done", "1"]]), DoneWith(s.(version := 1), ["1"]))
  {
    NoViolation("", 0);
    assert ["done"] + ["1"] == ["done", "1"] && [["done", "1"]][0] == ["done", "1"];
  }

  lemma SettingTakes(distinctCase: bool, s: Session, args: Record, o: Outside)
    requires args != [] && |s.ctx.id| == 201 && SettingOf(args, o.files).Some?
    ensures var op := SettingOf(args, o.files).value;
            var rc := Do(distinctCase, s.ctx, op).1;
            Takes(distinctCase, s, Turn(if rc >= 0 then [op] else [op, RaiseError], [], [Answer(args[0], rc)]),
                  Dispatch(distinctCase, s, args, o))
  {
    SettingIsDone(distinctCase, s, args, o);
    hide Dispatch, Do, Answer, RaiseSpec, SettingOf, Lines;
    var op := SettingOf(args, o.files).value;
    NoViolation(args[0], Do(distinctCase, s.ctx, op).1);
    DoOne(distinctCase, s.ctx, op);
    DoRaised(distinctCase, s.ctx, op);
    DoNothing(distinctCase, s.ctx, s.db);
    hide DoAll, PerformAll;
    assert [Answer(args[0], Do(distinctCase, s.ctx, op).1)][0] != [["error", "protocol"]][0];
  }

  lemma ActionTakes(distinctCase: bool, s: Session, args: Record, o: Outside)
    requires args != [] && |s.ctx.id| == 201 && ActionOf(args, s.ctx, o.world).Some?
    ensures var a := ActionOf(args, s.ctx, o.world).value;
            var rc := Perform(distinctCase, s.db, a).1;
            Takes(distinctCase, s, Turn(if rc >= 0 then [] else [RaiseError], [a], [Answer(args[0], rc)]),
                  Dispatch(distinctCase, s, args, o))
  {
    ActionIsDone(distinctCase, s, args, o);
    hide Dispatch, Perform, Answer, RaiseSpec, ActionOf, Lines;
    var a := ActionOf(args, s.ctx, o.world).value;
    NoViolation(args[0], Perform(distinctCase, s.db, a).1);
    PerformOne(distinctCase, s.db, a);
    DoRaised(distinctCase, s.ctx, RaiseError);
    DoNothing(distinctCase, s.ctx, s.db);
    hide DoAll, PerformAll;
    assert [Answer(args[0], Perform(distinctCase, s.db, a).1)][0] != [["error", "protocol"]][0];
  }

  lemma DisplayTakes(distinctCase: bool, s: Session)
    requires |s.ctx.id| == 201
    ensures Takes(distinctCase, s, OtherTurn(s, ["display"]), DisplaySpec(s))
  {
    DisplayIsShown(s);
    LogWords();
    DoNothing(distinctCase, s.ctx, s.db);
    DoRaised(distinctCase, s.ctx, RaiseError);
    hide DisplaySpec, ShownLines, UpToMisfit, Lines, DoAll, PerformAll, RaiseSpec;
    assert ["display"][0] == "display" && ["clear"][0] == "clear";
    ShownIsNoViolation(UpToMisfit(ShownLines(s.ctx)));
  }

  lemma ShownIsNoViolation(shown: seq<Record>)
    ensures shown + [["done"]] != [["error", "protocol"]] && shown + [["error", "internal"]] != [["error", "protocol"]]
  {
    NoViolation("", 0);
    assert (shown + [["done"]])[|shown|] == ["done"] + [] == ["done"];
    assert (shown + [["error", "internal"]])[|shown|] == ["error", "internal"];
    assert [["error", "protocol"]][0] == ["error", "protocol"];
  }

  lemma LogTakes(distinctCase: bool, s: Session, args: Record)
    requires |s.ctx.id| == 201 && 1 <= |args| <= 2 && args[0] == "log"
    ensures Takes(distinctCase, s, OtherTurn(s, args), LogSpec(s, args))
    ensures LogSpec(s, args).0.version == s.version
    ensures LogSpec(s, args).0.logging == if args == ["log", "on"] then true else if args == ["log", "off"] then false
                                          else s.logging
  {
    LogIsDone(s, args);
    LogWords();
    DoNothing(distinctCase, s.ctx, s.db);
    DoRaised(distinctCase, s.ctx, RaiseError);
    hide LogSpec, Lines, DoAll, PerformAll, RaiseSpec;
    assert |args| == 1 ==> args == ["log"];
    assert |args| == 2 ==> args == ["log", args[1]] && (args == ["log", "on"] <==> args[1] == "on")
                           && (args == ["log", "off"] <==> args[1] == "off");
    assert [["error", "protocol"]][0] == ["error", "protocol"] && ["error", "protocol"][0] == "error";
    assert forall w: string :: [["done", w]][0][0] == "done";
    assert |"done"| == 4 && |"error"| == 5;
  }

  lemma ClearTakes(distinctCase: bool, s: Session)
    requires |s.ctx.id| == 201
    ensures Takes(distinctCase, s, Turn([Clear], [], [["done"]]), DoneWith(s.(ctx := ClearSpec(s.ctx)), []))
  {
    DoOne(distinctCase, s.ctx, Clear);
    ShownIsNoViolation([]);
    hide ClearSpec;
    assert ["done"] + [] == ["done"] && [] + [["done"]] == [["done"]];
  }

  lemma OthersTake(distinctCase: bool, s: Session, args: Record, o: Outside)
    requires args != [] && |s.ctx.id| == 201
    requires SettingOf(args, o.files).None? && ActionOf(args, s.ctx, o.world).None?
    ensures Takes(distinctCase, s, OtherTurn(s, args), Dispatch(distinctCase, s, args, o))
  {
    OthersAreDone(distinctCase, s, args, o);
    LogWords();
    WordFirst(args);
    hide Dispatch, DisplaySpec, LogSpec, ShownLines, UpToMisfit, Lines, DoAll, PerformAll, RaiseSpec, ClearSpec;
    if args == ["clear"] {
      ClearTakes(distinctCase, s);
    } else if args == ["display"] {
      DisplayTakes(distinctCase, s);
    } else if |args| <= 2 && args[0] == "log" {
      LogTakes(distinctCase, s, args);
    } else {
      ViolationTakes(distinctCase, s);
    }
  }

  lemma WordFirst(args: Record)
    requires args != []
    ensures args == ["clear"] ==> args[0] == "clear"
    ensures args == ["display"] ==> args[0] == "display"
    ensures args in [["log"], ["log", "on"], ["log", "off"]] ==> args[0] == "log" && |args| <= 2
  {
  }

  /** A session that has just been given its version takes the same turn. */
  lemma GreetedTakes(distinctCase: bool, s: Session, args: Record, o: Outside)
    requires args != [] && |s.ctx.id| == 201
    ensures Takes(distinctCase, s, CommandTurn(distinctCase, s, args, o), Dispatch(distinctCase, Greeted(s), args, o))
  {
    var g := Greeted(s);
    hide Dispatch, Do, Perform, Answer, SettingOf, ActionOf, ShownLines, UpToMisfit, Lines, DoAll, PerformAll;
    if SettingOf(args, o.files).Some? {
      SettingTakes(distinctCase, g, args, o);
    } else if ActionOf(args, s.ctx, o.world).Some? {
      ActionTakes(distinctCase, g, args, o);
    } else {
      OthersTake(distinctCase, g, args, o);
    }
  }

  /**
   One request, by its words: what it does to the context is a list of settings,
   what it does to the rules a list of actions, and its lines are these words.
   */
  lemma RequestTakesTurn(distinctCase: bool, s: Session, args: Record, o: Outside)
    requires |s.ctx.id| == 201
    ensures Takes(distinctCase, s, TurnOf(distinctCase, s, args, o), OnRequestSpec(distinctCase, s, args, o))
  {
    hide Takes, CommandOf, Dispatch, Greeted, AllUtf8, Violate, DoneWith, CommandTurn;
    NothingTakes(distinctCase, s);
    ViolationTakes(distinctCase, s);
    GreetingTakes(distinctCase, s);
    if args != [] {
      CommandWords(args[0]);
      GreetedTakes(distinctCase, s, args, o);
    }
  }


  // ---------- Whole sessions ----------

  /** The session after one request, by its words. */
  function After(distinctCase: bool, s: Session, args: Record, o: Outside): Session
    requires |s.ctx.id| == 201
  {
    var t := TurnOf(distinctCase, s, args, o);
    var greeted := args != [] && AllUtf8(args) && (args[0] == "sec-lsm-manager" ==> "1" in args[1..]);
    Session(DoAll(distinctCase, s.ctx, t.ops),
            if s.version == 0 && greeted then 1 else s.version,
            s.invalid || t.lines == [["error", "protocol"]],
            if args == ["log", "on"] then true else if args == ["log", "off"] then false else s.logging,
            PerformAll(distinctCase, s.db, t.acts))
  }

  lemma CommandKeepsVersion(distinctCase: bool, s: Session, args: Record, o: Outside)
    requires args != [] && |s.ctx.id| == 201
    ensures var s' := Dispatch(distinctCase, s, args, o).0;
            && s'.version == s.version
            && s'.logging == if args == ["log", "on"] then true else if args == ["log", "off"] then false else s.logging
  {
    LogWords();
    LogIsNoCommand(args, s, o);
    WordFirst(args);
    hide Dispatch, Do, Perform, SettingOf, ActionOf, DisplaySpec, LogSpec, OtherTurn, Lines, DoAll, PerformAll;
    if SettingOf(args, o.files).Some? {
      SettingIsDone(distinctCase, s, args, o);
    } else if ActionOf(args, s.ctx, o.world).Some? {
      ActionIsDone(distinctCase, s, args, o);
    } else {
      OthersAreDone(distinctCase, s, args, o);
      DisplayIsShown(s);
      if |args| <= 2 && args[0] == "log" {
        LogTakes(distinctCase, s, args);
      }
    }
  }

  lemma LogIsNoCommand(args: Record, s: Session, o: Outside)
    requires args != []
    ensures args == ["log", "on"] || args == ["log", "off"] ==>
              && SettingOf(args, o.files).None? && ActionOf(args, s.ctx, o.world).None?
              && args != ["clear"] && args != ["display"] && args[0] != "sec-lsm-manager" && AllUtf8(args)
  {
    LogWords();
    assert |"log"| == 3 && |"id"| == 2 && |"permission"| == 10 && |"sec-lsm-manager"| == 15;
  }

  lemma VersionAndLog(distinctCase: bool, s: Session, args: Record, o: Outside)
    requires |s.ctx.id| == 201
    ensures var s', t := OnRequestSpec(distinctCase, s, args, o).0, After(distinctCase, s, args, o);
            s'.version == t.version && s'.logging == t.logging
  {
    if args != [] {
      CommandWords(args[0]);
      LogIsNoCommand(args, s, o);
      CommandKeepsVersion(distinctCase, Greeted(s), args, o);
    }
    hide CommandOf, Dispatch, AllUtf8, TurnOf, DoAll, PerformAll, LogSpec;
  }

  /** The session after one request, and its lines, as the words of the request say. */
  lemma RequestByItsWords(distinctCase: bool, s: Session, args: Record, o: Outside)
    requires |s.ctx.id| == 201
    ensures OnRequestSpec(distinctCase, s, args, o).0 == After(distinctCase, s, args, o)
    ensures Lines(OnRequestSpec(distinctCase, s, args, o).1) == TurnOf(distinctCase, s, args, o).lines
  {
    RequestTakesTurn(distinctCase, s, args, o);
    VersionAndLog(distinctCase, s, args, o);
    hide OnRequestSpec, TurnOf, DoAll, PerformAll, AllUtf8, Lines;
  }

  /** All the requests up to the first violation, the k-th with the k-th answers of the outside. */
  function RunOf(distinctCase: bool, s: Session, n: nat, requests: seq<Record>, outs: nat -> Outside): Turn
    requires |s.ctx.id| == 201
    decreases |requests|
  {
    if requests == [] || s.invalid then NOTHING else
      var t := TurnOf(distinctCase, s, requests[0], outs(n));
      var rest := RunOf(distinctCase, After(distinctCase, s, requests[0], outs(n)), n + 1, requests[1..], outs);
      Turn(t.ops + rest.ops, t.acts + rest.acts, t.lines + rest.lines)
  }

  lemma {:induction false} PerformAllAppend(distinctCase: bool, db: Db, a: seq<Act>, b: seq<Act>)
    ensures PerformAll(distinctCase, db, a + b) == PerformAll(distinctCase, PerformAll(distinctCase, db, a), b)
    decreases |b|
  {
    hide Perform;
    if b == [] {
      assert a + b == a;
    } else {
      assert (a + b)[..|a + b| - 1] == a + b[..|b| - 1];
      PerformAllAppend(distinctCase, db, a, b[..|b| - 1]);
    }
  }

  /**
   A session is its run: the context is what the settings, clears and errors of
   the requests make of it, the rules are what the installs and uninstalls make
   of them, and the lines are those of the requests in order.
   */
  lemma {:induction false} SessionIsRun(distinctCase: bool, s: Session, n: nat, requests: seq<Record>,
      outs: nat -> Outside)
    requires |s.ctx.id| == 201
    ensures var (s', rs) := HandleAll(distinctCase, s, n, requests, outs);
            var run := RunOf(distinctCase, s, n, requests, outs);
            && s'.ctx == DoAll(distinctCase, s.ctx, run.ops)
            && s'.db == PerformAll(distinctCase, s.db, run.acts)
            && Lines(rs) == run.lines
    decreases |requests|
  {
    hide OnRequestSpec, TurnOf, Lines;
    DoNothing(distinctCase, s.ctx, s.db);
    LinesOfNone();
    if requests != [] && !s.invalid {
      var args, o := requests[0], outs(n);
      RequestByItsWords(distinctCase, s, args, o);
      var s1 := After(distinctCase, s, args, o);
      SessionIsRun(distinctCase, s1, n + 1, requests[1..], outs);
      var t, rest := TurnOf(distinctCase, s, args, o), RunOf(distinctCase, s1, n + 1, requests[1..], outs);
      DoAllAppend(distinctCase, s.ctx, t.ops, rest.ops);
      PerformAllAppend(distinctCase, s.db, t.acts, rest.acts);
      LinesAppend(OnRequestSpec(distinctCase, s, args, o).1, HandleAll(distinctCase, s1, n + 1, requests[1..], outs).1);
      hide DoAll, PerformAll;
    }
  }

  // ---------- What follows for sessions ----------

  /** Data lines, which begin with "string", and then one status line. */
  predicate Answered(lines: seq<Record>) {
    && lines != []
    && (var last := lines[|lines| - 1]; last != [] && (last[0] == "done" || (|last| == 2 && last[0] == "error")))
    && forall i :: 0 <= i < |lines| - 1 ==> lines[i] != [] && lines[i][0] == "string"
  }

  predicate Refused(lines: seq<Record>) {
    lines != [] && lines[|lines| - 1] != [] && lines[|lines| - 1][0] == "error"
  }

  lemma {:induction false} ShownLinesAreData(c: Ctx)
    ensures forall i :: 0 <= i < |ShownLines(c)| ==> ShownLines(c)[i] != [] && ShownLines(c)[i][0] == "string"
  {
    hide CStr, TypeWord;
  }

  lemma OneAnswer(command: string, rc: int)
    ensures Answered([Answer(command, rc)]) && (Refused([Answer(command, rc)]) <==> rc < 0)
    ensures Answered([["error", "protocol"]]) && Refused([["error", "protocol"]])
    ensures forall args: Record :: Answered([["done"] + args]) && !Refused([["done"] + args])
  {
    hide Word;
    assert |"done"| == 4 && |"error"| == 5 && ["done"][0] == "done" && ["error", "protocol"][0] == "error";
    assert ["error", Word(command, rc)][0] == "error";
    forall args: Record ensures Answered([["done"] + args]) && !Refused([["done"] + args]) {
      assert (["done"] + args)[0] == "done";
    }
  }

  lemma OtherIsAnswered(s: Session, args: Record)
    ensures Answered(OtherTurn(s, args).lines)
    ensures Refused(OtherTurn(s, args).lines) <==> RaiseError in OtherTurn(s, args).ops
  {
    ShownLinesAreData(s.ctx);
    UpToMisfitWhole(ShownLines(s.ctx));
    OneAnswer("", 0);
    hide ShownLines, UpToMisfit;
    assert |"done"| == 4 && |"error"| == 5;
    assert ["done"] + [] == ["done"] && ["done", "on"] == ["done"] + ["on"] && ["done", "off"] == ["done"] + ["off"];
    assert ["error", "internal"][0] == "error";
    assert RaiseError !in [Clear];
  }

  lemma CommandIsAnswered(distinctCase: bool, s: Session, args: Record, o: Outside)
    requires |s.ctx.id| == 201
    ensures var t := CommandTurn(distinctCase, s, args, o);
            Answered(t.lines) && (Refused(t.lines) <==> RaiseError in t.ops)
  {
    hide Answered, Refused, Answer, OtherTurn, Do, Perform;
    if SettingOf(args, o.files).Some? {
      var op := SettingOf(args, o.files).value;
      OneAnswer(args[0], Do(distinctCase, s.ctx, op).1);
      assert [op, RaiseError][1] == RaiseError;
    } else if ActionOf(args, s.ctx, o.world).Some? {
      OneAnswer(args[0], Perform(distinctCase, s.db, ActionOf(args, s.ctx, o.world).value).1);
    } else {
      OtherIsAnswered(s, args);
    }
  }

  /** Each request is answered once, behind its data, and with an error exactly when it raises the flag. */
  lemma TurnIsAnswered(distinctCase: bool, s: Session, args: Record, o: Outside)
    requires |s.ctx.id| == 201 && args != []
    ensures var t := TurnOf(distinctCase, s, args, o);
            Answered(t.lines) && (Refused(t.lines) <==> RaiseError in t.ops)
  {
    CommandIsAnswered(distinctCase, s, args, o);
    OneAnswer("", 0);
    assert ["done", "1"] == ["done"] + ["1"];
    hide Answered, Refused, Answer, CommandTurn, AllUtf8;
  }

  ghost predicate AllDocumented(outs: nat -> Outside) {
    forall k :: Documented(outs(k).world.add) && Documented(outs(k).world.drop)
  }

  lemma ActsOfTurn(distinctCase: bool, s: Session, args: Record, o: Outside)
    requires |s.ctx.id| == 201
    ensures var acts := TurnOf(distinctCase, s, args, o).acts; acts == [] || (|acts| == 1 && acts[0].w == o.world)
  {
    hide Do, Perform, Answer, AllUtf8, UpToMisfit, ShownLines, SettingOf;
  }

  ghost predicate DocumentedActs(acts: seq<Act>) {
    forall i :: 0 <= i < |acts| ==> Documented(acts[i].w.add) && Documented(acts[i].w.drop)
  }

  lemma DocumentedAppend(a: seq<Act>, b: seq<Act>)
    requires DocumentedActs(a) && DocumentedActs(b)
    ensures DocumentedActs(a + b)
  {
    hide Documented;
  }

  lemma {:induction false} ActsAreDocumented(distinctCase: bool, s: Session, n: nat, requests: seq<Record>,
      outs: nat -> Outside)
    requires |s.ctx.id| == 201 && AllDocumented(outs)
    ensures DocumentedActs(RunOf(distinctCase, s, n, requests, outs).acts)
    decreases |requests|
  {
    hide Documented, TurnOf;
    if requests != [] && !s.invalid {
      var t, s1 := TurnOf(distinctCase, s, requests[0], outs(n)), After(distinctCase, s, requests[0], outs(n));
      ActsOfTurn(distinctCase, s, requests[0], outs(n));
      ActsAreDocumented(distinctCase, s1, n + 1, requests[1..], outs);
      DocumentedAppend(t.acts, RunOf(distinctCase, s1, n + 1, requests[1..], outs).acts);
    }
  }

  /** The rules after a session are what the last install or uninstall that changed them made of them. */
  lemma RulesOverSessions(distinctCase: bool, s: Session, n: nat, requests: seq<Record>,
      outs: nat -> Outside, l: string)
    requires |s.ctx.id| == 201 && AllDocumented(outs)
    ensures At(HandleAll(distinctCase, s, n, requests, outs).0.db, l)
         == AfterOutcome(At(s.db, l), LastOutcome(distinctCase, RunOf(distinctCase, s, n, requests, outs).acts, l))
  {
    SessionIsRun(distinctCase, s, n, requests, outs);
    ActsAreDocumented(distinctCase, s, n, requests, outs);
    RulesOverRuns(distinctCase, s.db, RunOf(distinctCase, s, n, requests, outs).acts, l);
    hide HandleAll, RunOf, At, LastOutcome, Documented, PerformAll, DoAll;
  }
}
