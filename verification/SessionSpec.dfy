/** What the server answers to the requests of one client, as a function of the requests. */
module SessionSpec {
  import opened Text
  import opened Escaping
  import opened Utf8
  import Permissions
  import opened ContextSpec
  import opened Replay
  import opened Contexts
  import opened Database
  import opened Actions

  type Record = seq<string>

  const CLEAR := "clear"
  const DISPLAY := "display"
  const DONE := "done"
  const ERROR := "error"
  const ID := "id"
  const INSTALL := "install"
  const LOG := "log"
  const OFF := "off"
  const ON := "on"
  const PATH := "path"
  const PERMISSION := "permission"
  const PLUG := "plug"
  const HELLO := "sec-lsm-manager"
  const STRING := "string"
  const UNINSTALL := "uninstall"
  const VERSION_1 := "1"

  datatype Command = Hello | Wipe | Display | Identify | Install | Log | Path | Permission | Plug | Uninstall | Unknown

  function CommandOf(word: string): Command {
    if word == HELLO then Hello
    else if word == CLEAR then Wipe
    else if word == DISPLAY then Display
    else if word == ID then Identify
    else if word == INSTALL then Install
    else if word == LOG then Log
    else if word == PATH then Path
    else if word == PERMISSION then Permission
    else if word == PLUG then Plug
    else if word == UNINSTALL then Uninstall
    else Unknown
  }

  /** The lines the server sends: data of a display, and the two status lines. */
  datatype Reply = ErrorIsOn | Data(item: Visited) | Done(args: Record) | Error(text: string)

  function RecordOf(r: Reply): Record {
    match r
    case ErrorIsOn => [STRING, ERROR, ON]
    case Data(VisitedId(id)) => [STRING, ID, id]
    case Data(VisitedPath(path, typeName)) => [STRING, PATH, path, typeName]
    case Data(VisitedPermission(perm)) => [STRING, PERMISSION, perm]
    case Data(VisitedPlug(item)) => [STRING, PLUG, item.expdir, item.impid, item.impdir]
    case Done(args) => [DONE] + args
    case Error(text) => [ERROR, text]
  }

  /** The records of the replies. */
  function Lines(rs: seq<Reply>): (r: seq<Record>)
    ensures |r| == |rs|
  {
    seq(|rs|, i requires 0 <= i < |rs| => RecordOf(rs[i]))
  }

  lemma LinesOfNone()
    ensures Lines([]) == []
  {
  }

  lemma LinesAppend(p: seq<Reply>, q: seq<Reply>)
    ensures Lines(p + q) == Lines(p) + Lines(q)
  {
  }

  /** A session, with the log switch of the server and the permission database. */
  datatype Session = Session(ctx: Ctx, version: nat, invalid: bool, logging: bool, db: Db)

  /** What the outside answers while one request is handled. */
  datatype Outside = Outside(files: Files, world: World)

  /** Can the record be sent at all? */
  predicate Sendable(r: Reply) {
    |EncodeRecord(RecordOf(r), false)| <= BUFFER_LENGTH
  }

  // ---------- Replies ----------

  function NameOf(errno: int): string {
    if errno == ENOTRECOVERABLE then "not-recoverable"
    else if errno == EINVAL then "invalid"
    else if errno == EEXIST then "already-set"
    else if errno == ENOENT then "not-found"
    else if errno == EACCES then "no-access"
    else if errno == ENOTDIR then "not-dir"
    else if errno == EPERM then "forbidden"
    else "internal"
  }

  /** The errors a request has a name for; the others are internal. */
  function ErrorText(rc: int, known: seq<int>): string {
    if -rc in known then NameOf(-rc) else "internal"
  }

  const ID_ERRORS := [ENOTRECOVERABLE, EINVAL, EEXIST]
  const INSTALL_ERRORS := [ENOTRECOVERABLE, EINVAL, EPERM]
  const PATH_ERRORS := [ENOTRECOVERABLE, EINVAL, EEXIST, ENOENT, EACCES]
  const PERMISSION_ERRORS := [ENOTRECOVERABLE, EINVAL, EEXIST]
  const PLUG_ERRORS := [ENOTRECOVERABLE, EINVAL, EEXIST, ENOENT, EACCES, ENOTDIR]
  const UNINSTALL_ERRORS := [ENOTRECOVERABLE, EINVAL]

  function DoneWith(s: Session, args: Record): (Session, seq<Reply>) {
    (s, [Done(args)])
  }

  function FailWith(s: Session, text: string): (Session, seq<Reply>) {
    (s.(ctx := RaiseSpec(s.ctx)), [Error(text)])
  }

  /** A protocol violation is answered, and is the last request that is. */
  function Violate(s: Session): (Session, seq<Reply>) {
    (s.(ctx := RaiseSpec(s.ctx), invalid := true), [Error("protocol")])
  }

  function Settle(s: Session, rc: int, known: seq<int>): (Session, seq<Reply>) {
    if rc >= 0 then DoneWith(s, []) else FailWith(s, ErrorText(rc, known))
  }

  // ---------- Display ----------

  /** The replies that can be sent, up to the first one that cannot. */
  function SendablePrefix(rs: seq<Reply>): (p: seq<Reply>)
    ensures p <= rs
  {
    if rs == [] || !Sendable(rs[0]) then [] else [rs[0]] + SendablePrefix(rs[1..])
  }

  function DataOf(vs: seq<Visited>): (r: seq<Reply>)
    ensures |r| == |vs| && forall i :: 0 <= i < |r| ==> r[i] == Data(vs[i])
  {
    seq(|vs|, i requires 0 <= i < |vs| => Data(vs[i]))
  }

  function DisplayReplies(c: Ctx): seq<Reply> {
    (if c.error then [ErrorIsOn] else []) + DataOf(Items(c))
  }

  /** A display shows everything; when a line does not fit in the output buffer it ends in an error. */
  function DisplaySpec(s: Session): (Session, seq<Reply>) {
    var all := DisplayReplies(s.ctx);
    var sent := SendablePrefix(all);
    if sent == all then (s, all + [Done([])])
    else (s.(ctx := RaiseSpec(s.ctx)), sent + [Error("internal")])
  }

  // ---------- Requests ----------

  function LogSpec(s: Session, args: Record): (Session, seq<Reply>)
    requires 1 <= |args| <= 2
  {
    if |args| == 2 && args[1] != ON && args[1] != OFF then Violate(s)
    else
      var next := if |args| == 2 then args[1] == ON else s.logging;
      DoneWith(s.(logging := next), [if next then ON else OFF])
  }

  /** What a setting or an action makes of the session, with its result and the errors it has a name for. */
  datatype Effect = Effect(ctx: Ctx, db: Db, rc: int, known: seq<int>)

  /** The settings and actions; None for other requests, and for a wrong number of arguments. */
  function Apply(distinctCase: bool, c: Ctx, db: Db, args: Record, o: Outside): Option<Effect>
    requires args != [] && |c.id| == ID_BYTES
  {
    match (CommandOf(args[0]), |args|)
    case (Identify, 2) =>
      var (c', rc) := SetIdSpec(c, args[1]);
      Some(Effect(c', db, rc, ID_ERRORS))
    case (Install, 1) =>
      var (db', rc) := InstallSpec(distinctCase, db, c, o.world);
      Some(Effect(c, db', rc, INSTALL_ERRORS))
    case (Path, 3) =>
      var (c', rc) := AddPathSpec(c, args[1], args[2], o.files);
      Some(Effect(c', db, rc, PATH_ERRORS))
    case (Permission, 2) =>
      var (c', rc) := AddPermissionSpec(distinctCase, c, args[1]);
      Some(Effect(c', db, rc, PERMISSION_ERRORS))
    case (Plug, 4) =>
      var (c', rc) := AddPlugSpec(c, args[1], args[2], args[3], o.files);
      Some(Effect(c', db, rc, PLUG_ERRORS))
    case (Uninstall, 1) =>
      var (db', rc) := UninstallSpec(db, c, o.world);
      Some(Effect(c, db', rc, UNINSTALL_ERRORS))
    case _ => None
  }

  function Dispatch(distinctCase: bool, s: Session, args: Record, o: Outside): (r: (Session, seq<Reply>))
    requires args != [] && |s.ctx.id| == ID_BYTES
  {
    var e := Apply(distinctCase, s.ctx, s.db, args, o);
    if e.Some? then Settle(s.(ctx := e.value.ctx, db := e.value.db), e.value.rc, e.value.known)
    else if CommandOf(args[0]) == Wipe && |args| == 1 then DoneWith(s.(ctx := ClearSpec(s.ctx)), [])
    else if CommandOf(args[0]) == Display && |args| == 1 then DisplaySpec(s)
    else if CommandOf(args[0]) == Log && |args| <= 2 then LogSpec(s, args)
    else Violate(s)
  }

  predicate IsWipe(args: Record) {
    |args| == 1 && CommandOf(args[0]) == Wipe
  }

  lemma DispatchCases(distinctCase: bool, s: Session, args: Record, o: Outside)
    requires args != [] && |s.ctx.id| == ID_BYTES
    ensures var r := Dispatch(distinctCase, s, args, o);
            var e := Apply(distinctCase, s.ctx, s.db, args, o);
            if e.Some? then r == Settle(s.(ctx := e.value.ctx, db := e.value.db), e.value.rc, e.value.known)
            else if IsWipe(args) then r == DoneWith(s.(ctx := ClearSpec(s.ctx)), [])
            else r == DisplaySpec(s) || (|args| <= 2 && r == LogSpec(s, args)) || r == Violate(s)
  {
    hide CommandOf, Apply, Settle, DoneWith, ClearSpec, DisplaySpec, LogSpec, Violate;
  }

  lemma ErrorIsRecoverable()
    ensures ENOTRECOVERABLE in ID_ERRORS && ENOTRECOVERABLE in INSTALL_ERRORS && ENOTRECOVERABLE in PATH_ERRORS
    ensures ENOTRECOVERABLE in PERMISSION_ERRORS && ENOTRECOVERABLE in PLUG_ERRORS
            && ENOTRECOVERABLE in UNINSTALL_ERRORS
  {
    assert ID_ERRORS[0] == INSTALL_ERRORS[0] == PATH_ERRORS[0] == ENOTRECOVERABLE;
    assert PERMISSION_ERRORS[0] == PLUG_ERRORS[0] == UNINSTALL_ERRORS[0] == ENOTRECOVERABLE;
  }

  /** Settings and actions keep the context good. */
  lemma ApplyKeepsGood(distinctCase: bool, c: Ctx, db: Db, args: Record, o: Outside)
    requires args != [] && Good(distinctCase, c)
    ensures var e := Apply(distinctCase, c, db, args, o);
            e.Some? ==> Good(distinctCase, e.value.ctx)
  {
    hide CommandOf, ContextSpec.Good, SetIdSpec, AddPathSpec, AddPlugSpec, AddPermissionSpec, InstallSpec,
        UninstallSpec;
    if |args| == 2 {
      DoKeepsGood(distinctCase, c, SetId(args[1]));
      DoKeepsGood(distinctCase, c, AddPermission(args[1]));
    } else if |args| == 3 {
      DoKeepsGood(distinctCase, c, AddPath(args[1], args[2], o.files));
    } else if |args| == 4 {
      DoKeepsGood(distinctCase, c, AddPlug(args[1], args[2], args[3], o.files));
    }
  }

  /** They leave the error flag and the size of the identity alone, and do nothing while the flag is up. */
  lemma ApplyFacts(distinctCase: bool, c: Ctx, db: Db, args: Record, o: Outside)
    requires args != [] && |c.id| == ID_BYTES
    ensures var e := Apply(distinctCase, c, db, args, o);
            e.Some? ==>
              && |e.value.ctx.id| == ID_BYTES && e.value.ctx.error == c.error
              && (c.error ==>
                    e.value == Effect(c, db, -ENOTRECOVERABLE, e.value.known) && ENOTRECOVERABLE in e.value.known)
              && !IsWipe(args)
  {
    hide CommandOf, Locates, FirstRefusal, PoliciesSpec, ValidId;
    ErrorIsRecoverable();
  }

  /** The version is negotiated by a greeting, or is the default one. */
  function Greeted(s: Session): Session {
    if s.version == 0 then s.(version := 1) else s
  }

  /** One request: the session after it and the lines sent. */
  function OnRequestSpec(distinctCase: bool, s: Session, args: Record, o: Outside): (r: (Session, seq<Reply>))
    requires |s.ctx.id| == ID_BYTES
  {
    if args == [] then (s, [])
    else if !AllUtf8(args) then Violate(s)
    else if s.version == 0 && CommandOf(args[0]) == Hello then
      if VERSION_1 in args[1..] then DoneWith(s.(version := 1), [VERSION_1]) else Violate(s)
    else Dispatch(distinctCase, Greeted(s), args, o)
  }

  lemma RequestKeepsBytes(distinctCase: bool, s: Session, args: Record, o: Outside)
    requires |s.ctx.id| == ID_BYTES
    ensures |OnRequestSpec(distinctCase, s, args, o).0.ctx.id| == ID_BYTES
  {
    hide CommandOf, Apply, AllUtf8, SendablePrefix, DisplayReplies;
    if args != [] {
      ApplyFacts(distinctCase, Greeted(s).ctx, s.db, args, o);
    }
  }

  /** The requests in order, as far as the session stays valid; outs(k) is for the k-th request of the session. */
  function HandleAll(distinctCase: bool, s: Session, n: nat, requests: seq<Record>,
      outs: nat -> Outside): (r: (Session, seq<Reply>))
    requires |s.ctx.id| == ID_BYTES
    ensures |r.0.ctx.id| == ID_BYTES
    decreases |requests|
  {
    if requests == [] || s.invalid then (s, []) else
      RequestKeepsBytes(distinctCase, s, requests[0], outs(n));
      var (s1, first) := OnRequestSpec(distinctCase, s, requests[0], outs(n));
      var (s2, rest) := HandleAll(distinctCase, s1, n + 1, requests[1..], outs);
      (s2, first + rest)
  }

  lemma {:induction false} HandleAppend(distinctCase: bool, s: Session, n: nat, p: seq<Record>, q: seq<Record>,
      outs: nat -> Outside)
    requires |s.ctx.id| == ID_BYTES
    ensures var (s1, r1) := HandleAll(distinctCase, s, n, p, outs);
            var (s2, r2) := HandleAll(distinctCase, s1, n + |p|, q, outs);
            HandleAll(distinctCase, s, n, p + q, outs) == (s2, r1 + r2)
    decreases |p|
  {
    hide OnRequestSpec;
    if p == [] {
      assert p + q == q;
      var (s2, r2) := HandleAll(distinctCase, s, n, q, outs);
      assert [] + r2 == r2;
    } else if s.invalid {
      var none: seq<Reply> := [];
      assert none + none == none;
    } else {
      assert (p + q)[0] == p[0] && (p + q)[1..] == p[1..] + q;
      RequestKeepsBytes(distinctCase, s, p[0], outs(n));
      var (s1, first) := OnRequestSpec(distinctCase, s, p[0], outs(n));
      HandleAppend(distinctCase, s1, n + 1, p[1..], q, outs);
      var (s2, r2) := HandleAll(distinctCase, s1, n + 1, p[1..], outs);
      var r3 := HandleAll(distinctCase, s2, n + |p|, q, outs).1;
      assert first + (r2 + r3) == first + r2 + r3;
    }
  }

  // ---------- Safety over all runs ----------

  predicate IsStatus(r: Reply) {
    r.Done? || r.Error?
  }

  lemma {:induction false} PrefixFacts(rs: seq<Reply>)
    ensures SendablePrefix(rs) == rs <==> forall i :: 0 <= i < |rs| ==> Sendable(rs[i])
    decreases |rs|
  {
    hide Sendable;
    if rs != [] && Sendable(rs[0]) {
      PrefixFacts(rs[1..]);
      assert rs == [rs[0]] + rs[1..];
      assert forall i :: 0 < i < |rs| ==> rs[i] == rs[1..][i - 1];
      if SendablePrefix(rs) == rs {
        assert SendablePrefix(rs[1..]) == SendablePrefix(rs)[1..] == rs[1..];
      }
    }
  }

  /** Data lines, then one status line. */
  predicate EndsInStatus(replies: seq<Reply>) {
    var n := |replies| - 1;
    n >= 0 && IsStatus(replies[n]) && forall i :: 0 <= i < n ==> !IsStatus(replies[i])
  }

  lemma DisplayEndsInStatus(s: Session)
    ensures EndsInStatus(DisplaySpec(s).1)
  {
    hide SendablePrefix, DisplayReplies;
    DataIsNoStatus(s.ctx);
  }

  lemma DataIsNoStatus(c: Ctx)
    ensures forall i :: 0 <= i < |DisplayReplies(c)| ==> !IsStatus(DisplayReplies(c)[i])
  {
    hide Items;
  }

  lemma DispatchEndsInStatus(distinctCase: bool, s: Session, args: Record, o: Outside)
    requires |s.ctx.id| == ID_BYTES && args != []
    ensures EndsInStatus(Dispatch(distinctCase, s, args, o).1)
  {
    DisplayEndsInStatus(s);
    DispatchCases(distinctCase, s, args, o);
    hide Dispatch, IsWipe, CommandOf, Apply, ErrorText, DisplaySpec, ClearSpec;
  }

  /** Each request that is not empty gets exactly one status line, after its data lines. */
  lemma OneStatusPerRequest(distinctCase: bool, s: Session, args: Record, o: Outside)
    requires |s.ctx.id| == ID_BYTES && args != []
    ensures EndsInStatus(OnRequestSpec(distinctCase, s, args, o).1)
  {
    DispatchEndsInStatus(distinctCase, Greeted(s), args, o);
    hide CommandOf, Dispatch, AllUtf8;
  }

  /** Was the request a clear that was done? */
  predicate Cleared(args: Record) {
    IsWipe(args) && AllUtf8(args)
  }

  lemma DisplayError(s: Session)
    ensures var (s', replies) := DisplaySpec(s);
            && replies != [] && (s'.ctx == s.ctx || s'.ctx == RaiseSpec(s.ctx))
            && (s'.ctx.error <==> replies[|replies| - 1].Error? || s.ctx.error)
  {
    hide SendablePrefix, DisplayReplies;
  }

  lemma LogError(s: Session, args: Record)
    ensures 1 <= |args| <= 2 ==>
              var (s', replies) := LogSpec(s, args);
              && |replies| == 1 && (s'.ctx == s.ctx || s'.ctx == RaiseSpec(s.ctx))
              && (s'.ctx.error <==> replies[0].Error? || s.ctx.error)
  {
  }

  lemma ClearHasNoError(c: Ctx)
    requires |c.id| == ID_BYTES
    ensures !ClearSpec(c).error
  {
  }

  lemma DispatchError(distinctCase: bool, s: Session, args: Record, o: Outside)
    requires |s.ctx.id| == ID_BYTES && args != []
    ensures var (s', replies) := Dispatch(distinctCase, s, args, o);
            && replies != []
            && (s'.ctx.error <==> replies[|replies| - 1].Error?
                                  || (s.ctx.error && !IsWipe(args)))
  {
    hide Dispatch, IsWipe, CommandOf, Apply, ErrorText, DisplaySpec, LogSpec, ClearSpec;
    ApplyFacts(distinctCase, s.ctx, s.db, args, o);
    DisplayError(s);
    LogError(s, args);
    ClearHasNoError(s.ctx);
    DispatchCases(distinctCase, s, args, o);
  }

  /** The error flag after a request: up if an error was answered, down after a clear, else as before. */
  lemma ErrorFlagStep(distinctCase: bool, s: Session, args: Record, o: Outside)
    requires |s.ctx.id| == ID_BYTES && args != []
    ensures var (s', replies) := OnRequestSpec(distinctCase, s, args, o);
            replies != [] && (s'.ctx.error <==> replies[|replies| - 1].Error? || (s.ctx.error && !Cleared(args)))
  {
    DispatchError(distinctCase, Greeted(s), args, o);
    hide CommandOf, AllUtf8, Dispatch;
  }

  /** Has an error been answered since the beginning or the last clear? */
  function ErrorSince(distinctCase: bool, s: Session, n: nat, requests: seq<Record>, outs: nat -> Outside,
      before: bool): bool
    requires |s.ctx.id| == ID_BYTES
    decreases |requests|
  {
    if requests == [] || s.invalid then before else
      RequestKeepsBytes(distinctCase, s, requests[0], outs(n));
      var (s1, replies) := OnRequestSpec(distinctCase, s, requests[0], outs(n));
      ErrorSince(distinctCase, s1, n + 1, requests[1..], outs,
                 if requests[0] == [] then before
                 else (replies != [] && replies[|replies| - 1].Error?) || (before && !Cleared(requests[0])))
  }

  /** The flag is up exactly when an error was answered since the session began or was last cleared. */
  lemma {:induction false} ErrorFlagOverRuns(distinctCase: bool, s: Session, n: nat, requests: seq<Record>,
      outs: nat -> Outside)
    requires |s.ctx.id| == ID_BYTES
    ensures HandleAll(distinctCase, s, n, requests, outs).0.ctx.error
            <==> ErrorSince(distinctCase, s, n, requests, outs, s.ctx.error)
    decreases |requests|
  {
    hide OnRequestSpec, Cleared;
    if requests != [] && !s.invalid {
      var args := requests[0];
      NoRequest(distinctCase, s, outs(n));
      if args != [] {
        ErrorFlagStep(distinctCase, s, args, outs(n));
      }
      RequestKeepsBytes(distinctCase, s, args, outs(n));
      ErrorFlagOverRuns(distinctCase, OnRequestSpec(distinctCase, s, args, outs(n)).0, n + 1, requests[1..], outs);
    }
  }

  lemma NoRequest(distinctCase: bool, s: Session, o: Outside)
    requires |s.ctx.id| == ID_BYTES
    ensures OnRequestSpec(distinctCase, s, [], o) == (s, [])
  {
  }

  /** The requests that set something or act on it, in their proper form. */
  predicate IsSettingOrAction(args: Record) {
    args != [] &&
    match CommandOf(args[0])
    case Identify => |args| == 2
    case Path => |args| == 3
    case Permission => |args| == 2
    case Plug => |args| == 4
    case Install => |args| == 1
    case Uninstall => |args| == 1
    case _ => false
  }

  /** While the flag is up, settings and actions change neither the session's data nor the database. */
  lemma ErrorBlocksEverything(distinctCase: bool, s: Session, args: Record, o: Outside)
    requires |s.ctx.id| == ID_BYTES && s.ctx.error && IsSettingOrAction(args) && AllUtf8(args)
    ensures var (s', replies) := OnRequestSpec(distinctCase, s, args, o);
            s'.ctx == s.ctx && s'.db == s.db && replies == [Error("not-recoverable")]
  {
    ApplyFacts(distinctCase, Greeted(s).ctx, s.db, args, o);
    assert Apply(distinctCase, s.ctx, s.db, args, o).Some? by {
      hide CommandOf, SetIdSpec, AddPathSpec, AddPlugSpec, AddPermissionSpec, InstallSpec, UninstallSpec;
    }
    assert CommandOf(args[0]) != Hello;
    hide CommandOf, Apply, AllUtf8;
  }

  /** After a protocol violation no request is handled any more. */
  lemma ViolationIsFinal(distinctCase: bool, s: Session, n: nat, p: seq<Record>, q: seq<Record>, outs: nat -> Outside)
    requires |s.ctx.id| == ID_BYTES && HandleAll(distinctCase, s, n, p, outs).0.invalid
    ensures HandleAll(distinctCase, s, n, p + q, outs) == HandleAll(distinctCase, s, n, p, outs)
  {
    HandleAppend(distinctCase, s, n, p, q, outs);
    var (s1, r1) := HandleAll(distinctCase, s, n, p, outs);
    assert HandleAll(distinctCase, s1, n + |p|, q, outs) == (s1, []);
    assert r1 + [] == r1;
  }

  lemma DispatchKeepsGood(distinctCase: bool, s: Session, args: Record, o: Outside)
    requires |s.ctx.id| == ID_BYTES && args != [] && Good(distinctCase, s.ctx)
    ensures Good(distinctCase, Dispatch(distinctCase, s, args, o).0.ctx)
  {
    hide Dispatch, IsWipe, CommandOf, Apply, ContextSpec.Good, ClearSpec, RaiseSpec, DisplaySpec, LogSpec, ErrorText;
    ApplyFacts(distinctCase, s.ctx, s.db, args, o);
    ApplyKeepsGood(distinctCase, s.ctx, s.db, args, o);
    DoKeepsGood(distinctCase, s.ctx, Clear);
    RaiseKeepsGood(distinctCase);
    DisplayError(s);
    LogError(s, args);
    DispatchCases(distinctCase, s, args, o);
  }

  /** Every session keeps its context good. */
  lemma RequestKeepsGood(distinctCase: bool, s: Session, args: Record, o: Outside)
    requires |s.ctx.id| == ID_BYTES && Good(distinctCase, s.ctx)
    ensures Good(distinctCase, OnRequestSpec(distinctCase, s, args, o).0.ctx)
  {
    if args != [] {
      DispatchKeepsGood(distinctCase, Greeted(s), args, o);
    }
    RaiseKeepsGood(distinctCase);
    hide CommandOf, AllUtf8, ContextSpec.Good, Dispatch;
  }

  lemma RaiseKeepsGood(distinctCase: bool)
    ensures forall c: Ctx :: Good(distinctCase, c) ==> Good(distinctCase, RaiseSpec(c))
  {
  }

  lemma {:induction false} SessionsStayGood(distinctCase: bool, s: Session, n: nat, requests: seq<Record>,
      outs: nat -> Outside)
    requires |s.ctx.id| == ID_BYTES && Good(distinctCase, s.ctx)
    ensures Good(distinctCase, HandleAll(distinctCase, s, n, requests, outs).0.ctx)
    decreases |requests|
  {
    hide OnRequestSpec, Good;
    if requests != [] && !s.invalid {
      RequestKeepsGood(distinctCase, s, requests[0], outs(n));
      RequestKeepsBytes(distinctCase, s, requests[0], outs(n));
      SessionsStayGood(distinctCase, OnRequestSpec(distinctCase, s, requests[0], outs(n)).0, n + 1, requests[1..],
          outs);
    }
  }

  /** A display shows every item and changes nothing exactly when each of its lines fits in the output buffer. */
  lemma DisplayIff(s: Session)
    ensures var (s', replies) := DisplaySpec(s);
            var all := DisplayReplies(s.ctx);
            && (replies == all + [Done([])] && s' == s <==> forall i :: 0 <= i < |all| ==> Sendable(all[i]))
            && (!(forall i :: 0 <= i < |all| ==> Sendable(all[i])) ==> s'.ctx.error)
  {
    var all := DisplayReplies(s.ctx);
    PrefixFacts(all);
    hide Sendable, DisplayReplies, SendablePrefix;
    var sent := SendablePrefix(all);
    if sent != all {
      assert (sent + [Error("internal")])[|sent|].Error?;
      assert |sent| == |all| ==> sent == all;
    }
  }

  /** The sizes of a request for n spaces as a permission, and of its display: each space is escaped. */
  lemma SpacesOnTheLine(p: string)
    requires forall i :: 0 <= i < |p| ==> p[i] == SP
    ensures |EncodeRecord([PERMISSION, p], false)| == 12 + 2 * |p|
    ensures |EncodeRecord(RecordOf(Data(VisitedPermission(p))), false)| == 19 + 2 * |p|
  {
    PlainWords();
    SeparatorsDouble(p);
    hide EscapeField;
    assert EncodeFields([p]) == EscapeField(p);
    assert [PERMISSION, p][1..] == [p] && [STRING, PERMISSION, p][1..] == [PERMISSION, p];
    assert EncodeFields([PERMISSION, p]) == EscapeField(PERMISSION) + [SP] + EncodeFields([p]);
    assert EncodeFields([STRING, PERMISSION, p]) == EscapeField(STRING) + [SP] + EncodeFields([PERMISSION, p]);
  }

  lemma PlainWords()
    ensures |EscapeField(PERMISSION)| == 10 && |EscapeField(STRING)| == 6
  {
    assert forall i :: 0 <= i < |PERMISSION| ==> !Escaping.Special(PERMISSION[i]);
    assert forall i :: 0 <= i < |STRING| ==> !Escaping.Special(STRING[i]);
    PlainFieldStays(PERMISSION);
    PlainFieldStays(STRING);
  }

  /** A legal permission is accepted as the first request of a session. */
  lemma FirstPermission(distinctCase: bool, s: Session, p: string, o: Outside)
    requires s.ctx == NewCtx() && s.version == 0 && Permissions.GoodSize(p) && AllUtf8([PERMISSION, p])
    ensures OnRequestSpec(distinctCase, s, [PERMISSION, p], o)
         == (s.(ctx := s.ctx.(perms := [p], needId := true), version := 1), [Done([])])
  {
    hide Continues;
    assert CommandOf(PERMISSION) == Permission && s.ctx.perms + [p] == [p];
  }

  /** A display whose one line does not fit. */
  lemma DisplayOfLongPermission(distinctCase: bool, s: Session, p: string, o: Outside)
    requires s.ctx == NewCtx().(perms := [p], needId := true) && s.version == 1 && AllUtf8([DISPLAY])
    requires !Sendable(Data(VisitedPermission(p)))
    ensures OnRequestSpec(distinctCase, s, [DISPLAY], o).1 == [Error("internal")]
  {
    hide Continues, Sendable;
    assert CommandOf(DISPLAY) == Display;
    assert DisplayReplies(s.ctx) == [Data(VisitedPermission(p))];
  }

  /**
   A permission of 994 spaces: its request fits in the 2000 bytes of a buffer and
   is accepted, but the line that shows it does not fit, so the display fails.
   */
  lemma LongPermissionStopsDisplay(distinctCase: bool, db: Db, outs: nat -> Outside)
    ensures var p, s := seq(994, _ => SP), Session(NewCtx(), 0, false, false, db);
            && |EncodeRecord([PERMISSION, p], false)| == BUFFER_LENGTH
            && HandleAll(distinctCase, s, 0, [[PERMISSION, p], [DISPLAY]], outs).1 == [Done([]), Error("internal")]
  {
    hide EncodeRecord, OnRequestSpec, Continues;
    var p, s := seq(994, _ => SP), Session(NewCtx(), 0, false, false, db);
    SpacesOnTheLine(p);
    AsciiIsAccepted(p);
    AsciiIsAccepted(PERMISSION);
    AsciiIsAccepted(DISPLAY);
    FirstPermission(distinctCase, s, p, outs(0));
    DisplayOfLongPermission(distinctCase, s.(ctx := s.ctx.(perms := [p], needId := true), version := 1), p, outs(1));
    var requests, shown := [[PERMISSION, p], [DISPLAY]], s.(ctx := s.ctx.(perms := [p], needId := true), version := 1);
    assert requests[1..] == [[DISPLAY]] && [[DISPLAY]][1..] == [];
    RequestKeepsBytes(distinctCase, shown, [DISPLAY], outs(1));
    var last := OnRequestSpec(distinctCase, shown, [DISPLAY], outs(1)).0;
    assert HandleAll(distinctCase, last, 2, [], outs) == (last, []);
    assert HandleAll(distinctCase, shown, 1, [[DISPLAY]], outs).1 == [Error("internal")] + [];
    assert HandleAll(distinctCase, s, 0, requests, outs).1 == [Done([])] + [Error("internal")];
  }
}
