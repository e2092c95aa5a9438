/** The lines of a session hold C strings only, so that the peer reads them back as they were put. */
module Replies {
  import opened Text
  import opened Escaping
  import opened Utf8
  import opened PathStd
  import opened Paths
  import opened ContextSpec
  import opened Replay
  import opened SessionSpec
  import Channel
  import Database
  import Actions

  // ---------- Normalisation brings in no zero ----------

  lemma {:induction false} SegmentsAreNulFree(s: string)
    requires NulFree(s)
    ensures NulFreeFields(Segments(s))
  {
    if s != "" {
      SegmentsAreNulFree(s[1..]);
      var r := Segments(s[1..]);
      assert NulFree([s[0]] + r[0]);
      assert NulFree("");
    }
  }

  lemma {:induction false} WalkIsNulFree(st: Stack, segs: seq<string>, absolute: bool)
    requires NulFreeFields(st.comps) && NulFreeFields(segs)
    ensures NulFreeFields(Walk(st, segs, absolute).comps)
    decreases |segs|
  {
    hide NulFree;
    if segs != [] {
      WalkIsNulFree(PathStd.Apply(st, segs[0], |segs| == 1, absolute), segs[1..], absolute);
    }
  }

  lemma {:induction false} JoinIsNulFree(comps: seq<string>)
    requires NulFreeFields(comps)
    ensures NulFree(PathStd.Join(comps))
    decreases |comps|
  {
    if |comps| > 1 {
      JoinIsNulFree(comps[..|comps| - 1]);
    }
  }

  lemma StdIsNulFree(path: string)
    requires NulFree(path)
    ensures NulFree(Std(path))
  {
    SegmentsAreNulFree(path);
    WalkIsNulFree(Stack([], false), Segments(path), PathStd.IsAbsolute(path));
    var st := Walk(Stack([], false), Segments(path), PathStd.IsAbsolute(path));
    JoinIsNulFree(st.comps);
    hide Segments, Walk, PathStd.Join;
  }

  // ---------- Requests keep the session free of zeros ----------

  /** All strings of the context are C strings; the identity is read as one anyway. */
  predicate Clean(c: Ctx) {
    && NulFreeFields(c.perms)
    && (forall i :: 0 <= i < |c.paths| ==> NulFree(c.paths[i].path))
    && (forall i :: 0 <= i < |c.plugs| ==>
          NulFree(c.plugs[i].expdir) && NulFree(c.plugs[i].impid) && NulFree(c.plugs[i].impdir))
  }

  /** The arguments of a setting are C strings. */
  predicate CleanSetting(op: Op) {
    match op
    case AddPermission(p) => NulFree(p)
    case AddPath(path, _, _) => NulFree(path)
    case AddPlug(expdir, impid, impdir, _) => NulFree(expdir) && NulFree(impid) && NulFree(impdir)
    case _ => true
  }

  lemma SettingKeepsClean(distinctCase: bool, c: Ctx, op: Op)
    requires |c.id| == ID_BYTES && Clean(c) && CleanSetting(op)
    ensures Clean(Do(distinctCase, c, op).0)
  {
    hide NulFree, Std, Locates, ValidId, TypeOf, HasPath, HasImport;
    match op
    case AddPath(path, _, _) => StdIsNulFree(path);
    case AddPlug(expdir, impid, impdir, _) =>
      StdIsNulFree(expdir);
      StdIsNulFree(impdir);
    case _ =>
  }

  /** A reply that is read back as it was put. */
  predicate Readable(r: Reply) {
    NulFreeFields(RecordOf(r)) && 1 <= |RecordOf(r)| <= MAX_FIELDS && RecordOf(r)[0] != ""
  }

  predicate AllReadable(rs: seq<Reply>) {
    forall i :: 0 <= i < |rs| ==> Readable(rs[i])
  }

  lemma WordsAreNulFree()
    ensures NulFree(STRING) && NulFree(ERROR) && NulFree(ON) && NulFree(OFF) && NulFree(DONE) && NulFree(VERSION_1)
    ensures NulFree(ID) && NulFree(PATH) && NulFree(PERMISSION) && NulFree(PLUG)
    ensures STRING != "" && ERROR != "" && DONE != ""
  {
  }

  lemma TypeNamesAreNulFree(t: int)
    ensures NulFree(TypeName(t))
  {
    assert NulFree("<unset>") && NulFree("default") && NulFree("conf") && NulFree("data") && NulFree("exec");
    assert NulFree("http") && NulFree("icon") && NulFree("id") && NulFree("lib") && NulFree("plug")
        && NulFree("public");
    assert NulFree("invalid");
  }

  lemma ErrorTextsAreNulFree(rc: int, known: seq<int>)
    ensures NulFree(ErrorText(rc, known)) && NulFree("protocol") && NulFree("internal")
  {
    assert NulFree("not-recoverable") && NulFree("invalid") && NulFree("already-set") && NulFree("not-found");
    assert NulFree("no-access") && NulFree("not-dir") && NulFree("forbidden");
  }

  lemma StatusIsReadable(r: Reply)
    requires r == ErrorIsOn || (r.Error? && NulFree(r.text)) || (r.Done? && r.args in [[], [ON], [OFF], [VERSION_1]])
    ensures Readable(r)
  {
    WordsAreNulFree();
    hide NulFree;
  }

  /** What a display shows of a clean context. */
  lemma ItemsAreReadable(c: Ctx)
    requires Clean(c)
    ensures AllReadable(DataOf(Items(c)))
  {
    WordsAreNulFree();
    var items := Items(c);
    var k, l, m := |IdItems(c.id)|, |c.paths|, |c.perms|;
    forall i | 0 <= i < |items| ensures Readable(Data(items[i])) {
      if k <= i < k + l {
        assert items[i] == PathItems(c.paths)[i - k];
        TypeNamesAreNulFree(c.paths[i - k].pathType);
      } else if k + l <= i < k + l + m {
        assert items[i] == PermItems(c.perms)[i - k - l];
      } else if k + l + m <= i {
        assert items[i] == PlugItems(c.plugs)[i - k - l - m];
      }
    }
  }

  /** The session stays clean and everything it answers can be read back. */
  predicate Fine(r: (Session, seq<Reply>)) {
    Clean(r.0.ctx) && AllReadable(r.1)
  }

  lemma DisplayIsFine(s: Session)
    requires Clean(s.ctx)
    ensures Fine(DisplaySpec(s))
  {
    ItemsAreReadable(s.ctx);
    ErrorTextsAreNulFree(0, []);
    StatusIsReadable(ErrorIsOn);
    StatusIsReadable(Done([]));
    StatusIsReadable(Error("internal"));
    hide Readable, SendablePrefix, Items, NulFree;
    var all := DisplayReplies(s.ctx);
    assert AllReadable(all);
  }

  lemma ApplyKeepsClean(distinctCase: bool, s: Session, args: Record, o: Outside)
    requires |s.ctx.id| == ID_BYTES && args != [] && Clean(s.ctx) && NulFreeFields(args)
    ensures var e := SessionSpec.Apply(distinctCase, s.ctx, s.db, args, o);
            e.Some? ==> Clean(e.value.ctx)
  {
    hide NulFree, Clean, CommandOf, SetIdSpec, AddPathSpec, AddPlugSpec, AddPermissionSpec,
         Actions.InstallSpec, Actions.UninstallSpec;
    if |args| == 2 {
      SettingKeepsClean(distinctCase, s.ctx, SetId(args[1]));
      SettingKeepsClean(distinctCase, s.ctx, AddPermission(args[1]));
    } else if |args| == 3 {
      SettingKeepsClean(distinctCase, s.ctx, AddPath(args[1], args[2], o.files));
    } else if |args| == 4 {
      SettingKeepsClean(distinctCase, s.ctx, AddPlug(args[1], args[2], args[3], o.files));
    }
  }

  lemma SettleIsFine(s: Session, rc: int, known: seq<int>)
    requires Clean(s.ctx)
    ensures Fine(Settle(s, rc, known))
  {
    ErrorTextsAreNulFree(rc, known);
    StatusIsReadable(Done([]));
    StatusIsReadable(Error(ErrorText(rc, known)));
    hide Readable, ErrorText, NulFree;
  }

  lemma DoneIsFine(s: Session, args: Record)
    requires Clean(s.ctx) && args in [[], [ON], [OFF], [VERSION_1]]
    ensures Fine(DoneWith(s, args))
  {
    StatusIsReadable(Done(args));
    hide Readable, NulFree;
  }

  lemma ViolationIsFine(s: Session)
    requires Clean(s.ctx)
    ensures Fine(Violate(s))
  {
    ErrorTextsAreNulFree(0, []);
    StatusIsReadable(Error("protocol"));
    hide Readable, NulFree;
  }

  lemma LogIsFine(s: Session, args: Record)
    requires Clean(s.ctx) && 1 <= |args| <= 2
    ensures Fine(LogSpec(s, args))
  {
    hide Fine, Clean, DoneWith, Violate;
    ViolationIsFine(s);
    var next := if |args| == 2 then args[1] == ON else s.logging;
    CleanIsOfContext(s, next);
    DoneIsFine(s.(logging := next), [if next then ON else OFF]);
  }

  lemma CleanIsOfContext(s: Session, next: bool)
    requires Clean(s.ctx)
    ensures Clean(s.(logging := next).ctx)
  {
  }

  lemma DispatchIsFine(distinctCase: bool, s: Session, args: Record, o: Outside)
    requires |s.ctx.id| == ID_BYTES && args != [] && Clean(s.ctx) && NulFreeFields(args)
    ensures Fine(Dispatch(distinctCase, s, args, o))
  {
    hide Dispatch, CommandOf, SessionSpec.Apply, DisplaySpec, LogSpec, Settle, DoneWith, Violate, Fine, NulFree;
    ApplyKeepsClean(distinctCase, s, args, o);
    DisplayIsFine(s);
    ViolationIsFine(s);
    DoneIsFine(s.(ctx := ClearSpec(s.ctx)), []);
    if |args| <= 2 {
      LogIsFine(s, args);
    }
    var e := SessionSpec.Apply(distinctCase, s.ctx, s.db, args, o);
    if e.Some? {
      SettleIsFine(s.(ctx := e.value.ctx, db := e.value.db), e.value.rc, e.value.known);
    }
    DispatchCases(distinctCase, s, args, o);
  }

  /** Requests of C strings keep the session clean and are answered with lines that can be read back. */
  lemma RequestIsFine(distinctCase: bool, s: Session, args: Record, o: Outside)
    requires |s.ctx.id| == ID_BYTES && Clean(s.ctx) && NulFreeFields(args)
    ensures Fine(OnRequestSpec(distinctCase, s, args, o))
  {
    hide Dispatch, CommandOf, AllUtf8, DoneWith, Violate, NulFreeFields, Readable;
    if args != [] {
      DispatchIsFine(distinctCase, Greeted(s), args, o);
    }
    ViolationIsFine(s);
    DoneIsFine(s.(version := 1), [VERSION_1]);
  }

  lemma {:induction false} RepliesAreReadable(distinctCase: bool, s: Session, n: nat, requests: seq<Record>,
      outs: nat -> Outside)
    requires |s.ctx.id| == ID_BYTES && Clean(s.ctx)
    requires forall i :: 0 <= i < |requests| ==> NulFreeFields(requests[i])
    ensures AllReadable(HandleAll(distinctCase, s, n, requests, outs).1)
    decreases |requests|
  {
    hide OnRequestSpec, Clean, Readable, NulFreeFields;
    if requests != [] && !s.invalid {
      RequestKeepsBytes(distinctCase, s, requests[0], outs(n));
      RequestIsFine(distinctCase, s, requests[0], outs(n));
      var s1 := OnRequestSpec(distinctCase, s, requests[0], outs(n)).0;
      RepliesAreReadable(distinctCase, s1, n + 1, requests[1..], outs);
    }
  }

  // ---------- What is received and what is read back ----------

  /** The fields of received records are C strings. */
  lemma {:induction false} RecordsAreNulFree(s: string, allowEmpty: bool)
    ensures forall i :: 0 <= i < |Records(s, allowEmpty)| ==> NulFreeFields(Records(s, allowEmpty)[i])
    decreases |s|
  {
    hide FirstEnd, NulFree;
    if FirstEnd(s).Some? {
      var e := FirstEnd(s).value;
      DecodeIsNulFree(s[..e]);
      hide Decode;
      RecordsAreNulFree(s[e + 1..], allowEmpty);
    }
  }

  lemma DecodeIsNulFree(body: string)
    ensures NulFreeFields(Decode(body))
  {
    hide Split;
  }

  /** Readable lines are expected as they are. */
  lemma {:induction false} ReadableAreExpected(lines: seq<Record>)
    requires forall i :: 0 <= i < |lines| ==> 1 <= |lines[i]| <= MAX_FIELDS && lines[i][0] != ""
    ensures Channel.ExpectedAll(lines, false, false) == lines
    decreases |lines|
  {
    hide Expected;
    if lines != [] {
      var before, last := lines[..|lines| - 1], lines[|lines| - 1];
      ReadableAreExpected(before);
      ReadableIsExpected(last);
      assert lines == before + [last];
    }
  }

  lemma ReadableIsExpected(fs: Record)
    requires 1 <= |fs| <= MAX_FIELDS && fs[0] != ""
    ensures Expected(fs, false, false) == [fs]
  {
  }
}
