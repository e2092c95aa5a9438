/** The server side of one connection: requests are read, handled and answered. */
module Clients {
  import opened Text
  import opened Escaping
  import opened Buffers
  import opened Protocol
  import Channel
  import opened Links
  import opened Utf8
  import opened ContextSpec
  import opened Replay
  import opened Contexts
  import opened Database
  import opened Actions
  import opened SessionSpec
  import Replies
  import Requests

  /** Compares two words from an offset on. */
  method CkArg(arg: string, value: string, offset: nat) returns (same: bool)
    requires offset <= |arg| && offset <= |value|
    ensures same <==> arg[offset..] == value[offset..]
  {
    var i := offset;
    while i < |arg|
      invariant offset <= i <= |arg| && i <= |value|
      invariant arg[offset..i] == value[offset..i]
    {
      if i < |value| && arg[i] == value[i] {
        assert arg[offset..i + 1] == arg[offset..i] + [arg[i]] && value[offset..i + 1] == value[offset..i] + [value[i]];
        i := i + 1;
      } else {
        assert i < |value| ==> arg[offset..][i - offset] != value[offset..][i - offset];
        return false;
      }
    }
    assert arg[offset..i] == arg[offset..];
    assert i == |value| ==> value[offset..i] == value[offset..];
    same := i == |value|;
  }

  /** The same for two words with the same first character. */
  method SameWord(arg: string, value: string) returns (same: bool)
    requires arg != "" && value != "" && arg[0] == value[0]
    ensures same <==> arg == value
  {
    same := CkArg(arg, value, 1);
    assert arg == [arg[0]] + arg[1..] && value == [value[0]] + value[1..];
  }

  /** The command a word stands for, found from its first character on. */
  method Recognize(word: string) returns (command: Command)
    ensures command == CommandOf(word)
  {
    var greeting := CkArg(word, HELLO, 0);
    assert word[0..] == word && HELLO[0..] == HELLO;
    if greeting {
      return Hello;
    }
    var same := false;
    if word == "" {
      return Unknown;
    }
    var first := word[0];
    if first == 'c' {
      same := SameWord(word, CLEAR);
      if same { return Wipe; }
    } else if first == 'd' {
      same := SameWord(word, DISPLAY);
      if same { return Display; }
    } else if first == 'i' {
      same := SameWord(word, ID);
      if same { return Identify; }
      same := SameWord(word, INSTALL);
      if same { return Install; }
    } else if first == 'l' {
      same := SameWord(word, LOG);
      if same { return Log; }
    } else if first == 'p' {
      same := SameWord(word, PATH);
      if same { return Path; }
      same := SameWord(word, PERMISSION);
      if same { return Permission; }
      same := SameWord(word, PLUG);
      if same { return Plug; }
    } else if first == 'u' {
      same := SameWord(word, UNINSTALL);
      if same { return Uninstall; }
    }
    return Unknown;
  }

  method CheckUtf8(args: Record) returns (ok: bool)
    requires NulFreeFields(args)
    ensures ok == AllUtf8(args)
  {
    var count := |args|;
    while count > 0
      invariant 0 <= count <= |args|
      invariant forall i :: count <= i < |args| ==> Continues(args[i], 0)
    {
      count := count - 1;
      ok := IsUtf8(args[count]);
      if !ok {
        return;
      }
    }
    ok := true;
  }

  /** Looks for the version among those a greeting proposes, from the last one on. */
  method ProposesVersion(args: Record) returns (found: bool)
    requires args != []
    ensures found <==> VERSION_1 in args[1..]
  {
    var index := |args| - 1;
    found := false;
    while index > 0 && !found
      invariant 0 <= index < |args| && (found ==> index > 0 && args[index] == VERSION_1)
      invariant !found ==> forall i :: index < i < |args| ==> args[i] != VERSION_1
      decreases index, !found
    {
      found := CkArg(args[index], VERSION_1, 0);
      assert args[index][0..] == args[index] && VERSION_1[0..] == VERSION_1;
      if !found {
        index := index - 1;
      }
    }
    assert found ==> args[1..][index - 1] == VERSION_1;
  }

  // ---------- Lines that always fit ----------

  lemma {:induction false} EscapeLength(f: string)
    ensures |EscapeField(f)| <= 2 * |f|
  {
    if f != "" {
      EscapeLength(f[1..]);
    }
  }

  lemma {:induction false} EncodedLength(fs: Record)
    requires fs != [] && forall i :: 0 <= i < |fs| ==> |fs[i]| <= 100
    ensures |EncodeFields(fs)| < 201 * |fs|
    decreases |fs|
  {
    EscapeLength(fs[0]);
    hide EscapeField;
    if |fs| > 1 {
      EncodedLength(fs[1..]);
    }
  }

  /** A status line with a short argument fits in the output buffer. */
  lemma ShortStatusFits(r: Reply)
    requires r.ErrorIsOn? || (r.Error? && |r.text| <= 100)
             || (r.Done? && |r.args| <= 1 && (r.args != [] ==> |r.args[0]| <= 100))
    ensures Sendable(r)
  {
    assert |STRING| == 6 && |ERROR| == 5 && |ON| == 2 && |DONE| == 4;
    EncodedLength(RecordOf(r));
    hide EncodeFields;
  }

  lemma ErrorTextIsShort(rc: int, known: seq<int>)
    ensures |ErrorText(rc, known)| <= 100
  {
  }

  // ---------- Showing the context ----------

  function Visitor(): Visited -> int {
    (v: Visited) => if Sendable(Data(v)) then 0 else -ECANCELED
  }

  lemma PrefixSnoc(rs: seq<Reply>, r: Reply)
    ensures SendablePrefix(rs + [r]) == if SendablePrefix(rs) == rs && Sendable(r) then rs + [r] else SendablePrefix(rs)
    decreases |rs|
  {
    hide Sendable;
    if rs == [] {
      assert [] + [r] == [r] && [r][1..] == [];
    } else {
      assert (rs + [r])[1..] == rs[1..] + [r];
      PrefixSnoc(rs[1..], r);
      assert rs == [rs[0]] + rs[1..];
      if SendablePrefix(rs) == rs {
        assert SendablePrefix(rs[1..]) == SendablePrefix(rs)[1..] == rs[1..];
      }
    }
  }

  /** A visit shows the items up to the first that cannot be sent. */
  lemma {:induction false} VisitShows(items: seq<Visited>)
    ensures var (rc, visited) := VisitSpec(items, Visitor());
            && SendablePrefix(DataOf(visited)) == SendablePrefix(DataOf(items))
            && (rc == 0 <==> SendablePrefix(DataOf(items)) == DataOf(items))
            && (rc == 0 ==> visited == items) && rc <= 0
    decreases |items|
  {
    hide Sendable;
    if items != [] {
      var n := |items| - 1;
      VisitShows(items[..n]);
      assert DataOf(items) == DataOf(items[..n]) + [Data(items[n])];
      PrefixSnoc(DataOf(items[..n]), Data(items[n]));
      assert items[..n] + [items[n]] == items;
    }
  }

  // ---------- The connection ----------

  class Client {
    const link: Link
    const context: Context
    const cynagora: Cynagora
    var version: nat
    var invalid: bool
    var logging: bool

    constructor (distinctCase: bool, cynagora: Cynagora, logging: bool)
      ensures Valid() && fresh(this) && fresh(link.Repr()) && fresh(context.Repr()) && this.cynagora == cynagora
      ensures State() == Session(NewCtx(), 0, false, logging, cynagora.rules) && context.distinctCase == distinctCase
      ensures link.lines == [] && link.flushed && link.prot.In() == InState(0, "", None)
    {
      hide Context.Value, Link.Valid, Context.Valid, Prot.In, NewCtx;
      link := new Link();
      context := new Context(distinctCase, NUL);
      this.cynagora := cynagora;
      this.logging := logging;
      version, invalid := 0, false;
      new;
      NewIdIsZero();
    }

    ghost predicate Apart()
      reads context, context.permissionSet
    {
      && this !in link.Repr() && this !in context.Repr() && cynagora !in link.Repr() && cynagora !in context.Repr()
      && link.Repr() !! context.Repr()
    }

    ghost predicate Valid()
      reads link.Repr(), context, context.permissionSet, context.plugSet
    {
      Apart() && link.Valid() && context.Valid()
    }

    ghost function State(): (s: Session)
      requires context.Valid()
      reads this, context, context.permissionSet, context.plugSet, context.Repr(), cynagora
      ensures |s.ctx.id| == ID_BYTES
    {
      Session(context.Value(), version, invalid, logging, cynagora.rules)
    }

    // ---------- Output ----------

    method Putx(r: Reply) returns (rc: int)
      requires Valid()
      modifies link.Repr()
      ensures Valid() && link.prot.In() == old(link.prot.In()) && State() == old(State())
      ensures rc == if Sendable(r) then 0 else -ECANCELED
      ensures link.lines == old(link.lines) + Lines(if Sendable(r) then [r] else [])
    {
      assert RecordOf(r) != [] && Lines([r]) == [RecordOf(r)] && Lines([]) == [];
      hide RecordOf, Lines, EncodeRecord;
      hide Client.Valid, Client.State, Context.Valid, Link.Valid, Prot.In, Context.Repr, Link.Repr;
      rc := PutLine(RecordOf(r));
    }

    method PutLine(fs: Record) returns (rc: int)
      requires Valid() && fs != []
      modifies link.Repr()
      ensures Valid() && link.prot.In() == old(link.prot.In()) && State() == old(State())
      ensures rc == if |EncodeRecord(fs, false)| <= BUFFER_LENGTH then 0 else -ECANCELED
      ensures link.lines == old(link.lines) + if rc == 0 then [fs] else []
    {
      hide EncodeRecord, Context.Value, Context.Valid, Link.Valid, Prot.In;
      rc := link.Putx(fs);
    }

    method FlushOut()
      requires Valid()
      modifies link.Repr()
      ensures Valid() && link.prot.In() == old(link.prot.In()) && State() == old(State())
              && link.lines == old(link.lines) && link.flushed
    {
      hide Context.Value, Context.Valid, Link.Valid, Prot.In;
      link.Flush();
    }

    method SendDone(args: Record)
      requires Valid() && |args| <= 1 && (args != [] ==> |args[0]| <= 100)
      modifies link.Repr()
      ensures Valid() && link.prot.In() == old(link.prot.In()) && State() == old(State())
      ensures link.flushed && link.lines == old(link.lines) + Lines([Done(args)])
    {
      hide Sendable, Lines, RecordOf;
      hide Client.Valid, Client.State, Context.Valid, Link.Valid, Prot.In, Context.Repr, Link.Repr;
      ShortStatusFits(Done(args));
      var rc := Putx(Done(args));
      FlushOut();
    }

    method SendError(text: string)
      requires Valid() && |text| <= 100
      modifies link.Repr(), context`errorFlag
      ensures Valid() && link.prot.In() == old(link.prot.In()) && context.Repr() == old(context.Repr())
      ensures State() == old(State()).(ctx := RaiseSpec(old(State()).ctx))
      ensures link.flushed && link.lines == old(link.lines) + Lines([Error(text)])
    {
      hide Sendable, Lines, RecordOf, RaiseSpec;
      RaiseFlag();
      hide Client.Valid, Client.State, Context.Valid, Link.Valid, Prot.In;
      ShortStatusFits(Error(text));
      var rc := Putx(Error(text));
      FlushOut();
    }

    method RaiseFlag()
      requires Valid()
      modifies context`errorFlag
      ensures Valid() && link.prot.In() == old(link.prot.In()) && context.Repr() == old(context.Repr())
              && link.lines == old(link.lines)
      ensures State() == old(State()).(ctx := RaiseSpec(old(State()).ctx))
    {
      hide Link.Valid, Prot.In, RaiseSpec;
      context.RaiseError();
    }

    method Conclude(rc: int, known: seq<int>)
      requires Valid()
      modifies link.Repr(), context`errorFlag
      ensures Valid() && link.prot.In() == old(link.prot.In()) && context.Repr() == old(context.Repr())
      ensures var r := Settle(old(State()), rc, known);
              State() == r.0 && link.flushed && link.lines == old(link.lines) + Lines(r.1)
    {
      if rc >= 0 {
        SendDone([]);
      } else {
        ErrorTextIsShort(rc, known);
        SendError(ErrorText(rc, known));
      }
    }

    method InvalidProtocol()
      requires Valid()
      modifies link.Repr(), context`errorFlag, this`invalid
      ensures Valid() && link.prot.In() == old(link.prot.In()) && context.Repr() == old(context.Repr())
      ensures var r := Violate(old(State()));
              State() == r.0 && link.flushed && link.lines == old(link.lines) + Lines(r.1)
    {
      hide Lines, Context.Value, Context.Valid, Link.Valid, Prot.In, RaiseSpec;
      SendError("protocol");
      invalid := true;
    }

    // ---------- Requests ----------

    /** What a handler promises: the state and the lines are those of the specification r, and the lines are sent. */
    ghost predicate Became(r: (Session, seq<Reply>), before: seq<Record>)
      requires context.Valid()
      reads this, link, context, context.permissionSet, context.plugSet, context.Repr(), cynagora
    {
      State() == r.0 && link.lines == before + Lines(r.1) && link.flushed
    }

    method DoSetId(id: string)
      requires Valid()
      modifies link.Repr(), context.Repr()
      ensures Valid() && fresh(context.Repr() - old(context.Repr())) && link.prot.In() == old(link.prot.In())
      ensures var (c, rc) := SetIdSpec(old(State()).ctx, id);
              Became(Settle(old(State()).(ctx := c), rc, ID_ERRORS), old(link.lines))
    {
      hide SetIdSpec, Lines, Settle;
      var rc := context.SetId(id);
      Conclude(rc, ID_ERRORS);
    }

    method DoAddPermission(p: string)
      requires Valid()
      modifies link.Repr(), context.Repr()
      ensures Valid() && fresh(context.Repr() - old(context.Repr())) && link.prot.In() == old(link.prot.In())
      ensures var (c, rc) := AddPermissionSpec(context.distinctCase, old(State()).ctx, p);
              Became(Settle(old(State()).(ctx := c), rc, PERMISSION_ERRORS), old(link.lines))
    {
      hide AddPermissionSpec, Lines, Settle;
      var rc := context.AddPermission(p);
      Conclude(rc, PERMISSION_ERRORS);
    }

    method DoAddPath(path: string, pathType: string, files: Files)
      requires Valid() && NulFree(path)
      modifies link.Repr(), context.Repr()
      ensures Valid() && fresh(context.Repr() - old(context.Repr())) && link.prot.In() == old(link.prot.In())
      ensures var (c, rc) := AddPathSpec(old(State()).ctx, path, pathType, files);
              Became(Settle(old(State()).(ctx := c), rc, PATH_ERRORS), old(link.lines))
    {
      hide AddPathSpec, Lines, Settle;
      var rc := context.AddPath(path, pathType, files);
      Conclude(rc, PATH_ERRORS);
    }

    method DoAddPlug(expdir: string, impid: string, impdir: string, files: Files)
      requires Valid() && NulFree(expdir) && NulFree(impdir)
      modifies link.Repr(), context.Repr()
      ensures Valid() && fresh(context.Repr() - old(context.Repr())) && link.prot.In() == old(link.prot.In())
      ensures var (c, rc) := AddPlugSpec(old(State()).ctx, expdir, impid, impdir, files);
              Became(Settle(old(State()).(ctx := c), rc, PLUG_ERRORS), old(link.lines))
    {
      hide AddPlugSpec, Lines, Settle;
      var rc := context.AddPlug(expdir, impid, impdir, files);
      Conclude(rc, PLUG_ERRORS);
    }

    method DoInstall(w: World)
      requires Valid()
      modifies link.Repr(), context.Repr(), cynagora
      ensures Valid() && fresh(context.Repr() - old(context.Repr())) && link.prot.In() == old(link.prot.In())
      ensures var (db, rc) := InstallSpec(context.distinctCase, old(State()).db, old(State()).ctx, w);
              Became(Settle(old(State()).(db := db), rc, INSTALL_ERRORS), old(link.lines))
    {
      hide InstallSpec, Lines, Settle;
      var rc := Actions.Install(context, cynagora, w);
      Conclude(rc, INSTALL_ERRORS);
    }

    method DoUninstall(w: World)
      requires Valid()
      modifies link.Repr(), context.Repr(), cynagora
      ensures Valid() && fresh(context.Repr() - old(context.Repr())) && link.prot.In() == old(link.prot.In())
      ensures var (db, rc) := UninstallSpec(old(State()).db, old(State()).ctx, w);
              Became(Settle(old(State()).(db := db), rc, UNINSTALL_ERRORS), old(link.lines))
    {
      hide UninstallSpec, Lines, Settle;
      var rc := Actions.Uninstall(context, cynagora, w);
      Conclude(rc, UNINSTALL_ERRORS);
    }

    method DoClear()
      requires Valid()
      modifies link.Repr(), context.Repr()
      ensures Valid() && fresh(context.Repr() - old(context.Repr())) && link.prot.In() == old(link.prot.In())
      ensures Became(DoneWith(old(State()).(ctx := ClearSpec(old(State()).ctx)), []), old(link.lines))
    {
      hide ClearSpec, Lines;
      context.Clear();
      SendDone([]);
    }

    method DoLog(args: Record)
      requires Valid() && 1 <= |args| <= 2
      modifies link.Repr(), context.Repr(), this
      ensures Valid() && fresh(context.Repr() - old(context.Repr())) && link.prot.In() == old(link.prot.In())
      ensures Became(LogSpec(old(State()), args), old(link.lines))
    {
      hide Lines, DoneWith, Violate, Context.Value, Context.Valid, Link.Valid, Prot.In;
      var next := logging;
      if |args| == 2 {
        var on := CkArg(args[1], ON, 0);
        var off := CkArg(args[1], OFF, 0);
        assert args[1][0..] == args[1] && ON[0..] == ON && OFF[0..] == OFF;
        if !on && !off {
          Refuse();
          return;
        }
        next := on;
      }
      SwitchLog(next);
    }

    method SwitchLog(next: bool)
      requires Valid()
      modifies link.Repr(), this`logging
      ensures Valid() && link.prot.In() == old(link.prot.In()) && context.Repr() == old(context.Repr())
      ensures Became(DoneWith(old(State()).(logging := next), [if next then ON else OFF]), old(link.lines))
    {
      hide Lines, Context.Value, Context.Valid, Link.Valid, Prot.In;
      SendDone([if next then ON else OFF]);
      logging := next;
    }

    /** Puts one more of the items that a visit shows. */
    method PutNext(visited: seq<Visited>, i: nat, ghost before: seq<Record>) returns (rc: int)
      requires Valid() && i < |visited| && AllButLastSendable(visited)
      requires link.lines == before + ShownUpTo(visited, i)
      modifies link.Repr()
      ensures Valid() && link.prot.In() == old(link.prot.In()) && State() == old(State())
      ensures link.lines == before + ShownUpTo(visited, i + 1)
    {
      hide Sendable, RecordOf, Lines, ShownUpTo, AllButLastSendable;
      hide Client.Valid, Client.State, Context.Valid, Link.Valid, Prot.In, Context.Repr, Link.Repr;
      rc := Putx(Data(visited[i]));
      ShownNext(visited, i);
    }

    /** Puts what a visit of the context shows. */
    method PutShown(visited: seq<Visited>) returns (rc: int)
      requires Valid() && AllButLastSendable(visited)
      modifies link.Repr()
      ensures Valid() && link.prot.In() == old(link.prot.In()) && State() == old(State())
      ensures link.lines == old(link.lines) + ShownUpTo(visited, |visited|)
    {
      hide ShownUpTo, AllButLastSendable, Context.Valid, Prot.In, Client.State;
      ghost var s, inp, before := State(), link.prot.In(), link.lines;
      rc := 0;
      var i := 0;
      ShownNone(visited);
      while i < |visited|
        invariant 0 <= i <= |visited|
        invariant Valid() && link.prot.In() == inp && State() == s
        invariant link.lines == before + ShownUpTo(visited, i)
      {
        rc := PutNext(visited, i, before);
        i := i + 1;
      }
    }

    /** Puts the line of the error flag, if it is up. */
    method PutHead() returns (rc: int)
      requires Valid()
      modifies link.Repr()
      ensures Valid() && link.prot.In() == old(link.prot.In()) && State() == old(State()) && rc == 0
      ensures link.lines == old(link.lines) + Lines(Head(State().ctx))
    {
      hide Sendable, Lines;
      LinesOfNone();
      rc := 0;
      if context.errorFlag {
        ShortStatusFits(ErrorIsOn);
        rc := Putx(ErrorIsOn);
      }
    }

    /** Puts the items of the context, up to the first that cannot be sent. */
    method PutItems() returns (rc: int)
      requires Valid()
      modifies link.Repr()
      ensures Valid() && link.prot.In() == old(link.prot.In()) && State() == old(State())
      ensures var items := DataOf(Items(State().ctx));
              && link.lines == old(link.lines) + Lines(SendablePrefix(items))
              && (rc >= 0 <==> SendablePrefix(items) == items)
    {
      hide Sendable, Lines, VisitSpec, SendablePrefix, Items;
      VisitShows(Items(State().ctx));
      VisitedAreSendable(Items(State().ctx));
      var visited;
      rc, visited := context.Visit(Visitor());
      ShownAll(visited);
      var last := PutShown(visited);
    }

    method DoDisplay()
      requires Valid()
      modifies link.Repr(), context.Repr()
      ensures Valid() && fresh(context.Repr() - old(context.Repr())) && link.prot.In() == old(link.prot.In())
      ensures Became(DisplaySpec(old(State())), old(link.lines))
    {
      hide Sendable, Lines, SendablePrefix, Items, DisplaySpec, Head;
      ghost var s := State();
      DisplayInParts(s);
      var rc := PutHead();
      if rc == 0 {
        rc := PutItems();
      }
      ghost var shown := SendablePrefix(DataOf(Items(s.ctx)));
      LinesOfThree(old(link.lines), Head(s.ctx), shown, [Done([])]);
      LinesOfThree(old(link.lines), Head(s.ctx), shown, [Error("internal")]);
      if rc >= 0 {
        SendDone([]);
      } else {
        SendError("internal");
      }
    }

    /** The settings: one method of the context each. */
    method Change(command: Command, args: Record, o: Outside)
      requires Valid() && args != [] && NulFreeFields(args) && command == CommandOf(args[0])
      requires IsSettingOrAction(args) && !command.Install? && !command.Uninstall?
      modifies link.Repr(), context.Repr()
      ensures Valid() && fresh(context.Repr() - old(context.Repr())) && link.prot.In() == old(link.prot.In())
      ensures Became(Dispatch(context.distinctCase, old(State()), args, o), old(link.lines))
    {
      hide CommandOf, SetIdSpec, AddPathSpec, AddPlugSpec, AddPermissionSpec, InstallSpec, UninstallSpec, Settle, Lines;
      hide Client.Valid, Client.State, Context.Valid, Link.Valid, Prot.In, Context.Repr, Link.Repr;
      match command
      case Identify => DoSetId(args[1]);
      case Path => DoAddPath(args[1], args[2], o.files);
      case Permission => DoAddPermission(args[1]);
      case Plug => DoAddPlug(args[1], args[2], args[3], o.files);
    }

    /** The actions on the permission manager. */
    method Act(command: Command, args: Record, o: Outside)
      requires Valid() && args != [] && command == CommandOf(args[0])
      requires IsSettingOrAction(args) && (command.Install? || command.Uninstall?)
      modifies link.Repr(), context.Repr(), cynagora
      ensures Valid() && fresh(context.Repr() - old(context.Repr())) && link.prot.In() == old(link.prot.In())
      ensures Became(Dispatch(context.distinctCase, old(State()), args, o), old(link.lines))
    {
      hide CommandOf, SetIdSpec, AddPathSpec, AddPlugSpec, AddPermissionSpec, InstallSpec, UninstallSpec, Settle, Lines;
      hide Client.Valid, Client.State, Context.Valid, Link.Valid, Prot.In, Context.Repr, Link.Repr;
      if command == Install {
        DoInstall(o.world);
      } else {
        DoUninstall(o.world);
      }
    }

    /** Everything else: the session itself, or a violation. */
    method Manage(command: Command, args: Record, o: Outside)
      requires Valid() && args != [] && command == CommandOf(args[0]) && !IsSettingOrAction(args)
      modifies link.Repr(), context.Repr(), this
      ensures Valid() && fresh(context.Repr() - old(context.Repr())) && link.prot.In() == old(link.prot.In())
      ensures Became(Dispatch(context.distinctCase, old(State()), args, o), old(link.lines))
    {
      hide CommandOf, SetIdSpec, AddPathSpec, AddPlugSpec, AddPermissionSpec, InstallSpec, UninstallSpec, Settle, Lines;
      hide DoneWith, ClearSpec, DisplaySpec, LogSpec, Violate;
      hide Client.Valid, Client.State, Context.Valid, Link.Valid, Prot.In, Context.Repr, Link.Repr;
      if command == Wipe && |args| == 1 {
        DoClear();
      } else if command == Display && |args| == 1 {
        DoDisplay();
      } else if command == Log && |args| <= 2 {
        DoLog(args);
      } else {
        Refuse();
      }
    }

    method Refuse()
      requires Valid()
      modifies link.Repr(), context.Repr(), this
      ensures Valid() && fresh(context.Repr() - old(context.Repr())) && link.prot.In() == old(link.prot.In())
      ensures Became(Violate(old(State())), old(link.lines))
    {
      hide Lines, Violate, Client.State, Context.Valid, Link.Valid, Prot.In;
      InvalidProtocol();
    }

    method DispatchRequest(command: Command, args: Record, o: Outside)
      requires Valid() && args != [] && NulFreeFields(args) && command == CommandOf(args[0])
      modifies link.Repr(), context.Repr(), cynagora, this
      ensures Valid() && fresh(context.Repr() - old(context.Repr())) && link.prot.In() == old(link.prot.In())
      ensures Became(Dispatch(context.distinctCase, old(State()), args, o), old(link.lines))
    {
      hide CommandOf, Dispatch, Lines, Client.Valid, Client.State, Context.Valid, Link.Valid, Prot.In, Context.Repr,
          Link.Repr;
      if !IsSettingOrAction(args) {
        Manage(command, args, o);
      } else if command == Install || command == Uninstall {
        Act(command, args, o);
      } else {
        Change(command, args, o);
      }
    }

    /** The greeting. */
    method Greet(args: Record)
      requires Valid() && args != []
      modifies link.Repr(), context.Repr(), this
      ensures Valid() && fresh(context.Repr() - old(context.Repr())) && link.prot.In() == old(link.prot.In())
      ensures Became(if VERSION_1 in args[1..] then DoneWith(old(State()).(version := 1), [VERSION_1])
              else Violate(old(State())),
                     old(link.lines))
    {
      hide Lines, DoneWith, Violate, Context.Valid, Link.Valid, Prot.In;
      var found := ProposesVersion(args);
      if found {
        AcceptVersion();
      } else {
        Refuse();
      }
    }

    method AcceptVersion()
      requires Valid()
      modifies link.Repr(), this`version
      ensures Valid() && link.prot.In() == old(link.prot.In()) && context.Repr() == old(context.Repr())
      ensures Became(DoneWith(old(State()).(version := 1), [VERSION_1]), old(link.lines))
    {
      hide Lines;
      version := 1;
      SendDone([VERSION_1]);
    }

    /** Handles one request. */
    method OnRequest(args: Record, o: Outside)
      requires Valid() && link.flushed && NulFreeFields(args)
      modifies link.Repr(), context.Repr(), cynagora, this
      ensures Valid() && fresh(context.Repr() - old(context.Repr())) && link.prot.In() == old(link.prot.In())
      ensures Became(OnRequestSpec(context.distinctCase, old(State()), args, o), old(link.lines))
    {
      hide CommandOf, Dispatch, DoneWith, Violate, Lines, AllUtf8, Context.Valid, Link.Valid, Prot.In, Client.State;
      if args == [] {
        LinesOfNone();
        return;
      }
      var ok := CheckUtf8(args);
      if ok {
        Negotiate(args, o);
      } else {
        Refuse();
      }
    }

    /** Handles a well-formed request; a greeting counts only while the version is open. */
    method Negotiate(args: Record, o: Outside)
      requires Valid() && args != [] && NulFreeFields(args) && AllUtf8(args)
      modifies link.Repr(), context.Repr(), cynagora, this
      ensures Valid() && fresh(context.Repr() - old(context.Repr())) && link.prot.In() == old(link.prot.In())
      ensures Became(OnRequestSpec(context.distinctCase, old(State()), args, o), old(link.lines))
    {
      hide CommandOf, Dispatch, DoneWith, Violate, Lines, AllUtf8, Context.Valid, Link.Valid, Prot.In;
      var command := Recognize(args[0]);
      if version == 0 && command == Hello {
        Greet(args);
      } else {
        Serve(command, args, o);
      }
    }

    /** Handles a request that is not a greeting; the version becomes the default one if it is not set. */
    method Serve(command: Command, args: Record, o: Outside)
      requires Valid() && args != [] && NulFreeFields(args) && command == CommandOf(args[0])
      modifies link.Repr(), context.Repr(), cynagora, this
      ensures Valid() && fresh(context.Repr() - old(context.Repr())) && link.prot.In() == old(link.prot.In())
      ensures Became(Dispatch(context.distinctCase, Greeted(old(State())), args, o), old(link.lines))
    {
      hide Dispatch, Lines;
      if version == 0 {
        version := 1;
      }
      DispatchRequest(command, args, o);
    }

    // ---------- Input ----------

    /** Handles the record that has been got, and drops it. */
    method ServeCurrent(o: Outside)
      requires Valid() && link.flushed && link.prot.In().current.Some?
      modifies link.Repr(), context.Repr(), cynagora, this
      ensures Valid() && fresh(context.Repr() - old(context.Repr())) && link.prot.In() == NextSpec(old(link.prot.In()))
      ensures Became(OnRequestSpec(context.distinctCase, old(State()), old(link.prot.In()).current.value, o),
              old(link.lines))
    {
      hide OnRequestSpec, Lines, Context.Valid, Prot.In, Client.State, Link.Repr;
      var args := CurrentRequest();
      OnRequest(args, o);
      DropRequest();
    }

    method CurrentRequest() returns (args: Record)
      requires Valid() && link.prot.In().current.Some?
      ensures Valid() && context.Repr() == old(context.Repr()) && State() == old(State())
              && link.lines == old(link.lines) && link.flushed == old(link.flushed)
      ensures link.prot.In() == old(link.prot.In()) && args == link.prot.In().current.value && NulFreeFields(args)
    {
      args := link.prot.Fields();
    }

    method DropRequest()
      requires Valid()
      modifies link.Repr()
      ensures Valid() && context.Repr() == old(context.Repr()) && State() == old(State())
              && link.lines == old(link.lines) && link.flushed == old(link.flushed)
      ensures link.prot.In() == NextSpec(old(link.prot.In()))
    {
      hide Context.Value, Context.Valid, Link.Valid, Prot.In;
      link.Next();
    }

    method GetRequest() returns (rc: int)
      requires Valid()
      modifies link.Repr()
      ensures Valid() && context.Repr() == old(context.Repr()) && State() == old(State())
              && link.lines == old(link.lines) && link.flushed == old(link.flushed)
      ensures (link.prot.In(), rc) == GetSpec(old(link.prot.In()), false)
    {
      hide GetSpec;
      rc := link.Get();
    }

    /** Gets the next record of the input buffer and handles it; eaten are the bytes that are done with. */
    method ServeNext(o: Outside) returns (rc: int, ghost eaten: string)
      requires Valid() && link.flushed && link.prot.In().current == None
      modifies link.Repr(), context.Repr(), cynagora, this
      ensures Valid() && fresh(context.Repr() - old(context.Repr())) && link.prot.In().current == None
      ensures old(link.prot.In()).bytes == eaten + link.prot.In().bytes && Whole(eaten)
      ensures rc >= 0 ==> |Records(eaten, false)| == 1 && eaten != ""
                          && Became(OnRequestSpec(context.distinctCase, old(State()), Records(eaten, false)[0], o),
                                    old(link.lines))
      ensures rc < 0 ==> Records(eaten, false) == [] && State() == old(State()) && link.lines == old(link.lines)
                         && link.flushed && Starved(rc, link.prot.In().bytes)
    {
      hide GetSpec, Whole, Records, Starved, OnRequestSpec, Lines;
      hide Client.State, Context.Valid, Prot.In, Became;
      eaten := NextRecord(link.prot.In());
      rc := GetRequest();
      if rc >= 0 {
        ServeCurrent(o);
      }
    }

    /** One more request, after those served of a session that began as s with the lines before. */
    method ServeMore(ghost s: Session, n: nat, ghost served: seq<Record>, ghost before: seq<Record>, o: Outside,
        ghost outs: nat -> Outside)
      returns (rc: int, ghost more: string)
      requires Valid() && link.prot.In().current == None && !invalid && |s.ctx.id| == ID_BYTES
      requires o == outs(n + |served|) && Became(HandleAll(context.distinctCase, s, n, served, outs), before)
      modifies link.Repr(), context.Repr(), cynagora, this
      ensures Valid() && fresh(context.Repr() - old(context.Repr())) && link.prot.In().current == None
      ensures old(link.prot.In()).bytes == more + link.prot.In().bytes && Whole(more)
      ensures Became(HandleAll(context.distinctCase, s, n, served + Records(more, false), outs), before)
      ensures |Records(more, false)| == if rc >= 0 then 1 else 0
      ensures if rc >= 0 then more != "" else Starved(rc, link.prot.In().bytes) && !invalid
    {
      hide Whole, Records, Starved, OnRequestSpec, HandleAll, Lines;
      hide Context.Valid, Prot.In;
      ghost var now, lines := State(), link.lines;
      rc, more := ServeNext(o);
      if rc >= 0 {
        assert Records(more, false) == [Records(more, false)[0]];
        HandledOneMore(context.distinctCase, s, n, served, Records(more, false)[0], outs, before);
      } else {
        assert served + [] == served;
      }
    }

    /**
     Handles the complete requests of the input buffer, as far as the session
     stays valid, after those served of a session that began as s. The k-th
     request of the session meets the answers outs(k).
     */
    method ServeAll(ghost s: Session, n: nat, ghost served: seq<Record>, ghost before: seq<Record>, at: nat,
        outs: nat -> Outside)
      returns (rc: int, next: nat, ghost eaten: string)
      requires Valid() && link.prot.In().current == None && |s.ctx.id| == ID_BYTES
      requires at == n + |served| && Became(HandleAll(context.distinctCase, s, n, served, outs), before)
      modifies link.Repr(), context.Repr(), cynagora, this
      ensures Valid() && fresh(context.Repr() - old(context.Repr())) && link.prot.In().current == None
      ensures old(link.prot.In()).bytes == eaten + link.prot.In().bytes && Whole(eaten)
      ensures next == at + |Records(eaten, false)|
      ensures Became(HandleAll(context.distinctCase, s, n, served + Records(eaten, false), outs), before)
      ensures !invalid ==> Starved(rc, link.prot.In().bytes)
    {
      hide Whole, Records, Starved, HandleAll, Lines, Context.Valid, Prot.In, Client.State, Became;
      rc, next, eaten := 0, at, "";
      NothingServed();
      assert served + [] == served && "" + link.prot.In().bytes == link.prot.In().bytes;
      while !invalid && rc >= 0
        invariant Valid() && fresh(context.Repr() - old(context.Repr())) && link.prot.In().current == None
        invariant old(link.prot.In()).bytes == eaten + link.prot.In().bytes && Whole(eaten)
        invariant next == at + |Records(eaten, false)|
        invariant Became(HandleAll(context.distinctCase, s, n, served + Records(eaten, false), outs), before)
        invariant rc < 0 ==> Starved(rc, link.prot.In().bytes) && !invalid
        decreases |link.prot.In().bytes|, rc >= 0
      {
        ghost var more;
        rc, more := ServeMore(s, n, served + Records(eaten, false), before, outs(next), outs);
        ServedMore(old(link.prot.In()).bytes, served, eaten, more, link.prot.In().bytes);
        eaten := eaten + more;
        if rc >= 0 {
          next := next + 1;
        }
      }
    }

    /** One read; the kernel has the bytes wire, and takes size as the length or the error it answers. */
    method Receive(wire: string, size: int) returns (rc: int)
      requires Valid() && link.prot.In().current == None && |link.prot.In().bytes| < BUFFER_LENGTH
      modifies link.Repr()
      ensures Valid() && context.Repr() == old(context.Repr()) && State() == old(State())
              && link.lines == old(link.lines) && link.flushed == old(link.flushed)
      ensures link.prot.In().current == None && rc <= |wire|
      ensures link.prot.In().bytes == old(link.prot.In()).bytes + wire[..if rc > 0 then rc else 0]
      ensures rc > 0 <==> size > 0 && wire != ""
    {
      rc := link.Read(if size < 0 then Fails(-size) else Bytes(wire[..Min(size, |wire|)]));
    }

    /** Handles what the buffer holds, then reads once; rc > 0 counts the bytes read, else it is the final answer. */
    method Round(ghost s: Session, n: nat, ghost served: seq<Record>, ghost before: seq<Record>, at: nat,
        outs: nat -> Outside,
                 wire: string, size: int)
      returns (rc: int, next: nat, ghost eaten: string)
      requires Valid() && link.prot.In().current == None && |s.ctx.id| == ID_BYTES
      requires at == n + |served| && Became(HandleAll(context.distinctCase, s, n, served, outs), before)
      modifies link.Repr(), context.Repr(), cynagora, this
      ensures Valid() && fresh(context.Repr() - old(context.Repr())) && link.prot.In().current == None && rc <= |wire|
      ensures old(link.prot.In()).bytes + wire[..if rc > 0 then rc else 0] == eaten + link.prot.In().bytes
              && Whole(eaten)
      ensures next == at + |Records(eaten, false)|
      ensures Became(HandleAll(context.distinctCase, s, n, served + Records(eaten, false), outs), before)
      ensures rc <= 0 ==> Stopped(rc)
    {
      hide Whole, Records, HandleAll, Lines, Context.Valid, Prot.In, Client.State, FirstEnd;
      rc, next, eaten := ServeAll(s, n, served, before, at, outs);
      ghost var rest := link.prot.In().bytes;
      NothingTaken(old(link.prot.In()).bytes, rest, wire);
      if invalid {
        rc := -EPROTO;
      } else if rc != -EMSGSIZE {
        rc := Receive(wire, size);
        Taken(old(link.prot.In()).bytes, wire, 0, if rc > 0 then rc else 0, eaten, rest);
      }
    }

    /** Nothing more is to be handled, and the answer says why. */
    ghost predicate Stopped(rc: int)
      requires link.Valid()
      reads this, link.Repr()
    {
      && (invalid ==> rc == -EPROTO)
      && (!invalid ==> FirstEnd(link.prot.In().bytes) == None
                       && (|link.prot.In().bytes| == BUFFER_LENGTH ==> rc == -EMSGSIZE))
    }

    /**
     A session that began as s with the bytes held in the buffer and the lines
     before, and that has taken used bytes of the wire: those eaten are done with.
     */
    ghost predicate Progress(s: Session, n: nat, held: string, before: seq<Record>, outs: nat -> Outside,
                             wire: string, used: nat, eaten: string, next: nat)
      requires Valid() && used <= |wire|
      reads this, link.Repr(), context, context.permissionSet, context.plugSet, context.Repr(), cynagora
    {
      && |s.ctx.id| == ID_BYTES && link.prot.In().current == None
      && held + wire[..used] == eaten + link.prot.In().bytes && Whole(eaten) && next == n + |Records(eaten, false)|
      && Became(HandleAll(context.distinctCase, s, n, Records(eaten, false), outs), before)
    }

    method Advance(ghost s: Session, n: nat, ghost held: string, ghost before: seq<Record>, at: nat,
        outs: nat -> Outside,
                   wire: string, used: nat, size: int, ghost eaten: string)
      returns (rc: int, used': nat, next: nat, ghost eaten': string)
      requires Valid() && used <= |wire| && Progress(s, n, held, before, outs, wire, used, eaten, at)
      modifies link.Repr(), context.Repr(), cynagora, this
      ensures Valid() && fresh(context.Repr() - old(context.Repr()))
      ensures used <= used' <= |wire| && (rc > 0 ==> used < used')
      ensures Progress(s, n, held, before, outs, wire, used', eaten', next)
      ensures rc <= 0 ==> Stopped(rc)
    {
      hide Whole, Records, HandleAll, Lines, Context.Valid, Prot.In, Client.State, Became, Stopped;
      ghost var more;
      ghost var b := link.prot.In().bytes;
      rc, next, more := Round(s, n, Records(eaten, false), before, at, outs, wire[used..], size);
      used' := used + if rc > 0 then rc else 0;
      RoundMore(held, wire, used, used' - used, eaten, b, more, link.prot.In().bytes);
      eaten' := eaten + more;
    }

    /**
     Serves the connection until the kernel has no more bytes, the session ends
     or a message is too big. The kernel has the bytes wire and cuts them as it
     likes: sizes are its answers to the successive reads. The first used bytes
     are read, and the requests they complete are handled in order.
     */
    method ProcessInput(wire: string, sizes: seq<int>, n: nat, outs: nat -> Outside) returns (rc: int, used: nat)
      requires Valid() && link.flushed && link.prot.In().current == None
      modifies link.Repr(), context.Repr(), cynagora, this
      ensures Valid() && fresh(context.Repr() - old(context.Repr())) && link.prot.In().current == None
      ensures used <= |wire| && rc <= 0 && Stopped(rc)
      ensures Became(HandleAll(context.distinctCase, old(State()), n,
              Records(old(link.prot.In()).bytes + wire[..used], false), outs),
                     old(link.lines))
    {
      hide Progress, Whole, Records, HandleAll, Lines, Context.Valid, Context.Value, Prot.In, Client.State, Became,
          Stopped, Apart;
      ghost var s, held, before := State(), link.prot.In().bytes, link.lines;
      ghost var eaten := "";
      var next, i := n, 0;
      used, rc := 0, 1;
      BeginProgress(n, outs, wire);
      while rc > 0
        invariant Valid() && fresh(context.Repr() - old(context.Repr()))
        invariant used <= |wire| && i <= |sizes|
        invariant Progress(s, n, held, before, outs, wire, used, eaten, next)
        invariant rc <= 0 ==> Stopped(rc)
        decreases |wire| - used, rc > 0
      {
        var size := if i < |sizes| then sizes[i] else -EAGAIN;
        i := if i < |sizes| then i + 1 else i;
        rc, used, next, eaten := Advance(s, n, held, before, next, outs, wire, used, size, eaten);
      }
      EndProgress(s, n, held, before, rc, outs, wire, used, eaten, next);
    }

    lemma BeginProgress(n: nat, outs: nat -> Outside, wire: string)
      requires Valid() && link.flushed && link.prot.In().current == None
      ensures Progress(State(), n, link.prot.In().bytes, link.lines, outs, wire, 0, "", n)
    {
      LinesOfNone();
      NothingTaken(link.prot.In().bytes, link.prot.In().bytes, wire);
      assert "" + link.prot.In().bytes == link.prot.In().bytes;
    }

    /** The bytes that are left hold no request to be handled. */
    lemma EndProgress(s: Session, n: nat, held: string, before: seq<Record>, rc: int, outs: nat -> Outside,
                      wire: string, used: nat, eaten: string, next: nat)
      requires Valid() && used <= |wire| && Progress(s, n, held, before, outs, wire, used, eaten, next) && Stopped(rc)
      ensures link.prot.In().current == None
      ensures Became(HandleAll(context.distinctCase, s, n, Records(held + wire[..used], false), outs), before)
    {
      hide Whole, Records, FirstEnd, HandleAll, Lines, Context.Valid, Prot.In;
      ServedAll(context.distinctCase, s, n, eaten, link.prot.In().bytes, outs);
    }
  }

  // ---------- A whole connection ----------

  /** The replies to received bytes, once flushed, are read back by the peer as they were put. */
  lemma RepliesReadBack(link: Link, distinctCase: bool, s: Session, n: nat, bytes: string, outs: nat -> Outside)
    requires link.Valid() && link.flushed && |s.ctx.id| == ID_BYTES && Replies.Clean(s.ctx)
    requires link.lines == Lines(HandleAll(distinctCase, s, n, Records(bytes, false), outs).1)
    ensures Records(link.sent, false) == link.lines
  {
    hide Records, HandleAll, Stream;
    Replies.RecordsAreNulFree(bytes, false);
    Replies.RepliesAreReadable(distinctCase, s, n, Records(bytes, false), outs);
    forall i | 0 <= i < |link.lines|
      ensures NulFreeFields(link.lines[i]) && 1 <= |link.lines[i]| <= MAX_FIELDS && link.lines[i][0] != ""
    {
      assert Replies.Readable(HandleAll(distinctCase, s, n, Records(bytes, false), outs).1[i]);
    }
    Replies.ReadableAreExpected(link.lines);
    assert link.sent + "" == link.sent;
    PeerReadsPrefix(link.sent, "", link.lines, false);
  }

  /**
   A connection from its creation on. The peer that decodes the bytes it was
   sent reads exactly the replies to the requests among the bytes received.
   */
  method ServeConnection(distinctCase: bool, cynagora: Cynagora, logging: bool, wire: string, sizes: seq<int>,
      outs: nat -> Outside)
    returns (client: Client, rc: int, used: nat)
    modifies cynagora
    ensures used <= |wire| && client.Valid() && fresh(client) && client.Stopped(rc)
    ensures var s := Session(NewCtx(), 0, false, logging, old(cynagora.rules));
            var (s', replies) := HandleAll(distinctCase, s, 0, Records(wire[..used], false), outs);
            client.State() == s' && Records(client.link.sent, false) == Lines(replies)
    ensures var run := Requests.RunOf(distinctCase, Session(NewCtx(), 0, false, logging, old(cynagora.rules)), 0,
                                      Records(wire[..used], false), outs);
            && Records(client.link.sent, false) == run.lines
            && client.context.Value() == DoAll(distinctCase, NewCtx(), run.ops)
            && cynagora.rules == PerformAll(distinctCase, old(cynagora.rules), run.acts)
  {
    hide Records, HandleAll, Lines, RecordOf, Prot.In, Stream;
    client := new Client(distinctCase, cynagora, logging);
    rc, used := client.ProcessInput(wire, sizes, 0, outs);
    assert "" + wire[..used] == wire[..used];
    NewIsClean();
    ghost var s := Session(NewCtx(), 0, false, logging, old(cynagora.rules));
    assert [] + Lines(HandleAll(distinctCase, s, 0, Records(wire[..used], false), outs).1)
        == Lines(HandleAll(distinctCase, s, 0, Records(wire[..used], false), outs).1);
    RepliesReadBack(client.link, distinctCase, s, 0, wire[..used], outs);
    Requests.SessionIsRun(distinctCase, s, 0, Records(wire[..used], false), outs);
    hide Requests.RunOf, DoAll, PerformAll;
  }

  lemma NewIsClean()
    ensures Replies.Clean(NewCtx())
  {
  }

  /** The answer of the protocol when the buffer b holds no complete record. */
  ghost predicate Starved(rc: int, b: string) {
    FirstEnd(b) == None && rc == if |b| < BUFFER_LENGTH then -EAGAIN else -EMSGSIZE
  }

  /** One more request handled, with the lines put. */
  lemma HandledOneMore(distinctCase: bool, s: Session, n: nat, p: seq<Record>, args: Record, outs: nat -> Outside,
      before: seq<Record>)
    requires |s.ctx.id| == ID_BYTES && !HandleAll(distinctCase, s, n, p, outs).0.invalid
    ensures var (s1, r1) := HandleAll(distinctCase, s, n, p, outs);
            var (s2, r2) := OnRequestSpec(distinctCase, s1, args, outs(n + |p|));
            var (s3, r3) := HandleAll(distinctCase, s, n, p + [args], outs);
            s2 == s3 && before + Lines(r1) + Lines(r2) == before + Lines(r3)
  {
    HandleOneMore(distinctCase, s, n, p, args, outs);
    hide OnRequestSpec, HandleAll;
    var (s1, r1) := HandleAll(distinctCase, s, n, p, outs);
    var (s2, r2) := OnRequestSpec(distinctCase, s1, args, outs(n + |p|));
    LinesAppend(r1, r2);
    hide Lines;
    assert before + Lines(r1) + Lines(r2) == before + (Lines(r1) + Lines(r2));
  }

  /** Bytes behind the requests served do not matter when they hold no complete request or the session has ended. */
  lemma ServedAll(distinctCase: bool, s: Session, n: nat, eaten: string, rest: string, outs: nat -> Outside)
    requires |s.ctx.id| == ID_BYTES && Whole(eaten)
    requires HandleAll(distinctCase, s, n, Records(eaten, false), outs).0.invalid || FirstEnd(rest) == None
    ensures HandleAll(distinctCase, s, n, Records(eaten + rest, false), outs)
            == HandleAll(distinctCase, s, n, Records(eaten, false), outs)
  {
    RecordsAppend(eaten, rest, false);
    if FirstEnd(rest) == None {
      assert Records(eaten, false) + [] == Records(eaten, false);
    } else {
      hide Records, Whole, HandleAll, FirstEnd;
      ViolationIsFinal(distinctCase, s, n, Records(eaten, false), Records(rest, false), outs);
    }
  }

  lemma ServedMore(bytes: string, served: seq<Record>, eaten: string, more: string, rest: string)
    requires bytes == eaten + (more + rest) && Whole(eaten) && Whole(more)
    ensures bytes == eaten + more + rest && Whole(eaten + more)
    ensures Records(eaten + more, false) == Records(eaten, false) + Records(more, false)
    ensures served + Records(eaten, false) + Records(more, false) == served + Records(eaten + more, false)
  {
    WholeAppend(eaten, more);
    RecordsAppend(eaten, more, false);
    hide Whole, Records;
    Associate(eaten, more, rest);
    Associate(served, Records(eaten, false), Records(more, false));
  }

  lemma Taken(bytes: string, wire: string, used: nat, got: nat, eaten: string, held: string)
    requires used + got <= |wire| && bytes + wire[..used] == eaten + held
    ensures bytes + wire[..used + got] == eaten + (held + wire[used..][..got])
  {
    assert wire[..used + got] == wire[..used] + wire[used..][..got];
    assert bytes + wire[..used + got] == bytes + wire[..used] + wire[used..][..got];
  }

  lemma NothingTaken(bytes: string, rest: string, wire: string)
    ensures wire[..0] == "" && wire[0..] == wire && bytes + "" == bytes && rest + "" == rest
  {
  }

  /** One more round: got bytes were read behind those held, and more bytes are done with. */
  lemma RoundMore(bytes: string, wire: string, used: nat, got: nat, eaten: string, held: string, more: string,
      rest: string)
    requires used + got <= |wire| && bytes + wire[..used] == eaten + held && held + wire[used..][..got] == more + rest
    requires Whole(eaten) && Whole(more)
    ensures bytes + wire[..used + got] == eaten + more + rest && Whole(eaten + more)
    ensures Records(eaten + more, false) == Records(eaten, false) + Records(more, false)
  {
    hide Whole, Records;
    Taken(bytes, wire, used, got, eaten, held);
    ServedMore(bytes + wire[..used + got], [], eaten, more, rest);
  }

  lemma NothingServed()
    ensures Whole("") && Records("", false) == [] && Lines([]) == []
  {
  }

  /** One more request handled. */
  lemma HandleOneMore(distinctCase: bool, s: Session, n: nat, p: seq<Record>, args: Record, outs: nat -> Outside)
    requires |s.ctx.id| == ID_BYTES && !HandleAll(distinctCase, s, n, p, outs).0.invalid
    ensures var (s1, r1) := HandleAll(distinctCase, s, n, p, outs);
            var (s2, r2) := OnRequestSpec(distinctCase, s1, args, outs(n + |p|));
            HandleAll(distinctCase, s, n, p + [args], outs) == (s2, r1 + r2)
  {
    hide OnRequestSpec;
    HandleAppend(distinctCase, s, n, p, [args], outs);
    var s1 := HandleAll(distinctCase, s, n, p, outs).0;
    RequestKeepsBytes(distinctCase, s1, args, outs(n + |p|));
    var (s2, r2) := OnRequestSpec(distinctCase, s1, args, outs(n + |p|));
    assert [args][1..] == [];
    assert HandleAll(distinctCase, s2, n + |p| + 1, [], outs) == (s2, []);
    assert r2 + [] == r2;
  }

  /** Getting from a buffer without a current record either takes the next one or shows that there is none. */
  lemma NextRecord(s: InState) returns (eaten: string)
    requires s.Valid() && s.current == None
    ensures var (s', rc) := GetSpec(s, false);
            && s.bytes == eaten + s'.bytes && Whole(eaten)
            && (if rc >= 0 then s'.current.Some? && Records(eaten, false) == [s'.current.value] && eaten != ""
                else s'.current == None && Records(eaten, false) == [] && Starved(rc, s'.bytes))
  {
    eaten := Channel.GetEats(s, false);
    hide GetSpec, FirstEnd, Decode;
    assert Records("", false) == [];
    hide Records, Whole;
  }

  function Head(c: Ctx): seq<Reply> {
    if c.error then [ErrorIsOn] else []
  }

  /** A display is the error line, the items that can be sent, and a status. */
  lemma DisplayInParts(s: Session)
    ensures var items := DataOf(Items(s.ctx));
            var shown := SendablePrefix(items);
            DisplaySpec(s) == if shown == items then (s, Head(s.ctx) + shown + [Done([])])
                              else (s.(ctx := RaiseSpec(s.ctx)), Head(s.ctx) + shown + [Error("internal")])
  {
    DisplayParts(Head(s.ctx), Items(s.ctx));
  }

  lemma LinesOfThree(before: seq<Record>, p: seq<Reply>, q: seq<Reply>, r: seq<Reply>)
    ensures before + Lines(p) + Lines(q) + Lines(r) == before + Lines(p + q + r)
  {
    LinesAppend(p, q);
    LinesAppend(p + q, r);
    hide Lines;
    assert before + Lines(p) + Lines(q) + Lines(r) == before + (Lines(p) + Lines(q) + Lines(r));
  }

  predicate AllButLastSendable(visited: seq<Visited>) {
    forall i :: 0 <= i < |visited| - 1 ==> Sendable(Data(visited[i]))
  }

  /** The lines put for the first i items. */
  function ShownUpTo(visited: seq<Visited>, i: nat): seq<Record>
    requires i <= |visited|
  {
    Lines(SendablePrefix(DataOf(visited[..i])))
  }

  lemma ShownNone(visited: seq<Visited>)
    ensures ShownUpTo(visited, 0) == []
  {
  }

  lemma ShownAll(visited: seq<Visited>)
    ensures ShownUpTo(visited, |visited|) == Lines(SendablePrefix(DataOf(visited)))
  {
    assert visited[..|visited|] == visited;
  }

  /** One more item put. */
  lemma ShownNext(visited: seq<Visited>, i: nat)
    requires i < |visited| && AllButLastSendable(visited)
    ensures ShownUpTo(visited, i + 1)
         == ShownUpTo(visited, i) + Lines(if Sendable(Data(visited[i])) then [Data(visited[i])] else [])
  {
    hide Sendable, RecordOf;
    PrefixFacts(DataOf(visited[..i]));
    assert DataOf(visited[..i + 1]) == DataOf(visited[..i]) + [Data(visited[i])];
    PrefixSnoc(DataOf(visited[..i]), Data(visited[i]));
  }

  /** All items that a visit shows could be sent, but perhaps the last one. */
  lemma {:induction false} VisitedAreSendable(items: seq<Visited>)
    ensures var (rc, visited) := VisitSpec(items, Visitor());
            && AllButLastSendable(visited)
            && (rc == 0 ==> forall i :: 0 <= i < |visited| ==> Sendable(Data(visited[i])))
    decreases |items|
  {
    hide Sendable;
    if items != [] {
      VisitedAreSendable(items[..|items| - 1]);
    }
  }

  /** The error line always fits, so the display gets as far as its items do. */
  lemma DisplayParts(head: seq<Reply>, items: seq<Visited>)
    requires head == [] || head == [ErrorIsOn]
    ensures SendablePrefix(head + DataOf(items)) == head + SendablePrefix(DataOf(items))
    ensures SendablePrefix(head + DataOf(items)) == head + DataOf(items)
            <==> SendablePrefix(DataOf(items)) == DataOf(items)
  {
    ShortStatusFits(ErrorIsOn);
    hide Sendable;
    var all := head + DataOf(items);
    if head == [] {
      assert all == DataOf(items);
    } else {
      assert all[1..] == DataOf(items) && all[0] == ErrorIsOn;
    }
  }
}
