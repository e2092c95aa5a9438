/** Installing and uninstalling what a session describes. */
module Actions {
  import opened Text
  import opened ContextSpec
  import opened Contexts
  import opened Database
  import Perm = Permissions
  import Pl = Plugs

  const PERM_EXPORT_HEAD := "urn:redpesk:permission:"
  const PERM_EXPORT_TAIL := ":export:plug"
  const SCOPE_PUBLIC := "public"
  const SCOPE_PARTNER := "partner"

  /**
   What the outside answers during one action: labels of identities, whether the
   plugs of an application are public, the library, and the security module.
   */
  datatype World = World(
    labelOf: string -> string,
    publicPlugs: string -> int,
    add: Answers,
    drop: Answers,
    macInstall: int,
    macUninstall: int)

  /** The permission that exporting to the application impid takes. */
  function ExportPermission(impid: string, isPublic: bool): string {
    PERM_EXPORT_HEAD + impid + ":" + (if isPublic then SCOPE_PUBLIC else SCOPE_PARTNER) + PERM_EXPORT_TAIL
  }

  /** Zero or more when the plug request is authorised. */
  function PlugStatus(distinctCase: bool, perms: seq<string>, item: Pl.Item, w: World): int {
    var sts := w.publicPlugs(w.labelOf(item.impid));
    if sts < 0 then sts
    else if Perm.Has(distinctCase, perms, ExportPermission(item.impid, sts != 0)) then 1 else -EPERM
  }

  /** The error of the first plug request that is refused, or zero. */
  function FirstRefusal(distinctCase: bool, perms: seq<string>, items: seq<Pl.Item>, w: World): (rc: int)
    ensures rc == 0 <==> forall i :: 0 <= i < |items| ==> PlugStatus(distinctCase, perms, items[i], w) >= 0
    ensures rc <= 0
  {
    if items == [] then 0
    else if PlugStatus(distinctCase, perms, items[0], w) < 0 then PlugStatus(distinctCase, perms, items[0], w)
    else FirstRefusal(distinctCase, perms, items[1..], w)
  }

  function CheckContext(c: Ctx): int {
    if c.error then -ENOTRECOVERABLE else if !HasId(c) && c.needId then -EINVAL else 0
  }

  function LabelOf(c: Ctx, w: World): string {
    w.labelOf(CStr(c.id))
  }

  function InstallSpec(distinctCase: bool, db: Db, c: Ctx, w: World): (Db, int) {
    var refusal := FirstRefusal(distinctCase, c.perms, c.plugs, w);
    if CheckContext(c) < 0 then (db, CheckContext(c))
    else if refusal < 0 then (db, refusal)
    else
      var (db1, rc) := if HasId(c) then PoliciesSpec(db, LabelOf(c, w), Some(c.perms), true, w.add) else (db, 0);
      if rc < 0 then (db1, rc)
      else if w.macInstall >= 0 then (db1, 0)
      else if HasId(c) then (PoliciesSpec(db1, LabelOf(c, w), None, true, w.drop).0, w.macInstall)
      else (db1, w.macInstall)
  }

  function UninstallSpec(db: Db, c: Ctx, w: World): (Db, int) {
    if CheckContext(c) < 0 then (db, CheckContext(c))
    else
      var (db1, rc) := if HasId(c) then PoliciesSpec(db, LabelOf(c, w), None, true, w.drop) else (db, 0);
      if rc < 0 then (db1, rc)
      else (db1, if w.macUninstall < 0 then w.macUninstall else 0)
  }

  // ---------- The plug check ----------

  /** The session holds the permission to export to the application, as the scope of its plugs demands. */
  predicate MayExport(distinctCase: bool, perms: seq<string>, impid: string, w: World) {
    var p := w.publicPlugs(w.labelOf(impid));
    var wanted := "urn:redpesk:permission:" + impid + (if p > 0 then ":public" else ":partner") + ":export:plug";
    p >= 0 && exists i :: 0 <= i < |perms| && Perm.Same(distinctCase, wanted, perms[i])
  }

  lemma MayExportIs(distinctCase: bool, perms: seq<string>, item: Pl.Item, w: World)
    ensures PlugStatus(distinctCase, perms, item, w) >= 0 <==> MayExport(distinctCase, perms, item.impid, w)
    ensures PlugStatus(distinctCase, perms, item, w) < 0 ==>
              var p := w.publicPlugs(w.labelOf(item.impid));
              PlugStatus(distinctCase, perms, item, w) == if p < 0 then p else -1
  {
    var p := w.publicPlugs(w.labelOf(item.impid));
    hide Perm.Same;
    var wanted := "urn:redpesk:permission:" + item.impid + (if p > 0 then ":public" else ":partner") + ":export:plug";
    if p >= 0 {
      assert ExportPermission(item.impid, p != 0) == wanted;
    }
  }

  /** The check passes exactly when every plug may be exported; else it answers for the first that may not. */
  lemma {:induction false} PlugsPass(distinctCase: bool, perms: seq<string>, items: seq<Pl.Item>, w: World)
    ensures FirstRefusal(distinctCase, perms, items, w) == 0
            <==> forall i :: 0 <= i < |items| ==> MayExport(distinctCase, perms, items[i].impid, w)
    decreases |items|
  {
    hide PlugStatus, MayExport;
    forall i | 0 <= i < |items|
      ensures PlugStatus(distinctCase, perms, items[i], w) >= 0 <==> MayExport(distinctCase, perms, items[i].impid, w)
    {
      MayExportIs(distinctCase, perms, items[i], w);
    }
  }

  lemma {:induction false} FirstPlugAnswers(distinctCase: bool, perms: seq<string>, items: seq<Pl.Item>, w: World,
      k: nat)
    requires k < |items| && !MayExport(distinctCase, perms, items[k].impid, w)
    requires forall i :: 0 <= i < k ==> MayExport(distinctCase, perms, items[i].impid, w)
    ensures var p := w.publicPlugs(w.labelOf(items[k].impid));
            FirstRefusal(distinctCase, perms, items, w) == if p < 0 then p else -1
    decreases k
  {
    hide PlugStatus, MayExport;
    MayExportIs(distinctCase, perms, items[0], w);
    if k > 0 {
      FirstPlugAnswers(distinctCase, perms, items[1..], w, k - 1);
    }
  }

  // ---------- The operations ----------

  method StatusOf(context: Context, item: Pl.Item, w: World) returns (sts: int)
    requires context.Valid()
    ensures sts == PlugStatus(context.distinctCase, context.Value().perms, item, w)
  {
    sts := w.publicPlugs(w.labelOf(item.impid));
    if sts >= 0 {
      var permission := ExportPermission(item.impid, sts != 0);
      var has := context.HasPermission(permission);
      sts := if has then 1 else -EPERM;
    }
  }

  method CheckPlugInstallable(context: Context, w: World) returns (rc: int)
    requires context.Valid()
    ensures rc == FirstRefusal(context.distinctCase, context.Value().perms, context.Value().plugs, w)
    ensures var c := context.Value();
            rc == 0 <==> forall i :: 0 <= i < |c.plugs| ==>
                           MayExport(context.distinctCase, c.perms, c.plugs[i].impid, w)
  {
    hide PlugStatus, MayExport;
    PlugsPass(context.distinctCase, context.Value().perms, context.Value().plugs, w);
    rc := 0;
    var plug := context.plugSet.head;
    ghost var items, perms := context.Value().plugs, context.Value().perms;
    ghost var total, k := FirstRefusal(context.distinctCase, perms, items, w), 0;
    assert items[0..] == items;
    while plug != null
      invariant 0 <= k <= |items| && Pl.List(plug) && Pl.Items(plug) == items[k..]
      invariant rc <= 0 && total == if rc < 0 then rc else FirstRefusal(context.distinctCase, perms, items[k..], w)
      decreases |items| - k
    {
      Pl.ListStep(plug);
      assert items[k..][0] == plug.item && items[k..][1..] == items[k + 1..];
      var sts := StatusOf(context, plug.item, w);
      if sts < 0 && rc == 0 {
        rc := sts;
      }
      plug := plug.next;
      k := k + 1;
    }
  }

  method CheckContextMethod(context: Context, w: World) returns (rc: int, appLabel: string)
    requires context.Valid()
    ensures rc == CheckContext(context.Value())
    ensures rc == if context.errorFlag then -131 else if context.id[0] as int == 0 && context.needId then -22 else 0
    ensures rc == 0 ==> appLabel == LabelOf(context.Value(), w)
  {
    appLabel := "";
    if context.errorFlag {
      return -ENOTRECOVERABLE, appLabel;
    }
    var hasId := context.id[0] != NUL;
    if !hasId && context.needId {
      return -EINVAL, appLabel;
    }
    appLabel := w.labelOf(CStr(context.id[..]));
    rc := 0;
  }

  method Install(context: Context, cynagora: Cynagora, w: World) returns (rc: int)
    requires context.Valid() && cynagora !in context.Repr()
    modifies cynagora
    ensures context.Valid() && context.Value() == old(context.Value()) && context.Repr() == old(context.Repr())
    ensures (cynagora.rules, rc) == InstallSpec(context.distinctCase, old(cynagora.rules), context.Value(), w)
  {
    var hasId := context.id[0] != NUL;
    ghost var c := context.Value();
    var appLabel;
    rc, appLabel := CheckContextMethod(context, w);
    if rc < 0 {
      return;
    }
    rc := CheckPlugInstallable(context, w);
    if rc < 0 {
      return;
    }
    if hasId {
      var perms := context.permissionSet.List();
      rc := cynagora.SetPolicies(appLabel, Some(perms), true, w.add);
      if rc < 0 {
        return;
      }
    }
    rc := w.macInstall;
    if rc < 0 {
      if hasId {
        var rc2 := cynagora.SetPolicies(appLabel, None, true, w.drop);
      }
      return;
    }
    rc := 0;
  }

  method Uninstall(context: Context, cynagora: Cynagora, w: World) returns (rc: int)
    requires context.Valid() && cynagora !in context.Repr()
    modifies cynagora
    ensures context.Valid() && context.Value() == old(context.Value()) && context.Repr() == old(context.Repr())
    ensures (cynagora.rules, rc) == UninstallSpec(old(cynagora.rules), context.Value(), w)
  {
    var hasId := context.id[0] != NUL;
    var appLabel;
    rc, appLabel := CheckContextMethod(context, w);
    if rc < 0 {
      return;
    }
    if hasId {
      rc := cynagora.SetPolicies(appLabel, None, true, w.drop);
      if rc < 0 {
        return;
      }
    }
    rc := w.macUninstall;
    if rc < 0 {
      return;
    }
    rc := 0;
  }

  // ---------- Transactions over runs ----------

  datatype Act = DoInstall(c: Ctx, w: World) | DoUninstall(c: Ctx, w: World)

  function Perform(distinctCase: bool, db: Db, a: Act): (Db, int) {
    match a
    case DoInstall(c, w) => InstallSpec(distinctCase, db, c, w)
    case DoUninstall(c, w) => UninstallSpec(db, c, w)
  }

  function Subject(a: Act): string {
    LabelOf(a.c, a.w)
  }

  /** The library answers zero or a negative number, as documented. */
  ghost predicate Documented(a: Answers) {
    a.get <= 0 && a.enter <= 0 && a.drop <= 0 && a.leave <= 0 && forall i :: a.setOne(i) <= 0
  }

  /** The drop that makes up for a failed installation succeeds. */
  predicate Compensates(a: Act) {
    a.DoInstall? && HasId(a.c) && a.w.macInstall < 0 ==> PoliciesSpec(map[], Subject(a), None, true, a.w.drop).1 == 0
  }

  lemma {:induction false} StatusDocumented(start: int, n: nat, a: Answers)
    requires Documented(a) && start <= 0
    ensures Status(start, n, a.setOne) <= 0
  {
    if n > 0 {
      StatusDocumented(start, n - 1, a);
    }
  }

  lemma PoliciesDocumented(db: Db, appLabel: string, perms: Option<seq<string>>, a: Answers)
    requires Documented(a)
    ensures PoliciesSpec(db, appLabel, perms, true, a).1 <= 0
    ensures PoliciesSpec(db, appLabel, perms, true, a).1 == PoliciesSpec(map[], appLabel, perms, true, a).1
  {
    StatusDocumented(a.drop, if perms.Some? then |perms.value| else 0, a);
  }

  /** What an action makes of the rules of its label. */
  datatype Outcome = Keeps | Empties | Grants(perms: seq<string>)

  /** Does the transaction commit, given what the library answers? */
  predicate Commits(perms: Option<seq<string>>, a: Answers) {
    PoliciesSpec(map[], "", perms, true, a).1 == 0
  }

  /**
   Nothing without an identity or when a check refuses. An uninstall empties the
   rules as soon as its drop commits, even if the security module then refuses.
   An install grants as soon as its permissions commit; if the security module
   then refuses, the compensating drop empties the rules or leaves them granted.
   */
  function OutcomeOf(distinctCase: bool, a: Act): Outcome {
    if !HasId(a.c) || CheckContext(a.c) < 0 then Keeps
    else match a
      case DoUninstall(c, w) => if Commits(None, w.drop) then Empties else Keeps
      case DoInstall(c, w) =>
        if FirstRefusal(distinctCase, c.perms, c.plugs, w) < 0 || !Commits(Some(c.perms), w.add) then Keeps
        else if w.macInstall < 0 && Commits(None, w.drop) then Empties
        else Grants(c.perms)
  }

  function AfterOutcome(rules: Rules, o: Outcome): Rules {
    match o
    case Keeps => rules
    case Empties => map[]
    case Grants(perms) => Granted(perms)
  }

  /** One transaction: whether it commits does not depend on the rules, and it sets those of its label only. */
  lemma PoliciesOutcome(db: Db, appLabel: string, perms: Option<seq<string>>, a: Answers, l: string)
    requires Documented(a)
    ensures var (db', rc) := PoliciesSpec(db, appLabel, perms, true, a);
            && rc <= 0 && (rc == 0 <==> Commits(perms, a))
            && At(db', l) == if l != appLabel || rc != 0 then At(db, l)
                             else if perms.Some? then Granted(perms.value) else map[]
  {
    PoliciesAreAtomic(db, appLabel, perms, true, a);
    PoliciesDocumented(db, appLabel, perms, a);
    PoliciesDocumented(map[], "", perms, a);
  }

  /** Exactly what one action does to the rules of its own label and of every other. */
  lemma ActOutcome(distinctCase: bool, db: Db, a: Act, l: string)
    requires Documented(a.w.add) && Documented(a.w.drop)
    ensures At(Perform(distinctCase, db, a).0, l)
         == if l == Subject(a) then AfterOutcome(At(db, l), OutcomeOf(distinctCase, a)) else At(db, l)
  {
    hide PoliciesSpec, Granted, At, Documented, Commits, FirstRefusal, CheckContext;
    PoliciesOutcome(db, Subject(a), Some(a.c.perms), a.w.add, l);
    PoliciesOutcome(PoliciesSpec(db, Subject(a), Some(a.c.perms), true, a.w.add).0, Subject(a), None, a.w.drop, l);
    PoliciesOutcome(db, Subject(a), None, a.w.drop, l);
  }

  /**
   What the answer of an action tells of its outcome, when compensating drops
   succeed: an install grants if and only if it succeeds, and an uninstall that
   succeeds empties. The rules are emptied by a failing install exactly when the
   security module has refused it, and may have been by a failing uninstall.
   */
  lemma OutcomeByAnswer(distinctCase: bool, db: Db, a: Act)
    requires Documented(a.w.add) && Documented(a.w.drop) && Compensates(a) && HasId(a.c)
    ensures var rc, o := Perform(distinctCase, db, a).1, OutcomeOf(distinctCase, a);
            && (a.DoInstall? ==> (o == Grants(a.c.perms) <==> rc >= 0))
            && (a.DoInstall? ==> (o == Empties
                <==> CheckContext(a.c) >= 0 && Commits(Some(a.c.perms), a.w.add) && a.w.macInstall < 0
                                                    && FirstRefusal(distinctCase, a.c.perms, a.c.plugs, a.w) == 0))
            && (a.DoUninstall? ==> (rc >= 0 <==> o == Empties && a.w.macUninstall >= 0) && !o.Grants?)
  {
    hide PoliciesSpec, Documented, Granted, Commits;
    PoliciesOutcome(db, Subject(a), Some(a.c.perms), a.w.add, "");
    PoliciesOutcome(db, Subject(a), None, a.w.drop, "");
    PoliciesOutcome(map[], Subject(a), None, a.w.drop, "");
  }

  /** An uninstall that the security module refuses has emptied the rules already. */
  lemma RefusedUninstallEmpties(distinctCase: bool, db: Db, c: Ctx, w: World)
    requires Documented(w.add) && Documented(w.drop) && HasId(c) && CheckContext(c) >= 0
    requires Commits(None, w.drop) && w.macUninstall < 0
    ensures var (db', rc) := UninstallSpec(db, c, w);
            rc == w.macUninstall && At(db', LabelOf(c, w)) == map[]
  {
    PoliciesOutcome(db, LabelOf(c, w), None, w.drop, "");
    ActOutcome(distinctCase, db, DoUninstall(c, w), LabelOf(c, w));
  }

  /**
   When the security module refuses and the compensating drop fails as well, the
   permissions of the failed installation stay; a drop that succeeds removes them.
   */
  lemma FailedInstallLeaves(distinctCase: bool, db: Db, c: Ctx, w: World)
    requires Documented(w.add) && Documented(w.drop) && HasId(c)
    requires CheckContext(c) == 0 && FirstRefusal(distinctCase, c.perms, c.plugs, w) == 0
    requires PoliciesSpec(db, LabelOf(c, w), Some(c.perms), true, w.add).1 == 0 && w.macInstall < 0
    ensures var db' := InstallSpec(distinctCase, db, c, w).0;
            At(db', LabelOf(c, w)) == if Compensates(DoInstall(c, w)) then map[] else Granted(c.perms)
  {
    PoliciesAreAtomic(db, LabelOf(c, w), Some(c.perms), true, w.add);
    var db1 := PoliciesSpec(db, LabelOf(c, w), Some(c.perms), true, w.add).0;
    PoliciesAreAtomic(db1, LabelOf(c, w), None, true, w.drop);
    PoliciesDocumented(db1, LabelOf(c, w), None, w.drop);
  }

  function PerformAll(distinctCase: bool, db: Db, run: seq<Act>): Db {
    if run == [] then db
    else Perform(distinctCase, PerformAll(distinctCase, db, run[..|run| - 1]), run[|run| - 1]).0
  }

  /** The last outcome in the run, for the label l, that is not to keep the rules. */
  function LastOutcome(distinctCase: bool, run: seq<Act>, l: string): Outcome {
    if run == [] then Keeps else
      var a := run[|run| - 1];
      var o := OutcomeOf(distinctCase, a);
      if Subject(a) == l && o != Keeps then o else LastOutcome(distinctCase, run[..|run| - 1], l)
  }

  /**
   At any time the rules of a label are what the last action that changed them
   made of them, and those of the start if there was none.
   */
  lemma {:induction false} RulesOverRuns(distinctCase: bool, db: Db, run: seq<Act>, l: string)
    requires forall i :: 0 <= i < |run| ==> Documented(run[i].w.add) && Documented(run[i].w.drop)
    ensures At(PerformAll(distinctCase, db, run), l) == AfterOutcome(At(db, l), LastOutcome(distinctCase, run, l))
    decreases |run|
  {
    hide Perform, Granted, At, Documented, OutcomeOf;
    if run != [] {
      var before, a := run[..|run| - 1], run[|run| - 1];
      RulesOverRuns(distinctCase, db, before, l);
      ActOutcome(distinctCase, PerformAll(distinctCase, db, before), a, l);
    }
  }

  /** The permissions of the last installation for the label l in the run that succeeded. */
  function LastInstalled(distinctCase: bool, db: Db, run: seq<Act>, l: string): Option<seq<string>> {
    if run == [] then None else
      var before, a := run[..|run| - 1], run[|run| - 1];
      var rc := Perform(distinctCase, PerformAll(distinctCase, db, before), a).1;
      if a.DoInstall? && HasId(a.c) && Subject(a) == l && rc >= 0 then Some(a.c.perms)
      else LastInstalled(distinctCase, db, before, l)
  }

  /** With working compensation, rules that are not empty are those of the last successful install, or of the start. */
  lemma {:induction false} GrantsAreInstalled(distinctCase: bool, db: Db, run: seq<Act>, l: string)
    requires forall i :: 0 <= i < |run| ==> Documented(run[i].w.add) && Documented(run[i].w.drop) && Compensates(run[i])
    ensures var last, installed := LastOutcome(distinctCase, run, l), LastInstalled(distinctCase, db, run, l);
            (last.Grants? ==> installed == Some(last.perms)) && (last == Keeps ==> installed == None)
    decreases |run|
  {
    hide Perform, Granted, Documented, Commits, Compensates, FirstRefusal;
    if run != [] {
      var before, a := run[..|run| - 1], run[|run| - 1];
      GrantsAreInstalled(distinctCase, db, before, l);
      if HasId(a.c) {
        OutcomeByAnswer(distinctCase, PerformAll(distinctCase, db, before), a);
      }
    }
  }

  /** An action on one label never changes the rules of another, whatever fails. */
  lemma OtherLabelsAreUntouched(distinctCase: bool, db: Db, a: Act, l: string)
    requires l != Subject(a)
    ensures At(Perform(distinctCase, db, a).0, l) == At(db, l)
  {
    PoliciesAreAtomic(db, Subject(a), Some(a.c.perms), true, a.w.add);
    var db1 := PoliciesSpec(db, Subject(a), Some(a.c.perms), true, a.w.add).0;
    PoliciesAreAtomic(db1, Subject(a), None, true, a.w.drop);
    PoliciesAreAtomic(db, Subject(a), None, true, a.w.drop);
  }
}
