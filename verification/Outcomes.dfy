/** What install and uninstall answer and do, told from the session and from what the outside answers. */
module Outcomes {
  import opened Text
  import Perm = Permissions
  import opened ContextSpec
  import opened Database
  import opened Actions

  // ---------- The checks of the session ----------

  /** Something in the session belongs to an application: a permission, a plug, or a path not of the type default. */
  predicate NeedsId(c: Ctx) {
    c.perms != [] || c.plugs != [] || exists i :: 0 <= i < |c.paths| && c.paths[i].pathType != 1
  }

  /** While an error is up both actions are refused and change nothing. */
  lemma ActionsOnError(distinctCase: bool, db: Db, c: Ctx, w: World)
    requires c.error
    ensures Perform(distinctCase, db, DoInstall(c, w)) == (db, -131)
            && Perform(distinctCase, db, DoUninstall(c, w)) == (db, -131)
  {
  }

  /** Without an identity both are refused if one is needed; else the security module alone answers. */
  lemma ActionsWithoutId(distinctCase: bool, db: Db, c: Ctx, w: World)
    requires Good(distinctCase, c) && !c.error && c.id[0] as int == 0
    ensures NeedsId(c) ==>
              && Perform(distinctCase, db, DoInstall(c, w)) == (db, -22)
              && Perform(distinctCase, db, DoUninstall(c, w)) == (db, -22)
    ensures !NeedsId(c) ==>
              && Perform(distinctCase, db, DoInstall(c, w)) == (db, if w.macInstall < 0 then w.macInstall else 0)
              && Perform(distinctCase, db, DoUninstall(c, w)) == (db, if w.macUninstall < 0 then w.macUninstall else 0)
  {
    assert c.id[0] == NUL;
    hide PoliciesSpec, GoodId, GoodPaths, GoodPlugs, Perm.Distinct;
  }

  /**
   With an identity, an install is refused by the plug check, or by the
   transaction on the label of that identity, or by the security module, in that
   order; the last refusal takes the permissions back.
   */
  lemma InstallWithId(distinctCase: bool, db: Db, c: Ctx, w: World)
    requires |c.id| == 201 && !c.error && c.id[0] as int != 0
    ensures var refusal := FirstRefusal(distinctCase, c.perms, c.plugs, w);
            var myLabel := w.labelOf(CStr(c.id));
            var (granted, rc) := PoliciesSpec(db, myLabel, Some(c.perms), true, w.add);
            Perform(distinctCase, db, DoInstall(c, w))
            == if refusal < 0 then (db, refusal)
               else if rc < 0 then (granted, rc)
               else if w.macInstall >= 0 then (granted, 0)
               else (PoliciesSpec(granted, myLabel, None, true, w.drop).0, w.macInstall)
  {
    assert c.id[0] != NUL;
    hide PoliciesSpec, FirstRefusal;
  }

  lemma UninstallWithId(distinctCase: bool, db: Db, c: Ctx, w: World)
    requires |c.id| == 201 && !c.error && c.id[0] as int != 0
    ensures var (dropped, rc) := PoliciesSpec(db, w.labelOf(CStr(c.id)), None, true, w.drop);
            Perform(distinctCase, db, DoUninstall(c, w))
            == (dropped, if rc < 0 then rc else if w.macUninstall < 0 then w.macUninstall else 0)
  {
    assert c.id[0] != NUL;
    hide PoliciesSpec;
  }

  /** After an install that succeeds, the label of the identity shown has exactly the permissions of the session. */
  lemma InstallGrants(distinctCase: bool, db: Db, c: Ctx, w: World, key: Key)
    requires |c.id| == 201 && !c.error && c.id[0] as int != 0 && Documented(w.add) && Documented(w.drop)
    requires Perform(distinctCase, db, DoInstall(c, w)).1 >= 0
    ensures var rules := At(Perform(distinctCase, db, DoInstall(c, w)).0, w.labelOf(CStr(c.id)));
            && (key in rules <==> key.session == "*" && key.user == "*" && key.permission in c.perms)
            && (key in rules ==> rules[key] == "yes")
            && forall i :: 0 <= i < |c.plugs| ==> MayExport(distinctCase, c.perms, c.plugs[i].impid, w)
  {
    InstallWithId(distinctCase, db, c, w);
    PlugsPass(distinctCase, c.perms, c.plugs, w);
    PoliciesOutcome(db, w.labelOf(CStr(c.id)), Some(c.perms), w.add, w.labelOf(CStr(c.id)));
    GrantedIs(c.perms, key);
    hide Perform, PoliciesSpec, Granted, MayExport, FirstRefusal, Documented, Commits;
  }
}
