/** The permission database and the transaction that sets the permissions of one label. */
module Database {
  import opened Text

  /** A rule of a label: for a session, a user and a permission, a value. */
  datatype Key = Key(session: string, user: string, permission: string)
  type Rules = map<Key, string>
  type Db = map<string, Rules>

  function At(db: Db, appLabel: string): Rules {
    if appLabel in db then db[appLabel] else map[]
  }

  /**
   What the library answers: negative numbers are failures, zero is success. The
   answer setOne(i) is for the i-th permission.
   */
  datatype Answers = Answers(get: int, enter: int, drop: int, setOne: nat -> int, leave: int)

  const INSERT_ALL := "*"
  const AUTHORIZED := "yes"

  function RuleOf(permission: string): Key {
    Key(INSERT_ALL, INSERT_ALL, permission)
  }

  /** The rules that grant exactly the permissions. */
  function Granted(perms: seq<string>): Rules {
    map p | p in perms :: RuleOf(p) := AUTHORIZED
  }

  /** Status of the transaction after n sets: a failure stops it. */
  function Status(start: int, n: nat, answers: nat -> int): int {
    if n == 0 then start else
      var rc := Status(start, n - 1, answers);
      if rc >= 0 then answers(n - 1) else rc
  }

  /** The rules and the answer after setting the policies of a label. */
  function PoliciesSpec(db: Db, appLabel: string, perms: Option<seq<string>>, dropBefore: bool, a: Answers): (Db, int) {
    if a.get < 0 then (db, a.get)
    else if a.enter < 0 then (db, a.enter)
    else
      var rc := Status(if dropBefore then a.drop else a.enter, if perms.Some? then |perms.value| else 0, a.setOne);
      if rc != 0 then (db, rc)
      else if a.leave < 0 then (db, a.leave)
      else (Applied(db, appLabel, if perms.Some? then perms.value else [], dropBefore), 0)
  }

  function Applied(db: Db, appLabel: string, perms: seq<string>, dropBefore: bool): Db {
    if !dropBefore && perms == [] then db
    else db[appLabel := (if dropBefore then map[] else At(db, appLabel)) + Granted(perms)]
  }

  /** All or nothing: success is exactly that the rules of the label are the wanted ones and were committed. */
  lemma PoliciesAreAtomic(db: Db, appLabel: string, perms: Option<seq<string>>, dropBefore: bool, a: Answers)
    ensures var (db', rc) := PoliciesSpec(db, appLabel, perms, dropBefore, a);
            && (rc != 0 ==> db' == db)
            && (rc == 0 && dropBefore ==> At(db', appLabel) == if perms.Some? then Granted(perms.value) else map[])
            && (forall l :: l != appLabel ==> At(db', l) == At(db, l))
  {
  }

  /** With success answered everywhere the transaction succeeds. */
  lemma {:induction false} PoliciesSucceed(db: Db, appLabel: string, perms: Option<seq<string>>, a: Answers)
    requires a.get == 0 && a.enter == 0 && a.drop == 0 && a.leave == 0 && forall i :: a.setOne(i) == 0
    ensures PoliciesSpec(db, appLabel, perms, true, a).1 == 0
  {
    StatusZero(if perms.Some? then |perms.value| else 0, a.setOne);
  }

  lemma {:induction false} StatusZero(n: nat, answers: nat -> int)
    requires forall i :: answers(i) == 0
    ensures Status(0, n, answers) == 0
  {
    if n > 0 {
      StatusZero(n - 1, answers);
    }
  }

  /** Granted are exactly the permissions given, to any session and user, with the value yes. */
  lemma GrantedIs(perms: seq<string>, key: Key)
    ensures key in Granted(perms) <==> key.session == "*" && key.user == "*" && key.permission in perms
    ensures key in Granted(perms) ==> Granted(perms)[key] == "yes"
  {
  }

  /** The answer is the first failure, in the order of the calls; the transaction is left even behind one. */
  lemma {:induction false} FirstFailureAnswers(db: Db, appLabel: string, perms: seq<string>, a: Answers, k: nat)
    requires a.get <= 0 && a.enter <= 0 && a.drop <= 0 && a.leave <= 0 && forall i :: a.setOne(i) <= 0
    requires k <= |perms| && (forall i: nat :: i < k ==> a.setOne(i) == 0) && (k < |perms| ==> a.setOne(k) < 0)
    ensures PoliciesSpec(db, appLabel, Some(perms), true, a).1
         == if a.get < 0 then a.get else if a.enter < 0 then a.enter else if a.drop < 0 then a.drop
            else if k < |perms| then a.setOne(k) else a.leave
    ensures PoliciesSpec(db, appLabel, None, true, a).1
         == if a.get < 0 then a.get else if a.enter < 0 then a.enter else if a.drop < 0 then a.drop else a.leave
  {
    if a.drop < 0 {
      FailureStays(a.drop, 0, |perms|, a.setOne);
    } else {
      ZerosStay(k, a.setOne);
      if k < |perms| {
        FailureStays(0, k + 1, |perms|, a.setOne);
      }
    }
  }

  lemma {:induction false} ZerosStay(n: nat, answers: nat -> int)
    requires forall i: nat :: i < n ==> answers(i) == 0
    ensures Status(0, n, answers) == 0
  {
    if n > 0 {
      ZerosStay(n - 1, answers);
    }
  }

  /** A client of the database, with the draft of the transaction that is open. */
  class Cynagora {
    var rules: Db
    var draft: Db
    var open: bool

    constructor (rules: Db)
      ensures this.rules == rules && !open
    {
      this.rules, draft, open := rules, rules, false;
    }

    method Enter(answer: int)
      modifies this
      ensures rules == old(rules) && (answer < 0 ==> open == old(open))
      ensures answer >= 0 ==> open && draft == rules
    {
      if answer >= 0 {
        open, draft := true, rules;
      }
    }

    method Drop(appLabel: string, answer: int)
      requires open
      modifies this
      ensures rules == old(rules) && open
      ensures draft == if answer >= 0 then old(draft)[appLabel := map[]] else old(draft)
    {
      if answer >= 0 {
        draft := draft[appLabel := map[]];
      }
    }

    method Set(appLabel: string, key: Key, value: string, answer: int)
      requires open
      modifies this
      ensures rules == old(rules) && open
      ensures draft == if answer >= 0 then old(draft)[appLabel := At(old(draft), appLabel)[key := value]]
              else old(draft)
    {
      if answer >= 0 {
        draft := draft[appLabel := At(draft, appLabel)[key := value]];
      }
    }

    /** Leaving may fail; then nothing is committed. */
    method Leave(commit: bool, answer: int)
      requires open
      modifies this
      ensures !open
      ensures rules == if commit && answer >= 0 then old(draft) else old(rules)
    {
      if commit && answer >= 0 {
        rules := draft;
      }
      open := false;
    }

    /** Every transaction that is entered is left again. */
    method SetPolicies(appLabel: string, perms: Option<seq<string>>, dropBefore: bool, a: Answers) returns (rc: int)
      modifies this
      ensures open ==> old(open)
      ensures a.get >= 0 && a.enter >= 0 ==> !open
      ensures (rules, rc) == PoliciesSpec(old(rules), appLabel, perms, dropBefore, a)
    {
      rc := a.get;
      if rc < 0 {
        return;
      }
      rc := a.enter;
      Enter(a.enter);
      if rc < 0 {
        return;
      }
      if dropBefore {
        rc := a.drop;
        Drop(appLabel, a.drop);
      }
      ghost var start := rc;
      ghost var base := if dropBefore then map[] else At(rules, appLabel);
      if perms.Some? {
        rc := SetAll(appLabel, perms.value, rc, a.setOne, base);
      }
      assert rc >= 0 && start >= 0 ==>
               draft == Applied(rules, appLabel, if perms.Some? then perms.value else [], dropBefore) by {
        assert base + Granted([]) == base;
      }
      StatusSign(start, if perms.Some? then |perms.value| else 0, a.setOne);
      Leave(rc == 0, a.leave);
      if a.leave < 0 && rc == 0 {
        rc := a.leave;
      }
    }

    method SetAll(appLabel: string, perms: seq<string>, start: int, answers: nat -> int, ghost base: Rules)
      returns (rc: int)
      requires open && (start >= 0 ==> At(draft, appLabel) == base)
      modifies this
      ensures open && rules == old(rules) && rc == Status(start, |perms|, answers)
      ensures rc >= 0 && start >= 0 ==>
                draft == if perms == [] then old(draft) else old(draft)[appLabel := base + Granted(perms)]
    {
      hide Granted;
      rc := start;
      var i := 0;
      while rc >= 0 && i < |perms|
        invariant 0 <= i <= |perms| && open && rules == old(rules) && rc == Status(start, i, answers)
        invariant rc >= 0 && start >= 0 ==>
                    draft == if i == 0 then old(draft) else old(draft)[appLabel := base + Granted(perms[..i])]
        decreases |perms| - i
      {
        GrantedMore(base, perms, i);
        UpdateTwice(old(draft), appLabel, base + Granted(perms[..i]), base + Granted(perms[..i + 1]));
        rc := answers(i);
        Set(appLabel, RuleOf(perms[i]), AUTHORIZED, answers(i));
        i := i + 1;
      }
      assert perms[..|perms|] == perms;
      FailureStays(start, i, |perms|, answers);
    }
  }

  lemma UpdateTwice(db: Db, appLabel: string, r: Rules, s: Rules)
    ensures db[appLabel := r][appLabel := s] == db[appLabel := s] && At(db[appLabel := r], appLabel) == r
  {
  }

  lemma {:induction false} FailureStays(start: int, i: nat, n: nat, answers: nat -> int)
    requires i <= n
    ensures Status(start, i, answers) < 0 ==> Status(start, n, answers) == Status(start, i, answers)
    decreases n
  {
    if i < n {
      FailureStays(start, i, n - 1, answers);
    }
  }

  lemma {:induction false} StatusSign(start: int, n: nat, answers: nat -> int)
    ensures Status(start, n, answers) >= 0 ==> start >= 0
  {
    if n > 0 {
      StatusSign(start, n - 1, answers);
    }
  }

  lemma GrantedMore(base: Rules, perms: seq<string>, i: nat)
    requires i < |perms|
    ensures perms[..0] == [] && base + Granted([]) == base
    ensures base + Granted(perms[..i + 1]) == (base + Granted(perms[..i]))[RuleOf(perms[i]) := AUTHORIZED]
  {
  }
}
