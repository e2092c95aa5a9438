/** The data of a session as a value, the requests that change it, and what stays true of it. */
module ContextSpec {
  import opened Text
  import Perm = Permissions
  import opened Paths
  import opened Plugs
  import opened PathStd
  import opened PathNormal

  const ID_BYTES := 201
  const MAX_PATH_BUFFER := MAX_SIZE_PATH + 1

  /**
   id is the byte array of the identity, of which C readers see what comes
   before the first zero.
   */
  datatype Ctx = Ctx(
    id: string,
    perms: seq<string>,
    paths: seq<PathItem>,
    plugs: seq<Item>,
    needId: bool,
    error: bool)

  /** Answers of the file system: zero or a negated error number for an existing file, and for a directory. */
  datatype Files = Files(path: string -> int, directory: string -> int)

  // ---------- Identity ----------

  predicate IdChar(c: char) {
    'a' <= c <= 'z' || 'A' <= c <= 'Z' || '0' <= c <= '9' || c == '-' || c == '_'
  }

  predicate IdChars(s: string) {
    forall i :: 0 <= i < |s| ==> IdChar(s[i])
  }

  predicate ValidId(s: string) {
    MIN_SIZE_ID <= |s| <= MAX_SIZE_ID && IdChars(s)
  }

  /** The bytes of src over those of id, without a terminating zero. */
  function Overwrite(id: string, src: string): (r: string)
    requires |src| <= |id|
    ensures |r| == |id|
  {
    src + id[|src|..]
  }

  predicate HasId(c: Ctx) {
    c.id != "" && c.id[0] != NUL
  }

  function SetIdSpec(c: Ctx, id: string): (Ctx, int)
    requires |c.id| == ID_BYTES
  {
    if c.error then (c, -ENOTRECOVERABLE)
    else if HasId(c) then (c, -EEXIST)
    else if !ValidId(id) then (c, -EINVAL)
    else (c.(id := Overwrite(c.id, id)), 0)
  }

  // ---------- Permissions, paths, plugs ----------

  function AddPermissionSpec(distinctCase: bool, c: Ctx, p: string): (Ctx, int) {
    if c.error then (c, -ENOTRECOVERABLE)
    else if Perm.Has(distinctCase, c.perms, p) then (c, -EEXIST)
    else if !Perm.GoodSize(p) then (c, -EINVAL)
    else (c.(perms := c.perms + [p], needId := true), 0)
  }

  /** The normal form that fits with its zero in a buffer of MAX_SIZE_PATH + 1 bytes, if it does all along. */
  function BoundedStd(path: string): Option<string> {
    if Fits(Stack([], false), Segments(path), IsAbsolute(path), MAX_PATH_BUFFER) && |Std(path)| < MAX_PATH_BUFFER
    then Some(Std(path)) else None
  }

  /** A path that a request may name: it has a bounded normal form, from the root. */
  predicate Locates(path: string) {
    BoundedStd(path).Some? && IsAbsolute(BoundedStd(path).value)
  }

  function AddPathSpec(c: Ctx, path: string, pathType: string, files: Files): (Ctx, int) {
    var t := TypeOf(pathType);
    if c.error then (c, -ENOTRECOVERABLE)
    else if t == TYPE_UNSET || !Locates(path) then (c, -EINVAL)
    else
      var std := Std(path);
      if HasPath(c.paths, std) then (c, -EEXIST)
      else if files.path(std) < 0 then (c, files.path(std))
      else if |std| >= MAX_SIZE_PATH then (c, -EINVAL)
      else (c.(paths := c.paths + [PathItem(std, t)], needId := c.needId || t != TYPE_DEFAULT), 0)
  }

  predicate HasImport(plugs: seq<Item>, impdir: string) {
    exists i :: 0 <= i < |plugs| && plugs[i].impdir == impdir
  }

  function AddPlugSpec(c: Ctx, expdir: string, impid: string, impdir: string, files: Files): (Ctx, int) {
    if c.error then (c, -ENOTRECOVERABLE)
    else if !Locates(expdir) || !Locates(impdir) then (c, -EINVAL)
    else
      var from, into := Std(expdir), Std(impdir);
      if HasImport(c.plugs, into) then (c, -EEXIST)
      else if !ValidId(impid) then (c, -EINVAL)
      else if files.directory(from) < 0 then (c, files.directory(from))
      else if files.directory(into) < 0 then (c, files.directory(into))
      else (c.(plugs := [Item(from, impid, into)] + c.plugs, needId := true), 0)
  }

  /** Clearing empties everything but the bytes of the identity behind the first. */
  function ClearSpec(c: Ctx): Ctx
    requires |c.id| == ID_BYTES
  {
    Ctx(c.id[0 := NUL], [], [], [], false, false)
  }

  function RaiseSpec(c: Ctx): Ctx {
    c.(error := true)
  }

  // ---------- What stays true ----------

  predicate GoodPath(p: string) {
    IsAbsolute(p) && Std(p) == p
  }

  ghost predicate GoodPaths(paths: seq<PathItem>) {
    && (forall i :: 0 <= i < |paths| ==>
          GoodPath(paths[i].path) && 1 <= |paths[i].path| < MAX_SIZE_PATH && TypeIsValid(paths[i].pathType))
    && (forall i, j :: 0 <= i < j < |paths| ==> paths[i].path != paths[j].path)
  }

  ghost predicate GoodPlugs(plugs: seq<Item>) {
    && (forall i :: 0 <= i < |plugs| ==>
          GoodSizes(plugs[i]) && ValidId(plugs[i].impid) && GoodPath(plugs[i].expdir) && GoodPath(plugs[i].impdir))
    && (forall i, j :: 0 <= i < j < |plugs| ==> plugs[i].impdir != plugs[j].impdir)
  }

  predicate GoodId(id: string) {
    && |id| == ID_BYTES && id[MAX_SIZE_ID] == NUL
    && (forall i :: 0 <= i < |id| ==> id[i] == NUL || IdChar(id[i]))
    && (id[0] != NUL ==> id[1] != NUL)
  }

  predicate Special(paths: seq<PathItem>) {
    exists i :: 0 <= i < |paths| && paths[i].pathType != TYPE_DEFAULT
  }

  ghost predicate Good(distinctCase: bool, c: Ctx) {
    && GoodId(c.id)
    && Perm.Distinct(distinctCase, c.perms)
    && GoodPaths(c.paths)
    && GoodPlugs(c.plugs)
    && (c.needId <==> c.perms != [] || c.plugs != [] || Special(c.paths))
  }

  function NewCtx(): Ctx {
    Ctx(seq(ID_BYTES, _ => NUL), [], [], [], false, false)
  }

  datatype Op =
    | SetId(id: string)
    | AddPermission(perm: string)
    | AddPath(path: string, pathType: string, files: Files)
    | AddPlug(expdir: string, impid: string, impdir: string, files: Files)
    | Clear
    | RaiseError

  function Do(distinctCase: bool, c: Ctx, op: Op): (r: (Ctx, int))
    requires |c.id| == ID_BYTES
    ensures |r.0.id| == ID_BYTES
  {
    match op
    case SetId(id) => SetIdSpec(c, id)
    case AddPermission(p) => AddPermissionSpec(distinctCase, c, p)
    case AddPath(path, t, files) => AddPathSpec(c, path, t, files)
    case AddPlug(expdir, impid, impdir, files) => AddPlugSpec(c, expdir, impid, impdir, files)
    case Clear => (ClearSpec(c), 0)
    case RaiseError => (RaiseSpec(c), 0)
  }

  function DoAll(distinctCase: bool, c: Ctx, ops: seq<Op>): (r: Ctx)
    requires |c.id| == ID_BYTES
    ensures |r.id| == ID_BYTES
    decreases |ops|
  {
    if ops == [] then c else DoAll(distinctCase, Do(distinctCase, c, ops[0]).0, ops[1..])
  }

  lemma LocatesGoodPath(path: string)
    requires Locates(path)
    ensures GoodPath(Std(path)) && 1 <= |Std(path)| <= MAX_SIZE_PATH
  {
    StdIsIdempotent(path);
  }

  /** Overwriting the front of a legal byte array with a legal identity leaves a legal byte array. */
  lemma OverwriteKeepsGood(id: string, src: string)
    requires GoodId(id) && ValidId(src)
    ensures GoodId(Overwrite(id, src))
  {
    var r := Overwrite(id, src);
    forall i | 0 <= i < |r| ensures r[i] == NUL || IdChar(r[i]) {
      if i < |src| {
        assert r[i] == src[i];
      } else {
        assert r[i] == id[i];
      }
    }
    assert r[MAX_SIZE_ID] == id[MAX_SIZE_ID];
    assert IdChar(src[0]) && IdChar(src[1]) && !IdChar(NUL);
  }

  /** Every request, accepted or refused, keeps the context good. */
  lemma DoKeepsGood(distinctCase: bool, c: Ctx, op: Op)
    requires Good(distinctCase, c)
    ensures Good(distinctCase, Do(distinctCase, c, op).0)
  {
    hide Std, Segments, Fits, TypeOf, IsAbsolute, CStr;
    match op
    case SetId(id) =>
      if ValidId(id) {
        OverwriteKeepsGood(c.id, id);
      }
    case AddPermission(p) => Perm.AddKeepsDistinct(distinctCase, c.perms, p);
    case AddPath(path, t, files) =>
      if Locates(path) {
        LocatesGoodPath(path);
        if AddPathSpec(c, path, t, files).1 == 0 && !c.error {
          AddedPathKeepsGood(c.paths, PathItem(Std(path), TypeOf(t)));
        }
      }
    case AddPlug(expdir, impid, impdir, files) =>
      if Locates(expdir) && Locates(impdir) {
        LocatesGoodPath(expdir);
        LocatesGoodPath(impdir);
      }
    case Clear =>
    case RaiseError =>
  }

  lemma AddedPathKeepsGood(paths: seq<PathItem>, item: PathItem)
    requires GoodPaths(paths) && !HasPath(paths, item.path)
    requires GoodPath(item.path) && 1 <= |item.path| < MAX_SIZE_PATH && TypeIsValid(item.pathType)
    ensures GoodPaths(paths + [item])
    ensures Special(paths + [item]) <==> Special(paths) || item.pathType != TYPE_DEFAULT
  {
    var all := paths + [item];
    assert all[|paths|] == item && forall i :: 0 <= i < |paths| ==> all[i] == paths[i];
    if Special(paths) {
      var i :| 0 <= i < |paths| && paths[i].pathType != TYPE_DEFAULT;
      assert all[i].pathType != TYPE_DEFAULT;
    }
  }

  /** So every reachable context is good. */
  lemma {:induction false} ReachableIsGood(distinctCase: bool, c: Ctx, ops: seq<Op>)
    requires Good(distinctCase, c)
    ensures Good(distinctCase, DoAll(distinctCase, c, ops))
    decreases |ops|
  {
    if ops != [] {
      DoKeepsGood(distinctCase, c, ops[0]);
      ReachableIsGood(distinctCase, Do(distinctCase, c, ops[0]).0, ops[1..]);
    }
  }

  lemma NewIsGood(distinctCase: bool)
    ensures Good(distinctCase, NewCtx())
  {
  }

  lemma NewIdIsZero()
    ensures NewCtx().(id := NewCtx().id[MAX_SIZE_ID := NUL]) == NewCtx()
  {
    assert NewCtx().id[MAX_SIZE_ID := NUL] == NewCtx().id;
  }

  /** The identity that readers see is empty or legal. */
  lemma ShownIdIsLegal(id: string)
    requires GoodId(id)
    ensures CStr(id) == "" || ValidId(CStr(id))
  {
    var s := CStr(id);
    assert forall i :: 0 <= i < |s| ==> s[i] == id[i] && s[i] != NUL;
    assert |s| <= MAX_SIZE_ID;
    if id[0] != NUL {
      assert |s| >= 2;
    }
  }

  /** The lexical location of a path is in the set at most once. */
  lemma OneEntryPerLocation(distinctCase: bool, ops: seq<Op>, path: string, i: nat, j: nat)
    requires IsAbsolute(path)
    requires var c := DoAll(distinctCase, NewCtx(), ops);
             && i < |c.paths| && j < |c.paths|
             && Resolve(Segments(c.paths[i].path)) == Resolve(Segments(path))
             && Resolve(Segments(c.paths[j].path)) == Resolve(Segments(path))
    ensures i == j
  {
    NewIsGood(distinctCase);
    ReachableIsGood(distinctCase, NewCtx(), ops);
    var c := DoAll(distinctCase, NewCtx(), ops);
    SameFormIffSameComponents(c.paths[i].path, path);
    SameFormIffSameComponents(c.paths[j].path, path);
    assert c.paths[i].path == c.paths[j].path;
  }

  // ---------- The sticky error ----------

  /** While the error is up no setting is accepted and nothing changes, until a clear. */
  lemma ErrorIsSticky(distinctCase: bool, c: Ctx, op: Op)
    requires |c.id| == ID_BYTES && c.error && !op.Clear?
    ensures Do(distinctCase, c, op).0 == c
    ensures !op.RaiseError? ==> Do(distinctCase, c, op).1 == -ENOTRECOVERABLE
  {
  }

  // ---------- The identity that is shown ----------

  /** Beyond the longest identity so far all bytes are zero; up to it, none but the first. */
  predicate Filled(id: string, longest: nat) {
    && |id| == ID_BYTES && longest <= MAX_SIZE_ID
    && (forall i :: longest <= i < |id| ==> id[i] == NUL)
    && (forall i :: 0 < i < longest ==> id[i] != NUL)
  }

  function Longest(distinctCase: bool, c: Ctx, ops: seq<Op>, longest: nat): nat
    requires |c.id| == ID_BYTES
    decreases |ops|
  {
    if ops == [] then longest else
      var (c', rc) := Do(distinctCase, c, ops[0]);
      Longest(distinctCase, c', ops[1..],
              if ops[0].SetId? && rc == 0 && |ops[0].id| > longest then |ops[0].id| else longest)
  }

  lemma FilledStep(distinctCase: bool, c: Ctx, op: Op, longest: nat)
    requires Filled(c.id, longest)
    ensures var (c', rc) := Do(distinctCase, c, op);
            Filled(c'.id, if op.SetId? && rc == 0 && |op.id| > longest then |op.id| else longest)
  {
    hide Std, Segments, Fits, TypeOf;
    if op.SetId? && Do(distinctCase, c, op).1 == 0 {
      var src, id := op.id, c.id;
      var r := Overwrite(id, src);
      assert forall i :: 0 <= i < |src| ==> r[i] == src[i] && IdChar(src[i]);
      assert forall i :: |src| <= i < |r| ==> r[i] == id[i];
      assert !IdChar(NUL);
    }
  }

  lemma {:induction false} FilledAfter(distinctCase: bool, c: Ctx, ops: seq<Op>, longest: nat)
    requires Filled(c.id, longest)
    ensures Filled(DoAll(distinctCase, c, ops).id, Longest(distinctCase, c, ops, longest))
    decreases |ops|
  {
    if ops != [] {
      var (c', rc) := Do(distinctCase, c, ops[0]);
      FilledStep(distinctCase, c, ops[0], longest);
      FilledAfter(distinctCase, c', ops[1..],
                  if ops[0].SetId? && rc == 0 && |ops[0].id| > longest then |ops[0].id| else longest);
    }
  }

  /**
   After any run that starts with a fresh context, an identity that is accepted
   is the one shown if and only if no identity accepted before was longer.
   */
  lemma ShownIsRequestedIff(distinctCase: bool, ops: seq<Op>, id: string)
    requires SetIdSpec(DoAll(distinctCase, NewCtx(), ops), id).1 == 0
    ensures CStr(SetIdSpec(DoAll(distinctCase, NewCtx(), ops), id).0.id) == id
            <==> Longest(distinctCase, NewCtx(), ops, 0) <= |id|
  {
    FilledAfter(distinctCase, NewCtx(), ops, 0);
    var c, n := DoAll(distinctCase, NewCtx(), ops), Longest(distinctCase, NewCtx(), ops, 0);
    var r := Overwrite(c.id, id);
    var tail := c.id[|id|..];
    assert !IdChar(NUL) && NulFree(id) && tail[0] == c.id[|id|];
    CStrConcat(id, tail);
    if n <= |id| {
      assert CStr(tail) == "";
    } else {
      assert CStr(tail) != "";
    }
  }

  lemma {:induction false} CStrConcat(s: string, t: string)
    requires NulFree(s)
    ensures CStr(s + t) == s + CStr(t)
    decreases |s|
  {
    if s == "" {
      assert s + t == t;
    } else {
      assert (s + t)[1..] == s[1..] + t;
      CStrConcat(s[1..], t);
    }
  }

  /** A shorter identity after a clear keeps the tail of the longer one. */
  lemma TailIsKept()
    ensures var c := SetIdSpec(NewCtx(), "abcd").0;
            var d := SetIdSpec(ClearSpec(c), "xy").0;
            CStr(d.id) == "xycd"
  {
    var zeros := NewCtx().id;
    var c := SetIdSpec(NewCtx(), "abcd").0;
    assert c.id == "abcd" + zeros[4..];
    var d := SetIdSpec(ClearSpec(c), "xy").0;
    assert d.id == "xy" + ClearSpec(c).id[2..];
    assert d.id == "xycd" + zeros[4..];
    CStrConcat("xycd", zeros[4..]);
    assert zeros[4..][0] == NUL;
  }

  /**
   The creation of a context zeroes all bytes of the identity but the last one.
   Whatever byte stands there, an identity is shown as requested unless it takes
   all 200 characters and that byte is not zero.
   */
  lemma LastByteMatters(stray: char, id: string)
    requires ValidId(id)
    ensures CStr(Overwrite(NewCtx().id[MAX_SIZE_ID := stray], id)) == id <==> |id| < MAX_SIZE_ID || stray == NUL
  {
    var bytes := NewCtx().id[MAX_SIZE_ID := stray];
    var tail := bytes[|id|..];
    assert !IdChar(NUL) && NulFree(id) && tail[0] == bytes[|id|];
    CStrConcat(id, tail);
    assert CStr(tail) == "" <==> tail[0] == NUL;
  }
}
