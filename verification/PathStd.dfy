/** Lexical normalisation of paths into a buffer of bounded size. */
module PathStd {
  import opened Text

  // ---------- What a path denotes ----------

  /** The pieces between slashes; there is always one more than there are slashes. */
  function Segments(s: string): (r: seq<string>)
    ensures r != []
  {
    if s == "" then [""]
    else
      var r := Segments(s[1..]);
      if s[0] == '/' then [""] + r else [[s[0]] + r[0]] + r[1..]
  }

  /** The components kept so far, and whether a slash stands, or is to stand, in front of the first one. */
  datatype Stack = Stack(comps: seq<string>, slash: bool)

  function Push(st: Stack, c: string): Stack {
    st.(comps := st.comps + [c])
  }

  function Pop(st: Stack, absolute: bool): (r: Stack)
    ensures |r.comps| <= |st.comps|
  {
    if |st.comps| <= 1 then Stack([], absolute) else st.(comps := st.comps[..|st.comps| - 1])
  }

  /** The effect of one segment; last tells that no slash follows it. */
  function Apply(st: Stack, seg: string, last: bool, absolute: bool): Stack {
    if seg == "" then (if last || st.comps != [] then st else st.(slash := true))
    else if seg == "." then st
    else if seg == ".." then Pop(st, absolute)
    else Push(st, seg)
  }

  function Walk(st: Stack, segs: seq<string>, absolute: bool): Stack
    decreases |segs|
  {
    if segs == [] then st else Walk(Apply(st, segs[0], |segs| == 1, absolute), segs[1..], absolute)
  }

  function Join(comps: seq<string>): string {
    if comps == [] then "" else if |comps| == 1 then comps[0]
    else Join(comps[..|comps| - 1]) + "/" + comps[|comps| - 1]
  }

  function Slashed(slash: bool, s: string): string {
    if slash then "/" + s else s
  }

  /** The text of the components, empty if there is none. */
  function Body(st: Stack): string {
    if st.comps == [] then "" else Slashed(st.slash, Join(st.comps))
  }

  function Shown(st: Stack): string {
    if st.comps != [] then Body(st) else if st.slash then "/" else "."
  }

  predicate IsAbsolute(path: string) {
    path != "" && path[0] == '/'
  }

  /** The normal form of any path. */
  function Std(path: string): string {
    Shown(Walk(Stack([], false), Segments(path), IsAbsolute(path)))
  }

  /** No ".." is met while more than size bytes are in use. */
  predicate Fits(st: Stack, segs: seq<string>, absolute: bool, size: nat)
    decreases |segs|
  {
    segs == [] ||
    ((segs[0] == ".." ==> |Body(st)| <= size) &&
     Fits(Apply(st, segs[0], |segs| == 1, absolute), segs[1..], absolute, size))
  }

  // ---------- The loop ----------

  predicate NoSlash(s: string) {
    forall i :: 0 <= i < |s| ==> s[i] != '/'
  }

  predicate Dotted(s: string) {
    s == "" || s == "." || s == ".."
  }

  predicate Proper(comps: seq<string>) {
    forall i :: 0 <= i < |comps| ==> NoSlash(comps[i]) && !Dotted(comps[i])
  }

  /** The segments still to come when cur has been read of the first one. */
  function Ahead(cur: string, s: string): (r: seq<string>)
    ensures r != []
  {
    var segs := Segments(s);
    [cur + segs[0]] + segs[1..]
  }

  /** The stack with the component being read on top. */
  function With(st: Stack, cur: string): Stack {
    if cur == "" then st else Push(st, cur)
  }

  lemma AheadStep(cur: string, s: string)
    requires s != ""
    ensures s[0] != '/' ==> Ahead(cur, s) == Ahead(cur + [s[0]], s[1..])
    ensures s[0] == '/' ==> Ahead(cur, s) == [cur] + Ahead("", s[1..])
  {
    var r := Segments(s[1..]);
    assert cur + ([s[0]] + r[0]) == cur + [s[0]] + r[0];
    assert "" + r[0] == r[0];
    assert cur + "" == cur;
  }

  lemma AheadEnd(cur: string)
    ensures Ahead(cur, "") == [cur]
  {
    assert cur + "" == cur;
  }

  lemma FirstSegment(s: string)
    ensures Segments(s)[0] == "" <==> s == "" || s[0] == '/'
    ensures s != "" && s[0] != '/' ==> Segments(s)[0] == [s[0]] + Segments(s[1..])[0]
  {
  }

  /** A first segment that is a single or a double dot, seen from its first characters. */
  lemma DotsAhead(s: string)
    ensures (s != "" && s[0] == '.' && (|s| == 1 || s[1] == '/')) <==> Ahead("", s)[0] == "."
    ensures (|s| > 1 && s[0] == '.' && s[1] == '.' && (|s| == 2 || s[2] == '/')) <==> Ahead("", s)[0] == ".."
    ensures (s == "" || s[0] == '/') <==> Ahead("", s)[0] == ""
  {
    var r := Ahead("", s)[0];
    assert r == Segments(s)[0];
    assert r == "." <==> |r| == 1 && r[0] == '.';
    assert r == ".." <==> |r| == 2 && r[0] == '.' && r[1] == '.';
    if s != "" {
      var t := s[1..];
      FirstSegment(s);
      FirstSegment(t);
      if t != "" {
        FirstSegment(t[1..]);
      }
    }
  }

  lemma PathDots(path: string, i: nat)
    requires i <= |path|
    ensures Dotted(Ahead("", path[i..])[0]) <==>
              || i == |path| || path[i] == '/'
              || (path[i] == '.' && (i + 1 == |path| || path[i + 1] == '/'))
              || (i + 1 < |path| && path[i] == '.' && path[i + 1] == '.' && (i + 2 == |path| || path[i + 2] == '/'))
  {
    DotsAhead(path[i..]);
  }

  lemma BodyOfPush(st: Stack, c: string)
    ensures Body(Push(st, c)) == Body(st) + Slashed(st.comps != [] || st.slash, c)
  {
    if st.comps != [] {
      assert Push(st, c).comps[..|st.comps|] == st.comps;
      if st.slash {
        assert "/" + (Join(st.comps) + "/" + c) == "/" + Join(st.comps) + ("/" + c);
      } else {
        assert Join(st.comps) + "/" + c == Join(st.comps) + ("/" + c);
      }
    } else {
      assert Push(st, c).comps == [c];
    }
  }

  /** Removing the last component removes the text from its slash on, or all of it. */
  lemma BodyOfPop(st: Stack, absolute: bool)
    requires st.comps != []
    ensures var n, c := |st.comps| - 1, st.comps[|st.comps| - 1];
            Body(st) == Body(Pop(st, absolute)) + Slashed(n > 0 || st.slash, c)
  {
    var n := |st.comps| - 1;
    var st' := st.(comps := st.comps[..n]);
    assert Push(st', st.comps[n]) == st;
    BodyOfPush(st', st.comps[n]);
  }

  /** The values of the loop's variables between two turns. */
  ghost predicate State(path: string, i: nat, len: nat, ps: bool, sd: bool, st: Stack, cur: string, over: bool,
      size: nat)
  {
    var absolute := IsAbsolute(path);
    && i <= |path|
    && Walk(Stack([], false), Segments(path), absolute) == Walk(st, Ahead(cur, path[i..]), absolute)
    && (Fits(Stack([], false), Segments(path), absolute, size)
        <==> !over && Fits(st, Ahead(cur, path[i..]), absolute, size))
    && Proper(st.comps) && NoSlash(cur)
    && (sd <==> cur == "")
    && (cur != "" ==> !Dotted(Ahead(cur, path[i..])[0]) && !ps)
    && (cur == "" && (st.comps != [] || st.slash) ==> ps)
    && (!over ==> len == |Body(With(st, cur))| && (cur == "" && ps ==> st.comps != [] || st.slash))
    && (over ==> len > size && len >= |Body(With(st, cur))|)
  }

  /** What the loop itself needs to know of its state. */
  lemma StateFacts(path: string, i: nat, len: nat, ps: bool, sd: bool, st: Stack, cur: string, over: bool, size: nat)
    requires State(path, i, len, ps, sd, st, cur, over, size)
    ensures i <= |path| && (sd <==> cur == "") && Proper(st.comps)
    ensures len <= size ==> !over
    ensures !over ==> len == |Body(With(st, cur))|
    ensures over ==> len > size && len >= |Body(With(st, cur))|
    ensures !over && cur == "" && st.comps == [] ==> ps == st.slash
    ensures ps ==> cur == ""
  {
  }

  lemma StateStarts(path: string, size: nat)
    ensures State(path, 0, 0, false, true, Stack([], false), "", false, size)
  {
    assert path[0..] == path && "" + Segments(path)[0] == Segments(path)[0];
  }

  function AfterSlash(st: Stack, cur: string): Stack {
    if cur != "" then Push(st, cur) else if st.comps == [] then st.(slash := true) else st
  }

  lemma SlashKeepsBody(st: Stack, cur: string)
    ensures Body(AfterSlash(st, cur)) == Body(With(st, cur))
  {
  }

  /** A slash ends a component, or stands in front of the first one. */
  lemma StateSlash(path: string, i: nat, len: nat, ps: bool, sd: bool, st: Stack, cur: string, over: bool, size: nat)
    requires State(path, i, len, ps, sd, st, cur, over, size) && i < |path| && path[i] == '/'
    ensures State(path, i + 1, len, true, true, AfterSlash(st, cur), "", over, size)
  {
    var s := path[i..];
    assert s[1..] == path[i + 1..];
    AheadStep(cur, s);
    var segs := Ahead(cur, s);
    assert segs[0] == cur && segs[1..] == Ahead("", path[i + 1..]);
  }

  /** A single dot is passed over together with the slash behind it. */
  lemma StateDot(path: string, i: nat, len: nat, ps: bool, st: Stack, over: bool, size: nat)
    requires State(path, i, len, ps, true, st, "", over, size)
    requires i < |path| && path[i] == '.' && (i + 1 == |path| || path[i + 1] == '/')
    ensures State(path, if i + 1 < |path| then i + 2 else i + 1, len, ps, true, st, "", over, size)
  {
    var s := path[i..];
    assert s[1..] == path[i + 1..];
    AheadStep("", s);
    assert "" + ['.'] == ".";
    if i + 1 < |path| {
      AheadStep(".", s[1..]);
      assert s[1..][1..] == path[i + 2..];
      assert Ahead("", s)[1..] == Ahead("", path[i + 2..]);
    } else {
      AheadEnd(".");
      AheadEnd("");
      assert path[i + 1..] == "";
      assert Walk(st, ["."], IsAbsolute(path)) == Walk(st, [], IsAbsolute(path));
      assert Walk(st, [""], IsAbsolute(path)) == Walk(st, [], IsAbsolute(path));
      assert Fits(st, ["."], IsAbsolute(path), size) && Fits(st, [""], IsAbsolute(path), size);
    }
  }

  /** The segments ahead of two dots that fill a segment. */
  lemma AheadOfDots(path: string, i: nat)
    requires i + 1 < |path| && path[i] == '.' && path[i + 1] == '.' && (i + 2 == |path| || path[i + 2] == '/')
    ensures Ahead("", path[i..]) == [".."] + if i + 2 < |path| then Ahead("", path[i + 3..]) else []
    ensures i + 2 == |path| ==> Ahead("", path[i + 2..]) == [""]
  {
    hide Segments;
    var s := path[i..];
    assert s[1..] == path[i + 1..] && s[1..][1..] == path[i + 2..];
    AheadStep("", s);
    AheadStep("" + ['.'], s[1..]);
    assert "" + ['.'] + ['.'] == "..";
    if i + 2 < |path| {
      AheadStep("..", s[1..][1..]);
      assert s[1..][1..][1..] == path[i + 3..];
    } else {
      AheadEnd("..");
      AheadEnd("");
      assert path[i + 2..] == "";
    }
  }

  /** A double dot is passed over after removing the last component, unless the buffer has overflowed. */
  lemma StateDots(path: string, i: nat, len: nat, ps: bool, st: Stack, over: bool, size: nat, len': nat)
    requires State(path, i, len, ps, true, st, "", over, size)
    requires i + 1 < |path| && path[i] == '.' && path[i + 1] == '.' && (i + 2 == |path| || path[i + 2] == '/')
    requires var st' := Pop(st, IsAbsolute(path));
             if len <= size then !over && len' == |Body(st')| else len' == len
    ensures State(path, if i + 2 < |path| then i + 3 else i + 2, len', len' > 0 || IsAbsolute(path), true,
                  Pop(st, IsAbsolute(path)), "", len > size, size)
  {
    hide Segments, Join, Ahead;
    var absolute := IsAbsolute(path);
    var st' := Pop(st, absolute);
    AheadOfDots(path, i);
    var segs := Ahead("", path[i..]);
    if i + 2 < |path| {
      assert segs[1..] == Ahead("", path[i + 3..]);
    } else {
      assert Walk(st, [".."], absolute) == Walk(st', [], absolute) == Walk(st', [""], absolute);
      assert Fits(st', [""], absolute, size);
      assert Fits(st, [".."], absolute, size) <==> |Body(st)| <= size;
    }
    assert Proper(st'.comps);
    if st.comps != [] {
      BodyOfPop(st, absolute);
    }
    BodyIsEmpty(st');
  }

  lemma BodyIsEmpty(st: Stack)
    requires Proper(st.comps)
    ensures Body(st) == "" <==> st.comps == []
  {
    if st.comps != [] {
      var st' := st.(comps := st.comps[..|st.comps| - 1]);
      assert Push(st', st.comps[|st'.comps|]) == st;
      BodyOfPush(st', st.comps[|st'.comps|]);
    }
  }

  /** Any other character belongs to a component. */
  lemma StateChar(path: string, i: nat, len: nat, ps: bool, sd: bool, st: Stack, cur: string, over: bool, size: nat)
    requires State(path, i, len, ps, sd, st, cur, over, size) && i < |path| && path[i] != '/'
    requires cur == "" ==> !Dotted(Ahead("", path[i..])[0])
    ensures var n := if ps then 2 else 1;
            && State(path, i + 1, len + n, false, false, st, cur + [path[i]], over, size)
            && (!over ==> Body(With(st, cur + [path[i]])) == Body(With(st, cur)) + Slashed(ps, [path[i]]))
  {
    hide Walk, Fits, Segments, Body, Join;
    var s := path[i..];
    assert s[1..] == path[i + 1..];
    AheadStep(cur, s);
    BodyOfPush(st, cur + [path[i]]);
    BodyOfPush(st, cur);
    if cur == "" {
      assert cur + [path[i]] == [path[i]];
    } else {
      assert Slashed(st.comps != [] || st.slash, cur + [path[i]])
          == Slashed(st.comps != [] || st.slash, cur) + [path[i]];
    }
  }

  /** At the end of the path everything is on the stack. */
  lemma StateEnd(path: string, len: nat, ps: bool, sd: bool, st: Stack, cur: string, over: bool, size: nat)
    requires State(path, |path|, len, ps, sd, st, cur, over, size)
    ensures Std(path) == Shown(With(st, cur)) && Proper(With(st, cur).comps)
    ensures Fits(Stack([], false), Segments(path), IsAbsolute(path), size) <==> !over
    ensures cur != "" ==> Body(With(st, cur)) != ""
    ensures Body(st) == "" <==> st.comps == []
  {
    assert path[|path|..] == "";
    AheadEnd(cur);
    var absolute := IsAbsolute(path);
    assert Walk(st, [cur], absolute) == Walk(With(st, cur), [], absolute);
    assert cur != ".." ==> Fits(st, [cur], absolute, size);
    BodyOfPush(st, cur);
    BodyIsEmpty(st);
  }

  /** Does the buffer hold t, as far as its size allows? */
  ghost predicate Holds(buffer: array<char>, size: nat, t: string)
    requires size <= buffer.Length
    reads buffer
  {
    forall j :: 0 <= j < |t| && j < size ==> buffer[j] == t[j]
  }

  /**
   Writes the normal form of path into the first size bytes of buffer. The
   length returned is exact unless a ".." came when more than size bytes were in
   use; then it only is too large, as it is whenever the buffer is too small.
   */
  method Normalize(buffer: array<char>, size: nat, path: string) returns (len: nat)
    requires size <= buffer.Length && NulFree(path)
    modifies buffer
    ensures len >= |Std(path)|
    ensures Fits(Stack([], false), Segments(path), IsAbsolute(path), size)
            ==> len == |Std(path)| && Holds(buffer, size, Std(path))
    ensures !Fits(Stack([], false), Segments(path), IsAbsolute(path), size) ==> len > size
    ensures len < size ==> buffer[..len] == Std(path) && buffer[len] == NUL
    ensures (forall j :: size <= j < buffer.Length ==> buffer[j] == old(buffer[j]))
  {
    var i, ps, sd, fps := 0, false, true, path != "" && path[0] == '/';
    len := 0;
    ghost var st, cur, over := Stack([], false), "", false;
    StateStarts(path, size);
    assert Holds(buffer, size, Body(st));
    hide Segments, Walk, Fits, Ahead, Std, State, Proper, Body, Join, Dotted, Pop;
    while i < |path|
      invariant 0 <= i <= |path| && 0 <= len && State(path, i, len, ps, sd, st, cur, over, size)
      invariant !over ==> Holds(buffer, size, Body(With(st, cur)))
      invariant forall j :: size <= j < buffer.Length ==> buffer[j] == old(buffer[j])
      decreases |path| - i
    {
      StateFacts(path, i, len, ps, sd, st, cur, over, size);
      PathDots(path, i);
      if path[i] == '/' {
        StateSlash(path, i, len, ps, sd, st, cur, over, size);
        SlashKeepsBody(st, cur);
        st, cur := AfterSlash(st, cur), "";
        ps, sd, i := true, true, i + 1;
      } else if sd && path[i] == '.' && (i + 1 == |path| || path[i + 1] == '/') {
        StateDot(path, i, len, ps, st, over, size);
        i := i + 1 + if i + 1 < |path| then 1 else 0;
      } else if sd && i + 1 < |path| && path[i] == '.' && path[i + 1] == '.'
          && (i + 2 == |path| || path[i + 2] == '/') {
        len, st, over := TakeDots(buffer, size, path, i, len, ps, fps, st, over);
        i := i + 2 + if i + 2 < |path| then 1 else 0;
        ps := len > 0 || fps;
      } else {
        len := TakeChar(buffer, size, path, i, len, ps, sd, st, cur, over);
        cur := cur + [path[i]];
        i, sd, ps := i + 1, false, false;
      }
    }
    len := End(buffer, size, path, len, ps, sd, st, cur, over);
  }

  method End(buffer: array<char>, size: nat, path: string, len: nat, ps: bool, sd: bool, ghost st: Stack,
      ghost cur: string, ghost over: bool)
    returns (len': nat)
    requires size <= buffer.Length && State(path, |path|, len, ps, sd, st, cur, over, size)
    requires !over ==> Holds(buffer, size, Body(With(st, cur)))
    modifies buffer
    ensures len' >= |Std(path)|
    ensures if Fits(Stack([], false), Segments(path), IsAbsolute(path), size)
            then len' == |Std(path)| && Holds(buffer, size, Std(path)) else len' > size
    ensures len' < size ==> buffer[..len'] == Std(path) && buffer[len'] == NUL
    ensures forall j :: size <= j < buffer.Length ==> buffer[j] == old(buffer[j])
  {
    hide Segments, Walk, Fits, Ahead, Std, State, Proper, Body, Join, Dotted;
    StateFacts(path, |path|, len, ps, sd, st, cur, over, size);
    StateEnd(path, len, ps, sd, st, cur, over, size);
    len' := Finish(buffer, size, len, ps, With(st, cur), over);
  }

  method TakeDots(buffer: array<char>, size: nat, path: string, i: nat, len: nat, ps: bool, fps: bool,
      ghost st: Stack, ghost over: bool)
    returns (len': nat, ghost st': Stack, ghost over': bool)
    requires size <= buffer.Length && fps == IsAbsolute(path)
    requires State(path, i, len, ps, true, st, "", over, size) && (!over ==> Holds(buffer, size, Body(st)))
    requires i + 1 < |path| && path[i] == '.' && path[i + 1] == '.' && (i + 2 == |path| || path[i + 2] == '/')
    ensures State(path, if i + 2 < |path| then i + 3 else i + 2, len', len' > 0 || fps, true, st', "", over', size)
    ensures !over' ==> Holds(buffer, size, Body(st'))
  {
    hide Segments, Walk, Fits, Ahead, Std, State, Proper, Body, Join;
    StateFacts(path, i, len, ps, true, st, "", over, size);
    len', st', over' := len, Pop(st, fps), len > size;
    if len <= size {
      len' := DropLast(buffer, size, len, st, fps);
    }
    StateDots(path, i, len, ps, st, over, size, len');
  }

  method TakeChar(buffer: array<char>, size: nat, path: string, i: nat, len: nat, ps: bool, sd: bool,
                  ghost st: Stack, ghost cur: string, ghost over: bool) returns (len': nat)
    requires size <= buffer.Length && State(path, i, len, ps, sd, st, cur, over, size)
    requires !over ==> Holds(buffer, size, Body(With(st, cur)))
    requires i < |path| && path[i] != '/' && (cur == "" ==> !Dotted(Ahead("", path[i..])[0]))
    modifies buffer
    ensures State(path, i + 1, len', false, false, st, cur + [path[i]], over, size)
    ensures forall j :: size <= j < buffer.Length ==> buffer[j] == old(buffer[j])
    ensures !over ==> Holds(buffer, size, Body(With(st, cur + [path[i]])))
  {
    hide Segments, Walk, Fits, Ahead, Std, State, Proper, Body, Join;
    StateFacts(path, i, len, ps, sd, st, cur, over, size);
    StateChar(path, i, len, ps, sd, st, cur, over, size);
    len' := len;
    ghost var t := Body(With(st, cur));
    if ps {
      len' := Store(buffer, size, len', '/', t, !over);
      t := t + "/";
    }
    len' := Store(buffer, size, len', path[i], t, !over);
    assert t + [path[i]] == Body(With(st, cur)) + Slashed(ps, [path[i]]);
  }

  /** At the end of the path: the zero, and the names of the two paths without components. */
  method Finish(buffer: array<char>, size: nat, len: nat, ps: bool, ghost st: Stack, ghost over: bool)
    returns (len': nat)
    requires size <= buffer.Length && (Body(st) == "" <==> st.comps == [])
    requires !over ==> len == |Body(st)| && Holds(buffer, size, Body(st)) && (st.comps == [] ==> ps == st.slash)
    requires over ==> len > size && len >= |Body(st)|
    modifies buffer
    ensures len' >= |Shown(st)| && (forall j :: size <= j < buffer.Length ==> buffer[j] == old(buffer[j]))
    ensures !over ==> len' == |Shown(st)| && Holds(buffer, size, Shown(st)) && (len' < size ==> buffer[len'] == NUL)
    ensures over ==> len' > size
  {
    len' := len;
    if ps && len' == 0 {
      len' := Store(buffer, size, len', '/', "", true);
    }
    if len' < size {
      buffer[len'] := NUL;
    }
    if len' == 0 {
      if size > 0 {
        buffer[0] := '.';
      }
      if size > 1 {
        buffer[1] := NUL;
      }
      len' := 1;
    }
  }

  /** Writes one character behind the text t, if there is room; the length counts it in any case. */
  method Store(buffer: array<char>, size: nat, len: nat, c: char, ghost t: string, ghost exact: bool)
    returns (len': nat)
    requires size <= buffer.Length
    requires exact ==> len == |t| && Holds(buffer, size, t)
    modifies buffer
    ensures len' == len + 1 && (forall j :: size <= j < buffer.Length ==> buffer[j] == old(buffer[j]))
    ensures exact ==> Holds(buffer, size, t + [c])
  {
    if len < size {
      buffer[len] := c;
    }
    len' := len + 1;
  }

  /** Goes back to the last slash, or to the beginning. */
  method DropLast(buffer: array<char>, size: nat, len: nat, ghost st: Stack, ghost absolute: bool) returns (len': nat)
    requires size <= buffer.Length && len <= size && Proper(st.comps)
    requires len == |Body(st)| && Holds(buffer, size, Body(st))
    ensures len' == |Body(Pop(st, absolute))| && Body(Pop(st, absolute)) <= Body(st)
  {
    len' := len;
    if st.comps != [] {
      BodyOfPop(st, absolute);
    }
    ghost var t, rest := Body(st), Body(Pop(st, absolute));
    while len' > 0
      invariant |rest| <= len' <= len
      invariant st.comps != [] && len' == |rest| ==> len' == 0
      decreases len'
    {
      len' := len' - 1;
      if buffer[len'] == '/' {
        break;
      }
    }
  }
}
