/** What the normal form of a path is, independently of how it is computed. */
module PathNormal {
  import opened Text
  import opened PathStd

  /** Lexical resolution: drop empty pieces and single dots, let a double dot remove what is before it. */
  function Resolve(segs: seq<string>): seq<string> {
    if segs == [] then [] else
      var comps, seg := Resolve(segs[..|segs| - 1]), segs[|segs| - 1];
      if seg == "" || seg == "." then comps
      else if seg != ".." then comps + [seg]
      else if comps == [] then [] else comps[..|comps| - 1]
  }

  /** A path from the root. */
  function Rooted(comps: seq<string>): string {
    if comps == [] then "" else Rooted(comps[..|comps| - 1]) + "/" + comps[|comps| - 1]
  }

  lemma ResolveSnoc(segs: seq<string>, seg: string)
    ensures var comps := Resolve(segs);
            Resolve(segs + [seg]) == if seg == "" || seg == "." then comps
                                     else if seg != ".." then comps + [seg]
                                     else if comps == [] then [] else comps[..|comps| - 1]
  {
    assert (segs + [seg])[..|segs|] == segs;
  }

  lemma {:induction false} WalkResolves(st: Stack, pre: seq<string>, segs: seq<string>, absolute: bool)
    requires st.comps == Resolve(pre)
    ensures Walk(st, segs, absolute).comps == Resolve(pre + segs)
    ensures absolute && st.slash ==> Walk(st, segs, absolute).slash
    decreases |segs|
  {
    if segs == [] {
      assert pre + segs == pre;
    } else {
      ResolveSnoc(pre, segs[0]);
      assert pre + [segs[0]] + segs[1..] == pre + segs;
      WalkResolves(Apply(st, segs[0], |segs| == 1, absolute), pre + [segs[0]], segs[1..], absolute);
    }
  }

  lemma {:induction false} RootedIsJoin(comps: seq<string>)
    ensures comps != [] ==> Rooted(comps) == "/" + Join(comps)
    decreases |comps|
  {
    if |comps| == 1 {
      assert comps[..0] == [];
      assert "" + "/" + comps[0] == "/" + comps[0];
    } else if |comps| > 1 {
      var c, last := comps[..|comps| - 1], comps[|comps| - 1];
      RootedIsJoin(c);
      assert "/" + Join(c) + "/" + last == "/" + (Join(c) + "/" + last);
    }
  }

  /** The normal form of a path from the root is the path from the root of its resolved components. */
  lemma AbsoluteNormalForm(path: string)
    requires IsAbsolute(path)
    ensures var comps := Resolve(Segments(path));
            Std(path) == if comps == [] then "/" else Rooted(comps)
  {
    var segs := Segments(path);
    var st := Stack([], true);
    assert segs == [""] + Segments(path[1..]);
    assert Apply(Stack([], false), "", false, true) == st;
    assert Walk(Stack([], false), segs, true) == Walk(st, segs[1..], true);
    assert Resolve([""]) == [] by {
      ResolveSnoc([], "");
      assert [] + [""] == [""];
    }
    WalkResolves(st, [""], segs[1..], true);
    RootedIsJoin(Resolve(segs));
  }

  /**
   The segments are what stands between the slashes (code 47): none holds one,
   and joined by them they are the path.
   */
  lemma {:induction false} SegmentsAreBetweenSlashes(path: string)
    ensures forall i, j :: 0 <= i < |Segments(path)| && 0 <= j < |Segments(path)[i]| ==>
              Segments(path)[i][j] as int != 47
    ensures Interlaced(Segments(path)) == path
  {
    if path != "" {
      var r := Segments(path[1..]);
      SegmentsAreBetweenSlashes(path[1..]);
      if path[0] == '/' {
        assert ([""] + r)[1..] == r;
      } else {
        var segs := [[path[0]] + r[0]] + r[1..];
        assert segs[1..] == r[1..];
        assert path == [path[0]] + path[1..];
      }
    }
  }

  /** The segments with a slash between each two. */
  function Interlaced(segs: seq<string>): string
    requires segs != []
  {
    if |segs| == 1 then segs[0] else segs[0] + [47 as char] + Interlaced(segs[1..])
  }

  /** A relative path that stays relative: its resolved components, joined; a dot if there is none. */
  lemma RelativeNormalForm(path: string)
    requires !IsAbsolute(path) && !IsAbsolute(Std(path))
    ensures var comps := Resolve(Segments(path));
            Std(path) == if comps == [] then "." else Interlaced(comps)
  {
    var segs := Segments(path);
    WalkResolves(Stack([], false), [], segs, false);
    assert [] + segs == segs;
    InterlacedIsJoin(Resolve(segs));
    hide Segments, Walk, Join, Resolve;
  }

  lemma {:induction false} InterlacedSnoc(segs: seq<string>, last: string)
    requires segs != []
    ensures Interlaced(segs + [last]) == Interlaced(segs) + "/" + last
    decreases |segs|
  {
    if |segs| == 1 {
      assert (segs + [last])[1..] == [last];
    } else {
      assert (segs + [last])[1..] == segs[1..] + [last];
      InterlacedSnoc(segs[1..], last);
    }
  }

  lemma {:induction false} InterlacedIsJoin(comps: seq<string>)
    ensures comps != [] ==> Interlaced(comps) == Join(comps)
    decreases |comps|
  {
    if |comps| > 1 {
      InterlacedIsJoin(comps[..|comps| - 1]);
      InterlacedSnoc(comps[..|comps| - 1], comps[|comps| - 1]);
      assert comps == comps[..|comps| - 1] + [comps[|comps| - 1]];
    }
  }

  /** A path whose normal form is from the root, relative ones included, has that of its components. */
  lemma FormFromRoot(path: string)
    requires IsAbsolute(Std(path))
    ensures var comps := Resolve(Segments(path));
            Std(path) == if comps == [] then "/" else Rooted(comps)
  {
    var segs := Segments(path);
    var st := Walk(Stack([], false), segs, IsAbsolute(path));
    WalkResolves(Stack([], false), [], segs, IsAbsolute(path));
    assert [] + segs == segs;
    SegmentsHaveNoSlash(path);
    WalkIsProper(Stack([], false), segs, IsAbsolute(path));
    RootedIsJoin(st.comps);
    if st.comps != [] {
      JoinStart(st.comps);
      assert st.comps[0][0] != '/';
    }
    hide Segments, Walk, Join, Resolve, Rooted;
  }

  // ---------- Idempotence ----------

  lemma {:induction false} SegmentsHaveNoSlash(s: string)
    ensures forall i :: 0 <= i < |Segments(s)| ==> NoSlash(Segments(s)[i])
    decreases |s|
  {
    if s != "" {
      SegmentsHaveNoSlash(s[1..]);
      var r := Segments(s[1..]);
      forall i | 0 <= i < |Segments(s)| ensures NoSlash(Segments(s)[i]) {
        if s[0] == '/' {
          assert i > 0 ==> Segments(s)[i] == r[i - 1];
        } else {
          assert i > 0 ==> Segments(s)[i] == r[i];
          assert NoSlash(r[0]);
        }
      }
    }
  }

  lemma {:induction false} WalkIsProper(st: Stack, segs: seq<string>, absolute: bool)
    requires Proper(st.comps) && forall i :: 0 <= i < |segs| ==> NoSlash(segs[i])
    ensures Proper(Walk(st, segs, absolute).comps)
    decreases |segs|
  {
    if segs != [] {
      WalkIsProper(Apply(st, segs[0], |segs| == 1, absolute), segs[1..], absolute);
    }
  }

  lemma {:induction false} SegmentsOfPiece(c: string, t: string)
    requires NoSlash(c)
    ensures Segments(c) == [c] && Segments(c + "/" + t) == [c] + Segments(t)
    decreases |c|
  {
    var u := c + "/" + t;
    if c == "" {
      assert u[0] == '/' && u[1..] == t;
    } else {
      assert u[1..] == c[1..] + "/" + t;
      assert forall i :: 0 <= i < |c[1..]| ==> c[1..][i] == c[i + 1];
      SegmentsOfPiece(c[1..], t);
      assert [c[0]] + c[1..] == c;
    }
  }

  lemma {:induction false} SegmentsOfMore(s: string, c: string)
    requires NoSlash(c)
    ensures Segments(s + "/" + c) == Segments(s) + [c]
    decreases |s|
  {
    var u := s + "/" + c;
    if s == "" {
      assert u[0] == '/' && u[1..] == c;
      SegmentsOfPiece(c, "");
    } else {
      Associate(s, "/", c);
      Associate(s[1..], "/", c);
      DropOfSum(s, "/" + c, 1);
      assert u[0] == s[0];
      SegmentsOfMore(s[1..], c);
      var r := Segments(s[1..]);
      DropOfSum(r, [c], 1);
      if s[0] == '/' {
        Associate([""], r, [c]);
      } else {
        Associate([[s[0]] + r[0]], r[1..], [c]);
      }
    }
  }

  lemma {:induction false} SegmentsOfJoin(comps: seq<string>)
    requires comps != [] && Proper(comps)
    ensures Segments(Join(comps)) == comps
    decreases |comps|
  {
    var n := |comps| - 1;
    if n == 0 {
      SegmentsOfPiece(comps[0], "");
    } else {
      SegmentsOfJoin(comps[..n]);
      SegmentsOfMore(Join(comps[..n]), comps[n]);
      assert comps[..n] + [comps[n]] == comps;
    }
  }

  lemma {:induction false} WalkPushes(st: Stack, comps: seq<string>, absolute: bool)
    requires Proper(comps)
    ensures Walk(st, comps, absolute) == Stack(st.comps + comps, st.slash)
    decreases |comps|
  {
    if comps == [] {
      assert st.comps + comps == st.comps;
    } else {
      WalkPushes(Push(st, comps[0]), comps[1..], absolute);
      assert st.comps + [comps[0]] + comps[1..] == st.comps + comps;
    }
  }

  /** A normal form is its own normal form. */
  lemma ShownIsNormal(st: Stack)
    requires Proper(st.comps)
    ensures Std(Shown(st)) == Shown(st)
  {
    var s := Shown(st);
    if st.comps != [] {
      var j := Join(st.comps);
      SegmentsOfJoin(st.comps);
      JoinStart(st.comps);
      WalkPushes(Stack([], st.slash), st.comps, st.slash);
      assert [] + st.comps == st.comps;
      if st.slash {
        assert s[1..] == j && Segments(s) == [""] + st.comps;
        assert ([""] + st.comps)[1..] == st.comps;
      }
    } else if st.slash {
      assert s[1..] == "" && Segments(s) == [""] + [""];
      assert Walk(Stack([], false), ["", ""], true) == Walk(Stack([], true), [""], true)
          == Walk(Stack([], true), [], true) by {
        assert ["", ""][1..] == [""] && [""][1..] == [];
      }
    } else {
      SegmentsOfPiece(".", "");
      assert Walk(Stack([], false), ["."], false) == Walk(Stack([], false), [], false);
    }
  }

  lemma {:induction false} JoinStart(comps: seq<string>)
    requires comps != [] && Proper(comps)
    ensures Join(comps) != "" && Join(comps)[0] == comps[0][0] && comps[0] != ""
    decreases |comps|
  {
    if |comps| > 1 {
      JoinStart(comps[..|comps| - 1]);
    }
  }

  /** Normalising twice is normalising once, for every path. */
  lemma StdIsIdempotent(path: string)
    ensures Std(Std(path)) == Std(path)
  {
    SegmentsHaveNoSlash(path);
    WalkIsProper(Stack([], false), Segments(path), IsAbsolute(path));
    ShownIsNormal(Walk(Stack([], false), Segments(path), IsAbsolute(path)));
  }

  /** Two paths from the root have the same normal form exactly when they resolve to the same components. */
  lemma SameFormIffSameComponents(p: string, q: string)
    requires IsAbsolute(p) && IsAbsolute(q)
    ensures Std(p) == Std(q) <==> Resolve(Segments(p)) == Resolve(Segments(q))
  {
    AbsoluteNormalForm(p);
    AbsoluteNormalForm(q);
    ComponentsOfForm(p);
    ComponentsOfForm(q);
    hide *;
    var c, d := Resolve(Segments(p)), Resolve(Segments(q));
    if Std(p) == Std(q) {
      SameTail(c, d);
    }
  }

  lemma SameTail(c: seq<string>, d: seq<string>)
    requires Proper(c) && Proper(d)
    requires [""] + (if c == [] then [""] else c) == [""] + (if d == [] then [""] else d)
    ensures c == d
  {
    var c', d' := if c == [] then [""] else c, if d == [] then [""] else d;
    assert c' == ([""] + c')[1..] == ([""] + d')[1..] == d';
    assert c != [] ==> c[0] != "";
    assert d != [] ==> d[0] != "";
  }

  lemma ComponentsOfForm(p: string)
    requires IsAbsolute(p)
    ensures Segments(Std(p)) == [""] + (if Resolve(Segments(p)) == [] then [""] else Resolve(Segments(p)))
    ensures Proper(Resolve(Segments(p)))
  {
    AbsoluteNormalForm(p);
    var comps := Resolve(Segments(p));
    SegmentsHaveNoSlash(p);
    WalkIsProper(Stack([], false), Segments(p), true);
    WalkResolves(Stack([], false), [], Segments(p), true);
    assert [] + Segments(p) == Segments(p);
    if comps == [] {
      assert "/"[1..] == "" && Segments("/") == [""] + [""];
    } else {
      RootedIsJoin(comps);
      SegmentsOfJoin(comps);
      assert ("/" + Join(comps))[1..] == Join(comps);
    }
  }

  // ---------- Relative paths ----------

  /**
   An empty piece k, other than the last, comes when nothing is left of the path
   before it, and no later double dot removes the first component.
   */
  predicate LeadsFrom(segs: seq<string>, k: nat) {
    && k < |segs| && segs[k] == "" && Resolve(segs[..k]) == []
    && forall j :: k < j < |segs| && segs[j] == ".." ==> |Resolve(segs[..j])| >= 2
  }

  predicate Leads(segs: seq<string>) {
    exists k :: 0 <= k < |segs| && LeadsFrom(segs, k)
  }

  lemma LeadsSnoc(segs: seq<string>, seg: string)
    ensures var n := |Resolve(segs)|;
            Leads(segs + [seg]) <==> if seg == "" then n == 0 || Leads(segs)
                                     else if seg == ".." then n >= 2 && Leads(segs) else Leads(segs)
  {
    var all := segs + [seg];
    assert all[..|segs|] == segs;
    assert forall j :: 0 <= j <= |segs| ==> all[..j] == segs[..j];
    if k :| 0 <= k < |segs| && LeadsFrom(segs, k) && (seg == ".." ==> |Resolve(segs)| >= 2) {
      assert LeadsFrom(all, k);
    }
    if seg == "" && Resolve(segs) == [] {
      assert LeadsFrom(all, |segs|);
    }
    if k :| 0 <= k < |all| && LeadsFrom(all, k) {
      if k < |segs| {
        assert LeadsFrom(segs, k);
        assert seg == ".." ==> |Resolve(all[..|segs|])| >= 2;
      }
    }
  }

  lemma {:induction false} WalkLeads(st: Stack, pre: seq<string>, segs: seq<string>)
    requires st.comps == Resolve(pre) && (st.slash <==> Leads(pre)) && segs != []
    ensures var n := |segs| - 1;
            var body := if segs[n] == "" then pre + segs[..n] else pre + segs;
            Walk(st, segs, false).slash <==> Leads(body)
    decreases |segs|
  {
    hide Resolve, Leads;
    var seg, n := segs[0], |segs| - 1;
    var st' := Apply(st, seg, n == 0, false);
    ResolveSnoc(pre, seg);
    LeadsSnoc(pre, seg);
    if n == 0 {
      assert Walk(st, segs, false) == Walk(st', [], false) == st';
      assert pre + segs[..0] == pre && pre + segs == pre + [seg];
    } else {
      WalkLeads(st', pre + [seg], segs[1..]);
      assert pre + [seg] + segs[1..] == pre + segs;
      assert pre + [seg] + segs[1..][..n - 1] == pre + segs[..n];
    }
  }

  /**
   The normal form of a relative path is a path from the root exactly when a
   doubled slash meets an empty resolution that no later ".." empties again.
   */
  lemma RelativeBecomesAbsoluteIff(path: string)
    requires !IsAbsolute(path)
    ensures var segs := Segments(path);
            var n := |segs| - 1;
            IsAbsolute(Std(path)) <==> Leads(if segs[n] == "" then segs[..n] else segs)
  {
    hide Segments, Resolve, Leads, Walk, Join;
    var segs := Segments(path);
    NothingLeads();
    WalkLeads(Stack([], false), [], segs);
    assert [] + segs == segs && [] + segs[..|segs| - 1] == segs[..|segs| - 1];
    SegmentsHaveNoSlash(path);
    WalkIsProper(Stack([], false), segs, false);
    var st := Walk(Stack([], false), segs, false);
    if st.comps != [] {
      JoinStart(st.comps);
      assert st.comps[0][0] != '/';
    }
  }

  lemma NothingLeads()
    ensures !Leads([]) && Resolve([]) == []
  {
  }

  /** So "relative stays relative" fails: the double slash behind the dot is kept. */
  lemma RelativeMayBecomeAbsolute()
    ensures !IsAbsolute(".//a") && Std(".//a") == "/a"
  {
    var p := ".//a";
    SegmentsOfPiece("a", "");
    SegmentsOfPiece("", "a");
    assert "" + "/" + "a" == "/a";
    SegmentsOfPiece(".", "/a");
    assert "." + "/" + "/a" == p;
    assert Segments(p) == [".", "", "a"];
    var s0 := Stack([], false);
    assert [".", "", "a"][1..] == ["", "a"] && ["", "a"][1..] == ["a"] && ["a"][1..] == [];
    assert Walk(s0, [".", "", "a"], false) == Walk(s0, ["", "a"], false);
    assert Walk(s0, ["", "a"], false) == Walk(Stack([], true), ["a"], false);
    assert Walk(Stack([], true), ["a"], false) == Walk(Stack(["a"], true), [], false);
  }
}
