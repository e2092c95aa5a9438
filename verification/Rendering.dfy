/** What written templates print for a session. */
module Rendering {
  import opened Text
  import opened MustachText
  import opened MustachMachine
  import opened MustachMeaning
  import opened MustachWriting
  import opened TemplateClient
  import P = Plugs

  /** The text of a template for a session, as the machine prints it. */
  ghost function Printed(k: Facts, s: string): string {
    TemplatesEnd(k);
    Output(Eval(TemplateItf(k), TemplateOrder(), Parse(s, 0).forest, true, Nowhere).trace)
  }

  /** A written template without permission sections inside plug sections prints the plain reading of its tree. */
  lemma WrittenPrints(k: Facts, s: string, f: Forest)
    requires Writes(s, f, "") && Shallow(f, 0) && NoPermIn(f, false)
    ensures Verdict(s) == 0 && Printed(k, s) == Denote(TemplateEnv(k), f, None)
  {
    hide Writes, Eval, Denote, Output, Parse, Ends;
    WrittenIsRead(s, f);
    TemplateMeansWhatItReads(k, s);
  }

  /** A marker between two texts, with any blanks around its name, prints what it shows between the same texts. */
  lemma MarkerPrints(k: Facts, s: string, text: string, n: string, rest: string) returns (out: string)
    requires PlainText(text) && PlainText(rest) && Name(n)
    requires OpensBare(s, text, n, rest) || OpensTriple(s, text, n, rest)
    ensures Verdict(s) == 0 && Printed(k, s) == text + out + rest && Shows(k, None, n, out)
  {
    hide Parse, Verdict, Printed, Marker, Shows, PlainText, Name, OpensBare, OpensTriple, OpensWith;
    var escape := OpensBare(s, text, n, rest);
    var last := Last(rest);
    assert Writes(rest, last, "") by {
      assert rest + "" == rest;
    }
    WrittenPrints(k, s, Variable(text, n, escape, last));
    MarkerShows(k, None, n);
    out := Marker(k, None, n);
    assert Denote(TemplateEnv(k), last, None) == rest + "" == rest;
    Associate(text, out, rest);
  }

  /** Each of the texts between a and b. */
  function Each(a: string, outs: seq<string>, b: string): string {
    if outs == [] then "" else a + outs[0] + b + Each(a, outs[1..], b)
  }

  /** A plug section with one marker prints, for each plug in the order of the list, what the marker shows of it. */
  lemma PlugsPrint(k: Facts, s: string, text: string, a: string, n: string, b: string, rest: string,
                   inner: string, after: string)
    returns (outs: seq<string>)
    requires PlainText(text) && PlainText(a) && PlainText(b) && PlainText(rest) && Name(n)
    requires OpensWith(s, text, "#", "plugs", inner) && OpensBare(inner, a, n, b + after)
    requires OpensWith(after, "", "/", "plugs", rest)
    ensures Verdict(s) == 0 && Printed(k, s) == text + Each(a, outs, b) + rest
    ensures |outs| == |k.plugs| && forall i :: 0 <= i < |outs| ==> Shows(k, Some(k.plugs[i]), n, outs[i])
  {
    hide Parse, Verdict, Printed, Marker, Shows, PlainText, Name, OpensBare, OpensTriple, OpensWith;
    var body := Variable(a, n, true, Last(b));
    var f := Section(text, false, "plugs", body, Last(rest));
    PlugsIsName();
    assert Writes(rest, Last(rest), "") by {
      assert rest + "" == rest;
    }
    assert Writes(b + after, Last(b), after);
    assert Writes(inner, body, after);
    assert Writes(s, f, "");
    assert NoPermIn(Last(b), true) && NoPermIn(Last(rest), false) && Shallow(Last(b), 1) && Shallow(Last(rest), 0);
    assert NoPermIn(body, true) && Shallow(body, 1);
    WrittenPrints(k, s, f);
    outs := EachPlug(k, a, n, b, k.plugs);
    assert Somes(k.plugs) == TemplateEnv(k).sections(None, "plugs");
    assert Denote(TemplateEnv(k), Last(rest), None) == rest + "" == rest;
    Associate(text, Each(a, outs, b), rest);
  }

  lemma PlugsIsName()
    ensures Name("plugs") && !PermName("plugs")
  {
  }

  lemma {:induction false} EachPlug(k: Facts, a: string, n: string, b: string, items: seq<P.Item>)
    returns (outs: seq<string>)
    ensures DenoteAll(TemplateEnv(k), Variable(a, n, true, Last(b)), Somes(items)) == Each(a, outs, b)
    ensures |outs| == |items| && forall i :: 0 <= i < |outs| ==> Shows(k, Some(items[i]), n, outs[i])
    decreases |items|
  {
    hide Marker, Shows;
    if items == [] {
      outs := [];
    } else {
      var rest := EachPlug(k, a, n, b, items[1..]);
      MarkerShows(k, Some(items[0]), n);
      var out := Marker(k, Some(items[0]), n);
      outs := [out] + rest;
      assert Somes(items)[1..] == Somes(items[1..]) && outs[1..] == rest;
      var env, body := TemplateEnv(k), Variable(a, n, true, Last(b));
      assert Denote(env, Last(b), Some(items[0])) == b + "" == b;
      Associate(a, out, b);
      assert Denote(env, body, Some(items[0])) == a + out + b;
      assert Somes(items)[0] == Some(items[0]);
    }
  }

  /** Does the section of that name hold outside plugs? */
  predicate Holds(k: Facts, n: string) {
    if |n| >= 2 && n[0] as int == 112 && n[1] as int == 61 then k.granted(n[2..])
    else n in ["has-plugs", "plugs"] && k.plugs != []
  }

  /** A section around text prints that text if it holds, a negated one if it does not. */
  lemma ConditionPrints(k: Facts, s: string, text: string, negated: bool, n: string, b: string, rest: string,
                        inner: string, after: string)
    requires PlainText(text) && PlainText(b) && PlainText(rest) && Name(n) && (n == "plugs" ==> negated)
    requires OpensWith(s, text, if negated then "^" else "#", n, inner) && inner == b + after
    requires OpensWith(after, "", "/", n, rest)
    ensures Verdict(s) == 0 && Printed(k, s) == text + (if Holds(k, n) == negated then "" else b) + rest
  {
    hide Parse, Verdict, Printed, PlainText, OpensWith;
    var f := Section(text, negated, n, Last(b), Last(rest));
    assert Writes(rest, Last(rest), "") by {
      assert rest + "" == rest;
    }
    assert Writes(inner, Last(b), after);
    assert Writes(s, f, "");
    assert NoPermIn(Last(b), true) && NoPermIn(Last(b), false) && NoPermIn(Last(rest), false);
    assert Shallow(Last(b), 1) && Shallow(Last(rest), 0);
    WrittenPrints(k, s, f);
    SectionDenotes(k, f);
  }

  lemma SectionDenotes(k: Facts, f: Forest)
    requires f.Section? && f.body.Last? && f.next.Last? && (f.name == "plugs" ==> f.negated)
    ensures Denote(TemplateEnv(k), f, None)
         == f.text + (if Holds(k, f.name) == f.negated then "" else f.body.text) + f.next.text
  {
    var env, items := TemplateEnv(k), TemplateEnv(k).sections(None, f.name);
    SectionsByName(k, None, f.name);
    assert (items != []) == Holds(k, f.name);
    assert f.body.text + "" == f.body.text && f.next.text + "" == f.next.text;
    assert Denote(env, f.body, None) == f.body.text && Denote(env, f.next, None) == f.next.text;
    if items != [] && !f.negated {
      assert items == [None];
      assert items[1..] == [] && DenoteAll(env, f.body, []) == "" && f.body.text + "" == f.body.text;
    }
    Associate(f.text, if Holds(k, f.name) == f.negated then "" else f.body.text, f.next.text);
    assert Denote(env, f, None)
        == f.text + ((if Holds(k, f.name) == f.negated then "" else f.body.text) + f.next.text);
  }
}
