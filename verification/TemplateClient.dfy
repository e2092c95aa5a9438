/** The data of the policy templates: the session's identity, permissions and plugs. */
module TemplateClient {
  import opened Text
  import opened MustachText
  import opened MustachMachine
  import opened MustachMeaning
  import P = Plugs

  /** What the templates can see of a session. */
  datatype Facts = Facts(id: string, granted: string -> bool, plugs: seq<P.Item>)

  /** The plug cursor: on no request, or on one that has others after it. */
  datatype Cursor = Nowhere | On(item: P.Item, after: seq<P.Item>)

  function CursorOn(items: seq<P.Item>): Cursor {
    if items == [] then Nowhere else On(items[0], items[1..])
  }

  predicate PermName(name: string) {
    |name| >= 2 && name[0] == 'p' && name[1] == '='
  }

  function Underscored(s: string): string {
    if s == "" then "" else (if s[0] == '-' then ['_'] else [s[0]]) + Underscored(s[1..])
  }

  /** The text of a marker in front of the given plug request, if any. */
  function Marker(k: Facts, plug: Option<P.Item>, name: string): string {
    if name == "id" then k.id
    else if name == "id_underscore" || name == "_id_" then Underscored(k.id)
    else if name == "impid" && plug.Some? then plug.value.impid
    else if name == "_impid_" && plug.Some? then Underscored(plug.value.impid)
    else ""
  }

  /** The same text with an underscore (code 95) for every dash (code 45). */
  predicate Dashless(s: string, out: string) {
    |out| == |s| && forall i :: 0 <= i < |s| ==> out[i] as int == if s[i] as int == 45 then 95 else s[i] as int
  }

  /** What each marker shows; one that has another name, or belongs to a plug and stands outside one, shows nothing. */
  predicate Shows(k: Facts, plug: Option<P.Item>, name: string, out: string) {
    && (name == "id" ==> out == k.id)
    && (name == "id_underscore" || name == "_id_" ==> Dashless(k.id, out))
    && (name == "impid" && plug.Some? ==> out == plug.value.impid)
    && (name == "_impid_" && plug.Some? ==> Dashless(plug.value.impid, out))
    && (name in ["impid", "_impid_"] && plug.None? ==> out == "")
    && (name !in ["id", "id_underscore", "_id_", "impid", "_impid_"] ==> out == "")
  }

  lemma {:induction false} UnderscoredIsDashless(s: string)
    ensures Dashless(s, Underscored(s))
  {
    if s != "" {
      UnderscoredIsDashless(s[1..]);
      var u := Underscored(s);
      assert u[1..] == Underscored(s[1..]);
      assert forall i :: 0 < i < |s| ==> u[i] == u[1..][i - 1] && s[i] == s[1..][i - 1];
    }
  }

  lemma MarkerShows(k: Facts, plug: Option<P.Item>, name: string)
    ensures Shows(k, plug, name, Marker(k, plug, name))
  {
    hide Dashless, Underscored;
    UnderscoredIsDashless(k.id);
    if plug.Some? {
      UnderscoredIsDashless(plug.value.impid);
    }
  }

  function Current(c: Cursor): Option<P.Item> {
    if c.Nowhere? then None else Some(c.item)
  }

  function Enter(k: Facts, c: Cursor, name: string): (Cursor, bool) {
    if PermName(name) then (c, k.granted(name[2..]))
    else if c.On? then (c, false)
    else if name == "has-plugs" then (c, k.plugs != [])
    else if name == "plugs" then (CursorOn(k.plugs), k.plugs != [])
    else (c, false)
  }

  function Next(c: Cursor): (Cursor, bool) {
    if c.On? then (CursorOn(c.after), c.after != []) else (Nowhere, false)
  }

  // ---------- The callbacks ----------

  /** The closure of the callbacks, with the cursor as a pointer into the plug list. */
  class Data {
    const facts: Facts
    const plugset: P.Plug?
    var plug: P.Plug?

    constructor (facts: Facts, plugset: P.Plug?)
      requires P.List(plugset) && P.Items(plugset) == facts.plugs
      ensures Valid() && this.facts == facts && At() == Nowhere
    {
      this.facts := facts;
      this.plugset := plugset;
      plug := null;
    }

    ghost predicate Valid()
      reads this
    {
      P.List(plugset) && P.Items(plugset) == facts.plugs && P.List(plug)
    }

    ghost function At(): Cursor
      requires Valid()
      reads this
    {
      CursorOn(P.Items(plug))
    }

    method Put(name: string) returns (out: string)
      requires Valid()
      ensures out == Marker(facts, Current(At()), name) && Shows(facts, Current(At()), name, out)
    {
      hide Shows;
      MarkerShows(facts, Current(At()), name);
      var underscore := name != "" && name[0] == '_';
      var txt := None;
      if plug != null {
        P.ListStep(plug);
      }
      if name == "id" {
        txt := Some(facts.id);
      } else if name == "id_underscore" {
        txt := Some(facts.id);
        underscore := true;
      } else if name == "_id_" {
        txt := Some(facts.id);
      } else if name == "impid" && plug != null {
        txt := Some(plug.item.impid);
      } else if name == "_impid_" && plug != null {
        txt := Some(plug.item.impid);
      }
      out := "";
      if txt.Some? {
        if !underscore {
          out := txt.value;
        } else {
          out := PutUnderscored(txt.value);
        }
      }
    }

    method PutUnderscored(txt: string) returns (out: string)
      ensures out == Underscored(txt)
    {
      out := "";
      var i := 0;
      assert txt[0..] == txt;
      while i < |txt|
        invariant 0 <= i <= |txt|
        invariant Underscored(txt) == out + Underscored(txt[i..])
      {
        assert txt[i..][1..] == txt[i + 1..];
        out := out + (if txt[i] == '-' then ['_'] else [txt[i]]);
        i := i + 1;
      }
    }

    method EnterSection(name: string) returns (found: bool)
      requires Valid()
      modifies this
      ensures Valid() && (At(), found) == Enter(facts, old(At()), name)
    {
      if PermName(name) {
        return facts.granted(name[2..]);
      }
      if plug != null {
        return false;
      }
      if name == "has-plugs" {
        return plugset != null;
      }
      if name == "plugs" {
        plug := plugset;
        return plug != null;
      }
      return false;
    }

    method NextItem() returns (more: bool)
      requires Valid()
      modifies this
      ensures Valid() && (At(), more) == Next(old(At()))
    {
      if plug != null {
        P.ListStep(plug);
        plug := plug.next;
        if plug != null {
          P.ListStep(plug);
        }
      }
      more := plug != null;
    }

    method Leave()
      requires Valid()
      modifies this
      ensures Valid() && At() == Nowhere
    {
      plug := null;
    }
  }

  // ---------- The interface on values ----------

  function TemplateItf(k: Facts): Itf<Cursor> {
    Itf((c: Cursor, name: string) => Enter(k, c, name),
        (c: Cursor) => Next(c),
        (c: Cursor) => Nowhere,
        (c: Cursor, name: string, escape: bool) => Marker(k, Current(c), name))
  }

  /** A cursor never comes back to a plug it has passed, except by entering from outside. */
  predicate Behind(x: Cursor, y: Cursor) {
    x.Nowhere? || (y.On? && |x.after| <= |y.after|)
  }

  function TemplateOrder(): Order<Cursor> {
    Order((x: Cursor, y: Cursor) => Behind(x, y),
          (x: Cursor, y: Cursor) => y.Nowhere? || Behind(x, y),
          (x: Cursor) => if x.Nowhere? then 0 else 1 + |x.after|)
  }

  /** Plug lists are finite, so every template terminates, whatever it nests. */
  lemma TemplatesEnd(k: Facts)
    ensures Ends(TemplateItf(k), TemplateOrder())
  {
  }

  /** What a template author expects: a permission section once if granted, a plug section once per plug. */
  function TemplateEnv(k: Facts): Env<Option<P.Item>> {
    Env((plug: Option<P.Item>, name: string) => Sections(k, plug, name),
        (plug: Option<P.Item>, name: string, escape: bool) => Marker(k, plug, name))
  }

  function Sections(k: Facts, plug: Option<P.Item>, name: string): seq<Option<P.Item>> {
    if PermName(name) then (if k.granted(name[2..]) then [plug] else [])
    else if plug.Some? then []
    else if name == "has-plugs" then (if k.plugs != [] then [plug] else [])
    else if name == "plugs" then Somes(k.plugs)
    else []
  }

  function Somes(items: seq<P.Item>): (r: seq<Option<P.Item>>)
    ensures |r| == |items| && forall i :: 0 <= i < |r| ==> r[i] == Some(items[i])
  {
    seq(|items|, i requires 0 <= i < |items| => Some(items[i]))
  }

  /**
   The sections by name: one whose name starts with "p=" (codes 112 and 61) is
   there once if the permission behind is granted; outside plugs "has-plugs" is
   there once if there are plugs and "plugs" once for each, in order; no other.
   */
  lemma SectionsByName(k: Facts, plug: Option<P.Item>, name: string)
    ensures TemplateEnv(k).sections(plug, name)
         == if |name| >= 2 && name[0] as int == 112 && name[1] as int == 61 then
              if k.granted(name[2..]) then [plug] else []
            else if plug.Some? then []
            else if name == "has-plugs" then if |k.plugs| > 0 then [plug] else []
            else if name == "plugs" then seq(|k.plugs|, i requires 0 <= i < |k.plugs| => Some(k.plugs[i]))
            else []
  {
  }

  /** A granted permission section inside a plug section is what the single cursor cannot serve. */
  predicate Servable(k: Facts, plug: Option<P.Item>, name: string) {
    plug.Some? && PermName(name) ==> !k.granted(name[2..])
  }

  function TemplateView(): View<Cursor, Option<P.Item>> {
    View((c: Cursor) => Current(c), (x: Cursor, base: Cursor, items: seq<Option<P.Item>>) => InPlugs(x, base, items))
  }

  predicate InPlugs(x: Cursor, base: Cursor, items: seq<Option<P.Item>>) {
    base.Nowhere? && items == if x.Nowhere? then [None] else Somes([x.item] + x.after)
  }

  function Allowed(k: Facts): (Option<P.Item>, string) -> bool {
    (plug: Option<P.Item>, name: string) => Servable(k, plug, name)
  }

  lemma TemplatesImplement(k: Facts)
    ensures Implements(TemplateItf(k), TemplateEnv(k), TemplateView(), Allowed(k))
  {
    var itf, env, view := TemplateItf(k), TemplateEnv(k), TemplateView();
    forall c, n | Allowed(k)(view.ctx(c), n) ensures EntersRight(itf, env, view, c, n) {
    }
    forall x, base, items | view.inside(x, base, items) ensures MovesRight(itf, view, x, base, items) {
      if |items| > 1 {
        assert Somes([x.item] + x.after)[1..] == Somes(x.after) && [x.after[0]] + x.after[1..] == x.after;
      }
    }
  }

  /** Syntactic guarantee: no permission section lies inside a plug section. */
  predicate NoPermIn(f: Forest, inPlugs: bool)
    decreases f
  {
    match f
    case Last(_) => true
    case Note(_, next) => NoPermIn(next, inPlugs)
    case Variable(_, _, _, next) => NoPermIn(next, inPlugs)
    case Section(_, _, name, body, next) =>
      (inPlugs ==> !PermName(name)) && NoPermIn(body, inPlugs || name == "plugs") && NoPermIn(next, inPlugs)
    case Unclosed(_, _, _, _) => false
  }

  lemma {:induction false} NoPermRespects(k: Facts, f: Forest, plug: Option<P.Item>, inPlugs: bool)
    requires NoPermIn(f, inPlugs) && (plug.Some? ==> inPlugs)
    ensures Respects(TemplateEnv(k), Allowed(k), f, plug)
    decreases f, 0
  {
    match f
    case Last(_) =>
    case Note(_, next) => NoPermRespects(k, next, plug, inPlugs);
    case Variable(_, _, _, next) => NoPermRespects(k, next, plug, inPlugs);
    case Section(_, _, name, body, next) =>
      NoPermRespects(k, next, plug, inPlugs);
      NoPermRespects(k, body, plug, inPlugs || name == "plugs");
      NoPermRespectsAll(k, body, Sections(k, plug, name), inPlugs || name == "plugs");
  }

  lemma {:induction false} NoPermRespectsAll(k: Facts, body: Forest, items: seq<Option<P.Item>>, inPlugs: bool)
    requires NoPermIn(body, inPlugs) && forall i :: 0 <= i < |items| ==> (items[i].Some? ==> inPlugs)
    ensures RespectsAll(TemplateEnv(k), Allowed(k), body, items)
    decreases body, 1, |items|
  {
    if items != [] {
      NoPermRespects(k, body, items[0], inPlugs);
      NoPermRespectsAll(k, body, items[1..], inPlugs);
    }
  }

  /**
   A template in whose reading no granted permission section is met inside a
   plug section is rendered as it reads.
   */
  lemma RespectfulTemplateMeansWhatItReads(k: Facts, text: string)
    requires Verdict(text) == OK && Respects(TemplateEnv(k), Allowed(k), Parse(text, 0).forest, None)
    ensures Ends(TemplateItf(k), TemplateOrder())
    ensures Output(Eval(TemplateItf(k), TemplateOrder(), Parse(text, 0).forest, true, Nowhere).trace)
         == Denote(TemplateEnv(k), Parse(text, 0).forest, None)
  {
    hide Ends, Implements, Eval, Denote, Output, Respects;
    TemplatesEnd(k);
    TemplatesImplement(k);
    EvalIsDenote(TemplateItf(k), TemplateOrder(), TemplateEnv(k), TemplateView(), Allowed(k), Parse(text, 0).forest,
        Nowhere);
  }

  /** A template without permission sections inside plug sections is rendered as it reads. */
  lemma TemplateMeansWhatItReads(k: Facts, text: string)
    requires Verdict(text) == OK && NoPermIn(Parse(text, 0).forest, false)
    ensures Ends(TemplateItf(k), TemplateOrder())
    ensures Output(Eval(TemplateItf(k), TemplateOrder(), Parse(text, 0).forest, true, Nowhere).trace)
         == Denote(TemplateEnv(k), Parse(text, 0).forest, None)
  {
    hide Ends, Eval, Denote, Output, Respects;
    NoPermRespects(k, Parse(text, 0).forest, None, false);
    RespectfulTemplateMeansWhatItReads(k, text);
  }

  // ---------- Exactly when the single cursor is enough ----------

  /** While f is evaluated from c, every section leaves the cursor as it found it. */
  ghost predicate Undisturbed(k: Facts, f: Forest, c: Cursor)
    decreases f, 1, 0
  {
    TemplatesEnd(k);
    match f
    case Last(_) => true
    case Note(_, next) => Undisturbed(k, next, c)
    case Variable(_, _, _, next) => Undisturbed(k, next, c)
    case Section(_, negated, name, body, next) =>
      var (d, found) := Enter(k, c, name);
      && EvalSection(TemplateItf(k), TemplateOrder(), negated, name, body, true, c).d == c
      && (found && !negated ==> UndisturbedItems(k, body, d))
      && (negated && !found ==> Undisturbed(k, body, d))
      && Undisturbed(k, next, c)
    case Unclosed(_, _, _, _) => false
  }

  /** The same of a body for the item under the cursor and for those after it. */
  ghost predicate UndisturbedItems(k: Facts, body: Forest, c: Cursor)
    decreases body, 2, if c.On? then 1 + |c.after| else 0
  {
    var (d, more) := Next(c);
    Undisturbed(k, body, c) && (more ==> UndisturbedItems(k, body, d))
  }

  lemma {:induction false} IterationEndsNowhere(k: Facts, body: Forest, x: Cursor, base: Cursor)
    requires Ends(TemplateItf(k), TemplateOrder()) && TemplateOrder().under(x, base)
    ensures Iterate(TemplateItf(k), TemplateOrder(), body, x, base).d == Nowhere
    decreases TemplateOrder().rank(x)
  {
    var itf, ord := TemplateItf(k), TemplateOrder();
    var r := Eval(itf, ord, body, true, x);
    var (z, more) := itf.next(r.d);
    if more {
      IterationEndsNowhere(k, body, z, base);
    }
  }

  /** A granted permission section inside a plug section loses the cursor. */
  lemma UnservableDisturbs(k: Facts, negated: bool, name: string, body: Forest, c: Cursor)
    requires Ends(TemplateItf(k), TemplateOrder()) && !Servable(k, Current(c), name)
    ensures EvalSection(TemplateItf(k), TemplateOrder(), negated, name, body, true, c).d != c
  {
    var itf, ord := TemplateItf(k), TemplateOrder();
    assert itf.enter(c, name) == (c, true);
    if !negated {
      IterationEndsNowhere(k, body, c, c);
    }
  }

  /** A section that the single cursor serves: its body, and what follows it. */
  lemma ServedSection(k: Facts, f: Forest, c: Cursor)
    requires f.Section? && Closed(f) && Servable(k, Current(c), f.name)
    requires Undisturbed(k, f.next, c) <==> Respects(TemplateEnv(k), Allowed(k), f.next, Current(c))
    requires var (d, found) := Enter(k, c, f.name);
             if found then UndisturbedItems(k, f.body, d)
                 <==> RespectsAll(TemplateEnv(k), Allowed(k), f.body, Sections(k, Current(c), f.name))
             else Undisturbed(k, f.body, c) <==> Respects(TemplateEnv(k), Allowed(k), f.body, Current(c))
    ensures Undisturbed(k, f, c) <==> Respects(TemplateEnv(k), Allowed(k), f, Current(c))
  {
    TemplatesEnd(k);
    TemplatesImplement(k);
    hide Ends, Implements, Eval, EvalSection, Iterate;
    EntersServably(k, c, f.name);
    hide Enter, Sections;
    if Respects(TemplateEnv(k), Allowed(k), f, Current(c)) {
      SectionIsDenote(TemplateItf(k), TemplateOrder(), TemplateEnv(k), TemplateView(), Allowed(k), f.negated, f.name,
          f.body, c);
    }
  }

  lemma EntersServably(k: Facts, c: Cursor, name: string)
    requires Servable(k, Current(c), name)
    ensures var (d, found) := Enter(k, c, name);
            var items := Sections(k, Current(c), name);
            (found <==> items != []) && if found then c == Nowhere && ItemsAt(d) == items else d == c
  {
  }

  /**
   Sections leave the plug cursor as they found it if and only if reading the
   template comes across no granted permission section inside a plug section.
   */
  lemma {:induction false} UndisturbedIffServable(k: Facts, f: Forest, c: Cursor)
    requires Closed(f)
    ensures Undisturbed(k, f, c) <==> Respects(TemplateEnv(k), Allowed(k), f, Current(c))
    decreases f, 1, 0
  {
    TemplatesEnd(k);
    hide Ends, Eval, EvalSection, Iterate;
    match f
    case Last(_) =>
    case Note(_, next) => UndisturbedIffServable(k, next, c);
    case Variable(_, _, _, next) => UndisturbedIffServable(k, next, c);
    case Section(_, negated, name, body, next) =>
      if !Servable(k, Current(c), name) {
        UnservableDisturbs(k, negated, name, body, c);
      } else {
        UndisturbedIffServable(k, next, c);
        hide Undisturbed, Respects;
        EntersServably(k, c, name);
        var (d, found) := Enter(k, c, name);
        if found {
          ItemsIffServable(k, body, d);
        } else {
          UndisturbedIffServable(k, body, c);
        }
        ServedSection(k, f, c);
      }
  }

  function ItemsAt(c: Cursor): seq<Option<P.Item>> {
    if c.Nowhere? then [None] else Somes([c.item] + c.after)
  }

  lemma {:induction false} ItemsIffServable(k: Facts, body: Forest, c: Cursor)
    requires Closed(body)
    ensures UndisturbedItems(k, body, c) <==> RespectsAll(TemplateEnv(k), Allowed(k), body, ItemsAt(c))
    decreases body, 2, if c.On? then 1 + |c.after| else 0
  {
    hide Undisturbed, Respects, TemplateEnv, Allowed, Sections, ItemsAt;
    UndisturbedIffServable(k, body, c);
    ItemsMove(c);
    var (d, more) := Next(c);
    if more {
      ItemsIffServable(k, body, d);
    }
  }

  lemma ItemsMove(c: Cursor)
    ensures var items := ItemsAt(c);
            items != [] && items[0] == Current(c) && items[1..] == if Next(c).1 then ItemsAt(Next(c).0) else []
  {
    if c.On? && c.after != [] {
      assert [c.after[0]] + c.after[1..] == c.after;
    }
  }

  /** The plugs section around a permission section and a marker, as no shipped template has it. */
  const NESTED := Section("", false, "plugs",
                          Section("", false, "p=x", Last(""), Variable("", "impid", true, Last(""))),
                          Last(""))

  predicate Quiet(trace: seq<Event>) {
    forall i :: 0 <= i < |trace| && (trace[i].Emitted? || trace[i].Printed?) ==> trace[i].text == ""
  }

  /** Three states of a data interface: at the first plug, at the last one, and outside. */
  ghost predicate TwoPlugs<D(!new)>(itf: Itf<D>, first: D, last: D, outside: D) {
    && itf.enter(outside, "plugs") == (first, true) && itf.enter(first, "p=x") == (first, true)
    && itf.next(first) == (last, true) && itf.next(last) == (outside, false)
    && itf.next(outside) == (outside, false) && itf.leave(outside) == outside
    && itf.put(outside, "impid", true) == ""
  }

  /** The permission section runs through the two plugs, and loses them. */
  lemma InnerSection<D(!new)>(itf: Itf<D>, ord: Order<D>, first: D, last: D, outside: D)
    requires Ends(itf, ord) && TwoPlugs(itf, first, last, outside)
    ensures var s := EvalSection(itf, ord, false, "p=x", Last(""), true, first);
            s.d == outside && s.trace == [Entered(false, "p=x", true), Moved(true), Moved(false), Left]
  {
    assert ord.under(first, first) && ord.under(last, first);
    hide Ends;
    assert Eval(itf, ord, Last(""), true, last) == Result(last, [], 1);
    assert Eval(itf, ord, Last(""), true, first) == Result(first, [], 1);
    var r2 := Iterate(itf, ord, Last(""), last, first);
    assert r2 == Result(outside, [] + [Moved(false), Left], 1);
    var r1 := Iterate(itf, ord, Last(""), first, first);
    assert r1.trace == [] + [Moved(true)] + r2.trace && r1.d == r2.d;
  }

  /** The body for the first plug: the marker comes when the cursor is lost already. */
  lemma InnerBody<D(!new)>(itf: Itf<D>, ord: Order<D>, first: D, last: D, outside: D)
    requires Ends(itf, ord) && TwoPlugs(itf, first, last, outside)
    ensures var e := Eval(itf, ord, NESTED.body, true, first);
            e.d == outside && Quiet(e.trace)
  {
    InnerSection(itf, ord, first, last, outside);
    hide Ends, EvalSection;
    var s := EvalSection(itf, ord, false, "p=x", Last(""), true, first);
    var v := Eval(itf, ord, Variable("", "impid", true, Last("")), true, outside);
    assert v.trace == [] + [Printed("impid", "")] + [] && v.d == outside;
    var e := Eval(itf, ord, NESTED.body, true, first);
    assert e.trace == [] + s.trace + v.trace && e.d == v.d;
  }

  lemma NestedIsQuiet<D(!new)>(itf: Itf<D>, ord: Order<D>, first: D, last: D, outside: D)
    requires Ends(itf, ord) && TwoPlugs(itf, first, last, outside)
    ensures Output(Eval(itf, ord, NESTED, true, outside).trace) == ""
  {
    InnerBody(itf, ord, first, last, outside);
    assert ord.under(first, outside);
    hide Ends;
    var r := Iterate(itf, ord, NESTED.body, first, outside);
    assert r.trace == Eval(itf, ord, NESTED.body, true, first).trace + [Moved(false), Left];
    var s := EvalSection(itf, ord, false, "plugs", NESTED.body, true, outside);
    assert s.trace == [Entered(false, "plugs", true)] + r.trace;
    var all := Eval(itf, ord, NESTED, true, outside);
    assert all.trace == [] + s.trace + [];
    NothingShown(all.trace);
  }

  /** With the permission granted and two plugs, the marker is never printed although it should be, twice. */
  lemma NestingLosesThePlug(k: Facts, a: P.Item, b: P.Item)
    requires k.granted("x") && k.plugs == [a, b]
    ensures Denote(TemplateEnv(k), NESTED, None) == a.impid + b.impid
    ensures Ends(TemplateItf(k), TemplateOrder())
    ensures Output(Eval(TemplateItf(k), TemplateOrder(), NESTED, true, Nowhere).trace) == ""
  {
    NestedReads(k, a, b);
    TemplatesEnd(k);
    NestedCursor(k, a, b);
    hide *;
    NestedIsQuiet(TemplateItf(k), TemplateOrder(), On(a, [b]), On(b, []), Nowhere);
  }

  lemma NestedSteps(k: Facts, a: P.Item, b: P.Item)
    requires k.granted("x") && k.plugs == [a, b]
    ensures Enter(k, Nowhere, "plugs") == (On(a, [b]), true) && Enter(k, On(a, [b]), "p=x") == (On(a, [b]), true)
    ensures Next(On(a, [b])) == (On(b, []), true) && Next(On(b, [])) == (Nowhere, false)
            && Next(Nowhere) == (Nowhere, false)
    ensures Marker(k, None, "impid") == ""
  {
    assert PermName("p=x") && "p=x"[2..] == "x" && !PermName("plugs");
    assert [a, b][1..] == [b] && [b][1..] == [];
  }

  lemma NestedCursor(k: Facts, a: P.Item, b: P.Item)
    requires k.granted("x") && k.plugs == [a, b]
    ensures TwoPlugs(TemplateItf(k), On(a, [b]), On(b, []), Nowhere)
  {
    NestedSteps(k, a, b);
    hide Enter, Next, Marker;
    var itf := TemplateItf(k);
    assert itf.enter(Nowhere, "plugs") == Enter(k, Nowhere, "plugs");
    assert itf.enter(On(a, [b]), "p=x") == Enter(k, On(a, [b]), "p=x");
    assert itf.next(On(a, [b])) == Next(On(a, [b])) && itf.next(On(b, [])) == Next(On(b, []))
        && itf.next(Nowhere) == Next(Nowhere);
    assert itf.leave(Nowhere) == Nowhere && itf.put(Nowhere, "impid", true) == Marker(k, Current(Nowhere), "impid");
  }

  lemma NestedReads(k: Facts, a: P.Item, b: P.Item)
    requires k.granted("x") && k.plugs == [a, b]
    ensures Denote(TemplateEnv(k), NESTED, None) == a.impid + b.impid
  {
    var env, inner := TemplateEnv(k), NESTED.body;
    assert PermName("p=x") && "p=x"[2..] == "x" && !PermName("plugs");
    forall i: P.Item ensures Denote(env, inner, Some(i)) == i.impid {
      assert DenoteAll(env, Last(""), [Some(i)]) == Denote(env, Last(""), Some(i)) + DenoteAll(env, Last(""), []);
      assert Denote(env, Variable("", "impid", true, Last("")), Some(i)) == "" + (i.impid + ("" + ""));
    }
    var items := Somes([a, b]);
    assert items == [Some(a), Some(b)] && items[1..] == [Some(b)];
    assert DenoteAll(env, inner, items) == a.impid + DenoteAll(env, inner, [Some(b)]);
    assert DenoteAll(env, inner, [Some(b)]) == b.impid + "";
  }

  lemma {:induction false} NothingShown(trace: seq<Event>)
    requires Quiet(trace)
    ensures Output(trace) == ""
    decreases |trace|
  {
    if trace != [] {
      NothingShown(trace[..|trace| - 1]);
    }
  }
}
