/** Properties of what the engine does: well nested calls, and the plain reading of a template. */
module MustachMeaning {
  import opened Text
  import opened MustachText
  import opened MustachMachine

  // ---------- Calls are well nested ----------

  /** Where the innermost entered section stands: at an item, in a disabled body, or behind its last item. */
  datatype Level = AtItem | Disabled | Finished

  predicate Active(levels: seq<Level>) {
    levels == [] || levels[|levels| - 1] == AtItem
  }

  /** The discipline of the calls; None when e may not happen. */
  function Nest(levels: seq<Level>, e: Event): Option<seq<Level>> {
    var n := |levels| - 1;
    match e
    case Emitted(_) => if Active(levels) then Some(levels) else None
    case Printed(_, _) => if Active(levels) then Some(levels) else None
    case Entered(negated, _, found) =>
      if !Active(levels) then None
      else if !found then Some(levels)
      else Some(levels + [if negated then Disabled else AtItem])
    case Moved(more) =>
      if n < 0 || levels[n] != AtItem then None else Some(if more then levels else levels[..n] + [Finished])
    case Left => if n < 0 || levels[n] == AtItem then None else Some(levels[..n])
  }

  function NestAll(levels: seq<Level>, trace: seq<Event>): Option<seq<Level>> {
    if trace == [] then Some(levels) else
      match NestAll(levels, trace[..|trace| - 1])
      case None => None
      case Some(l) => Nest(l, trace[|trace| - 1])
  }

  lemma {:induction false} NestAppend(a: seq<Level>, b: seq<Level>, s: seq<Event>, t: seq<Event>)
    requires NestAll(a, s) == Some(b)
    ensures NestAll(a, s + t) == NestAll(b, t)
    decreases |t|
  {
    if t == [] {
      assert s + t == s;
    } else {
      assert (s + t)[..|s + t| - 1] == s + t[..|t| - 1];
      NestAppend(a, b, s, t[..|t| - 1]);
    }
  }

  lemma NestOne(levels: seq<Level>, e: Event)
    ensures NestAll(levels, [e]) == Nest(levels, e) && NestAll(levels, []) == Some(levels)
  {
    assert [e][..0] == [];
  }

  lemma NestText(levels: seq<Level>, text: string, enabled: bool)
    requires Active(levels)
    ensures NestAll(levels, TextEvents(text, enabled)) == Some(levels)
  {
    NestOne(levels, Emitted(text));
  }

  lemma LexNeverFailsWithOk(s: string)
    ensures Lex(s).tag != BadTag(OK)
  {
    hide Find, TrimLeft, TrimRight;
  }

  /** What the frames of the section stack say of one another. */
  predicate Stacked(stack: seq<Frame>, enabled: bool)
    decreases |stack|
  {
    stack == [] ||
    (var n := |stack| - 1;
     var top := stack[n];
     (enabled || top.entered ==> top.enabled) && Stacked(stack[..n], top.enabled))
  }

  /** The level of every entered section of the stack. */
  function Levels(stack: seq<Frame>, enabled: bool): seq<Level>
    decreases |stack|
  {
    if stack == [] then [] else
      var n := |stack| - 1;
      var top := stack[n];
      Levels(stack[..n], top.enabled) + if top.entered then [if enabled then AtItem else Disabled] else []
  }

  lemma {:induction false} EnabledIsActive(stack: seq<Frame>)
    requires Stacked(stack, true)
    ensures Active(Levels(stack, true))
    decreases |stack|
  {
    if stack != [] && !stack[|stack| - 1].entered {
      EnabledIsActive(stack[..|stack| - 1]);
    }
  }

  /** The text before a tag is emitted only where that is allowed. */
  lemma HeadNests(c: seq<Frame>, enabled: bool, text: string)
    requires Stacked(c, enabled)
    ensures NestAll(Levels(c, enabled), TextEvents(text, enabled)) == Some(Levels(c, enabled))
    ensures enabled ==> Active(Levels(c, enabled))
  {
    if enabled {
      EnabledIsActive(c);
      NestText(Levels(c, enabled), text, enabled);
    }
  }

  /** One more call behind others. */
  lemma NestSnoc(a: seq<Level>, b: seq<Level>, s: seq<Event>, e: Event)
    requires NestAll(a, s) == Some(b)
    ensures NestAll(a, s + [e]) == Nest(b, e) && s + [] == s
  {
    NestOne(b, e);
    NestAppend(a, b, s, [e]);
  }

  lemma OpenNests<D(!new)>(itf: Itf<D>, c: Config<D>)
    requires Stacked(c.stack, c.enabled) && Lex(c.template).tag.Tag? && Lex(c.template).tag.kind.Open?
    requires Step(itf, c).0.Running?
    ensures var (o, trace) := Step(itf, c);
            && Stacked(o.config.stack, o.config.enabled)
            && NestAll(Levels(c.stack, c.enabled), trace) == Some(Levels(o.config.stack, o.config.enabled))
  {
    hide Lex, TextEvents, NestAll;
    var Lexeme(text, tag) := Lex(c.template);
    var (o, trace) := Step(itf, c);
    var n := |c.stack|;
    var levels := Levels(c.stack, c.enabled);
    HeadNests(c.stack, c.enabled, text);
    assert o.config.stack[..n] == c.stack && levels + [] == levels;
    NestSnoc(levels, levels, TextEvents(text, c.enabled),
        Entered(tag.kind.negated, tag.name, o.config.stack[n].entered));
  }

  lemma CloseNests<D(!new)>(itf: Itf<D>, c: Config<D>)
    requires Stacked(c.stack, c.enabled) && Lex(c.template).tag.Tag? && Lex(c.template).tag.kind.Close?
    requires Step(itf, c).0.Running?
    ensures var (o, trace) := Step(itf, c);
            && Stacked(o.config.stack, o.config.enabled)
            && NestAll(Levels(c.stack, c.enabled), trace) == Some(Levels(o.config.stack, o.config.enabled))
  {
    hide Lex, TextEvents, NestAll;
    var Lexeme(text, tag) := Lex(c.template);
    var n := |c.stack| - 1;
    var levels, top := Levels(c.stack, c.enabled), c.stack[n];
    var below, head := Levels(c.stack[..n], top.enabled), TextEvents(text, c.enabled);
    HeadNests(c.stack, c.enabled, text);
    if c.enabled && top.entered {
      var more := itf.next(c.d).1;
      NestSnoc(levels, levels, head, Moved(more));
      assert levels == below + [AtItem] && levels[..|below|] == below;
      if !more {
        NestSnoc(levels, below + [Finished], head + [Moved(false)], Left);
        assert (below + [Finished])[..|below|] == below;
      }
    } else if top.entered {
      assert levels == below + [Disabled] && levels[..|below|] == below;
      NestSnoc(levels, levels, head, Left);
    } else {
      assert levels == below && head + [] == head;
    }
  }

  /** Each turn of the machine, for any interface at all, keeps to the discipline. */
  lemma StepNests<D(!new)>(itf: Itf<D>, c: Config<D>)
    requires Stacked(c.stack, c.enabled)
    ensures var (o, trace) := Step(itf, c);
            var levels := Levels(c.stack, c.enabled);
            if o.Halted? then NestAll(levels, trace) == Some(levels) && (o.code == OK ==> c.stack == [])
            else Stacked(o.config.stack, o.config.enabled)
                 && NestAll(levels, trace) == Some(Levels(o.config.stack, o.config.enabled))
  {
    LexNeverFailsWithOk(c.template);
    hide Lex, TextEvents, NestAll, Stacked, Levels;
    var Lexeme(text, tag) := Lex(c.template);
    HeadNests(c.stack, c.enabled, text);
    if tag.Tag? && Step(itf, c).0.Running? {
      match tag.kind
      case Open(_) => OpenNests(itf, c);
      case Close => CloseNests(itf, c);
      case Put(escape) =>
        NestSnoc(Levels(c.stack, c.enabled), Levels(c.stack, c.enabled), TextEvents(text, c.enabled),
                 Printed(tag.name, itf.put(c.d, tag.name, escape)));
      case _ =>
    }
  }

  lemma {:induction false} RunNests<D(!new)>(itf: Itf<D>, c: Config<D>, turns: nat)
    requires Stacked(c.stack, c.enabled) && RunFor(itf, c, turns).Some?
    ensures var (code, calls) := RunFor(itf, c, turns).value;
            && NestAll(Levels(c.stack, c.enabled), calls).Some?
            && (code == OK ==> NestAll(Levels(c.stack, c.enabled), calls) == Some([]))
    decreases turns
  {
    hide Step, Stacked, NestAll;
    StepNests(itf, c);
    var (o, trace) := Step(itf, c);
    if o.Running? {
      RunNests(itf, o.config, turns - 1);
      NestAppend(Levels(c.stack, c.enabled), Levels(o.config.stack, o.config.enabled), trace,
                 RunFor(itf, o.config, turns - 1).value.1);
    }
  }

  /**
   Whatever the interface does, the calls the machine has made when it stops are
   well nested: next is asked only of the innermost section that is entered and
   enabled, and nothing is printed, emitted or entered in a disabled body. When
   it stops with OK every section found has been left as well.
   */
  lemma RunsAreBalanced<D(!new)>(itf: Itf<D>, text: string, d: D, turns: nat, code: int, calls: seq<Event>)
    requires RunFor(itf, Config(text, [], true, d), turns) == Some((code, calls))
    ensures NestAll([], calls).Some?
    ensures code == OK ==> NestAll([], calls) == Some([])
  {
    RunNests(itf, Config(text, [], true, d), turns);
  }

  /** So are the calls of the tree, which exist when iterations end. */
  lemma CallsAreBalanced<D(!new)>(itf: Itf<D>, ord: Order<D>, text: string, d: D)
    requires Ends(itf, ord)
    ensures var calls := Eval(itf, ord, Parse(text, 0).forest, true, d).trace;
            NestAll([], calls).Some? && (Verdict(text) == OK ==> NestAll([], calls) == Some([]))
  {
    hide Ends, RunFor, Eval, Parse, Verdict, NestAll;
    MachineFollowsTree(itf, ord, text, d);
    var calls := Eval(itf, ord, Parse(text, 0).forest, true, d).trace;
    var turns :| RunFor(itf, Config(text, [], true, d), turns) == Some((Verdict(text), calls));
    RunsAreBalanced(itf, text, d, turns, Verdict(text), calls);
  }

  // ---------- The plain reading of a template ----------

  /** Data as a template author thinks of it: the items of a section, and the text of a marker, in a context. */
  datatype Env<!C> = Env(sections: (C, string) -> seq<C>, show: (C, string, bool) -> string)

  function Denote<C>(env: Env<C>, f: Forest, ctx: C): string
    decreases f, 1, 0
  {
    f.text +
    match f
    case Last(_) => ""
    case Note(_, next) => Denote(env, next, ctx)
    case Variable(_, name, escape, next) => env.show(ctx, name, escape) + Denote(env, next, ctx)
    case Section(_, negated, name, body, next) =>
      var items := env.sections(ctx, name);
      (if !negated then DenoteAll(env, body, items) else if items == [] then Denote(env, body, ctx) else "")
      + Denote(env, next, ctx)
    case Unclosed(_, _, _, _) => ""
  }

  function DenoteAll<C>(env: Env<C>, body: Forest, items: seq<C>): string
    decreases body, 2, |items|
  {
    if items == [] then "" else Denote(env, body, items[0]) + DenoteAll(env, body, items[1..])
  }

  /** How the state of an interface stands for contexts; inside relates a state to the one it was entered from. */
  datatype View<!D, !C> = View(ctx: D -> C, inside: (D, D, seq<C>) -> bool)

  /**
   The interface is stack-disciplined as far as the sections of allowed are
   concerned: entering starts at the first of the items, next moves to the
   following one, and leaving restores the state found at the entry.
   */
  ghost predicate Implements<D(!new), C(!new)>(itf: Itf<D>, env: Env<C>, view: View<D, C>,
                                               allowed: (C, string) -> bool)
  {
    && (forall d, n, e :: itf.put(d, n, e) == env.show(view.ctx(d), n, e))
    && (forall d, n :: allowed(view.ctx(d), n) ==> EntersRight(itf, env, view, d, n))
    && (forall x, base, items :: view.inside(x, base, items) ==> MovesRight(itf, view, x, base, items))
  }

  ghost predicate EntersRight<D(!new), C(!new)>(itf: Itf<D>, env: Env<C>, view: View<D, C>, d: D, n: string) {
    var items := env.sections(view.ctx(d), n);
    var (d1, found) := itf.enter(d, n);
    && (found <==> items != [])
    && (if found then view.inside(d1, d, items) else d1 == d)
  }

  ghost predicate MovesRight<D(!new), C(!new)>(itf: Itf<D>, view: View<D, C>, x: D, base: D, items: seq<C>) {
    && items != [] && view.ctx(x) == items[0] && itf.leave(x) == base
    && (itf.next(x).1 <==> |items| > 1)
    && (if |items| > 1 then view.inside(itf.next(x).0, base, items[1..]) else itf.leave(itf.next(x).0) == base)
  }

  /** All the sections that reading f in ctx comes across are allowed. */
  predicate Respects<C>(env: Env<C>, allowed: (C, string) -> bool, f: Forest, ctx: C)
    decreases f, 1, 0
  {
    match f
    case Last(_) => true
    case Note(_, next) => Respects(env, allowed, next, ctx)
    case Variable(_, _, _, next) => Respects(env, allowed, next, ctx)
    case Section(_, negated, name, body, next) =>
      var items := env.sections(ctx, name);
      && allowed(ctx, name)
      && (if !negated then RespectsAll(env, allowed, body, items)
          else items == [] ==> Respects(env, allowed, body, ctx))
      && Respects(env, allowed, next, ctx)
    case Unclosed(_, _, _, _) => false
  }

  predicate RespectsAll<C>(env: Env<C>, allowed: (C, string) -> bool, body: Forest, items: seq<C>)
    decreases body, 2, |items|
  {
    items == [] || (Respects(env, allowed, body, items[0]) && RespectsAll(env, allowed, body, items[1..]))
  }

  /** With a stack-disciplined interface a template means what it reads: its body once per item. */
  lemma {:induction false} EvalIsDenote<D(!new), C(!new)>(itf: Itf<D>, ord: Order<D>, env: Env<C>, view: View<D, C>,
                                                          allowed: (C, string) -> bool, f: Forest, d: D)
    requires Ends(itf, ord) && Implements(itf, env, view, allowed) && Respects(env, allowed, f, view.ctx(d))
    ensures var r := Eval(itf, ord, f, true, d);
            r.d == d && Output(r.trace) == Denote(env, f, view.ctx(d))
    decreases f, 1, 0
  {
    hide Ends, Output;
    var head := TextEvents(f.text, true);
    OutputText(f.text);
    match f
    case Last(_) =>
      assert f.text + "" == f.text;
    case Note(_, next) =>
      EvalIsDenote(itf, ord, env, view, allowed, next, d);
      OutputAppend(head, Eval(itf, ord, next, true, d).trace);
    case Variable(_, name, escape, next) =>
      EvalIsDenote(itf, ord, env, view, allowed, next, d);
      var e := Printed(name, itf.put(d, name, escape));
      OutputOne(head, e);
      OutputAppend(head + [e], Eval(itf, ord, next, true, d).trace);
      Associate(f.text, e.text, Denote(env, next, view.ctx(d)));
    case Section(_, negated, name, body, next) =>
      var items := env.sections(view.ctx(d), name);
      var s := EvalSection(itf, ord, negated, name, body, true, d);
      SectionIsDenote(itf, ord, env, view, allowed, negated, name, body, d);
      EvalIsDenote(itf, ord, env, view, allowed, next, d);
      OutputAppend(head, s.trace);
      OutputAppend(head + s.trace, Eval(itf, ord, next, true, d).trace);
      Associate(f.text, Output(s.trace), Denote(env, next, view.ctx(d)));
  }

  lemma OutputText(text: string)
    ensures Output(TextEvents(text, true)) == text && Output([]) == ""
  {
    OutputOne([], Emitted(text));
    assert [] + [Emitted(text)] == [Emitted(text)];
  }

  lemma {:induction false} SectionIsDenote<D(!new), C(!new)>(itf: Itf<D>, ord: Order<D>, env: Env<C>, view: View<D, C>,
                                                             allowed: (C, string) -> bool, negated: bool,
                                                                 name: string, body: Forest, d: D)
    requires Ends(itf, ord) && Implements(itf, env, view, allowed) && allowed(view.ctx(d), name)
    requires var items := env.sections(view.ctx(d), name);
             if !negated then RespectsAll(env, allowed, body, items)
             else items == [] ==> Respects(env, allowed, body, view.ctx(d))
    ensures var r := EvalSection(itf, ord, negated, name, body, true, d);
            var items := env.sections(view.ctx(d), name);
            && r.d == d
            && Output(r.trace) == if !negated then DenoteAll(env, body, items)
                                  else if items == [] then Denote(env, body, view.ctx(d)) else ""
    decreases body, 3, 0
  {
    hide Output;
    var items := env.sections(view.ctx(d), name);
    assert EntersRight(itf, env, view, d, name);
    var (d1, found) := itf.enter(d, name);
    var e := Entered(negated, name, found);
    OutputOne([], e);
    assert [] + [e] == [e];
    if found && !negated {
      IterateIsDenote(itf, ord, env, view, allowed, body, d1, d, items);
      OutputAppend([e], Iterate(itf, ord, body, d1, d).trace);
    } else if found {
      assert MovesRight(itf, view, d1, d, items);
      OutputOne([e], Left);
      assert [e] + [Left] == [e, Left];
    } else if negated {
      EvalIsDenote(itf, ord, env, view, allowed, body, d);
      OutputAppend([e], Eval(itf, ord, body, true, d).trace);
    } else {
      assert [e] + [] == [e];
    }
  }

  lemma NextEnds<D(!new)>(itf: Itf<D>, ord: Order<D>, x: D, base: D)
    requires Ends(itf, ord) && ord.under(x, base)
    ensures var (z, more) := itf.next(x);
            ord.under(z, base) && (more ==> ord.rank(z) < ord.rank(x))
  {
  }

  lemma ImplementedMoves<D(!new), C(!new)>(itf: Itf<D>, env: Env<C>, view: View<D, C>, allowed: (C, string) -> bool,
                                           x: D, base: D, items: seq<C>)
    requires Implements(itf, env, view, allowed) && view.inside(x, base, items)
    ensures MovesRight(itf, view, x, base, items)
  {
  }

  lemma {:induction false} IterateIsDenote<D(!new), C(!new)>(itf: Itf<D>, ord: Order<D>, env: Env<C>, view: View<D, C>,
                                                             allowed: (C, string) -> bool, body: Forest, x: D,
                                                                 base: D, items: seq<C>)
    requires Ends(itf, ord) && Implements(itf, env, view, allowed) && ord.under(x, base)
    requires view.inside(x, base, items) && RespectsAll(env, allowed, body, items)
    ensures var r := Iterate(itf, ord, body, x, base);
            r.d == base && Output(r.trace) == DenoteAll(env, body, items)
    decreases body, 2, ord.rank(x)
  {
    hide Output, Eval, Denote, Respects, Ends, Implements;
    NextEnds(itf, ord, x, base);
    ImplementedMoves(itf, env, view, allowed, x, base, items);
    EvalIsDenote(itf, ord, env, view, allowed, body, x);
    var r := Eval(itf, ord, body, true, x);
    var (z, more) := itf.next(r.d);
    OutputOne(r.trace, Moved(more));
    if more {
      IterateIsDenote(itf, ord, env, view, allowed, body, z, base, items[1..]);
      OutputAppend(r.trace + [Moved(true)], Iterate(itf, ord, body, z, base).trace);
    } else {
      OutputOne(r.trace + [Moved(false)], Left);
      assert r.trace + [Moved(false)] + [Left] == r.trace + [Moved(false), Left];
      assert items[1..] == [] && DenoteAll(env, body, items) == Denote(env, body, items[0]) + "";
    }
  }
}
