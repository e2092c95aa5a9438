/**
 The template engine: one loop with an explicit section stack and jumps back,
 proved to compute the recursive meaning of the section tree, for every data
 interface whose iterations end.
 */
module MustachMachine {
  import opened Text
  import opened MustachText

  // ---------- Data interfaces ----------

  /** The callbacks of a data source whose closure holds a D. They never report a failure. */
  datatype Itf<!D> = Itf(
    enter: (D, string) -> (D, bool),
    next: D -> (D, bool),
    leave: D -> D,
    put: (D, string, bool) -> string)

  /**
   Evidence that iterations end: rank decreases with each next; le relates a
   state to what a balanced use of the interface may make of it, under relates
   it to the states inside a section entered from it.
   */
  datatype Order<!D> = Order(le: (D, D) -> bool, under: (D, D) -> bool, rank: D -> nat)

  ghost predicate Ends<D(!new)>(itf: Itf<D>, ord: Order<D>) {
    && (forall d :: ord.le(d, d))
    && (forall x, y, z :: ord.le(x, y) && ord.le(y, z) ==> ord.le(x, z))
    && (forall x, y :: ord.le(x, y) ==> ord.rank(x) <= ord.rank(y))
    && (forall x, y, d :: ord.le(x, y) && ord.under(y, d) ==> ord.under(x, d))
    && (forall d, n :: if itf.enter(d, n).1 then ord.under(itf.enter(d, n).0, d) else ord.le(itf.enter(d, n).0, d))
    && (forall x, d :: ord.under(x, d) ==> ord.under(itf.next(x).0, d))
    && (forall x :: itf.next(x).1 ==> ord.rank(itf.next(x).0) < ord.rank(x))
    && (forall x, d :: ord.under(x, d) ==> ord.le(itf.leave(x), d))
  }

  /** What the engine does, call by call. */
  datatype Event =
    | Emitted(text: string)
    | Printed(name: string, text: string)
    | Entered(negated: bool, name: string, found: bool)
    | Moved(more: bool)
    | Left

  function Output(trace: seq<Event>): string {
    if trace == [] then "" else
      var e := trace[|trace| - 1];
      Output(trace[..|trace| - 1]) + if e.Emitted? || e.Printed? then e.text else ""
  }

  lemma {:induction false} OutputAppend(s: seq<Event>, t: seq<Event>)
    ensures Output(s + t) == Output(s) + Output(t)
    decreases |t|
  {
    if t == [] {
      assert s + t == s;
    } else {
      assert (s + t)[..|s + t| - 1] == s + t[..|t| - 1];
      OutputAppend(s, t[..|t| - 1]);
    }
  }

  // ---------- Meaning of a tree ----------

  /** State of the data after the run, the calls made, and the number of tags met. */
  datatype Result<D> = Result(d: D, trace: seq<Event>, cost: nat)

  function TextEvents(text: string, enabled: bool): seq<Event> {
    if enabled && text != "" then [Emitted(text)] else []
  }

  ghost function Eval<D(!new)>(itf: Itf<D>, ord: Order<D>, f: Forest, enabled: bool, d: D): (r: Result<D>)
    requires Ends(itf, ord)
    ensures ord.le(r.d, d) && r.cost > 0
    ensures !enabled ==> r.d == d && r.trace == []
    decreases f, 1, 0
  {
    var head := TextEvents(f.text, enabled);
    match f
    case Last(_) => Result(d, head, 1)
    case Note(_, next) =>
      var r := Eval(itf, ord, next, enabled, d);
      Result(r.d, head + r.trace, 1 + r.cost)
    case Variable(_, name, escape, next) =>
      var r := Eval(itf, ord, next, enabled, d);
      Result(r.d, head + (if enabled then [Printed(name, itf.put(d, name, escape))] else []) + r.trace, 1 + r.cost)
    case Section(_, negated, name, body, next) =>
      var s := EvalSection(itf, ord, negated, name, body, enabled, d);
      var r := Eval(itf, ord, next, enabled, s.d);
      Result(r.d, head + s.trace + r.trace, 1 + s.cost + r.cost)
    case Unclosed(_, negated, name, body) =>
      if !enabled then
        var r := Eval(itf, ord, body, false, d);
        Result(d, head, 1 + r.cost)
      else
        // the engine stops inside: the state of the data is not looked at again
        var (d1, found) := itf.enter(d, name);
        var r := Eval(itf, ord, body, found != negated, d1);
        Result(d, head + [Entered(negated, name, found)] + r.trace, 1 + r.cost)
  }

  /** A section: its body once per item, or, when negated, once if there is no item. */
  ghost function EvalSection<D(!new)>(itf: Itf<D>, ord: Order<D>, negated: bool, name: string, body: Forest,
      enabled: bool, d: D): (r: Result<D>)
    requires Ends(itf, ord)
    ensures ord.le(r.d, d) && (!enabled ==> r.d == d && r.trace == [])
    decreases body, 3, 0
  {
    if !enabled then
      var r := Eval(itf, ord, body, false, d);
      Result(d, [], r.cost)
    else
      var (d1, found) := itf.enter(d, name);
      var head := [Entered(negated, name, found)];
      if found && !negated then
        var r := Iterate(itf, ord, body, d1, d);
        Result(r.d, head + r.trace, r.cost)
      else
        var r := Eval(itf, ord, body, negated && !found, d1);
        if found then Result(itf.leave(r.d), head + [Left], r.cost)
        else Result(r.d, head + r.trace, r.cost)
  }

  /** The body for the current item and for those after it, then out of the section entered from base. */
  ghost function Iterate<D(!new)>(itf: Itf<D>, ord: Order<D>, body: Forest, x: D, base: D): (r: Result<D>)
    requires Ends(itf, ord) && ord.under(x, base)
    ensures ord.le(r.d, base) && r.cost > 0
    decreases body, 2, ord.rank(x)
  {
    var r := Eval(itf, ord, body, true, x);
    var (z, more) := itf.next(r.d);
    if more then
      var q := Iterate(itf, ord, body, z, base);
      Result(q.d, r.trace + [Moved(true)] + q.trace, r.cost + q.cost)
    else Result(itf.leave(z), r.trace + [Moved(false), Left], r.cost)
  }

  // ---------- The machine ----------

  /** One level of the section stack. */
  datatype Frame = Frame(name: string, again: string, enabled: bool, entered: bool)

  datatype Config<D> = Config(template: string, stack: seq<Frame>, enabled: bool, d: D)

  datatype Outcome<D> = Halted(code: int) | Running(config: Config<D>)

  /** One turn of the loop. */
  ghost function Step<D(!new)>(itf: Itf<D>, c: Config<D>): (Outcome<D>, seq<Event>) {
    var Lexeme(text, tag) := Lex(c.template);
    var head := TextEvents(text, c.enabled);
    var depth := |c.stack|;
    match tag
    case NoTag => (Halted(if depth > 0 then UNEXPECTED_END else OK), head)
    case BadTag(code) => (Halted(code), head)
    case Tag(kind, name, rest) =>
      match kind
      case Comment => (Running(c.(template := rest)), head)
      case Unmodelled => (Halted(NOT_MODELLED), head)
      case Put(escape) =>
        (Running(c.(template := rest)), head + if c.enabled then [Printed(name, itf.put(c.d, name, escape))] else [])
      case Open(negated) =>
        if depth == MAX_DEPTH then (Halted(TOO_DEEP), head) else
          var (d, found) := if c.enabled then itf.enter(c.d, name) else (c.d, false);
          var enabled := c.enabled && negated != found;
          var frame := Frame(name, rest, c.enabled, found);
          (Running(Config(rest, c.stack + [frame], enabled, d)),
           head + if c.enabled then [Entered(negated, name, found)] else [])
      case Close =>
        if depth == 0 || c.stack[depth - 1].name != name then (Halted(CLOSING), head) else
          var top := c.stack[depth - 1];
          var asks := c.enabled && top.entered;
          var (d, more) := if asks then itf.next(c.d) else (c.d, false);
          var head := head + if asks then [Moved(more)] else [];
          if more then (Running(Config(top.again, c.stack, true, d)), head)
          else if top.enabled && top.entered then
            (Running(Config(rest, c.stack[..depth - 1], top.enabled, itf.leave(d))), head + [Left])
          else (Running(Config(rest, c.stack[..depth - 1], top.enabled, d)), head)
  }

  // ---------- Meaning of a configuration ----------

  /**
   How the data of a configuration relates to the states in which its sections
   were entered; bases lists the latter.
   */
  ghost predicate Based<D(!new)>(ord: Order<D>, stack: seq<Frame>, bases: seq<D>, enabled: bool, d: D)
    requires |stack| == |bases|
    decreases |stack|
  {
    stack == [] ||
    (var n := |stack| - 1;
     var top, base := stack[n], bases[n];
     && (if top.entered then ord.under(d, base) else ord.le(d, base))
     && (top.entered ==> top.enabled)
     && (enabled ==> top.enabled)
     && (!top.enabled ==> d == base)
     && Based(ord, stack[..n], bases[..n], top.enabled, base))
  }

  /** Where a section starts again leads to the same end as where the machine is now. */
  predicate Consistent(stack: seq<Frame>, template: string)
    decreases |stack|
  {
    stack == [] ||
    (var n := |stack| - 1;
     var tail := Parse(template, |stack|).tail;
     && Parse(stack[n].again, |stack|).tail == tail
     && (tail.Closing? && tail.name == stack[n].name ==> Consistent(stack[..n], tail.rest)))
  }

  ghost predicate Good<D(!new)>(ord: Order<D>, c: Config<D>, bases: seq<D>) {
    && |c.stack| == |bases| && |c.stack| <= MAX_DEPTH
    && Based(ord, c.stack, bases, c.enabled, c.d) && Consistent(c.stack, c.template)
  }

  /** What is left to be done in c: answer, calls and number of turns. */
  datatype Future = Future(code: int, trace: seq<Event>, cost: nat)

  function After(trace: seq<Event>, cost: nat, f: Future): Future {
    Future(f.code, trace + f.trace, cost + f.cost)
  }

  ghost predicate Ready<D(!new)>(ord: Order<D>, top: Frame, base: D, enabled: bool, d: D) {
    && (if top.entered then ord.under(d, base) else ord.le(d, base))
    && (top.entered ==> top.enabled) && (enabled ==> top.enabled)
  }

  /** What evaluating part of the template in a section leaves true of the stack. */
  lemma StillBased<D(!new)>(itf: Itf<D>, ord: Order<D>, stack: seq<Frame>, bases: seq<D>, enabled: bool, d: D, d': D)
    requires Ends(itf, ord) && |stack| == |bases| && Based(ord, stack, bases, enabled, d)
    requires ord.le(d', d) && (!enabled ==> d' == d)
    ensures Based(ord, stack, bases, enabled, d')
    ensures stack != [] ==> var n := |stack| - 1;
            Ready(ord, stack[n], bases[n], enabled, d')
                && Based(ord, stack[..n], bases[..n], stack[n].enabled, bases[n])
  {
  }

  /** The end of the section on top of the stack, from its closing tag on; d is the data found there. */
  ghost function EvalClose<D(!new)>(itf: Itf<D>, ord: Order<D>, top: Frame, depth: nat, base: D, enabled: bool,
      d: D): (r: Result<D>)
    requires Ends(itf, ord) && Ready(ord, top, base, enabled, d)
    ensures ord.le(r.d, base) && (!top.enabled ==> r.d == d)
  {
    if enabled && top.entered then
      var (z, more) := itf.next(d);
      if more then
        var q := Iterate(itf, ord, Parse(top.again, depth).forest, z, base);
        Result(q.d, [Moved(true)] + q.trace, q.cost)
      else Result(itf.leave(z), [Moved(false), Left], 0)
    else if top.enabled && top.entered then Result(itf.leave(d), [Left], 0)
    else Result(d, [], 0)
  }

  ghost function Meaning<D(!new)>(itf: Itf<D>, ord: Order<D>, c: Config<D>, bases: seq<D>): (m: Future)
    requires Ends(itf, ord) && |c.stack| == |bases|
    requires Based(ord, c.stack, bases, c.enabled, c.d)
    ensures m.cost > 0
    decreases |c.stack|, 1
  {
    var p := Parse(c.template, |c.stack|);
    var r := Eval(itf, ord, p.forest, c.enabled, c.d);
    StillBased(itf, ord, c.stack, bases, c.enabled, c.d, r.d);
    Rest(itf, ord, c.stack, bases, c.enabled, p.tail, r)
  }

  /** The same once the template has been evaluated, with result r, up to tail. */
  ghost function Rest<D(!new)>(itf: Itf<D>, ord: Order<D>, stack: seq<Frame>, bases: seq<D>, enabled: bool,
      tail: Tail, r: Result<D>): (m: Future)
    requires Ends(itf, ord) && |stack| == |bases| && Based(ord, stack, bases, enabled, r.d)
    ensures m.cost >= r.cost
    decreases |stack|, 0
  {
    var n := |stack| - 1;
    match tail
    case AtEnd => Future(if n >= 0 then UNEXPECTED_END else OK, r.trace, r.cost)
    case Failed(code) => Future(code, r.trace, r.cost)
    case Closing(name, rest) =>
      if n < 0 || stack[n].name != name then Future(CLOSING, r.trace, r.cost) else
        StillBased(itf, ord, stack, bases, enabled, r.d, r.d);
        var e := EvalClose(itf, ord, stack[n], n + 1, bases[n], enabled, r.d);
        StillBased(itf, ord, stack[..n], bases[..n], stack[n].enabled, bases[n], e.d);
        After(r.trace + e.trace, r.cost + e.cost,
              Meaning(itf, ord, Config(rest, stack[..n], stack[n].enabled, e.d), bases[..n]))
  }

  // ---------- Each turn keeps the meaning ----------

  lemma TraceAssoc(a: seq<Event>, b: seq<Event>, c: seq<Event>, d: seq<Event>)
    ensures a + b + c + d == a + (b + c + d)
  {
  }

  /** Calls made before do not change what is left to do. */
  lemma RestAfter<D(!new)>(itf: Itf<D>, ord: Order<D>, stack: seq<Frame>, bases: seq<D>, enabled: bool, tail: Tail,
                           r: Result<D>, s: Result<D>, trace: seq<Event>, cost: nat)
    requires Ends(itf, ord) && |stack| == |bases| && Based(ord, stack, bases, enabled, r.d)
    requires r == Result(s.d, trace + s.trace, cost + s.cost)
    ensures Rest(itf, ord, stack, bases, enabled, tail, r)
            == After(trace, cost, Rest(itf, ord, stack, bases, enabled, tail, s))
  {
    var n := |stack| - 1;
    if tail.Closing? && n >= 0 && stack[n].name == tail.name {
      StillBased(itf, ord, stack, bases, enabled, r.d, r.d);
      hide Ends, Based, Ready;
      var e := EvalClose(itf, ord, stack[n], n + 1, bases[n], enabled, r.d);
      StillBased(itf, ord, stack[..n], bases[..n], stack[n].enabled, bases[n], e.d);
      hide EvalClose, Meaning;
      var m := Meaning(itf, ord, Config(tail.rest, stack[..n], stack[n].enabled, e.d), bases[..n]);
      TraceAssoc(trace, s.trace, e.trace, m.trace);
    }
  }

  /** A comment or a variable: the rest of the template in the same section. */
  lemma PlainTagKeeps<D(!new)>(itf: Itf<D>, ord: Order<D>, c: Config<D>, bases: seq<D>)
    requires Ends(itf, ord) && Good(ord, c, bases)
    requires Lex(c.template).tag.Tag? && (Lex(c.template).tag.kind.Comment? || Lex(c.template).tag.kind.Put?)
    ensures var (o, trace) := Step(itf, c);
            && o.Running? && Good(ord, o.config, bases)
            && Meaning(itf, ord, c, bases) == After(trace, 1, Meaning(itf, ord, o.config, bases))
  {
    hide Ends, Based, Lex;
    var (o, trace) := Step(itf, c);
    var p, p' := Parse(c.template, |c.stack|), Parse(o.config.template, |c.stack|);
    var r, r' := Eval(itf, ord, p.forest, c.enabled, c.d), Eval(itf, ord, p'.forest, c.enabled, c.d);
    assert p.tail == p'.tail && r == Result(r'.d, trace + r'.trace, 1 + r'.cost);
    hide Eval, Parse, Rest, Step;
    StillBased(itf, ord, c.stack, bases, c.enabled, c.d, r.d);
    RestAfter(itf, ord, c.stack, bases, c.enabled, p.tail, r, r', trace, 1);
  }

  /** A section just entered stands on the stack as it should. */
  lemma PushBased<D(!new)>(itf: Itf<D>, ord: Order<D>, c: Config<D>, bases: seq<D>)
    requires Ends(itf, ord) && Good(ord, c, bases)
    requires Lex(c.template).tag.Tag? && Lex(c.template).tag.kind.Open? && |c.stack| < MAX_DEPTH
    ensures var (o, trace) := Step(itf, c);
            o.Running? && Good(ord, o.config, bases + [c.d])
  {
    var c', bases' := Step(itf, c).0.config, bases + [c.d];
    assert c'.stack[..|c.stack|] == c.stack && bases'[..|c.stack|] == bases;
    assert Based(ord, c'.stack, bases', c'.enabled, c'.d) by {
      hide Lex, Parse;
    }
    assert Consistent(c'.stack, c'.template) by {
      hide Ends, Based, Lex;
    }
  }

  /** The start of a section: its frame is pushed. */
  lemma OpenKeeps<D(!new)>(itf: Itf<D>, ord: Order<D>, c: Config<D>, bases: seq<D>)
    requires Ends(itf, ord) && Good(ord, c, bases)
    requires Lex(c.template).tag.Tag? && Lex(c.template).tag.kind.Open? && |c.stack| < MAX_DEPTH
    ensures var (o, trace) := Step(itf, c);
            && o.Running? && Good(ord, o.config, bases + [c.d])
            && Meaning(itf, ord, c, bases) == After(trace, 1, Meaning(itf, ord, o.config, bases + [c.d]))
  {
    PushBased(itf, ord, c, bases);
    var tag := Lex(c.template).tag;
    var p := Parse(tag.rest, |c.stack| + 1);
    if p.tail.Closing? && p.tail.name == tag.name {
      OpenClosed(itf, ord, c, bases);
    } else {
      OpenUnclosed(itf, ord, c, bases);
    }
  }

  /** A section without its closing tag: the error is met in its body. */
  lemma OpenUnclosed<D(!new)>(itf: Itf<D>, ord: Order<D>, c: Config<D>, bases: seq<D>)
    requires Ends(itf, ord) && Good(ord, c, bases)
    requires Lex(c.template).tag.Tag? && Lex(c.template).tag.kind.Open? && |c.stack| < MAX_DEPTH
    requires Step(itf, c).0.Running? && Good(ord, Step(itf, c).0.config, bases + [c.d])
    requires var tag := Lex(c.template).tag;
             !(Parse(tag.rest, |c.stack| + 1).tail.Closing? && Parse(tag.rest, |c.stack| + 1).tail.name == tag.name)
    ensures var (o, trace) := Step(itf, c);
            Meaning(itf, ord, c, bases) == After(trace, 1, Meaning(itf, ord, o.config, bases + [c.d]))
  {
    hide Ends, Based, Lex;
    var depth := |c.stack|;
    var (o, trace) := Step(itf, c);
    var c' := o.config;
    var Lexeme(text, tag) := Lex(c.template);
    var p := Parse(tag.rest, depth + 1);
    var whole := Unclosed(text, tag.kind.negated, tag.name, p.forest);
    assert Parse(c.template, depth).forest == whole;
    var r, r' := Eval(itf, ord, whole, c.enabled, c.d), Eval(itf, ord, p.forest, c'.enabled, c'.d);
    assert c'.stack[depth].name == tag.name;
    assert r.trace == trace + r'.trace && r.cost == 1 + r'.cost;
  }

  /** A section with its closing tag: what the stack will do is what the tree says. */
  lemma OpenClosed<D(!new)>(itf: Itf<D>, ord: Order<D>, c: Config<D>, bases: seq<D>)
    requires Ends(itf, ord) && Good(ord, c, bases)
    requires Lex(c.template).tag.Tag? && Lex(c.template).tag.kind.Open? && |c.stack| < MAX_DEPTH
    requires Step(itf, c).0.Running? && Good(ord, Step(itf, c).0.config, bases + [c.d])
    requires var tag := Lex(c.template).tag;
             Parse(tag.rest, |c.stack| + 1).tail.Closing? && Parse(tag.rest, |c.stack| + 1).tail.name == tag.name
    ensures var (o, trace) := Step(itf, c);
            Meaning(itf, ord, c, bases) == After(trace, 1, Meaning(itf, ord, o.config, bases + [c.d]))
  {
    hide Ends, Lex, Based, Consistent, Eval, EvalClose, EvalSection, Meaning, Rest;
    var depth := |c.stack|;
    var (o, trace) := Step(itf, c);
    var c', bases' := o.config, bases + [c.d];
    var Lexeme(text, tag) := Lex(c.template);
    var negated, frame := tag.kind.negated, c'.stack[depth];
    assert c'.stack == c.stack + [frame] && frame == Frame(tag.name, tag.rest, c.enabled, frame.entered);
    var p := Parse(tag.rest, depth + 1);
    var q := Parse(p.tail.rest, depth);
    assert Parse(c.template, depth) == Parsed(Section(text, negated, tag.name, p.forest, q.forest), q.tail);
    hide Parse;
    SectionEval(itf, ord, text, negated, tag.name, p.forest, q.forest, frame, depth + 1, c.enabled, c.d);
    var r' := Eval(itf, ord, p.forest, c'.enabled, c'.d);
    var e := EvalClose(itf, ord, frame, depth + 1, c.d, c'.enabled, r'.d);
    var s := Eval(itf, ord, q.forest, c.enabled, e.d);
    var r := Eval(itf, ord, Parse(c.template, depth).forest, c.enabled, c.d);
    hide Step;
    OpenClosedRest(itf, ord, c, bases, c', p, q, trace, r', e, r, s);
  }

  /** Opening, body and closing on the stack, and what follows them, make up the section of the tree. */
  lemma SectionEval<D(!new)>(itf: Itf<D>, ord: Order<D>, text: string, negated: bool, name: string, body: Forest,
      next: Forest,
                             top: Frame, depth: nat, enabled: bool, d: D)
    requires Ends(itf, ord) && Parse(top.again, depth).forest == body
    requires var (d1, found) := if enabled then itf.enter(d, name) else (d, false);
             top.enabled == enabled && top.entered == found
    ensures var (d1, found) := if enabled then itf.enter(d, name) else (d, false);
            var inside := enabled && negated != found;
            var r := Eval(itf, ord, body, inside, d1);
            Ready(ord, top, d, inside, r.d) &&
            var e := EvalClose(itf, ord, top, depth, d, inside, r.d);
            var s := Eval(itf, ord, next, enabled, e.d);
            Eval(itf, ord, Section(text, negated, name, body, next), enabled, d)
            == Result(s.d,
                      TextEvents(text, enabled) + (if enabled then [Entered(negated, name, found)] else [])
                      + (r.trace + e.trace) + s.trace,
                      1 + r.cost + e.cost + s.cost)
  {
    SectionIsStack(itf, ord, negated, name, body, top, depth, enabled, d);
    hide Ends, Parse, EvalClose, EvalSection, Ready, TextEvents;
    var sec := EvalSection(itf, ord, negated, name, body, enabled, d);
    var all := Eval(itf, ord, Section(text, negated, name, body, next), enabled, d);
    hide Eval;
    var s := Eval(itf, ord, next, enabled, sec.d);
    assert all == Result(s.d, TextEvents(text, enabled) + sec.trace + s.trace, 1 + sec.cost + s.cost);
    var (d1, found) := if enabled then itf.enter(d, name) else (d, false);
    EventsAssoc(TextEvents(text, enabled), if enabled then [Entered(negated, name, found)] else [],
                sec.trace[if enabled then 1 else 0..], s.trace);
  }

  lemma EventsAssoc(a: seq<Event>, b: seq<Event>, c: seq<Event>, d: seq<Event>)
    ensures a + (b + c) + d == a + b + c + d
  {
  }

  lemma OpenClosedRest<D(!new)>(itf: Itf<D>, ord: Order<D>, c: Config<D>, bases: seq<D>, c': Config<D>,
                                p: Parsed, q: Parsed, trace: seq<Event>, r': Result<D>, e: Result<D>, r: Result<D>,
                                s: Result<D>)
    requires Ends(itf, ord) && Good(ord, c, bases) && Good(ord, c', bases + [c.d])
    requires |c'.stack| == |c.stack| + 1 && c'.stack[..|c.stack|] == c.stack
    requires var frame, depth := c'.stack[|c.stack|], |c.stack|;
             && frame.enabled == c.enabled && p.tail.Closing? && p.tail.name == frame.name
             && p == Parse(c'.template, depth + 1) && q == Parse(p.tail.rest, depth)
             && Parse(c.template, depth).tail == q.tail
             && r' == Eval(itf, ord, p.forest, c'.enabled, c'.d)
             && Ready(ord, frame, c.d, c'.enabled, r'.d)
             && e == EvalClose(itf, ord, frame, depth + 1, c.d, c'.enabled, r'.d)
             && r == Eval(itf, ord, Parse(c.template, depth).forest, c.enabled, c.d)
             && s == Eval(itf, ord, q.forest, c.enabled, e.d)
             && r == Result(s.d, trace + (r'.trace + e.trace) + s.trace, 1 + r'.cost + e.cost + s.cost)
    ensures Meaning(itf, ord, c, bases) == After(trace, 1, Meaning(itf, ord, c', bases + [c.d]))
  {
    hide Ends, Based, Consistent, Parse, Eval, EvalClose, Ready;
    var bases', frame, depth := bases + [c.d], c'.stack[|c.stack|], |c.stack|;
    assert bases'[..depth] == bases;
    var body := r'.trace + e.trace;
    StillBased(itf, ord, c'.stack, bases', c'.enabled, c'.d, r'.d);
    StillBased(itf, ord, c.stack, bases, c.enabled, c.d, e.d);
    StillBased(itf, ord, c.stack, bases, c.enabled, e.d, s.d);
    RestAfter(itf, ord, c.stack, bases, c.enabled, q.tail, r, s, trace + body, 1 + r'.cost + e.cost);
    var m := Meaning(itf, ord, Config(p.tail.rest, c.stack, c.enabled, e.d), bases);
    assert Meaning(itf, ord, c', bases') == After(body, r'.cost + e.cost, m);
    assert trace + body + m.trace == trace + (body + m.trace);
  }

  /** Opening, body and closing on the stack make up the section of the tree. */
  lemma SectionIsStack<D(!new)>(itf: Itf<D>, ord: Order<D>, negated: bool, name: string, body: Forest, top: Frame,
      depth: nat, enabled: bool, d: D)
    requires Ends(itf, ord) && Parse(top.again, depth).forest == body
    requires var (d1, found) := if enabled then itf.enter(d, name) else (d, false);
             top.enabled == enabled && top.entered == found
    ensures var (d1, found) := if enabled then itf.enter(d, name) else (d, false);
            var inside := enabled && negated != found;
            var r := Eval(itf, ord, body, inside, d1);
            Ready(ord, top, d, inside, r.d) &&
            var e := EvalClose(itf, ord, top, depth, d, inside, r.d);
            var sec := EvalSection(itf, ord, negated, name, body, enabled, d);
            && sec.d == e.d && sec.cost == r.cost + e.cost
            && sec.trace == (if enabled then [Entered(negated, name, found)] else []) + (r.trace + e.trace)
  {
    hide Lex, Parse, Eval;
    var (d1, found) := if enabled then itf.enter(d, name) else (d, false);
    var inside := enabled && negated != found;
    var r := Eval(itf, ord, body, inside, d1);
    assert Ready(ord, top, d, inside, r.d);
    hide Ends, Ready;
    var e := EvalClose(itf, ord, top, depth, d, inside, r.d);
    if enabled && found && !negated {
      IterateIsStack(itf, ord, body, top, depth, d1, d);
    }
  }

  /** One round of an iteration, as the stack does it. */
  lemma IterateIsStack<D(!new)>(itf: Itf<D>, ord: Order<D>, body: Forest, top: Frame, depth: nat, x: D, base: D)
    requires Ends(itf, ord) && Parse(top.again, depth).forest == body && ord.under(x, base) && top.entered
             && top.enabled
    ensures var r := Eval(itf, ord, body, true, x);
            Ready(ord, top, base, true, r.d) &&
            var e := EvalClose(itf, ord, top, depth, base, true, r.d);
            Iterate(itf, ord, body, x, base) == Result(e.d, r.trace + e.trace, r.cost + e.cost)
  {
    hide Lex, Parse, Eval;
    var r := Eval(itf, ord, body, true, x);
    assert Ready(ord, top, base, true, r.d);
    hide Ready;
    var (z, more) := itf.next(r.d);
    if more {
      var q := Iterate(itf, ord, body, z, base);
      assert r.trace + ([Moved(true)] + q.trace) == r.trace + [Moved(true)] + q.trace;
    }
  }

  /** The end of a section: out of it, or back to its start. */
  lemma CloseKeeps<D(!new)>(itf: Itf<D>, ord: Order<D>, c: Config<D>, bases: seq<D>) returns (bases': seq<D>)
    requires Ends(itf, ord) && Good(ord, c, bases)
    requires Lex(c.template).tag.Tag? && Lex(c.template).tag.kind.Close?
    requires |c.stack| > 0 && c.stack[|c.stack| - 1].name == Lex(c.template).tag.name
    ensures var (o, trace) := Step(itf, c);
            && o.Running? && Good(ord, o.config, bases')
            && Meaning(itf, ord, c, bases) == After(trace, 1, Meaning(itf, ord, o.config, bases'))
  {
    hide Ends, Based, Lex, Consistent, EvalClose, Meaning, Iterate, EvalSection;
    var n := |c.stack| - 1;
    var (o, trace) := Step(itf, c);
    var c' := o.config;
    var Lexeme(text, tag) := Lex(c.template);
    var top, base := c.stack[n], bases[n];
    assert Parse(c.template, n + 1) == Parsed(Last(text), Closing(tag.name, tag.rest));
    var head := TextEvents(text, c.enabled);
    assert Eval(itf, ord, Last(text), c.enabled, c.d) == Result(c.d, head, 1);
    StillBased(itf, ord, c.stack, bases, c.enabled, c.d, c.d);
    var e := EvalClose(itf, ord, top, n + 1, base, c.enabled, c.d);
    StillBased(itf, ord, c.stack[..n], bases[..n], top.enabled, base, e.d);
    var m := Meaning(itf, ord, Config(tag.rest, c.stack[..n], top.enabled, e.d), bases[..n]);
    hide Parse, Eval;
    CloseMeaning(itf, ord, c, bases, n, tag.rest, Result(c.d, head, 1), e);
    if c.enabled && top.entered && itf.next(c.d).1 {
      bases' := bases;
      AgainKeeps(itf, ord, c, bases, head, tag.rest, e, m);
    } else {
      bases' := bases[..n];
      LeaveKeeps(itf, ord, top, n + 1, base, c.enabled, c.d);
      assert c' == Config(tag.rest, c.stack[..n], top.enabled, e.d) && trace == head + e.trace;
      GoodPop(itf, ord, c, bases, e.d, tag.rest);
    }
  }

  lemma MeaningIsRest<D(!new)>(itf: Itf<D>, ord: Order<D>, c: Config<D>, bases: seq<D>, r: Result<D>)
    requires Ends(itf, ord) && Good(ord, c, bases)
             && r == Eval(itf, ord, Parse(c.template, |c.stack|).forest, c.enabled, c.d)
    ensures Based(ord, c.stack, bases, c.enabled, r.d)
    ensures Meaning(itf, ord, c, bases)
            == Rest(itf, ord, c.stack, bases, c.enabled, Parse(c.template, |c.stack|).tail, r)
  {
    hide Ends, Based, Consistent, Parse, Eval, Rest, Ready;
    StillBased(itf, ord, c.stack, bases, c.enabled, c.d, r.d);
  }

  /** What is left to do in a section: the template up to its closing tag, that tag, and what follows. */
  lemma CloseMeaning<D(!new)>(itf: Itf<D>, ord: Order<D>, c: Config<D>, bases: seq<D>, n: nat, after: string,
      r: Result<D>, e: Result<D>)
    requires Ends(itf, ord) && |c.stack| == |bases| == n + 1 && Good(ord, c, bases)
    requires Parse(c.template, n + 1).tail == Closing(c.stack[n].name, after)
    requires r == Eval(itf, ord, Parse(c.template, n + 1).forest, c.enabled, c.d)
    requires Ready(ord, c.stack[n], bases[n], c.enabled, r.d)
    requires e == EvalClose(itf, ord, c.stack[n], n + 1, bases[n], c.enabled, r.d)
    requires Based(ord, c.stack[..n], bases[..n], c.stack[n].enabled, e.d)
    ensures Meaning(itf, ord, c, bases)
         == After(r.trace + e.trace, r.cost + e.cost,
             Meaning(itf, ord, Config(after, c.stack[..n], c.stack[n].enabled, e.d), bases[..n]))
  {
    hide Ends, Based, Consistent, Parse, Eval, EvalClose, Ready, Meaning;
    MeaningIsRest(itf, ord, c, bases, r);
  }

  /** Out of a section: nothing is evaluated any more. */
  lemma LeaveKeeps<D(!new)>(itf: Itf<D>, ord: Order<D>, top: Frame, depth: nat, base: D, enabled: bool, d: D)
    requires Ends(itf, ord) && Ready(ord, top, base, enabled, d)
    requires !(enabled && top.entered && itf.next(d).1)
    ensures var z := if enabled && top.entered then itf.next(d).0 else d;
            var moved := if enabled && top.entered then [Moved(false)] else [];
            EvalClose(itf, ord, top, depth, base, enabled, d)
            == if top.enabled && top.entered then Result(itf.leave(z), moved + [Left], 0) else Result(z, moved, 0)
  {
    hide Ends;
  }

  lemma GoodPop<D(!new)>(itf: Itf<D>, ord: Order<D>, c: Config<D>, bases: seq<D>, d: D, after: string)
    requires Good(ord, c, bases) && |c.stack| > 0
    requires var n := |c.stack| - 1;
             Parse(c.template, n + 1).tail == Closing(c.stack[n].name, after)
             && Based(ord, c.stack[..n], bases[..n], c.stack[n].enabled, d)
    ensures var n := |c.stack| - 1; Good(ord, Config(after, c.stack[..n], c.stack[n].enabled, d), bases[..n])
  {
    hide Based, Parse;
  }

  /** Back at the start of a section the stack stands as it should. */
  lemma AgainGood<D(!new)>(itf: Itf<D>, ord: Order<D>, c: Config<D>, bases: seq<D>)
    requires Ends(itf, ord) && Good(ord, c, bases) && |c.stack| > 0
    requires var n := |c.stack| - 1;
             c.enabled && c.stack[n].entered && itf.next(c.d).1 && Ready(ord, c.stack[n], bases[n], true, c.d)
    ensures var n := |c.stack| - 1;
            var z := itf.next(c.d).0;
            ord.under(z, bases[n]) && c.stack[n].enabled && Good(ord, Config(c.stack[n].again, c.stack, true, z), bases)
  {
    hide Lex, Parse;
  }

  /** The closing tag of a section with a next item: the rest of the iteration. */
  lemma CloseAgain<D(!new)>(itf: Itf<D>, ord: Order<D>, top: Frame, depth: nat, base: D, d: D)
    requires Ends(itf, ord) && Ready(ord, top, base, true, d) && top.entered && itf.next(d).1
    ensures var z := itf.next(d).0;
            ord.under(z, base) && top.enabled &&
            var r := Eval(itf, ord, Parse(top.again, depth).forest, true, z);
            Ready(ord, top, base, true, r.d) &&
            var f := EvalClose(itf, ord, top, depth, base, true, r.d);
            EvalClose(itf, ord, top, depth, base, true, d)
            == Result(f.d, [Moved(true)] + (r.trace + f.trace), r.cost + f.cost)
  {
    hide Lex, Parse, Eval, Iterate;
    var z := itf.next(d).0;
    assert ord.under(z, base) && top.enabled;
    IterateIsStack(itf, ord, Parse(top.again, depth).forest, top, depth, z, base);
  }

  /** Back at the start of a section, with the data moved to the next item. */
  lemma AgainKeeps<D(!new)>(itf: Itf<D>, ord: Order<D>, c: Config<D>, bases: seq<D>, head: seq<Event>, after: string,
      e: Result<D>, m: Future)
    requires Ends(itf, ord) && Good(ord, c, bases) && |c.stack| > 0
    requires var n := |c.stack| - 1;
             && c.enabled && c.stack[n].entered && itf.next(c.d).1
             && Parse(c.template, n + 1).tail == Closing(c.stack[n].name, after)
             && Ready(ord, c.stack[n], bases[n], true, c.d)
             && e == EvalClose(itf, ord, c.stack[n], n + 1, bases[n], true, c.d)
             && Based(ord, c.stack[..n], bases[..n], c.stack[n].enabled, e.d)
             && m == Meaning(itf, ord, Config(after, c.stack[..n], c.stack[n].enabled, e.d), bases[..n])
    ensures var n := |c.stack| - 1;
            var c' := Config(c.stack[n].again, c.stack, true, itf.next(c.d).0);
            && Good(ord, c', bases)
            && After(head + e.trace, 1 + e.cost, m) == After(head + [Moved(true)], 1, Meaning(itf, ord, c', bases))
  {
    AgainGood(itf, ord, c, bases);
    hide Ends, Based, Lex, Parse, Eval, EvalClose, Ready, Iterate, Meaning, After;
    var n := |c.stack| - 1;
    var top, base := c.stack[n], bases[n];
    var z := itf.next(c.d).0;
    var c' := Config(top.again, c.stack, true, z);
    CloseAgain(itf, ord, top, n + 1, base, c.d);
    var r := Eval(itf, ord, Parse(top.again, n + 1).forest, true, z);
    var f := EvalClose(itf, ord, top, n + 1, base, true, r.d);
    assert Parse(top.again, n + 1).tail == Parse(c.template, n + 1).tail;
    CloseMeaning(itf, ord, c', bases, n, after, r, f);
    AfterTwice(head, [Moved(true)], r.trace + f.trace, r.cost + f.cost, m);
  }

  lemma AfterTwice(a: seq<Event>, b: seq<Event>, c: seq<Event>, cost: nat, m: Future)
    ensures After(a + (b + c), 1 + cost, m) == After(a + b, 1, After(c, cost, m))
  {
    assert a + (b + c) + m.trace == a + b + (c + m.trace);
  }

  lemma StepKeeps<D(!new)>(itf: Itf<D>, ord: Order<D>, c: Config<D>, bases: seq<D>) returns (bases': seq<D>)
    requires Ends(itf, ord) && Good(ord, c, bases)
    ensures var (o, trace) := Step(itf, c);
            if o.Halted? then Meaning(itf, ord, c, bases) == Future(o.code, trace, 1)
            else Good(ord, o.config, bases')
                 && Meaning(itf, ord, c, bases) == After(trace, 1, Meaning(itf, ord, o.config, bases'))
  {
    hide Ends, Based, Lex, Consistent;
    bases' := bases;
    var Lexeme(text, tag) := Lex(c.template);
    var depth := |c.stack|;
    if tag.Tag? && (tag.kind.Comment? || tag.kind.Put?) {
      PlainTagKeeps(itf, ord, c, bases);
    } else if tag.Tag? && tag.kind.Open? && depth < MAX_DEPTH {
      OpenKeeps(itf, ord, c, bases);
      bases' := bases + [c.d];
    } else if tag.Tag? && tag.kind.Close? && depth > 0 && c.stack[depth - 1].name == tag.name {
      bases' := CloseKeeps(itf, ord, c, bases);
    } else {
      assert Parse(c.template, depth).forest == Last(text);
      assert Eval(itf, ord, Last(text), c.enabled, c.d) == Result(c.d, TextEvents(text, c.enabled), 1);
    }
  }

  // ---------- The loop ----------

  lemma OutputOne(trace: seq<Event>, e: Event)
    ensures Output(trace + [e]) == Output(trace) + if e.Emitted? || e.Printed? then e.text else ""
    ensures Output([]) == ""
  {
    assert (trace + [e])[..|trace|] == trace;
  }

  /** The opening tag of a section. */
  method OpenNext<D(!new)>(itf: Itf<D>, negated: bool, name: string, enabled: bool, d: D, ghost trace: seq<Event>)
    returns (found: bool, enabled': bool, d': D, ghost calls: seq<Event>)
    ensures (d', found) == if enabled then itf.enter(d, name) else (d, false)
    ensures enabled' == (enabled && negated != found)
    ensures calls == if enabled then [Entered(negated, name, found)] else []
    ensures Output(trace + calls) == Output(trace)
  {
    hide Output;
    found, enabled', d', calls := false, enabled, d, [];
    assert trace + [] == trace;
    if enabled {
      var entered := itf.enter(d, name);
      d', found := entered.0, entered.1;
      OutputOne(trace, Entered(negated, name, found));
      calls := [Entered(negated, name, found)];
    }
    if !negated == !found {
      enabled' := false;
    }
  }

  /** The closing tag of the section on top: back to its start, or out of it. */
  method CloseTop<D(!new)>(itf: Itf<D>, top: Frame, enabled: bool, d: D, ghost trace: seq<Event>)
    returns (again: bool, enabled': bool, d': D, ghost calls: seq<Event>)
    ensures var (z, more) := if enabled && top.entered then itf.next(d) else (d, false);
            var left := !more && top.enabled && top.entered;
            && again == more && enabled' == (if more then enabled else top.enabled)
            && d' == (if left then itf.leave(z) else z)
            && calls == (if enabled && top.entered then [Moved(more)] else []) + (if left then [Left] else [])
    ensures Output(trace + calls) == Output(trace)
  {
    hide Output;
    again, enabled', d', calls := false, enabled, d, [];
    assert trace + [] == trace;
    if enabled && top.entered {
      var moved := itf.next(d);
      d', again := moved.0, moved.1;
      OutputOne(trace, Moved(again));
      calls := [Moved(again)];
    }
    if !again {
      enabled' := top.enabled;
      if enabled' && top.entered {
        d' := itf.leave(d');
        OutputOne(trace + calls, Left);
        assert trace + (calls + [Left]) == trace + calls + [Left];
        calls := calls + [Left];
      }
    }
  }

  /** What one turn makes of the configuration c: the values of the loop's variables after it. */
  ghost predicate Turned<D(!new)>(itf: Itf<D>, c: Config<D>, code: Option<int>, template': string, stack': seq<Frame>,
                                  enabled': bool, d': D, add: string) {
    var (o, trace) := Step(itf, c);
    && add == Output(trace)
    && match o
       case Halted(rc) => code == Some(rc)
       case Running(c') => code == None && c' == Config(template', stack', enabled', d')
  }

  method TurnOpen<D(!new)>(itf: Itf<D>, stack: array<Frame>, template: string, depth: nat, enabled: bool, d: D,
      head: string)
    returns (code: Option<int>, template': string, depth': nat, enabled': bool, d': D)
    requires stack.Length == MAX_DEPTH && depth <= MAX_DEPTH
    requires Lex(template).tag.Tag? && Lex(template).tag.kind.Open?
             && head == Output(TextEvents(Lex(template).text, enabled))
    modifies stack
    ensures depth' <= MAX_DEPTH
    ensures Turned(itf, Config(template, old(stack[..depth]), enabled, d), code, template', stack[..depth'],
            enabled', d', head)
  {
    hide Lex, Output, TextEvents;
    ghost var frames := stack[..depth];
    var Lexeme(text, tag) := Lex(template);
    code, template', depth', enabled', d' := None, tag.rest, depth, enabled, d;
    if depth == MAX_DEPTH {
      code := Some(TOO_DEEP);
      return;
    }
    var found;
    ghost var calls;
    found, enabled', d', calls := OpenNext(itf, tag.kind.negated, tag.name, enabled, d, TextEvents(text, enabled));
    stack[depth] := Frame(tag.name, template', enabled, found);
    depth' := depth + 1;
    assert stack[..depth'] == frames + [Frame(tag.name, template', enabled, found)];
  }

  method TurnClose<D(!new)>(itf: Itf<D>, stack: array<Frame>, template: string, depth: nat, enabled: bool, d: D,
      head: string)
    returns (code: Option<int>, template': string, depth': nat, enabled': bool, d': D)
    requires stack.Length == MAX_DEPTH && depth <= MAX_DEPTH
    requires Lex(template).tag.Tag? && Lex(template).tag.kind.Close?
             && head == Output(TextEvents(Lex(template).text, enabled))
    ensures depth' <= MAX_DEPTH
    ensures Turned(itf, Config(template, stack[..depth], enabled, d), code, template', stack[..depth'], enabled', d',
            head)
  {
    hide Lex, Output, TextEvents;
    ghost var frames := stack[..depth];
    var Lexeme(text, tag) := Lex(template);
    code, template', depth', enabled', d' := None, tag.rest, depth, enabled, d;
    if depth == 0 || stack[depth - 1].name != tag.name {
      code := Some(CLOSING);
      return;
    }
    depth' := depth - 1;
    assert frames[depth'] == stack[depth'] && stack[..depth'] == frames[..depth'];
    var again;
    ghost var calls;
    again, enabled', d', calls := CloseTop(itf, stack[depth'], enabled, d, TextEvents(text, enabled));
    ghost var asked := if enabled && frames[depth'].entered then [Moved(again)] else [];
    assert TextEvents(text, enabled) + asked + [Left] == TextEvents(text, enabled) + (asked + [Left]);
    assert asked + [] == asked;
    if again {
      template' := stack[depth'].again;
      depth' := depth' + 1;
    }
  }

  /** One turn of the loop; code is set when the engine returns. */
  method Turn<D(!new)>(itf: Itf<D>, stack: array<Frame>, template: string, depth: nat, enabled: bool, d: D)
    returns (code: Option<int>, template': string, depth': nat, enabled': bool, d': D, add: string)
    requires stack.Length == MAX_DEPTH && depth <= MAX_DEPTH
    modifies stack
    ensures depth' <= MAX_DEPTH
    ensures Turned(itf, Config(template, old(stack[..depth]), enabled, d), code, template', stack[..depth'],
            enabled', d', add)
  {
    hide Lex, Output;
    ghost var trace: seq<Event> := [];
    OutputOne([], Emitted(""));
    code, template', depth', enabled', d', add := None, template, depth, enabled, d, "";
    var Lexeme(text, tag) := Lex(template);
    if enabled && text != "" {
      add := add + text;
      OutputOne(trace, Emitted(text));
      trace := trace + [Emitted(text)];
    }
    assert trace == TextEvents(text, enabled);
    match tag
    case NoTag => code := Some(if depth > 0 then UNEXPECTED_END else OK);
    case BadTag(rc) => code := Some(rc);
    case Tag(kind, name, rest) =>
      template' := rest;
      match kind
      case Comment =>
      case Unmodelled => code := Some(NOT_MODELLED);
      case Put(escape) =>
        if enabled {
          var text := itf.put(d, name, escape);
          add := add + text;
          OutputOne(trace, Printed(name, text));
        } else {
          assert trace + [] == trace;
        }
      case Open(_) =>
        code, template', depth', enabled', d' := TurnOpen(itf, stack, template, depth, enabled, d, add);
      case Close =>
        code, template', depth', enabled', d' := TurnClose(itf, stack, template, depth, enabled, d, add);
  }

  lemma StartMeaning<D(!new)>(itf: Itf<D>, ord: Order<D>, text: string, data: D)
    requires Ends(itf, ord)
    ensures Good(ord, Config(text, [], true, data), [])
    ensures var m := Meaning(itf, ord, Config(text, [], true, data), []);
            m.code == Verdict(text) && m.trace == Eval(itf, ord, Parse(text, 0).forest, true, data).trace
  {
    hide Ends;
    var p := Parse(text, 0);
    var r := Eval(itf, ord, p.forest, true, data);
    var m := Rest(itf, ord, [], [], true, p.tail, r);
    hide Parse, Eval;
  }

  /** The answer and the calls of the machine started in c, if it stops within the given number of turns. */
  ghost function RunFor<D(!new)>(itf: Itf<D>, c: Config<D>, turns: nat): Option<(int, seq<Event>)>
    decreases turns
  {
    if turns == 0 then None else
      var (o, trace) := Step(itf, c);
      match o
      case Halted(code) => Some((code, trace))
      case Running(c') =>
        match RunFor(itf, c', turns - 1)
        case None => None
        case Some((code, more)) => Some((code, trace + more))
  }

  /** The answer that a stretch of template with the given tail leads to, on the given stack. */
  function Answer(tail: Tail, stack: seq<Frame>): int
    decreases |stack|
  {
    var n := |stack| - 1;
    match tail
    case AtEnd => if n >= 0 then UNEXPECTED_END else OK
    case Failed(code) => code
    case Closing(name, rest) =>
      if n < 0 || stack[n].name != name then CLOSING else Answer(Parse(rest, n).tail, stack[..n])
  }

  lemma OpenKeepsAnswer(template: string, stack: seq<Frame>, top: Frame)
    requires Consistent(stack, template) && |stack| != MAX_DEPTH
    requires var tag := Lex(template).tag; tag.Tag? && tag.kind.Open? && top.name == tag.name && top.again == tag.rest
    ensures Consistent(stack + [top], top.again)
    ensures Answer(Parse(top.again, |stack| + 1).tail, stack + [top]) == Answer(Parse(template, |stack|).tail, stack)
  {
    hide Lex;
    assert (stack + [top])[..|stack|] == stack;
    var tail := Parse(top.again, |stack| + 1).tail;
    if tail.Closing? && tail.name == top.name {
      assert Parse(template, |stack|).tail == Parse(tail.rest, |stack|).tail;
    }
  }

  lemma CloseKeepsAnswer(template: string, stack: seq<Frame>)
    requires Consistent(stack, template) && stack != []
    requires var tag := Lex(template).tag; tag.Tag? && tag.kind.Close? && tag.name == stack[|stack| - 1].name
    ensures var n, rest := |stack| - 1, Lex(template).tag.rest;
            var code := Answer(Parse(template, n + 1).tail, stack);
            && Consistent(stack[..n], rest) && Answer(Parse(rest, n).tail, stack[..n]) == code
            && Consistent(stack, stack[n].again) && Answer(Parse(stack[n].again, n + 1).tail, stack) == code
  {
    hide Lex;
    assert Parse(template, |stack|).tail == Closing(Lex(template).tag.name, Lex(template).tag.rest);
  }

  /** Each turn, whatever the interface answers, keeps the answer that the template leads to. */
  lemma StepKeepsAnswer<D(!new)>(itf: Itf<D>, c: Config<D>)
    requires Consistent(c.stack, c.template)
    ensures var o := Step(itf, c).0;
            var code := Answer(Parse(c.template, |c.stack|).tail, c.stack);
            if o.Halted? then o.code == code
            else Consistent(o.config.stack, o.config.template)
                 && Answer(Parse(o.config.template, |o.config.stack|).tail, o.config.stack) == code
  {
    hide Lex, TextEvents, Consistent;
    var tag, o, n := Lex(c.template).tag, Step(itf, c).0, |c.stack|;
    if tag.Tag? && tag.kind.Open? && n != MAX_DEPTH {
      OpenKeepsAnswer(c.template, c.stack, o.config.stack[n]);
    } else if tag.Tag? && tag.kind.Close? && o.Running? {
      CloseKeepsAnswer(c.template, c.stack);
    } else if tag.Tag? && o.Running? {
      SameTailIsConsistent(c.stack, c.template, tag.rest);
    }
  }

  lemma SameTailIsConsistent(stack: seq<Frame>, s: string, t: string)
    requires Consistent(stack, s) && Parse(s, |stack|).tail == Parse(t, |stack|).tail
    ensures Consistent(stack, t)
  {
    hide Parse;
  }

  /** The answer depends on the text alone: no interface, however it behaves, makes the machine stop with another. */
  lemma {:induction false} RunAnswers<D(!new)>(itf: Itf<D>, c: Config<D>, turns: nat)
    requires Consistent(c.stack, c.template) && RunFor(itf, c, turns).Some?
    ensures RunFor(itf, c, turns).value.0 == Answer(Parse(c.template, |c.stack|).tail, c.stack)
    decreases turns
  {
    hide Step, Consistent, Parse, Answer;
    StepKeepsAnswer(itf, c);
    var o := Step(itf, c).0;
    if o.Running? {
      RunAnswers(itf, o.config, turns - 1);
    }
  }

  lemma EveryRunAnswersVerdict<D(!new)>(itf: Itf<D>, text: string, data: D, turns: nat, code: int, calls: seq<Event>)
    requires RunFor(itf, Config(text, [], true, data), turns) == Some((code, calls))
    ensures code == Verdict(text)
  {
    RunAnswers(itf, Config(text, [], true, data), turns);
  }

  lemma {:induction false} RunIsMeaning<D(!new)>(itf: Itf<D>, ord: Order<D>, c: Config<D>, bases: seq<D>)
    requires Ends(itf, ord) && Good(ord, c, bases)
    ensures var m := Meaning(itf, ord, c, bases);
            RunFor(itf, c, m.cost) == Some((m.code, m.trace))
    decreases Meaning(itf, ord, c, bases).cost
  {
    hide Ends, Based, Consistent, Step, Meaning;
    var bases' := StepKeeps(itf, ord, c, bases);
    var (o, trace) := Step(itf, c);
    if o.Running? {
      RunIsMeaning(itf, ord, o.config, bases');
    }
  }

  lemma {:induction false} RunIsStable<D(!new)>(itf: Itf<D>, c: Config<D>, turns: nat, more: nat)
    requires RunFor(itf, c, turns).Some? && turns <= more
    ensures RunFor(itf, c, more) == RunFor(itf, c, turns)
    decreases turns
  {
    hide Step;
    var o := Step(itf, c).0;
    if o.Running? {
      RunIsStable(itf, o.config, turns - 1, more - 1);
    }
  }

  /** The machine stops on every template, with the verdict on it and the very calls that the tree prescribes. */
  lemma MachineFollowsTree<D(!new)>(itf: Itf<D>, ord: Order<D>, text: string, data: D)
    requires Ends(itf, ord)
    ensures var c, r := Config(text, [], true, data),
            (Verdict(text), Eval(itf, ord, Parse(text, 0).forest, true, data).trace);
            && (exists turns :: RunFor(itf, c, turns) == Some(r))
            && (forall turns :: RunFor(itf, c, turns).Some? ==> RunFor(itf, c, turns) == Some(r))
  {
    hide Ends, Meaning, Eval, Parse, Verdict, Step, RunFor;
    var c := Config(text, [], true, data);
    StartMeaning(itf, ord, text, data);
    RunIsMeaning(itf, ord, c, []);
    var enough := Meaning(itf, ord, c, []).cost;
    forall turns | RunFor(itf, c, turns).Some? ensures RunFor(itf, c, turns) == RunFor(itf, c, enough) {
      if turns <= enough {
        RunIsStable(itf, c, turns, enough);
      } else {
        RunIsStable(itf, c, enough, turns);
      }
    }
  }

  /** After the calls in done, what is left to do in c completes what was to be done at the start. */
  ghost predicate Progress<D(!new)>(itf: Itf<D>, ord: Order<D>, c: Config<D>, bases: seq<D>, start: Future,
      done: seq<Event>)
    requires Ends(itf, ord)
  {
    && Good(ord, c, bases)
    && Meaning(itf, ord, c, bases).code == start.code
    && done + Meaning(itf, ord, c, bases).trace == start.trace
  }

  ghost function Remaining<D(!new)>(itf: Itf<D>, ord: Order<D>, c: Config<D>, bases: seq<D>): nat
    requires Ends(itf, ord)
  {
    if Good(ord, c, bases) then Meaning(itf, ord, c, bases).cost else 0
  }

  lemma ProgressStep<D(!new)>(itf: Itf<D>, ord: Order<D>, c: Config<D>, bases: seq<D>, start: Future, done: seq<Event>)
    returns (bases': seq<D>)
    requires Ends(itf, ord) && Progress(itf, ord, c, bases, start, done)
    ensures var (o, trace) := Step(itf, c);
            && Output(done + trace) == Output(done) + Output(trace)
            && if o.Halted? then o.code == start.code && done + trace == start.trace
               else Progress(itf, ord, o.config, bases', start, done + trace)
                    && Remaining(itf, ord, o.config, bases') < Remaining(itf, ord, c, bases)
  {
    hide Ends, Based, Consistent, Step, Meaning, Output;
    var (o, trace) := Step(itf, c);
    bases' := StepKeeps(itf, ord, c, bases);
    OutputAppend(done, trace);
    if o.Running? {
      var m := Meaning(itf, ord, o.config, bases');
      assert done + (trace + m.trace) == done + trace + m.trace;
    }
  }

  /**
   The engine. For every template and every interface whose iterations end it
   stops, its answer is the verdict on the template, and its output is that of
   the recursive meaning of the section tree.
   */
  method Process<D(!new)>(text: string, itf: Itf<D>, ghost ord: Order<D>, data: D) returns (rc: int, out: string)
    requires Ends(itf, ord)
    ensures rc == Verdict(text)
    ensures out == Output(Eval(itf, ord, Parse(text, 0).forest, true, data).trace)
  {
    var stack := new Frame[MAX_DEPTH](_ => Frame("", "", false, false));
    var template, d, enabled, depth := text, data, true, 0;
    out := "";
    ghost var bases: seq<D>, done: seq<Event> := [], [];
    ghost var start := Meaning(itf, ord, Config(text, [], true, data), []);
    StartMeaning(itf, ord, text, data);
    hide Ends, Good, Step, Parse, Eval, Lex, Meaning, Output, Verdict;
    OutputOne([], Left);
    assert done + start.trace == start.trace && stack[..0] == [];
    while true
      invariant 0 <= depth <= MAX_DEPTH && stack.Length == MAX_DEPTH
      invariant Progress(itf, ord, Config(template, stack[..depth], enabled, d), bases, start, done)
      invariant out == Output(done)
      decreases Remaining(itf, ord, Config(template, stack[..depth], enabled, d), bases)
    {
      hide Progress, Remaining;
      ghost var c := Config(template, stack[..depth], enabled, d);
      ghost var trace := Step(itf, c).1;
      bases := ProgressStep(itf, ord, c, bases, start, done);
      var code, add;
      code, template, depth, enabled, d, add := Turn(itf, stack, template, depth, enabled, d);
      out := out + add;
      done := done + trace;
      if code.Some? {
        return code.value, out;
      }
    }
  }
}
