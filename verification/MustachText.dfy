/** Templates as text: tags between double braces, and the tree of sections they describe. */
module MustachText {
  import opened Text

  const MAX_DEPTH := 256
  const MAX_LENGTH := 1024

  const OK := 0
  const UNEXPECTED_END := -2
  const EMPTY_TAG := -3
  const TAG_TOO_LONG := -4
  const TOO_DEEP := -6
  const CLOSING := -7
  const BAD_UNESCAPE_TAG := -8
  /** Stands for what the program does with a tag that is not part of the model. */
  const NOT_MODELLED := -1000

  // ---------- One tag ----------

  /** Position of the first cc in s. */
  function Find(s: string, c: char): (r: Option<nat>)
    ensures r.Some? ==> r.value + 1 < |s| && s[r.value] == c && s[r.value + 1] == c
  {
    if |s| < 2 then None
    else if s[0] == c && s[1] == c then Some(0)
    else match Find(s[1..], c)
      case None => None
      case Some(n) => Some(n + 1)
  }

  predicate IsSpace(c: char) {
    c == ' ' || 9 <= c as int <= 13
  }

  function TrimLeft(s: string): (r: string)
    ensures |r| <= |s|
  {
    if s != "" && IsSpace(s[0]) then TrimLeft(s[1..]) else s
  }

  function TrimRight(s: string): (r: string)
    ensures |r| <= |s|
  {
    if s != "" && IsSpace(s[|s| - 1]) then TrimRight(s[..|s| - 1]) else s
  }

  datatype Kind = Comment | Open(negated: bool) | Close | Put(escape: bool) | Unmodelled

  datatype Tag = NoTag | BadTag(code: int) | Tag(kind: Kind, name: string, rest: string)

  /** The text before the next tag, and that tag with the template that follows it. */
  datatype Lexeme = Lexeme(text: string, tag: Tag)

  function Named(kind: Kind, raw: string, rest: string): Tag {
    var name := TrimRight(TrimLeft(raw));
    if name == "" then BadTag(EMPTY_TAG)
    else if |name| > MAX_LENGTH then BadTag(TAG_TOO_LONG)
    else Tag(kind, name, rest)
  }

  /** The tag whose text, behind the opening braces, is body[..len], closed by the braces at len. */
  function TagOf(body: string, len: nat): (r: Tag)
    requires len + 2 <= |body| && body[len] == '}'
    ensures r.Tag? ==> |r.rest| < |body|
  {
    var rest := body[len + 2..];
    match body[0]
    case '!' => Tag(Comment, "", rest)
    case '=' => Tag(Unmodelled, "", rest)
    case '{' =>
      if rest == "" || rest[0] != '}' then BadTag(BAD_UNESCAPE_TAG) else Named(Put(false), body[1..len], rest[1..])
    case '^' => Named(Open(true), body[1..len], rest)
    case '#' => Named(Open(false), body[1..len], rest)
    case '/' => Named(Close, body[1..len], rest)
    case '&' => Named(Put(false), body[1..len], rest)
    case '>' => Named(Unmodelled, body[1..len], rest)
    case ':' => Named(Put(true), body[1..len], rest)
    case _ => Named(Put(true), body[..len], rest)
  }

  function Lex(s: string): (r: Lexeme)
    ensures r.tag.Tag? ==> |r.tag.rest| < |s|
  {
    match Find(s, '{')
    case None => Lexeme(s, NoTag)
    case Some(b) =>
      var body := s[b + 2..];
      Lexeme(s[..b],
             match Find(body, '}')
             case None => BadTag(UNEXPECTED_END)
             case Some(len) => TagOf(body, len))
  }

  // ---------- The tree ----------

  /**
   What a stretch of template holds, up to its end, to an error or to the tag
   that closes the section around it. Every node carries the text before its
   tag. Unclosed is a section whose closing tag is missing.
   */
  datatype Forest =
    | Last(text: string)
    | Note(text: string, next: Forest)
    | Variable(text: string, name: string, escape: bool, next: Forest)
    | Section(text: string, negated: bool, name: string, body: Forest, next: Forest)
    | Unclosed(text: string, negated: bool, name: string, body: Forest)

  /** Why a stretch ends. */
  datatype Tail = AtEnd | Closing(name: string, rest: string) | Failed(code: int)

  datatype Parsed = Parsed(forest: Forest, tail: Tail)

  function Parse(s: string, depth: nat): (r: Parsed)
    ensures r.tail.Closing? ==> |r.tail.rest| < |s|
    decreases |s|
  {
    var Lexeme(text, tag) := Lex(s);
    match tag
    case NoTag => Parsed(Last(text), AtEnd)
    case BadTag(code) => Parsed(Last(text), Failed(code))
    case Tag(kind, name, rest) =>
      match kind
      case Comment =>
        var p := Parse(rest, depth);
        Parsed(Note(text, p.forest), p.tail)
      case Put(escape) =>
        var p := Parse(rest, depth);
        Parsed(Variable(text, name, escape, p.forest), p.tail)
      case Unmodelled => Parsed(Last(text), Failed(NOT_MODELLED))
      case Close => Parsed(Last(text), Closing(name, rest))
      case Open(negated) =>
        if depth == MAX_DEPTH then Parsed(Last(text), Failed(TOO_DEEP)) else
          var p := Parse(rest, depth + 1);
          match p.tail
          case AtEnd => Parsed(Unclosed(text, negated, name, p.forest), Failed(UNEXPECTED_END))
          case Failed(code) => Parsed(Unclosed(text, negated, name, p.forest), Failed(code))
          case Closing(closed, after) =>
            if closed != name then Parsed(Unclosed(text, negated, name, p.forest), Failed(CLOSING)) else
              var q := Parse(after, depth);
              Parsed(Section(text, negated, name, p.forest, q.forest), q.tail)
  }

  /** The answer of the engine, a function of the template alone. */
  function Verdict(s: string): int {
    match Parse(s, 0).tail
    case AtEnd => OK
    case Closing(_, _) => CLOSING
    case Failed(code) => code
  }

  predicate Closed(f: Forest) {
    match f
    case Last(_) => true
    case Note(_, next) => Closed(next)
    case Variable(_, _, _, next) => Closed(next)
    case Section(_, _, _, body, next) => Closed(body) && Closed(next)
    case Unclosed(_, _, _, _) => false
  }

  /** A stretch that ends properly has only closed sections. */
  lemma {:induction false} ParsedIsClosed(s: string, depth: nat)
    ensures !Parse(s, depth).tail.Failed? ==> Closed(Parse(s, depth).forest)
    decreases |s|
  {
    hide Lex;
    var Lexeme(text, tag) := Lex(s);
    if tag.Tag? {
      match tag.kind
      case Comment => ParsedIsClosed(tag.rest, depth);
      case Put(_) => ParsedIsClosed(tag.rest, depth);
      case Open(_) =>
        if depth != MAX_DEPTH {
          ParsedIsClosed(tag.rest, depth + 1);
          var p := Parse(tag.rest, depth + 1);
          if p.tail.Closing? && p.tail.name == tag.name {
            ParsedIsClosed(p.tail.rest, depth);
          }
        }
      case _ =>
    }
  }

  // ---------- Printing a tree, and reading it back ----------

  /** Text that can stand in front of a tag: no tag starts in it, nor with its last character. */
  predicate PlainText(s: string) {
    forall i :: 0 <= i < |s| && s[i] == '{' ==> i + 1 < |s| && s[i + 1] != '{'
  }

  predicate GoodName(n: string) {
    && 0 < |n| <= MAX_LENGTH
    && !(9 <= n[0] as int <= 13) && n[0] as int != 32
    && !(9 <= n[|n| - 1] as int <= 13) && n[|n| - 1] as int != 32
    && n[0] !in "!={^#/&>:"
    && n[|n| - 1] != '}'
    && (forall i :: 0 <= i < |n| - 1 && n[i] == '}' ==> n[i + 1] != '}')
  }

  predicate Printable(f: Forest, depth: nat)
    decreases f
  {
    PlainText(f.text) &&
    match f
    case Last(_) => true
    case Note(_, next) => Printable(next, depth)
    case Variable(_, name, _, next) => GoodName(name) && Printable(next, depth)
    case Section(_, _, name, body, next) =>
      GoodName(name) && depth < MAX_DEPTH && Printable(body, depth + 1) && Printable(next, depth)
    case Unclosed(_, _, _, _) => false
  }

  function Sigil(kind: Kind): string {
    match kind
    case Comment => "!"
    case Open(negated) => if negated then "^" else "#"
    case Close => "/"
    case Put(escape) => if escape then "" else "&"
    case Unmodelled => ">"
  }

  function ShowTag(kind: Kind, name: string): string {
    ['{', '{'] + (Sigil(kind) + name) + ['}', '}']
  }

  /** The template of the tree f followed by the template t. */
  function Show(f: Forest, t: string): string
    decreases f
  {
    f.text +
    match f
    case Last(_) => t
    case Note(_, next) => ShowTag(Comment, "") + Show(next, t)
    case Variable(_, name, escape, next) => ShowTag(Put(escape), name) + Show(next, t)
    case Section(_, negated, name, body, next) =>
      ShowTag(Open(negated), name) + Show(body, ShowTag(Close, name) + Show(next, t))
    case Unclosed(_, _, _, _) => ""
  }

  lemma {:induction false} FindAfter(s: string, c: char, t: string)
    requires forall i :: 0 <= i < |s| && s[i] == c ==> i + 1 < |s| && s[i + 1] != c
    ensures Find(s + [c, c] + t, c) == Some(|s|)
  {
    var u := s + [c, c] + t;
    if s != "" {
      assert u[1..] == s[1..] + [c, c] + t;
      assert s[0] == c ==> u[1] == s[1];
      forall i | 0 <= i < |s[1..]| && s[1..][i] == c ensures i + 1 < |s[1..]| && s[1..][i + 1] != c {
        assert s[1..][i] == s[i + 1];
      }
      FindAfter(s[1..], c, t);
    }
  }

  lemma {:induction false} FindNothing(s: string, c: char)
    requires forall i :: 0 <= i < |s| && s[i] == c ==> i + 1 < |s| && s[i + 1] != c
    ensures Find(s, c) == None
  {
    if s != "" {
      forall i | 0 <= i < |s[1..]| && s[1..][i] == c ensures i + 1 < |s[1..]| && s[1..][i + 1] != c {
        assert s[1..][i] == s[i + 1];
      }
      FindNothing(s[1..], c);
    }
  }

  lemma NamedGood(kind: Kind, name: string, rest: string)
    requires GoodName(name)
    ensures Named(kind, name, rest) == Tag(kind, name, rest)
  {
  }

  lemma TagShown(kind: Kind, name: string, t: string)
    requires kind != Unmodelled && (if kind == Comment then name == "" else GoodName(name))
    ensures var inner := Sigil(kind) + name;
            TagOf(inner + ['}', '}'] + t, |inner|) == Tag(kind, name, t)
  {
    var inner, k := Sigil(kind) + name, |Sigil(kind)|;
    var body := inner + ['}', '}'] + t;
    assert body[|inner| + 2..] == t && body[k..|inner|] == name;
    hide Named;
    if kind != Comment {
      NamedGood(kind, name, t);
      assert body[k] == name[0];
      assert body[..|inner|] == body[0..|inner|];
    }
  }

  lemma InnerHasNoEnd(kind: Kind, name: string)
    requires kind != Unmodelled && (if kind == Comment then name == "" else GoodName(name))
    ensures var inner := Sigil(kind) + name;
            forall i :: 0 <= i < |inner| && inner[i] == '}' ==> i + 1 < |inner| && inner[i + 1] != '}'
  {
    var k, inner := |Sigil(kind)|, Sigil(kind) + name;
    forall i | 0 <= i < |inner| && inner[i] == '}' ensures i + 1 < |inner| && inner[i + 1] != '}' {
      assert i >= k && inner[i] == name[i - k];
      assert i + 1 < |inner| ==> inner[i + 1] == name[i - k + 1];
    }
  }

  /** A printed tag is read as itself. */
  lemma LexShown(text: string, kind: Kind, name: string, t: string)
    requires PlainText(text) && kind != Unmodelled
    requires if kind == Comment then name == "" else GoodName(name)
    ensures Lex(text + ShowTag(kind, name) + t) == Lexeme(text, Tag(kind, name, t))
  {
    TagShown(kind, name, t);
    InnerHasNoEnd(kind, name);
    hide Lex, TagOf, Sigil, GoodName, Find, TrimLeft, TrimRight, Named;
    var inner := Sigil(kind) + name;
    var body := inner + ['}', '}'] + t;
    assert Find(body, '}') == Some(|inner|) by {
      FindAfter(inner, '}', t);
    }
    LexFound(text, body, |inner|);
    Regroup(text, inner, t);
    assert ShowTag(kind, name) == ['{', '{'] + inner + ['}', '}'];
  }

  lemma Regroup(text: string, inner: string, t: string)
    ensures text + (['{', '{'] + inner + ['}', '}']) + t == text + ['{', '{'] + (inner + ['}', '}'] + t)
  {
  }

  lemma LexFound(text: string, body: string, len: nat)
    requires PlainText(text) && Find(body, '}') == Some(len)
    ensures Lex(text + ['{', '{'] + body) == Lexeme(text, TagOf(body, len))
  {
    FindAfter(text, '{', body);
    hide Find, TagOf;
    var s := text + ['{', '{'] + body;
    assert s[|text| + 2..] == body && s[..|text|] == text;
  }

  /** Reading a printed tree gives the tree, then goes on with what follows it. */
  lemma {:induction false} ParseShown(f: Forest, depth: nat, t: string, tail: Tail)
    requires Printable(f, depth)
    requires forall text :: PlainText(text) ==> Parse(text + t, depth) == Parsed(Last(text), tail)
    ensures Parse(Show(f, t), depth) == Parsed(f, tail)
    decreases f, 1
  {
    hide Lex, ShowTag, PlainText, GoodName;
    match f
    case Last(text) =>
    case Note(text, next) =>
      ParseShown(next, depth, t, tail);
      LexShown(text, Comment, "", Show(next, t));
      Associate(text, ShowTag(Comment, ""), Show(next, t));
    case Variable(text, name, escape, next) =>
      ParseShown(next, depth, t, tail);
      LexShown(text, Put(escape), name, Show(next, t));
      Associate(text, ShowTag(Put(escape), name), Show(next, t));
    case Section(text, negated, name, body, next) =>
      ParseShown(next, depth, t, tail);
      ParseSection(f, depth, t, tail);
  }

  lemma {:induction false} ParseSection(f: Forest, depth: nat, t: string, tail: Tail)
    requires f.Section? && Printable(f, depth)
    requires Parse(Show(f.next, t), depth) == Parsed(f.next, tail)
    ensures Parse(Show(f, t), depth) == Parsed(f, tail)
    decreases f, 0
  {
    hide Lex, ShowTag;
    var Section(text, negated, name, body, next) := f;
    var after := Show(next, t);
    var close := ShowTag(Close, name) + after;
    forall u | PlainText(u) ensures Parse(u + close, depth + 1) == Parsed(Last(u), Closing(name, after)) {
      LexShown(u, Close, name, after);
      Associate(u, ShowTag(Close, name), after);
    }
    ParseShown(body, depth + 1, close, Closing(name, after));
    var inner := Show(body, close);
    LexShown(text, Open(negated), name, inner);
    Associate(text, ShowTag(Open(negated), name), inner);
    assert Show(f, t) == text + ShowTag(Open(negated), name) + inner;
  }

  /** Every well-nested tree of at most 256 levels has a template, and the engine reads it as that tree. */
  lemma TemplateRoundTrip(f: Forest)
    requires Printable(f, 0)
    ensures Parse(Show(f, ""), 0) == Parsed(f, AtEnd) && Verdict(Show(f, "")) == OK
  {
    forall text | PlainText(text) ensures Parse(text + "", 0) == Parsed(Last(text), AtEnd) {
      assert text + "" == text;
      FindNothing(text, '{');
    }
    ParseShown(f, 0, "", AtEnd);
  }
}
