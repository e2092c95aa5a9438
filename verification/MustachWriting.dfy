/** Templates as their authors write them, character by character: what is read as which tree, and what is refused. */
module MustachWriting {
  import opened Text
  import opened MustachText

  // ---------- Names and blanks ----------

  predicate BlankCode(k: int) {
    9 <= k <= 13 || k == 32
  }

  predicate Blank(s: string) {
    forall i :: 0 <= i < |s| ==> BlankCode(s[i] as int)
  }

  /** A word has no blank around it, and closes no tag: no "}}" (code 125) within, and none with what follows. */
  predicate Word(n: string) {
    && n != ""
    && !BlankCode(n[0] as int) && !BlankCode(n[|n| - 1] as int) && n[|n| - 1] as int != 125
    && forall i :: 0 <= i < |n| - 1 && n[i] as int == 125 ==> n[i + 1] as int != 125
  }

  predicate Name(n: string) {
    Word(n) && |n| <= 1024
  }

  /** The first character is none of ! = { ^ # / & > : that stand for something else there. */
  predicate Bare(n: string) {
    n != "" && n[0] as int !in {33, 61, 123, 94, 35, 47, 38, 62, 58}
  }

  lemma {:induction false} TrimsLeft(b: string, s: string)
    requires Blank(b) && s != "" && !BlankCode(s[0] as int)
    ensures TrimLeft(b + s) == s
    decreases |b|
  {
    if b == "" {
      assert b + s == s;
    } else {
      assert (b + s)[1..] == b[1..] + s;
      TrimsLeft(b[1..], s);
    }
  }

  lemma {:induction false} TrimsRight(s: string, a: string)
    requires Blank(a) && s != "" && !BlankCode(s[|s| - 1] as int)
    ensures TrimRight(s + a) == s
    decreases |a|
  {
    if a == "" {
      assert s + a == s;
    } else {
      var u := s + a;
      assert u[..|u| - 1] == s + a[..|a| - 1];
      TrimsRight(s, a[..|a| - 1]);
    }
  }

  /** Blanks around a name do not belong to it, and it may have 1024 characters. */
  lemma NamedWithBlanks(kind: Kind, b: string, n: string, a: string, rest: string)
    requires Blank(b) && Blank(a) && Word(n)
    ensures Named(kind, b + n + a, rest) == if |n| <= 1024 then Tag(kind, n, rest) else BadTag(-4)
  {
    assert b + n + a == b + (n + a);
    TrimsLeft(b, n + a);
    TrimsRight(n, a);
    hide TrimLeft, TrimRight, Blank;
  }

  lemma {:induction false} BlankIsEmpty(kind: Kind, b: string, rest: string)
    requires Blank(b)
    ensures TrimLeft(b) == "" && Named(kind, b, rest) == BadTag(-3)
    decreases |b|
  {
    if b != "" {
      BlankIsEmpty(kind, b[1..], rest);
    }
  }

  // ---------- Tags ----------

  /** No pair of closing braces starts in s, nor with its last character. */
  predicate Closeless(s: string) {
    forall i :: 0 <= i < |s| && s[i] as int == 125 ==> i + 1 < |s| && s[i + 1] as int != 125
  }

  predicate Braceless(s: string) {
    forall i :: 0 <= i < |s| ==> s[i] as int != 125
  }

  /** Text without the character around text without the pair. */
  lemma CloselessBetween(pre: string, s: string, a: string)
    requires Braceless(pre) && Closeless(s) && Braceless(a)
    ensures Closeless(pre + s + a)
  {
    var u, k, m := pre + s + a, |pre|, |pre| + |s|;
    assert forall i :: 0 <= i < |u| ==> u[i] == if i < k then pre[i] else if i < m then s[i - k] else a[i - m];
  }

  lemma InsideIsCloseless(pre: string, b: string, n: string, a: string)
    requires Blank(b) && Blank(a) && Word(n) && Braceless(pre)
    ensures Closeless(pre + (b + n + a))
  {
    assert forall i :: 0 <= i < |b| ==> BlankCode(b[i] as int);
    assert forall i :: 0 <= i < |a| ==> BlankCode(a[i] as int);
    assert forall i :: 0 <= i < |n| && n[i] as int == 125 ==> i < |n| - 1;
    CloselessBetween(pre + b, n, a);
    assert pre + b + n + a == pre + (b + n + a);
  }

  /** A tag is read up to the first pair of closing braces. */
  lemma LexInside(text: string, inside: string, t: string)
    requires PlainText(text) && Closeless(inside)
    ensures Lex(text + "{{" + inside + "}}" + t) == Lexeme(text, TagOf(inside + "}}" + t, |inside|))
  {
    var body := inside + "}}" + t;
    hide Lex, TagOf, Find, PlainText;
    FindAfter(inside, '}', t);
    Braces();
    assert inside + ['}', '}'] + t == body;
    LexFound(text, body, |inside|);
    Around(text, ['{', '{'], inside, ['}', '}'], t);
  }

  lemma Braces()
    ensures "{{" == ['{', '{'] && "}}" == ['}', '}']
  {
  }

  lemma Around(a: string, b: string, c: string, d: string, e: string)
    ensures a + b + (c + d + e) == a + b + c + d + e
  {
  }

  /** The kinds of tags by the character behind the opening braces. */
  predicate Writes1(pre: string, kind: Kind) {
    || (pre == "#" && kind == Open(false)) || (pre == "^" && kind == Open(true)) || (pre == "/" && kind == Close)
    || (pre == "&" && kind == Put(false)) || (pre == ":" && kind == Put(true))
  }

  lemma LexNamed(text: string, pre: string, kind: Kind, raw: string, t: string)
    requires PlainText(text) && Writes1(pre, kind) && Closeless(pre + raw)
    ensures Lex(text + "{{" + (pre + raw) + "}}" + t) == Lexeme(text, Named(kind, raw, t))
  {
    hide Lex, Named, PlainText, Closeless;
    var inside := pre + raw;
    LexInside(text, inside, t);
    var body := inside + "}}" + t;
    assert body[1..|inside|] == raw && body[|inside| + 2..] == t && body[0] == pre[0];
  }

  lemma LexTag(text: string, pre: string, kind: Kind, b: string, n: string, a: string, t: string)
    requires PlainText(text) && Writes1(pre, kind) && Blank(b) && Blank(a) && Word(n)
    ensures Lex(text + "{{" + (pre + (b + n + a)) + "}}" + t)
         == Lexeme(text, if |n| <= 1024 then Tag(kind, n, t) else BadTag(-4))
  {
    InsideIsCloseless(pre, b, n, a);
    NamedWithBlanks(kind, b, n, a, t);
    LexNamed(text, pre, kind, b + n + a, t);
    hide Lex, Named, Blank, Word, PlainText, Closeless;
  }

  /** A tag without such a character prints, escaped. */
  lemma LexBareNamed(text: string, raw: string, t: string)
    requires PlainText(text) && Closeless(raw)
             && (raw != "" ==> raw[0] as int !in {33, 61, 123, 94, 35, 47, 38, 62, 58})
    ensures Lex(text + "{{" + raw + "}}" + t) == Lexeme(text, Named(Put(true), raw, t))
  {
    hide Lex, Named, PlainText, Closeless;
    LexInside(text, raw, t);
    var body := raw + "}}" + t;
    assert body[..|raw|] == raw && body[|raw| + 2..] == t && body[0] == if raw == "" then '}' else raw[0];
  }

  lemma LexBareTag(text: string, b: string, n: string, a: string, t: string)
    requires PlainText(text) && Blank(b) && Blank(a) && Word(n) && (b == "" ==> Bare(n))
    ensures Lex(text + "{{" + (b + n + a) + "}}" + t)
         == Lexeme(text, if |n| <= 1024 then Tag(Put(true), n, t) else BadTag(-4))
  {
    hide Lex, Named, PlainText, Closeless;
    var raw := b + n + a;
    InsideIsCloseless("", b, n, a);
    assert "" + raw == raw && raw[0] == if b == "" then n[0] else b[0];
    assert b != "" ==> BlankCode(b[0] as int);
    LexBareNamed(text, raw, t);
    NamedWithBlanks(Put(true), b, n, a, t);
  }

  predicate Braced(t: string) {
    t != "" && t[0] as int == 125
  }

  /** Three braces print without escaping; the third closing one must not be missing. */
  lemma LexTripleNamed(text: string, raw: string, t: string)
    requires PlainText(text) && Closeless("{" + raw)
    ensures Lex(text + "{{" + ("{" + raw) + "}}" + t)
         == Lexeme(text, if Braced(t) then Named(Put(false), raw, t[1..]) else BadTag(-8))
  {
    hide Lex, Named, PlainText, Closeless;
    var inside := "{" + raw;
    LexInside(text, inside, t);
    var body := inside + "}}" + t;
    assert body[1..|inside|] == raw && body[|inside| + 2..] == t && body[0] == '{';
  }

  lemma LexTripleTag(text: string, b: string, n: string, a: string, t: string)
    requires PlainText(text) && Blank(b) && Blank(a) && Word(n)
    ensures Lex(text + "{{" + ("{" + (b + n + a)) + "}}" + ("}" + t))
         == Lexeme(text, if |n| <= 1024 then Tag(Put(false), n, t) else BadTag(-4))
  {
    hide Lex, Named, Blank, Word, PlainText, Closeless;
    InsideIsCloseless("{", b, n, a);
    LexTripleNamed(text, b + n + a, "}" + t);
    NamedWithBlanks(Put(false), b, n, a, t);
    assert ("}" + t)[1..] == t;
  }

  /** A comment is everything up to the closing braces. */
  lemma LexRemark(text: string, c: string, t: string)
    requires PlainText(text) && Closeless(c)
    ensures Lex(text + "{{" + ("!" + c) + "}}" + t) == Lexeme(text, Tag(Comment, "", t))
  {
    hide Lex, Named, PlainText;
    var inside := "!" + c;
    assert forall i :: 0 < i < |inside| ==> inside[i] == c[i - 1];
    LexInside(text, inside, t);
    var body := inside + "}}" + t;
    assert body[|inside| + 2..] == t && body[0] == '!';
  }

  // ---------- Templates ----------

  /** s is text and a tag with the character pre and any blanks around the name, and then rest. */
  ghost predicate OpensWith(s: string, text: string, pre: string, n: string, rest: string) {
    exists b, a :: Blank(b) && Blank(a) && s == text + "{{" + (pre + (b + n + a)) + "}}" + rest
  }

  ghost predicate OpensBare(s: string, text: string, n: string, rest: string) {
    exists b, a :: Blank(b) && Blank(a) && (b == "" ==> Bare(n)) && s == text + "{{" + (b + n + a) + "}}" + rest
  }

  ghost predicate OpensTriple(s: string, text: string, n: string, rest: string) {
    exists b, a :: Blank(b) && Blank(a) && s == text + "{{" + ("{" + (b + n + a)) + "}}" + ("}" + rest)
  }

  /** s is a way to write the tree f, followed by t. */
  ghost predicate Writes(s: string, f: Forest, t: string)
    decreases f
  {
    PlainText(f.text) &&
    match f
    case Last(text) => s == text + t
    case Note(text, next) =>
      exists c, r :: Closeless(c) && s == text + "{{" + ("!" + c) + "}}" + r && Writes(r, next, t)
    case Variable(text, n, escape, next) =>
      Name(n) &&
      exists r ::
        Writes(r, next, t) && if escape then OpensBare(s, text, n, r) || OpensWith(s, text, ":", n, r)
                              else OpensTriple(s, text, n, r) || OpensWith(s, text, "&", n, r)
    case Section(text, negated, n, body, next) =>
      Name(n) &&
      exists inner, after, r ::
        && Writes(r, next, t) && Writes(inner, body, after) && OpensWith(after, "", "/", n, r)
        && OpensWith(s, text, if negated then "^" else "#", n, inner)
    case Unclosed(_, _, _, _) => false
  }

  /** Sections are at most 256 deep. */
  predicate Shallow(f: Forest, depth: nat)
    decreases f
  {
    match f
    case Last(_) => true
    case Note(_, next) => Shallow(next, depth)
    case Variable(_, _, _, next) => Shallow(next, depth)
    case Section(_, _, _, body, next) => depth < 256 && Shallow(body, depth + 1) && Shallow(next, depth)
    case Unclosed(_, _, _, body) => depth < 256 && Shallow(body, depth + 1)
  }

  lemma LexOpens(s: string, text: string, pre: string, kind: Kind, n: string, rest: string)
    requires PlainText(text) && Writes1(pre, kind) && Word(n) && OpensWith(s, text, pre, n, rest)
    ensures Lex(s) == Lexeme(text, if |n| <= 1024 then Tag(kind, n, rest) else BadTag(-4))
  {
    hide Lex, PlainText, Word, Blank;
    var b, a :| Blank(b) && Blank(a) && s == text + "{{" + (pre + (b + n + a)) + "}}" + rest;
    LexTag(text, pre, kind, b, n, a, rest);
  }

  lemma LexVariable(s: string, text: string, n: string, escape: bool, rest: string)
    requires PlainText(text) && Word(n)
    requires if escape then OpensBare(s, text, n, rest) || OpensWith(s, text, ":", n, rest)
             else OpensTriple(s, text, n, rest) || OpensWith(s, text, "&", n, rest)
    ensures Lex(s) == Lexeme(text, if |n| <= 1024 then Tag(Put(escape), n, rest) else BadTag(-4))
  {
    hide Lex, PlainText, Word, Blank, OpensWith, Bare;
    if OpensWith(s, text, if escape then ":" else "&", n, rest) {
      LexOpens(s, text, if escape then ":" else "&", Put(escape), n, rest);
    } else if escape {
      var b, a :| Blank(b) && Blank(a) && (b == "" ==> Bare(n)) && s == text + "{{" + (b + n + a) + "}}" + rest;
      LexBareTag(text, b, n, a, rest);
    } else {
      var b, a :| Blank(b) && Blank(a) && s == text + "{{" + ("{" + (b + n + a)) + "}}" + ("}" + rest);
      LexTripleTag(text, b, n, a, rest);
    }
  }

  /** Reading what is written gives the tree, then goes on with what follows it. */
  lemma {:induction false} ParseWritten(s: string, f: Forest, t: string, depth: nat, tail: Tail)
    requires Writes(s, f, t) && Shallow(f, depth)
    requires forall text :: PlainText(text) ==> Parse(text + t, depth) == Parsed(Last(text), tail)
    ensures Parse(s, depth) == Parsed(f, tail)
    decreases f, 1
  {
    hide Lex, PlainText, Word, OpensWith, OpensBare, OpensTriple, Closeless;
    match f
    case Last(text) =>
    case Note(text, next) =>
      var c, r :| Closeless(c) && s == text + "{{" + ("!" + c) + "}}" + r && Writes(r, next, t);
      LexRemark(text, c, r);
      ParseWritten(r, next, t, depth, tail);
    case Variable(text, n, escape, next) =>
      var r :| Writes(r, next, t) &&
               if escape then OpensBare(s, text, n, r) || OpensWith(s, text, ":", n, r)
               else OpensTriple(s, text, n, r) || OpensWith(s, text, "&", n, r);
      LexVariable(s, text, n, escape, r);
      ParseWritten(r, next, t, depth, tail);
    case Section(text, negated, n, body, next) =>
      var inner, after, r :|
        && Writes(r, next, t) && Writes(inner, body, after) && OpensWith(after, "", "/", n, r)
        && OpensWith(s, text, if negated then "^" else "#", n, inner);
      ParseWritten(r, next, t, depth, tail);
      WrittenSection(s, f, t, depth, tail, inner, after, r);
  }

  lemma {:induction false} WrittenSection(s: string, f: Forest, t: string, depth: nat, tail: Tail,
                                          inner: string, after: string, r: string)
    requires f.Section? && PlainText(f.text) && Name(f.name) && Shallow(f, depth)
    requires Parse(r, depth) == Parsed(f.next, tail) && Writes(inner, f.body, after)
             && OpensWith(after, "", "/", f.name, r)
    requires OpensWith(s, f.text, if f.negated then "^" else "#", f.name, inner)
    ensures Parse(s, depth) == Parsed(f, tail)
    decreases f, 0
  {
    hide Lex, PlainText, Word, OpensWith, Writes;
    LexOpens(s, f.text, if f.negated then "^" else "#", Open(f.negated), f.name, inner);
    CloseReads(after, f.name, r, depth + 1);
    ParseWritten(inner, f.body, after, depth + 1, Closing(f.name, r));
  }

  lemma ParseClose(s: string, text: string, n: string, r: string, depth: nat)
    requires Lex(s) == Lexeme(text, Tag(Close, n, r))
    ensures Parse(s, depth) == Parsed(Last(text), Closing(n, r))
  {
    hide Lex;
  }

  lemma Shift(text: string, inside: string, r: string)
    ensures text + ("" + "{{" + inside + "}}" + r) == text + "{{" + inside + "}}" + r
  {
  }

  /** A closing tag ends the text in front of it. */
  lemma CloseReads(after: string, n: string, r: string, depth: nat)
    requires Name(n) && OpensWith(after, "", "/", n, r)
    ensures forall text :: PlainText(text) ==> Parse(text + after, depth) == Parsed(Last(text), Closing(n, r))
  {
    hide Parse, Lex, PlainText, Word, Blank;
    var b, a :| Blank(b) && Blank(a) && after == "" + "{{" + ("/" + (b + n + a)) + "}}" + r;
    var inside := "/" + (b + n + a);
    forall text | PlainText(text) ensures Parse(text + after, depth) == Parsed(Last(text), Closing(n, r)) {
      LexTag(text, "/", Close, b, n, a, r);
      Shift(text, inside, r);
      ParseClose(text + after, text, n, r, depth);
    }
  }

  lemma EndReads(depth: nat)
    ensures forall text :: PlainText(text) ==> Parse(text + "", depth) == Parsed(Last(text), AtEnd)
  {
    forall text | PlainText(text) ensures Parse(text + "", depth) == Parsed(Last(text), AtEnd) {
      assert text + "" == text;
      FindNothing(text, '{');
    }
  }

  /** However a tree is written, with whatever blanks around its names, it is read as that tree. */
  lemma WrittenIsRead(s: string, f: Forest)
    requires Writes(s, f, "") && Shallow(f, 0)
    ensures Parse(s, 0) == Parsed(f, AtEnd) && Verdict(s) == 0
  {
    EndReads(0);
    ParseWritten(s, f, "", 0, AtEnd);
    hide Writes, Lex, PlainText;
  }

  // ---------- Templates that are refused ----------

  /** The characters that may stand behind the opening braces. */
  const SIGILS := ["", "#", "^", "/", "&", ":", "{"]

  /** A tag that is wrong in itself, and the answer to it. */
  ghost predicate Bad(s: string, code: int) {
    || (code == -2 && NeverClosed(s))
    || (code == -3 && Nameless(s))
    || (code == -4 && NamedTooLong(s))
    || (code == -8 && HalfClosed(s))
  }

  ghost predicate NeverClosed(s: string) {
    exists u :: s == "{{" + u && forall i :: 0 <= i < |u| - 1 && u[i] as int == 125 ==> u[i + 1] as int != 125
  }

  /** Only blanks where the name should be. */
  ghost predicate Nameless(s: string) {
    exists pre, b, t :: pre in SIGILS && Blank(b) && s == "{{" + (pre + b) + "}}" + t && (pre == "{" ==> Braced(t))
  }

  ghost predicate NamedTooLong(s: string) {
    exists pre, n, r :: pre in SIGILS && Word(n) && |n| > 1024 && Tags(s, pre, n, r)
  }

  ghost predicate Tags(s: string, pre: string, n: string, r: string) {
    if pre == "" then OpensBare(s, "", n, r)
    else if pre == "{" then OpensTriple(s, "", n, r)
    else OpensWith(s, "", pre, n, r)
  }

  /** Three opening braces but two closing ones. */
  ghost predicate HalfClosed(s: string) {
    exists u, r :: Closeless("{" + u) && s == "{{" + ("{" + u) + "}}" + r && !Braced(r)
  }

  /**
   What goes wrong inside the sections of the given names, the innermost last,
   behind a part that is well written: a bad tag, the end of the template, a
   closing tag that is not the one due, one section too many, or something
   inside one more section.
   */
  ghost predicate Broken(s: string, open: seq<string>, code: int)
    decreases |s|
  {
    exists f, t :: Writes(s, f, t) && Shallow(f, |open|) && |t| <= |s| && BrokenAt(s, open, code, t)
  }

  ghost predicate BrokenAt(s: string, open: seq<string>, code: int, t: string)
    requires |t| <= |s|
    decreases |s|, 0
  {
    || Bad(t, code)
    || (t == "" && open != [] && code == -2)
    || (code == -7 && exists n, r :: Closes(t, n, r) && (open == [] || open[|open| - 1] != n))
    || exists n, r :: Enters(t, n, r) && if |open| == 256 then code == -6
                                         else |r| < |s| && Broken(r, open + [n], code)
  }

  ghost predicate Closes(t: string, n: string, r: string) {
    Name(n) && OpensWith(t, "", "/", n, r)
  }

  ghost predicate Enters(t: string, n: string, r: string) {
    Name(n) && (OpensWith(t, "", "#", n, r) || OpensWith(t, "", "^", n, r))
  }

  // ---------- Reading them ----------

  /** The text behind a tag in front of which there is no text. */
  lemma LexBehind(text: string, t: string, inside: string, r: string)
    requires t == "{{" + inside + "}}" + r
    ensures text + t == text + "{{" + inside + "}}" + r
  {
  }

  lemma OpensBehind(text: string, t: string, pre: string, n: string, r: string)
    requires OpensWith(t, "", pre, n, r)
    ensures OpensWith(text + t, text, pre, n, r)
  {
    hide Blank;
    var b, a :| Blank(b) && Blank(a) && t == "" + "{{" + (pre + (b + n + a)) + "}}" + r;
    assert "" + "{{" == "{{";
    LexBehind(text, t, pre + (b + n + a), r);
  }

  lemma BareBehind(text: string, t: string, n: string, r: string)
    requires OpensBare(t, "", n, r)
    ensures OpensBare(text + t, text, n, r)
  {
    hide Blank;
    var b, a :| Blank(b) && Blank(a) && (b == "" ==> Bare(n)) && t == "" + "{{" + (b + n + a) + "}}" + r;
    assert "" + "{{" == "{{";
    LexBehind(text, t, b + n + a, r);
  }

  lemma TripleBehind(text: string, t: string, n: string, r: string)
    requires OpensTriple(t, "", n, r)
    ensures OpensTriple(text + t, text, n, r)
  {
    hide Blank;
    var b, a :| Blank(b) && Blank(a) && t == "" + "{{" + ("{" + (b + n + a)) + "}}" + ("}" + r);
    assert "" + "{{" == "{{";
    LexBehind(text, t, "{" + (b + n + a), "}" + r);
  }

  function KindOf(pre: string): Kind {
    if pre == "#" then Open(false) else if pre == "^" then Open(true) else if pre == "/" then Close
    else if pre == "&" || pre == "{" then Put(false) else Put(true)
  }

  lemma NeverClosedReads(text: string, s: string)
    requires PlainText(text) && NeverClosed(s)
    ensures Lex(text + s) == Lexeme(text, BadTag(-2))
  {
    hide PlainText, Find, Lex;
    var u :| s == "{{" + u && forall i :: 0 <= i < |u| - 1 && u[i] as int == 125 ==> u[i + 1] as int != 125;
    NoPair(u);
    Braces();
    FindBehind(text, u);
    LexNothing(text, u);
    Associate(text, ['{', '{'], u);
  }

  lemma LexNothing(text: string, u: string)
    requires var all := text + ['{', '{'] + u; Find(all, '{') == Some(|text|) && Find(u, '}') == None
    ensures Lex(text + ['{', '{'] + u) == Lexeme(text, BadTag(-2))
  {
    hide Find;
    var all := text + ['{', '{'] + u;
    assert all[|text| + 2..] == u && all[..|text|] == text;
  }

  lemma FindBehind(text: string, u: string)
    requires PlainText(text)
    ensures Find(text + ['{', '{'] + u, '{') == Some(|text|)
  {
    FindAfter(text, '{', u);
  }

  lemma {:induction false} NoPair(u: string)
    requires forall i :: 0 <= i < |u| - 1 && u[i] as int == 125 ==> u[i + 1] as int != 125
    ensures Find(u, '}') == None
    decreases |u|
  {
    if |u| >= 2 {
      assert u[0] as int == 125 ==> u[1] as int != 125;
      forall i | 0 <= i < |u[1..]| - 1 && u[1..][i] as int == 125 ensures u[1..][i + 1] as int != 125 {
        assert u[i + 1] == u[1..][i];
      }
      NoPair(u[1..]);
    }
  }

  lemma FirstIsBlank(b: string)
    requires Blank(b)
    ensures b != "" ==> BlankCode(b[0] as int)
  {
  }

  lemma NamelessReads(text: string, s: string)
    requires PlainText(text) && Nameless(s)
    ensures Lex(text + s) == Lexeme(text, BadTag(-3))
  {
    hide PlainText, Lex;
    var pre, b, t :|
      pre in SIGILS && Blank(b) && s == "{{" + (pre + b) + "}}" + t && (pre == "{" ==> Braced(t));
    var r := if pre == "{" && Braced(t) then t[1..] else t;
    LexBehind(text, s, pre + b, t);
    BlankIsEmpty(KindOf(pre), b, r);
    hide Blank, Named;
    BlankIsCloseless(pre, b);
    if pre == "" {
      assert "" + b == b;
      FirstIsBlank(b);
      LexBareNamed(text, b, t);
    } else if pre == "{" {
      LexTripleNamed(text, b, t);
    } else {
      LexNamed(text, pre, KindOf(pre), b, t);
    }
  }

  lemma BlankIsCloseless(pre: string, b: string)
    requires Blank(b) && pre in SIGILS
    ensures Closeless(pre + b)
  {
    assert forall i :: 0 <= i < |b| ==> BlankCode(b[i] as int);
    assert Braceless(pre + b);
  }

  lemma TooLongReads(text: string, s: string)
    requires PlainText(text) && NamedTooLong(s)
    ensures Lex(text + s) == Lexeme(text, BadTag(-4))
  {
    hide PlainText, Lex, Word, OpensWith, OpensBare, OpensTriple;
    var pre, n, r :| pre in SIGILS && Word(n) && |n| > 1024 && Tags(s, pre, n, r);
    if pre == "" {
      BareBehind(text, s, n, r);
      LexVariable(text + s, text, n, true, r);
    } else if pre == "{" {
      TripleBehind(text, s, n, r);
      LexVariable(text + s, text, n, false, r);
    } else {
      OpensBehind(text, s, pre, n, r);
      LexOpens(text + s, text, pre, KindOf(pre), n, r);
    }
  }

  lemma HalfClosedReads(text: string, s: string)
    requires PlainText(text) && HalfClosed(s)
    ensures Lex(text + s) == Lexeme(text, BadTag(-8))
  {
    hide PlainText, Lex, Closeless;
    var u, r :| Closeless("{" + u) && s == "{{" + ("{" + u) + "}}" + r && !Braced(r);
    LexBehind(text, s, "{" + u, r);
    LexTripleNamed(text, u, r);
  }

  lemma BadReads(text: string, s: string, code: int)
    requires PlainText(text) && Bad(s, code)
    ensures Lex(text + s) == Lexeme(text, BadTag(code))
  {
    hide PlainText, Lex, NeverClosed, Nameless, NamedTooLong, HalfClosed;
    if code == -2 {
      NeverClosedReads(text, s);
    } else if code == -3 {
      NamelessReads(text, s);
    } else if code == -4 {
      TooLongReads(text, s);
    } else {
      HalfClosedReads(text, s);
    }
  }

  /** What is well written in front does not change how the template ends. */
  lemma {:induction false} TailWritten(s: string, f: Forest, t: string, depth: nat, tail: Tail)
    requires Writes(s, f, t) && Shallow(f, depth)
    requires forall text :: PlainText(text) ==> Parse(text + t, depth).tail == tail
    ensures Parse(s, depth).tail == tail
    decreases f
  {
    hide Lex, PlainText, Word, OpensWith, OpensBare, OpensTriple, Closeless;
    match f
    case Last(text) =>
    case Note(text, next) =>
      var c, r :| Closeless(c) && s == text + "{{" + ("!" + c) + "}}" + r && Writes(r, next, t);
      LexRemark(text, c, r);
      TailWritten(r, next, t, depth, tail);
    case Variable(text, n, escape, next) =>
      var r :| Writes(r, next, t) &&
               if escape then OpensBare(s, text, n, r) || OpensWith(s, text, ":", n, r)
               else OpensTriple(s, text, n, r) || OpensWith(s, text, "&", n, r);
      LexVariable(s, text, n, escape, r);
      TailWritten(r, next, t, depth, tail);
    case Section(text, negated, n, body, next) =>
      var inner, after, r :|
        && Writes(r, next, t) && Writes(inner, body, after) && OpensWith(after, "", "/", n, r)
        && OpensWith(s, text, if negated then "^" else "#", n, inner);
      TailWritten(r, next, t, depth, tail);
      TailOfSection(s, f, depth, inner, after, r);
  }

  lemma TailOfSection(s: string, f: Forest, depth: nat, inner: string, after: string, r: string)
    requires f.Section? && PlainText(f.text) && Name(f.name) && depth < 256 && Shallow(f.body, depth + 1)
    requires Writes(inner, f.body, after) && OpensWith(after, "", "/", f.name, r)
    requires OpensWith(s, f.text, if f.negated then "^" else "#", f.name, inner)
    ensures Parse(s, depth).tail == Parse(r, depth).tail
  {
    hide Lex, PlainText, Word, OpensWith, Writes;
    CloseReads(after, f.name, r, depth + 1);
    ParseWritten(inner, f.body, after, depth + 1, Closing(f.name, r));
    LexOpens(s, f.text, if f.negated then "^" else "#", Open(f.negated), f.name, inner);
  }

  /** How a stretch inside the sections of the given names is answered. */
  function Answer(tail: Tail, open: seq<string>): int {
    match tail
    case Failed(code) => code
    case AtEnd => if open == [] then 0 else -2
    case Closing(n, _) => if open == [] || open[|open| - 1] != n then -7 else 0
  }

  lemma OpenTail(text: string, t: string, negated: bool, n: string, r: string, depth: nat)
    requires PlainText(text) && Name(n) && OpensWith(t, "", if negated then "^" else "#", n, r)
    ensures |r| < |text + t| && Parse(text + t, depth).tail
         == if depth == 256 then Failed(-6) else
              var p := Parse(r, depth + 1).tail;
              if p.AtEnd? then Failed(-2) else if p.Failed? then p else if p.name != n then Failed(-7)
              else Parse(p.rest, depth).tail
  {
    hide Lex, PlainText, Word, OpensWith;
    OpensBehind(text, t, if negated then "^" else "#", n, r);
    LexOpens(text + t, text, if negated then "^" else "#", Open(negated), n, r);
  }

  lemma BadTail(t: string, code: int, depth: nat)
    requires Bad(t, code)
    ensures forall text :: PlainText(text) ==> Parse(text + t, depth).tail == Failed(code)
  {
    hide Lex, PlainText, Bad;
    forall text | PlainText(text) ensures Parse(text + t, depth).tail == Failed(code) {
      BadReads(text, t, code);
    }
  }

  lemma EnterTail(t: string, n: string, r: string, depth: nat, tail: Tail)
    requires Enters(t, n, r)
    requires if depth == 256 then tail == Failed(-6) else
               var p := Parse(r, depth + 1).tail;
               if p.AtEnd? then tail == Failed(-2)
               else if p.Failed? then tail == p
               else p.name != n && tail == Failed(-7)
    ensures forall text :: PlainText(text) ==> Parse(text + t, depth).tail == tail
  {
    hide Parse, PlainText, Word, OpensWith;
    forall text | PlainText(text) ensures Parse(text + t, depth).tail == tail {
      OpenTail(text, t, !OpensWith(t, "", "#", n, r), n, r, depth);
    }
  }

  lemma {:induction false} BrokenReads(s: string, open: seq<string>, code: int)
    requires Broken(s, open, code) && |open| <= 256
    ensures Answer(Parse(s, |open|).tail, open) == code && code < 0
    decreases |s|, 1
  {
    hide Parse, Writes, Shallow, PlainText, BrokenAt;
    var f, t :| Writes(s, f, t) && Shallow(f, |open|) && |t| <= |s| && BrokenAt(s, open, code, t);
    var tail := BrokenTail(s, open, code, t);
    TailWritten(s, f, t, |open|, tail);
  }

  lemma {:induction false} BrokenTail(s: string, open: seq<string>, code: int, t: string) returns (tail: Tail)
    requires |t| <= |s| && BrokenAt(s, open, code, t) && |open| <= 256
    ensures forall text :: PlainText(text) ==> Parse(text + t, |open|).tail == tail
    ensures Answer(tail, open) == code && code < 0
    decreases |s|, 0
  {
    hide Parse, PlainText, NeverClosed, Nameless, NamedTooLong, HalfClosed, Broken, OpensWith, Word;
    if Bad(t, code) {
      BadTail(t, code, |open|);
      tail := Failed(code);
    } else if t == "" && open != [] && code == -2 {
      EndReads(|open|);
      tail := AtEnd;
    } else if code == -7 && exists n, r :: Closes(t, n, r) && (open == [] || open[|open| - 1] != n) {
      var n, r :| Closes(t, n, r) && (open == [] || open[|open| - 1] != n);
      CloseReads(t, n, r, |open|);
      tail := Closing(n, r);
    } else {
      var n, r :| Enters(t, n, r) && if |open| == 256 then code == -6
                                     else |r| < |s| && Broken(r, open + [n], code);
      if |open| == 256 {
        tail := Failed(-6);
      } else {
        BrokenReads(r, open + [n], code);
        tail := Failed(code);
      }
      EnterTail(t, n, r, |open|, tail);
    }
  }

  /** A template that goes wrong is answered with the code of what goes wrong first. */
  lemma BrokenIsRefused(s: string, code: int)
    requires Broken(s, [], code)
    ensures Verdict(s) == code
  {
    BrokenReads(s, [], code);
    hide Parse, Broken;
  }
}
