/**
 The text format of records: fields separated by spaces, records ended by a
 line feed, and a backslash before a special character that is to be taken
 literally. All definitions here are on plain strings; the buffers that hold
 such text are in `Buffers`.
 */
module Escaping {
  import opened Text

  const SP := ' '
  const LF := '\n'
  const ESC := '\\'
  const MAX_FIELDS := 20
  const BUFFER_LENGTH := 2000

  predicate Special(c: char) {
    c == SP || c == LF || c == ESC
  }

  // ---------- Writing ----------

  /** The emitter escapes separators always, and a backslash only where a reader could mistake it. */
  predicate NeedsEscape(f: string)
    requires f != ""
  {
    f[0] == SP || f[0] == LF || (f[0] == ESC && (|f| == 1 || Special(f[1])))
  }

  function Piece(c: char, escape: bool): string {
    if escape then [ESC, c] else [c]
  }

  function EscapeField(f: string): string {
    if f == "" then ""
    else Piece(f[0], NeedsEscape(f)) + EscapeField(f[1..])
  }

  function EncodeFields(fs: seq<string>): string
    requires fs != []
  {
    if |fs| == 1 then EscapeField(fs[0]) else EscapeField(fs[0]) + [SP] + EncodeFields(fs[1..])
  }

  /** The bytes a put of fs sends; a put of no field sends a bare line feed or nothing at all. */
  function EncodeRecord(fs: seq<string>, allowEmpty: bool): string {
    if fs != [] then EncodeFields(fs) + [LF] else if allowEmpty then [LF] else ""
  }

  // ---------- Reading ----------

  /** Prepend a piece of text to the first field. */
  function Glue(w: string, fs: seq<string>): (r: seq<string>)
    requires fs != []
    ensures |r| == |fs| && r[0] == w + fs[0] && r[1..] == fs[1..]
  {
    [w + fs[0]] + fs[1..]
  }

  lemma GlueTwice(v: string, w: string, fs: seq<string>)
    requires fs != []
    ensures Glue(v, Glue(w, fs)) == Glue(v + w, fs)
  {
    assert v + (w + fs[0]) == (v + w) + fs[0];
  }

  /** Split and unescape, from left to right. The text is what precedes the ending line feed. */
  function Split(s: string): (r: seq<string>)
    ensures r != []
    decreases |s|
  {
    if s == "" then [""]
    else if s[0] == SP then [""] + Split(s[1..])
    else if s[0] == ESC && |s| > 1 then
      Glue(if Special(s[1]) then [s[1]] else [ESC, s[1]], Split(s[2..]))
    else Glue([s[0]], Split(s[1..]))
  }

  function Take<T>(s: seq<T>, n: nat): seq<T> {
    if |s| <= n then s else s[..n]
  }

  /** The fields a reader of a record gets: C strings, at most MAX_FIELDS of them, none for empty text. */
  function Decode(body: string): (r: seq<string>)
    ensures |r| <= MAX_FIELDS
  {
    if body == "" then [] else
      var fs := Take(Split(body), MAX_FIELDS);
      seq(|fs|, i requires 0 <= i < |fs| => CStr(fs[i]))
  }

  /** Position of the first line feed that a left to right reader does not take as escaped. */
  function FirstEnd(s: string): (r: Option<nat>)
    ensures r.Some? ==> r.value < |s| && s[r.value] == LF
    decreases |s|
  {
    if s == "" then None
    else if s[0] == LF then Some(0)
    else
      var k := if s[0] == ESC then 2 else 1;
      if |s| < k then None else
        match FirstEnd(s[k..])
        case None => None
        case Some(e) => Some(k + e)
  }

  /** Number of consecutive backslashes just before position i. */
  function BackslashesBefore(s: string, i: nat): nat
    requires i <= |s|
  {
    if i == 0 || s[i - 1] != ESC then 0 else 1 + BackslashesBefore(s, i - 1)
  }

  /** The scanner's criterion: a line feed behind an even number of backslashes. */
  predicate StopsAt(s: string, i: nat) {
    i < |s| && s[i] == LF && BackslashesBefore(s, i) % 2 == 0
  }

  // ---------- Scanner and reader agree ----------

  lemma {:induction false} BackslashesAfterStep(s: string, k: nat, i: nat)
    requires s != "" && k == (if s[0] == ESC then 2 else 1)
    requires k <= i <= |s|
    ensures BackslashesBefore(s, i) % 2 == BackslashesBefore(s[k..], i - k) % 2
  {
    if i > k {
      assert s[k..][i - k - 1] == s[i - 1];
      if s[i - 1] == ESC {
        BackslashesAfterStep(s, k, i - 1);
      }
    } else if k == 2 {
      assert BackslashesBefore(s, 1) == 1;
      assert BackslashesBefore(s, 2) == if s[1] == ESC then 2 else 0;
    }
  }

  /**
   Looking back at the parity of the backslashes stops at exactly the line feed
   that reading from left to right stops at.
   */
  lemma {:induction false} ScannerAgreesWithReader(s: string, e: nat)
    ensures FirstEnd(s) == Some(e) <==> (StopsAt(s, e) && forall j: nat :: j < e ==> !StopsAt(s, j))
    decreases |s|
  {
    if s == "" || s[0] == LF {
      assert s != "" ==> StopsAt(s, 0);
    } else {
      var k := if s[0] == ESC then 2 else 1;
      assert !StopsAt(s, 0);
      assert k == 2 && |s| > 1 ==> BackslashesBefore(s, 1) == 1;
      assert k == 2 ==> !StopsAt(s, 1);
      if |s| >= k {
        forall j: nat | k <= j ensures StopsAt(s, j) <==> StopsAt(s[k..], j - k) {
          if j < |s| {
            BackslashesAfterStep(s, k, j);
          }
        }
        if e >= k {
          ScannerAgreesWithReader(s[k..], e - k);
          assert forall j: nat :: j < e - k ==> (StopsAt(s[k..], j) <==> StopsAt(s, j + k));
        }
      }
    }
  }

  lemma NoEndMeansNoStop(s: string)
    ensures FirstEnd(s) == None <==> forall j: nat :: !StopsAt(s, j)
  {
    match FirstEnd(s)
    case Some(e) => ScannerAgreesWithReader(s, e);
    case None =>
      if j: nat :| StopsAt(s, j) {
        var e := LeastStop(s, j);
        ScannerAgreesWithReader(s, e);
      }
  }

  lemma LeastStop(s: string, j: nat) returns (e: nat)
    requires StopsAt(s, j)
    ensures StopsAt(s, e) && forall i: nat :: i < e ==> !StopsAt(s, i)
  {
    e := 0;
    while !StopsAt(s, e)
      invariant e <= j && forall i: nat :: i < e ==> !StopsAt(s, i)
      decreases j - e
    {
      e := e + 1;
    }
  }

  // ---------- More text after the end changes nothing ----------

  lemma {:induction false} EndIsStable(s: string, t: string)
    requires FirstEnd(s).Some?
    ensures FirstEnd(s + t) == FirstEnd(s)
    decreases |s|
  {
    assert (s + t)[0] == s[0];
    if s[0] != LF {
      var k := if s[0] == ESC then 2 else 1;
      assert (s + t)[k..] == s[k..] + t;
      EndIsStable(s[k..], t);
    }
  }

  /** Stopping depends only on the bytes up to the position, so a scan may resume after a read. */
  lemma {:induction false} StopIsLocal(s: string, t: string, i: nat)
    requires i <= |s| && i <= |t| && s[..i] == t[..i]
    ensures BackslashesBefore(s, i) == BackslashesBefore(t, i)
  {
    if i > 0 {
      assert s[i - 1] == s[..i][i - 1] == t[..i][i - 1] == t[i - 1];
      assert s[..i - 1] == s[..i][..i - 1] == t[..i][..i - 1] == t[..i - 1];
      StopIsLocal(s, t, i - 1);
    }
  }

  // ---------- Every lawful escaping decodes alike ----------

  /**
   e is an escaping of the field f: separators are escaped, and a backslash is
   escaped at least wherever the next character (or the end) would make it
   ambiguous. The emitter's own escaping takes the fewest backslashes.
   */
  predicate Lawful(f: string, e: string)
    decreases |f|
  {
    if f == "" then e == ""
    else
      || (Special(f[0]) && |e| > 1 && e[0] == ESC && e[1] == f[0] && Lawful(f[1..], e[2..]))
      || (!NeedsEscape(f) && e != "" && e[0] == f[0] && Lawful(f[1..], e[1..]))
  }

  /** e is the text of one field: the left to right reader meets no separator and ends between characters. */
  predicate OneField(e: string)
    decreases |e|
  {
    e == "" || (e[0] != SP && e[0] != LF &&
                if e[0] == ESC then |e| > 1 && OneField(e[2..]) else OneField(e[1..]))
  }

  lemma {:induction false} EscapeIsLawful(f: string)
    ensures Lawful(f, EscapeField(f))
  {
    if f != "" {
      EscapeIsLawful(f[1..]);
      var e := EscapeField(f);
      if NeedsEscape(f) {
        assert e[2..] == EscapeField(f[1..]);
      } else {
        assert e[1..] == EscapeField(f[1..]);
      }
    }
  }

  lemma {:induction false} EscapeIsShortest(f: string, e: string)
    requires Lawful(f, e)
    ensures |EscapeField(f)| <= |e|
  {
    if f != "" {
      if Special(f[0]) && |e| > 1 && e[0] == ESC && e[1] == f[0] && Lawful(f[1..], e[2..]) {
        EscapeIsShortest(f[1..], e[2..]);
      } else {
        EscapeIsShortest(f[1..], e[1..]);
      }
    }
  }

  lemma {:induction false} PlainFieldStays(f: string)
    requires forall i :: 0 <= i < |f| ==> !Special(f[i])
    ensures EscapeField(f) == f
  {
    if f != "" {
      PlainFieldStays(f[1..]);
    }
  }

  lemma {:induction false} SeparatorsDouble(f: string)
    requires forall i :: 0 <= i < |f| ==> f[i] == SP || f[i] == LF
    ensures |EscapeField(f)| == 2 * |f|
  {
    if f != "" {
      SeparatorsDouble(f[1..]);
    }
  }

  /**
   A backslash in front of another one must be escaped, although it stands
   neither at the end of the field nor before a space or a line feed: sent as it
   is, the field \\a would be read as \a.
   */
  lemma PairOfBackslashesIsRead()
    ensures var f := [ESC, ESC, 'a'];
            Split(f) == [[ESC, 'a']] && !Lawful(f, f) && EscapeField(f) == [ESC, ESC, ESC, 'a']
  {
    var f, g, h := [ESC, ESC, 'a'], [ESC, 'a'], ['a'];
    assert f[1..] == g && f[2..] == h && g[1..] == h && h[1..] == "";
    assert Split("") == [""];
    assert Split(h) == Glue(h, [""]) && h + "" == h;
    assert Split(f) == Glue([ESC], Split(h)) && [ESC] + h == g;
    assert EscapeField("") == "" && EscapeField(h) == h;
    assert EscapeField(g) == g;
    assert EscapeField(f) == [ESC, ESC] + g;
    DecodesIffLawful(f, f);
    assert |g| != |f|;
  }

  /** An unescaped backslash in a lawful escaping is followed by the ordinary character that follows it in the field. */
  lemma LawfulHead(f: string, e: string)
    requires Lawful(f, e) && f != "" && !Special(f[0])
    ensures e != "" && e[0] == f[0] && Lawful(f[1..], e[1..])
  {
  }

  /** Reading a lawful escaping, followed by the end of the field, gives back the field. */
  lemma {:induction false} LawfulReads(f: string, e: string, t: string)
    requires Lawful(f, e)
    requires t == "" || t[0] == SP
    ensures OneField(e)
    ensures Split(e + t) == Glue(f, Split(t))
    decreases |f|
  {
    if f == "" {
      assert e + t == t;
    } else if Special(f[0]) && |e| > 1 && e[0] == ESC && e[1] == f[0] && Lawful(f[1..], e[2..]) {
      DropOfSum(e, t, 2);
      LawfulReads(f[1..], e[2..], t);
      GlueTwice([f[0]], f[1..], Split(t));
      assert [f[0]] + f[1..] == f;
    } else if f[0] != ESC {
      assert e != "" && e[0] == f[0];
      DropOfSum(e, t, 1);
      LawfulReads(f[1..], e[1..], t);
      GlueTwice([f[0]], f[1..], Split(t));
      assert [f[0]] + f[1..] == f;
    } else {
      LawfulHead(f[1..], e[1..]);
      DropOfSum(e, t, 2);
      assert e[1..][1..] == e[2..] && f[1..][1..] == f[2..];
      LawfulReads(f[2..], e[2..], t);
      GlueTwice([ESC, f[1]], f[2..], Split(t));
      assert [ESC, f[1]] + f[2..] == f;
    }
  }

  /** The other direction: whatever reads as the one field f is a lawful escaping of f. */
  lemma {:induction false} OneFieldIsLawful(e: string)
    requires OneField(e)
    ensures |Split(e)| == 1 && Lawful(Split(e)[0], e)
    decreases |e|
  {
    if e != "" {
      var f := Split(e)[0];
      if e[0] == ESC {
        OneFieldIsLawful(e[2..]);
        var g := Split(e[2..])[0];
        if Special(e[1]) {
          assert f == [e[1]] + g && f[1..] == g;
        } else {
          assert f == [ESC, e[1]] + g && f[1..] == [e[1]] + g && f[1..][1..] == g;
          assert e[1..][1..] == e[2..];
          assert Lawful(f[1..], e[1..]);
        }
      } else {
        OneFieldIsLawful(e[1..]);
        assert f[1..] == Split(e[1..])[0];
      }
    }
  }

  /** The texts that decode to the field f are exactly its lawful escapings. */
  lemma DecodesIffLawful(f: string, e: string)
    ensures OneField(e) && Split(e) == [f] <==> Lawful(f, e)
  {
    if Lawful(f, e) {
      LawfulReads(f, e, "");
      assert e + "" == e;
      assert Split("") == [""];
      assert f + "" == f;
    }
    if OneField(e) {
      OneFieldIsLawful(e);
    }
  }

  /** A record text whose fields are each escaped lawfully, not necessarily as the emitter does. */
  predicate LawfulRecord(fs: seq<string>, es: seq<string>) {
    |fs| == |es| && forall i :: 0 <= i < |fs| ==> Lawful(fs[i], es[i])
  }

  function Join(es: seq<string>): string
    requires es != []
  {
    if |es| == 1 then es[0] else es[0] + [SP] + Join(es[1..])
  }

  lemma {:induction false} EveryLawfulRecordDecodes(fs: seq<string>, es: seq<string>)
    requires fs != [] && LawfulRecord(fs, es)
    ensures Split(Join(es)) == fs
    decreases |fs|
  {
    if |fs| == 1 {
      DecodesIffLawful(fs[0], es[0]);
    } else {
      EveryLawfulRecordDecodes(fs[1..], es[1..]);
      var t := [SP] + Join(es[1..]);
      assert Join(es) == es[0] + t;
      assert t[1..] == Join(es[1..]);
      LawfulReads(fs[0], es[0], t);
      assert Split(t) == [""] + fs[1..];
      assert fs[0] + "" == fs[0];
      assert Glue(fs[0], Split(t)) == fs;
    }
  }

  // ---------- Encoded records ----------

  function Escapings(fs: seq<string>): (es: seq<string>)
    ensures LawfulRecord(fs, es)
    ensures forall i :: 0 <= i < |fs| ==> es[i] == EscapeField(fs[i])
  {
    if fs == [] then [] else
      EscapeIsLawful(fs[0]);
      [EscapeField(fs[0])] + Escapings(fs[1..])
  }

  lemma {:induction false} EncodeIsJoin(fs: seq<string>)
    requires fs != []
    ensures EncodeFields(fs) == Join(Escapings(fs))
  {
    if |fs| > 1 {
      EncodeIsJoin(fs[1..]);
      assert Escapings(fs)[1..] == Escapings(fs[1..]);
    }
  }

  lemma SplitInvertsEncode(fs: seq<string>)
    requires fs != []
    ensures Split(EncodeFields(fs)) == fs
  {
    EncodeIsJoin(fs);
    EveryLawfulRecordDecodes(fs, Escapings(fs));
  }

  /** The text of fields never ends a record. */
  lemma {:induction false} EndAfterField(e: string, t: string, n: nat)
    requires OneField(e) && FirstEnd(t) == Some(n)
    ensures FirstEnd(e + t) == Some(|e| + n)
    decreases |e|
  {
    hide FirstEnd;
    if e == "" {
      assert e + t == t;
    } else {
      var k := if e[0] == ESC then 2 else 1;
      var s := e + t;
      DropOfSum(e, t, k);
      assert s[0] == e[0] && |s| >= k;
      EndAfterField(e[k..], t, n);
      EndBehind(s, k, |e| - k + n);
    }
  }

  lemma EndBehind(s: string, k: nat, n: nat)
    requires s != "" && s[0] != LF && k == (if s[0] == ESC then 2 else 1) && k <= |s| && FirstEnd(s[k..]) == Some(n)
    ensures FirstEnd(s) == Some(k + n)
  {
  }

  lemma EscapedIsOneField(f: string)
    ensures OneField(EscapeField(f))
  {
    EscapeIsLawful(f);
    LawfulReads(f, EscapeField(f), "");
  }

  lemma EndAtOnce(t: string)
    ensures FirstEnd([LF] + t) == Some(0)
  {
  }

  lemma {:induction false} EncodedEnd(fs: seq<string>, t: string)
    requires fs != []
    ensures FirstEnd(EncodeFields(fs) + [LF] + t) == Some(|EncodeFields(fs)|)
    decreases |fs|
  {
    hide FirstEnd, EscapeField, OneField;
    var e := EscapeField(fs[0]);
    EscapedIsOneField(fs[0]);
    if |fs| == 1 {
      EndAtOnce(t);
      EndAfterField(e, [LF] + t, 0);
      assert e + [LF] + t == e + ([LF] + t);
    } else {
      var next := EncodeFields(fs[1..]);
      EncodedEnd(fs[1..], t);
      EndAfterSpace(next + [LF] + t, |next|);
      EndAfterField(e, [SP] + (next + [LF] + t), 1 + |next|);
      Regroup(e, next, t);
    }
  }

  lemma Regroup(e: string, next: string, t: string)
    ensures e + [SP] + next + [LF] + t == e + ([SP] + (next + [LF] + t))
  {
  }

  lemma EndAfterSpace(t: string, n: nat)
    requires FirstEnd(t) == Some(n)
    ensures FirstEnd([SP] + t) == Some(1 + n)
  {
    assert ([SP] + t)[1..] == t;
  }

  lemma {:induction false} EncodeAppend(fs: seq<string>, f: string)
    requires fs != []
    ensures EncodeFields(fs + [f]) == EncodeFields(fs) + [SP] + EscapeField(f)
  {
    if |fs| == 1 {
      assert (fs + [f])[1..] == [f];
    } else {
      assert (fs + [f])[1..] == fs[1..] + [f];
      EncodeAppend(fs[1..], f);
    }
  }

  // ---------- The records of a byte stream ----------

  /** The records of the bytes s, as a reader is given them. */
  function Records(s: string, allowEmpty: bool): seq<seq<string>>
    decreases |s|
  {
    match FirstEnd(s)
    case None => []
    case Some(e) => Shown(Decode(s[..e]), allowEmpty) + Records(s[e + 1..], allowEmpty)
  }

  /** Empty records are reported only when they are allowed. */
  function Shown(fs: seq<string>, allowEmpty: bool): seq<seq<string>> {
    if fs == [] && !allowEmpty then [] else [fs]
  }

  /** s is made of complete records only. */
  predicate Whole(s: string)
    decreases |s|
  {
    s == "" || (FirstEnd(s).Some? && Whole(s[FirstEnd(s).value + 1..]))
  }

  lemma {:induction false} WholeAppend(s: string, t: string)
    requires Whole(s)
    ensures Whole(s + t) <==> Whole(t)
    decreases |s|
  {
    if s == "" {
      assert s + t == t;
    } else {
      var e := FirstEnd(s).value;
      EndIsStable(s, t);
      assert (s + t)[e + 1..] == s[e + 1..] + t;
      WholeAppend(s[e + 1..], t);
    }
  }

  lemma {:induction false} RecordsAppend(s: string, t: string, allowEmpty: bool)
    requires Whole(s)
    ensures Records(s + t, allowEmpty) == Records(s, allowEmpty) + Records(t, allowEmpty)
    decreases |s|
  {
    hide Decode, Shown, FirstEnd;
    if s == "" {
      assert s + t == t;
      RecordsOfNothing(allowEmpty);
      assert [] + Records(t, allowEmpty) == Records(t, allowEmpty);
    } else {
      var e := FirstEnd(s).value;
      EndIsStable(s, t);
      assert (s + t)[..e] == s[..e] && (s + t)[e + 1..] == s[e + 1..] + t;
      RecordsAppend(s[e + 1..], t, allowEmpty);
      Associate(Shown(Decode(s[..e]), allowEmpty), Records(s[e + 1..], allowEmpty), Records(t, allowEmpty));
    }
  }

  lemma RecordsOfNothing(allowEmpty: bool)
    ensures Records("", allowEmpty) == []
  {
  }

  /** What a reader is to see of a put of fs: at most 20 fields; [] and [""] look the same on the line. */
  function Seen(fs: seq<string>): seq<string> {
    if fs == [""] then [] else Take(fs, MAX_FIELDS)
  }

  /** All that a put of fs makes a reader see. */
  function Expected(fs: seq<string>, sendEmpty: bool, allowEmpty: bool): seq<seq<string>> {
    if fs == [] && !sendEmpty then [] else Shown(Seen(fs), allowEmpty)
  }

  predicate NulFreeFields(fs: seq<string>) {
    forall i :: 0 <= i < |fs| ==> NulFree(fs[i])
  }

  lemma EncodeIsEmptyOnlyForEmpty(fs: seq<string>)
    requires fs != []
    ensures EncodeFields(fs) == "" <==> fs == [""]
  {
    if EncodeFields(fs) == "" {
      SplitInvertsEncode(fs);
      assert Split("") == [""];
    }
  }

  lemma DecodeInvertsEncode(fs: seq<string>)
    requires fs != [] && NulFreeFields(fs)
    ensures Decode(EncodeFields(fs)) == Seen(fs)
  {
    EncodeIsEmptyOnlyForEmpty(fs);
    SplitInvertsEncode(fs);
    var cut := Take(fs, MAX_FIELDS);
    forall i | 0 <= i < |cut| ensures CStr(cut[i]) == cut[i] {
      CStrStops(fs[i], "");
    }
  }

  /** Round trip of one record: reading what was put gives what was put, and nothing else. */
  lemma RecordRoundTrip(fs: seq<string>, sendEmpty: bool, allowEmpty: bool)
    requires NulFreeFields(fs)
    ensures Whole(EncodeRecord(fs, sendEmpty))
    ensures Records(EncodeRecord(fs, sendEmpty), allowEmpty) == Expected(fs, sendEmpty, allowEmpty)
  {
    var s := EncodeRecord(fs, sendEmpty);
    if fs != [] {
      var e := EncodeFields(fs);
      EncodedEnd(fs, "");
      assert e + [LF] + "" == s;
      assert s[..|e|] == e && s[|e| + 1..] == "";
      DecodeInvertsEncode(fs);
    } else if sendEmpty {
      assert s[1..] == "";
      assert FirstEnd(s) == Some(0);
    }
  }

  /** One to 20 C strings are read back as they are, of more the first 20; a single empty one is no field. */
  lemma RecordsAsPut(fs: seq<string>, allowEmpty: bool)
    requires fs != [] && NulFreeFields(fs)
    ensures fs != [""] ==>
              Records(EncodeRecord(fs, allowEmpty), allowEmpty) == [if |fs| <= 20 then fs else fs[..20]]
    ensures Records(EncodeRecord([""], allowEmpty), allowEmpty) == if allowEmpty then [[]] else []
    ensures Records(EncodeRecord([], allowEmpty), allowEmpty) == if allowEmpty then [[]] else []
  {
    RecordRoundTrip(fs, allowEmpty, allowEmpty);
    RecordRoundTrip([""], allowEmpty, allowEmpty);
    RecordRoundTrip([], allowEmpty, allowEmpty);
    hide Records, EncodeRecord;
    assert |fs| <= 20 ==> fs[..|fs|] == fs;
  }
}
