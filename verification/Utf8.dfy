/** The check of received texts, and what escaping does to it. */
module Utf8 {
  import opened Text
  import opened Escaping

  predicate Ascii(c: char) {
    c as int <= 0x7f
  }

  predicate Continuation(c: char) {
    0x80 <= c as int <= 0xbf
  }

  /** Number of continuation bytes that a first byte announces; negative when it cannot be a first byte. */
  function Announced(c: char): int {
    var b := c as int;
    if b <= 0x7f then 0 else if b <= 0xbf then -1
    else if b <= 0xdf then 1 else if b <= 0xef then 2 else if b <= 0xf7 then 3 else -1
  }

  /** s is well formed when its first k bytes are to be continuation bytes. */
  predicate Continues(s: string, k: nat)
    decreases |s|
  {
    if s == "" then k == 0
    else if k > 0 then Continuation(s[0]) && Continues(s[1..], k - 1)
    else Announced(s[0]) >= 0 && Continues(s[1..], Announced(s[0]))
  }

  /** The nested loops of the check, over a C string. */
  method IsUtf8(text: string) returns (ok: bool)
    requires NulFree(text)
    ensures ok == Continues(text, 0)
  {
    var iter := 0;
    assert text[0..] == text;
    while iter < |text|
      invariant 0 <= iter <= |text|
      invariant Continues(text, 0) == Continues(text[iter..], 0)
    {
      assert text[iter..][0] == text[iter] && text[iter..][1..] == text[iter + 1..];
      var len;
      if text[iter] as int <= 0x7f {
        len := 0;
      } else if text[iter] as int <= 0xbf {
        return false;
      } else if text[iter] as int <= 0xdf {
        len := 1;
      } else if text[iter] as int <= 0xef {
        len := 2;
      } else if text[iter] as int <= 0xf7 {
        len := 3;
      } else {
        return false;
      }
      iter := iter + 1;
      ghost var first := iter;
      while len > 0
        invariant first <= iter <= |text| && 0 <= len
        invariant Continues(text, 0) == Continues(text[iter..], len)
        decreases len
      {
        if iter == |text| || text[iter] as int < 0x80 || text[iter] as int > 0xbf {
          return false;
        }
        assert text[iter..][0] == text[iter] && text[iter..][1..] == text[iter + 1..];
        len, iter := len - 1, iter + 1;
      }
    }
    ok := true;
  }

  // ---------- What is accepted ----------

  /** A first byte followed by exactly the continuation bytes it announces. */
  predicate Group(g: string) {
    g != "" && Announced(g[0]) == |g| - 1 && forall i :: 1 <= i < |g| ==> Continuation(g[i])
  }

  function Concat(gs: seq<string>): string {
    if gs == [] then "" else gs[0] + Concat(gs[1..])
  }

  predicate Groups(gs: seq<string>) {
    forall i :: 0 <= i < |gs| ==> Group(gs[i])
  }

  lemma {:induction false} TailContinues(g: string, s: string, k: nat)
    requires k == |g| && forall i :: 0 <= i < |g| ==> Continuation(g[i])
    ensures Continues(g + s, k) == Continues(s, 0)
    decreases k
  {
    if k == 0 {
      assert g + s == s;
    } else {
      assert (g + s)[1..] == g[1..] + s;
      TailContinues(g[1..], s, k - 1);
    }
  }

  lemma {:induction false} GroupsAreAccepted(gs: seq<string>)
    requires Groups(gs)
    ensures Continues(Concat(gs), 0)
    decreases |gs|
  {
    if gs != [] {
      GroupsAreAccepted(gs[1..]);
      var g, s := gs[0], Concat(gs[1..]);
      assert (g + s)[1..] == g[1..] + s;
      TailContinues(g[1..], s, |g| - 1);
    }
  }

  lemma {:induction false} AcceptedSplits(s: string, k: nat)
    requires Continues(s, k)
    ensures k <= |s| && Continues(s[k..], 0) && forall i :: 0 <= i < k ==> Continuation(s[i])
    decreases |s|
  {
    if k > 0 {
      AcceptedSplits(s[1..], k - 1);
      assert s[1..][k - 1..] == s[k..];
    } else {
      assert s[0..] == s;
    }
  }

  lemma {:induction false} AcceptedIsGroups(s: string) returns (gs: seq<string>)
    requires Continues(s, 0)
    ensures Groups(gs) && Concat(gs) == s
    decreases |s|
  {
    if s == "" {
      gs := [];
    } else {
      var n := Announced(s[0]);
      AcceptedSplits(s[1..], n);
      assert s[1..][n..] == s[n + 1..];
      var rest := AcceptedIsGroups(s[n + 1..]);
      var g := s[..n + 1];
      assert forall i :: 1 <= i < |g| ==> g[i] == s[1..][i - 1];
      gs := [g] + rest;
      assert g + s[n + 1..] == s;
      assert gs[1..] == rest;
    }
  }

  /** Accepted are exactly the concatenations of a first byte with the continuation bytes it announces. */
  lemma AcceptsExactlyGroups(s: string)
    ensures Continues(s, 0) <==> exists gs :: Groups(gs) && Concat(gs) == s
  {
    if Continues(s, 0) {
      var gs := AcceptedIsGroups(s);
    }
    if gs :| Groups(gs) && Concat(gs) == s {
      GroupsAreAccepted(gs);
    }
  }

  predicate In(c: char, lo: int, hi: int) {
    lo <= c as int <= hi
  }

  /** One group by its bytes: the first byte tells how many bytes in 80..BF follow. */
  predicate Chunk(g: string) {
    || (|g| == 1 && In(g[0], 0x00, 0x7f))
    || (|g| == 2 && In(g[0], 0xc0, 0xdf) && In(g[1], 0x80, 0xbf))
    || (|g| == 3 && In(g[0], 0xe0, 0xef) && In(g[1], 0x80, 0xbf) && In(g[2], 0x80, 0xbf))
    || (|g| == 4 && In(g[0], 0xf0, 0xf7) && In(g[1], 0x80, 0xbf) && In(g[2], 0x80, 0xbf) && In(g[3], 0x80, 0xbf))
  }

  lemma GroupIsChunk(g: string)
    ensures Group(g) <==> Chunk(g)
  {
  }

  /** What is accepted, by its bytes. */
  lemma AcceptsExactlyChunks(s: string)
    ensures Continues(s, 0)
            <==> exists gs :: (forall i :: 0 <= i < |gs| ==> Chunk(gs[i])) && Concat(gs) == s
  {
    hide Group, Chunk, Continues;
    if Continues(s, 0) {
      var gs := AcceptedIsGroups(s);
      forall i | 0 <= i < |gs| ensures Chunk(gs[i]) {
        GroupIsChunk(gs[i]);
      }
    }
    if gs :| (forall i :: 0 <= i < |gs| ==> Chunk(gs[i])) && Concat(gs) == s {
      forall i | 0 <= i < |gs| ensures Group(gs[i]) {
        GroupIsChunk(gs[i]);
      }
      GroupsAreAccepted(gs);
    }
  }

  /** One character, after the grammar of section 4 of RFC 3629. */
  predicate RfcChar(g: string) {
    || (|g| == 1 && In(g[0], 0x00, 0x7f))
    || (|g| == 2 && In(g[0], 0xc2, 0xdf) && Continuation(g[1]))
    || (|g| == 3 && Continuation(g[2]) &&
        (|| (g[0] as int == 0xe0 && In(g[1], 0xa0, 0xbf))
         || (In(g[0], 0xe1, 0xec) && Continuation(g[1]))
         || (g[0] as int == 0xed && In(g[1], 0x80, 0x9f))
         || (In(g[0], 0xee, 0xef) && Continuation(g[1]))))
    || (|g| == 4 && Continuation(g[2]) && Continuation(g[3]) &&
        (|| (g[0] as int == 0xf0 && In(g[1], 0x90, 0xbf))
         || (In(g[0], 0xf1, 0xf3) && Continuation(g[1]))
         || (g[0] as int == 0xf4 && In(g[1], 0x80, 0x8f))))
  }

  lemma RfcCharIsGroup(g: string)
    requires RfcChar(g)
    ensures Group(g)
  {
  }

  /** Every UTF-8 text of RFC 3629 is accepted. */
  lemma RfcTextsAreAccepted(gs: seq<string>)
    requires forall i :: 0 <= i < |gs| ==> RfcChar(gs[i])
    ensures Continues(Concat(gs), 0)
  {
    hide RfcChar, Group, Continues;
    forall i | 0 <= i < |gs| ensures Group(gs[i]) {
      RfcCharIsGroup(gs[i]);
    }
    GroupsAreAccepted(gs);
  }

  /** But not only those: the overlong encoding C0 80 passes, and no split of it follows the grammar. */
  lemma NotOnlyRfcTexts(gs: seq<string>)
    requires Concat(gs) == [0xc0 as char, 0x80 as char]
    ensures Continues(Concat(gs), 0) && !RfcChar(gs[0])
  {
    var s := [0xc0 as char, 0x80 as char];
    assert Group(s);
    GroupsAreAccepted([s]);
    assert Concat([s]) == s + "";
    assert gs[0] != "" ==> gs[0][0] == Concat(gs)[0];
  }

  /** No first byte of an overlong form, of a surrogate or of a number beyond 10FFFF stands at i. */
  predicate LeadOk(s: string, i: nat)
    requires i < |s|
  {
    var b := s[i] as int;
    && b != 0xc0 && b != 0xc1 && b <= 0xf4
    && (i + 1 < |s| ==>
          var next := s[i + 1] as int;
          && (b == 0xe0 ==> next >= 0xa0) && (b == 0xed ==> next <= 0x9f)
          && (b == 0xf0 ==> next >= 0x90) && (b == 0xf4 ==> next <= 0x8f))
  }

  predicate LeadsOk(s: string) {
    forall i :: 0 <= i < |s| ==> LeadOk(s, i)
  }

  predicate AllRfc(gs: seq<string>) {
    forall i :: 0 <= i < |gs| ==> RfcChar(gs[i])
  }

  /** Among the groups, the characters of the grammar are those with a proper first byte. */
  lemma GroupIsRfcIff(g: string)
    requires Group(g)
    ensures RfcChar(g) <==> LeadsOk(g)
  {
    if LeadsOk(g) {
      assert LeadOk(g, 0);
    } else {
      var i :| 0 <= i < |g| && !LeadOk(g, i);
      assert i > 0 ==> Continuation(g[i]);
    }
  }

  /** The last byte of a group asks nothing of the byte behind it. */
  lemma LeadsOkAppend(g: string, s: string)
    requires Group(g)
    ensures LeadsOk(g + s) <==> LeadsOk(g) && LeadsOk(s)
  {
    var u := g + s;
    forall i | 0 <= i < |g| ensures LeadOk(u, i) <==> LeadOk(g, i) {
      assert u[i] == g[i] && (i > 0 ==> Continuation(g[i]));
      assert i + 1 < |g| ==> u[i + 1] == g[i + 1];
    }
    forall i | 0 <= i < |s| ensures LeadOk(u, |g| + i) <==> LeadOk(s, i) {
      assert u[|g| + i] == s[i];
      assert i + 1 < |s| ==> u[|g| + i + 1] == s[i + 1];
    }
    if LeadsOk(u) {
      forall i | 0 <= i < |s| ensures LeadOk(s, i) {
        assert LeadOk(u, |g| + i);
      }
    }
    if LeadsOk(g) && LeadsOk(s) {
      forall i | 0 <= i < |u| ensures LeadOk(u, i) {
        assert i >= |g| ==> LeadOk(s, i - |g|);
      }
    }
  }

  lemma {:induction false} GroupsAreRfcIff(gs: seq<string>)
    requires Groups(gs)
    ensures AllRfc(gs) <==> LeadsOk(Concat(gs))
    decreases |gs|
  {
    hide Group, RfcChar, LeadsOk;
    if gs == [] {
      NothingIsOk();
    } else {
      assert Group(gs[0]);
      GroupsAreRfcIff(gs[1..]);
      GroupIsRfcIff(gs[0]);
      LeadsOkAppend(gs[0], Concat(gs[1..]));
      assert AllRfc(gs) <==> RfcChar(gs[0]) && AllRfc(gs[1..]) by {
        assert forall i :: 0 < i < |gs| ==> gs[i] == gs[1..][i - 1];
      }
    }
  }

  lemma NothingIsOk()
    ensures LeadsOk("")
  {
  }

  /**
   Exactly when an accepted text follows the grammar of section 4 of RFC 3629:
   it has none of the first bytes C0, C1 and F5 to F7, and behind E0, ED, F0 and
   F4 the second byte is in the narrower range of the grammar.
   */
  lemma FollowsRfcIff(s: string)
    ensures (exists gs :: AllRfc(gs) && Concat(gs) == s) <==> Continues(s, 0) && LeadsOk(s)
  {
    hide Group, RfcChar, LeadsOk, Continues;
    if gs :| AllRfc(gs) && Concat(gs) == s {
      RfcTextsAreAccepted(gs);
      forall i | 0 <= i < |gs| ensures Group(gs[i]) {
        RfcCharIsGroup(gs[i]);
      }
      GroupsAreRfcIff(gs);
    }
    if Continues(s, 0) && LeadsOk(s) {
      var gs := AcceptedIsGroups(s);
      GroupsAreRfcIff(gs);
    }
  }

  lemma {:induction false} AsciiIsAccepted(s: string)
    requires forall i :: 0 <= i < |s| ==> Ascii(s[i])
    ensures Continues(s, 0)
    decreases |s|
  {
    if s != "" {
      AsciiIsAccepted(s[1..]);
    }
  }

  // ---------- Escaping keeps texts valid ----------

  lemma {:induction false} AsciiSeparates(s: string, c: char, t: string, k: nat)
    requires Ascii(c)
    ensures Continues(s + [c] + t, k) <==> Continues(s, k) && Continues(t, 0)
    decreases |s|
  {
    var u := s + [c] + t;
    if s == "" {
      assert u == [c] + t && u[1..] == t;
    } else {
      assert u[1..] == s[1..] + [c] + t;
      var n := if k > 0 then k - 1 else Announced(s[0]);
      if n >= 0 {
        AsciiSeparates(s[1..], c, t, n);
      }
    }
  }

  lemma {:induction false} EscapingKeepsUtf8(f: string, k: nat)
    ensures Continues(EscapeField(f), k) <==> Continues(f, k)
    decreases |f|
  {
    if f != "" {
      var e := EscapeField(f[1..]);
      var n := if k > 0 then k - 1 else Announced(f[0]);
      if n >= 0 {
        EscapingKeepsUtf8(f[1..], n);
      }
      if NeedsEscape(f) {
        assert EscapeField(f)[1..] == [f[0]] + e;
        assert ([f[0]] + e)[1..] == e;
      } else {
        assert EscapeField(f)[1..] == e;
      }
    }
  }

  predicate AllUtf8(fs: seq<string>) {
    forall i :: 0 <= i < |fs| ==> Continues(fs[i], 0)
  }

  lemma {:induction false} FieldsKeepUtf8(fs: seq<string>)
    requires fs != []
    ensures Continues(EncodeFields(fs), 0) <==> AllUtf8(fs)
    decreases |fs|
  {
    EscapingKeepsUtf8(fs[0], 0);
    if |fs| > 1 {
      FieldsKeepUtf8(fs[1..]);
      AsciiSeparates(EscapeField(fs[0]), SP, EncodeFields(fs[1..]), 0);
      assert AllUtf8(fs) <==> Continues(fs[0], 0) && AllUtf8(fs[1..]);
    }
  }

  /** The line of a record is a valid text exactly when every field is. */
  lemma RecordsKeepUtf8(fs: seq<string>, allowEmpty: bool)
    ensures Continues(EncodeRecord(fs, allowEmpty), 0) <==> AllUtf8(fs)
  {
    if fs != [] {
      FieldsKeepUtf8(fs);
      AsciiSeparates(EncodeFields(fs), LF, "", 0);
      assert EncodeFields(fs) + [LF] + "" == EncodeFields(fs) + [LF];
    } else if allowEmpty {
      assert [LF][1..] == "";
    }
  }
}
