/**
 The fixed size buffers of the protocol. One class serves both uses, as in the
 program: a ring for output (`Ring`, `Queue`), a line starting at zero for
 input (`Line`, `Bytes`).
 */
module Buffers {
  import opened Text
  import opened Escaping

  function Min(a: int, b: int): int {
    if a < b then a else b
  }

  // ---------- The ring on plain sequences ----------

  /** Index in the ring of the i-th byte after pos. */
  function Slot(pos: nat, i: nat): (k: nat)
    requires pos < BUFFER_LENGTH && i <= BUFFER_LENGTH
    ensures k < BUFFER_LENGTH
  {
    if pos + i < BUFFER_LENGTH then pos + i else pos + i - BUFFER_LENGTH
  }

  /** The count bytes that start at pos, across the wrap. */
  function RingView(c: string, pos: nat, count: nat): (q: string)
    requires |c| == BUFFER_LENGTH && pos < BUFFER_LENGTH && count <= BUFFER_LENGTH
    ensures |q| == count
    ensures forall i :: 0 <= i < count ==> q[i] == c[Slot(pos, i)]
  {
    if pos + count <= BUFFER_LENGTH then c[pos..pos + count]
    else c[pos..] + c[..pos + count - BUFFER_LENGTH]
  }

  lemma RingAppend(c: string, pos: nat, count: nat, x: char)
    requires |c| == BUFFER_LENGTH && pos < BUFFER_LENGTH && count < BUFFER_LENGTH
    ensures RingView(c[Slot(pos, count) := x], pos, count + 1) == RingView(c, pos, count) + [x]
  {
    var c' := c[Slot(pos, count) := x];
    var q := RingView(c', pos, count + 1);
    forall i | 0 <= i < count ensures q[i] == RingView(c, pos, count)[i] {
      assert Slot(pos, i) != Slot(pos, count);
    }
  }

  lemma RingDrop(c: string, pos: nat, count: nat, n: nat)
    requires |c| == BUFFER_LENGTH && pos < BUFFER_LENGTH && n <= count <= BUFFER_LENGTH
    ensures RingView(c, Slot(pos, n), count - n) == RingView(c, pos, count)[n..]
  {
    forall i | 0 <= i < count - n ensures Slot(Slot(pos, n), i) == Slot(pos, n + i) {
    }
  }

  lemma RingTake(c: string, pos: nat, count: nat, n: nat)
    requires |c| == BUFFER_LENGTH && pos < BUFFER_LENGTH && n <= count <= BUFFER_LENGTH
    ensures RingView(c, pos, n) == RingView(c, pos, count)[..n]
  {
  }


  // ---------- Decoded fields, laid out one after the other ----------

  function Flat(fs: seq<string>): string {
    if fs == [] then "" else Flat(fs[..|fs| - 1]) + fs[|fs| - 1] + [NUL]
  }

  /** Where each field of Flat(fs) starts, and where the next one would. */
  function Offsets(fs: seq<string>): (r: seq<nat>)
    ensures |r| == |fs| + 1
  {
    if fs == [] then [0] else Offsets(fs[..|fs| - 1]) + [|Flat(fs)|]
  }

  lemma {:induction false} OffsetsAt(fs: seq<string>, k: nat)
    requires k <= |fs|
    ensures Offsets(fs)[k] == |Flat(fs[..k])|
  {
    if k == |fs| {
      assert fs[..k] == fs;
    } else {
      OffsetsAt(fs[..|fs| - 1], k);
      assert fs[..|fs| - 1][..k] == fs[..k];
    }
  }

  lemma FlatSnoc(fs: seq<string>, f: string)
    ensures Flat(fs + [f]) == Flat(fs) + f + [NUL]
    ensures Offsets(fs + [f]) == Offsets(fs) + [|Flat(fs + [f])|]
  {
    assert (fs + [f])[..|fs|] == fs;
  }

  lemma {:induction false} FlatAt(fs: seq<string>, k: nat)
    requires k < |fs|
    ensures |Flat(fs[..k])| + |fs[k]| < |Flat(fs)|
    ensures exists t :: Flat(fs)[|Flat(fs[..k])|..] == fs[k] + [NUL] + t
  {
    var n := |fs| - 1;
    var flat := Flat(fs[..n]);
    if k == n {
      assert Flat(fs)[|flat|..] == fs[k] + [NUL] + "";
    } else {
      FlatAt(fs[..n], k);
      assert fs[..n][..k] == fs[..k];
      var at := |Flat(fs[..k])|;
      var t :| flat[at..] == fs[k] + [NUL] + t;
      assert Flat(fs)[at..] == fs[k] + [NUL] + (t + fs[n] + [NUL]);
    }
  }

  /** What a C reader finds at the start of the k-th field, whatever follows the fields. */
  lemma FlatReads(fs: seq<string>, k: nat, u: string)
    requires k < |fs|
    ensures |Flat(fs[..k])| < |Flat(fs)|
    ensures NUL in (Flat(fs) + u)[|Flat(fs[..k])|..]
    ensures CStr((Flat(fs) + u)[|Flat(fs[..k])|..]) == CStr(fs[k])
  {
    FlatAt(fs, k);
    var at := |Flat(fs[..k])|;
    var t :| Flat(fs)[at..] == fs[k] + [NUL] + t;
    assert (Flat(fs) + u)[at..] == (fs[k] + [NUL]) + (t + u);
    assert (fs[k] + [NUL])[|fs[k]|] == NUL;
    CStrPrefix(fs[k] + [NUL], t + u);
    if NUL in fs[k] {
      CStrPrefix(fs[k], [NUL]);
    } else {
      CStrStops(fs[k], "");
      assert fs[k] + [NUL] + "" == fs[k] + [NUL];
    }
  }

  lemma GlueNothing(fs: seq<string>)
    requires fs != []
    ensures [] + Glue("", fs) == fs
  {
    assert "" + fs[0] == fs[0];
  }

  /**
   State of the decoder of the record s[..end]: done and cur are the fields read
   so far, and read stands between two characters.
   */
  ghost predicate Decoding(s: string, end: nat, read: nat, done: seq<string>, cur: string) {
    && read <= end < |s|
    && FirstEnd(s[read..]) == Some(end - read)
    && Split(s[..end]) == done + Glue(cur, Split(s[read..end]))
  }

  lemma DecodingStarts(s: string, end: nat)
    requires FirstEnd(s) == Some(end)
    ensures Decoding(s, end, 0, [], "")
    ensures Flat([]) == "" && Offsets([]) == [0]
  {
    assert s[0..] == s && s[..end] == s[0..end];
    GlueNothing(Split(s[..end]));
  }

  lemma DecodingEnds(s: string, end: nat, read: nat, done: seq<string>, cur: string)
    requires Decoding(s, end, read, done, cur)
    ensures read <= end < |s|
    ensures s[read] == LF <==> read == end
    ensures read == end ==> Split(s[..end]) == done + [cur]
  {
    assert s[read..][0] == s[read];
    GlueNothing([cur]);
    assert cur + "" == cur;
  }

  lemma DecodingSpace(s: string, end: nat, read: nat, done: seq<string>, cur: string)
    requires Decoding(s, end, read, done, cur) && read <= end < |s| && s[read] == SP
    ensures read + 1 <= end && Decoding(s, end, read + 1, done + [cur], "")
    ensures done + [cur] <= Split(s[..end]) && |Split(s[..end])| > |done| + 1
  {
    DecodingEnds(s, end, read, done, cur);
    var r := s[read..end];
    assert s[read..][1..] == s[read + 1..] && r[1..] == s[read + 1..end];
    assert FirstEnd(s[read + 1..]) == Some(end - read - 1);
    hide FirstEnd;
    assert Split(r) == [""] + Split(r[1..]);
    hide Split;
    SplitAtSpace(done, cur, Split(r[1..]));
  }

  lemma SplitAtSpace(done: seq<string>, cur: string, rest: seq<string>)
    requires rest != []
    ensures done + Glue(cur, [""] + rest) == done + [cur] + Glue("", rest)
    ensures done + [cur] <= done + [cur] + Glue("", rest)
  {
    GlueNothing(rest);
    assert cur + "" == cur;
    assert Glue(cur, [""] + rest) == [cur] + rest;
    assert done + ([cur] + rest) == done + [cur] + rest;
  }

  lemma DecodingEscape(s: string, end: nat, read: nat, done: seq<string>, cur: string)
    requires Decoding(s, end, read, done, cur) && read <= end < |s| && s[read] == ESC
    ensures read + 2 <= end && Decoding(s, end, read + 2, done, cur + Unescaped(s[read + 1]))
  {
    var r := s[read..];
    assert r[0] == ESC && r[2..] == s[read + 2..];
    var t := s[read..end];
    assert t[2..] == s[read + 2..end] && t[1] == s[read + 1];
    GlueTwice(cur, Unescaped(t[1]), Split(t[2..]));
  }

  lemma LaidOutPrefix(c: string, out: string, all: seq<string>)
    requires out <= c && out == Flat(all)
    ensures Flat(all) <= c
  {
  }

  /** What a backslash followed by x stands for. */
  function Unescaped(x: char): string {
    if Special(x) then [x] else [ESC, x]
  }

  lemma DecodingPlain(s: string, end: nat, read: nat, done: seq<string>, cur: string)
    requires Decoding(s, end, read, done, cur) && read <= end < |s| && s[read] != ESC && s[read] != SP && s[read] != LF
    ensures read + 1 <= end && Decoding(s, end, read + 1, done, cur + [s[read]])
  {
    var r := s[read..];
    assert r[0] == s[read] && r[1..] == s[read + 1..];
    var t := s[read..end];
    assert t[1..] == s[read + 1..end] && t[0] == s[read];
    GlueTwice(cur, [t[0]], Split(t[1..]));
  }

  // ---------- The fields of a received record ----------

  /** The received fields: count is negative when there is no current record. */
  class FieldTable {
    var count: int
    const start: array<nat>  // where each field starts in the input buffer

    constructor ()
      ensures count == -1 && start.Length == MAX_FIELDS && fresh(start)
    {
      count := -1;
      start := new nat[MAX_FIELDS];
    }

    /** Every field is a C string lying inside the bytes c of the record. */
    ghost predicate Inside(c: string)
      reads this, start
    {
      && start.Length == MAX_FIELDS
      && 0 <= count <= MAX_FIELDS
      && forall k :: 0 <= k < count ==> start[k] < |c| && NUL in c[start[k]..]
    }

    /** The strings that a holder of the field pointers reads. */
    ghost function Strings(c: string): (r: seq<string>)
      requires Inside(c)
      reads this, start
      ensures |r| == count
      ensures forall k :: 0 <= k < count ==> r[k] == CStr(c[start[k]..])
    {
      seq(count, k requires 0 <= k < count && Inside(c) reads this, start => CStr(c[start[k]..]))
    }

    /** The known starts are those of the decoded fields done, and of the one being decoded. */
    ghost predicate Starts(done: seq<string>)
      requires start.Length == MAX_FIELDS
      reads start
    {
      forall k :: 0 <= k <= |done| && k < MAX_FIELDS ==> start[k] == Offsets(done)[k]
    }

    /** The bytes c of a record hold the fields all, of which count are reported. */
    ghost predicate LaidOut(c: string, all: seq<string>)
      reads this, start
    {
      && start.Length == MAX_FIELDS
      && 0 <= count <= |all| && count <= MAX_FIELDS
      && Flat(all) <= c
      && forall k :: 0 <= k < count ==> start[k] == Offsets(all)[k]
    }

    lemma Ready(c: string, all: seq<string>)
      requires LaidOut(c, all)
      ensures Inside(c)
      ensures forall k :: 0 <= k < count ==> Strings(c)[k] == CStr(all[k])
    {
      var u := c[|Flat(all)|..];
      assert c == Flat(all) + u;
      forall k | 0 <= k < count
        ensures start[k] < |c| && NUL in c[start[k]..] && CStr(c[start[k]..]) == CStr(all[k])
      {
        OffsetsAt(all, k);
        FlatReads(all, k, u);
      }
    }
  }

  /** What a read on a descriptor answers. */
  datatype ReadAnswer = Bytes(data: string) | Fails(errno: int)

  lemma EscapeStep(s: string, i: nat, w: string)
    requires i < |s| && w + EscapeField(s[i..]) == EscapeField(s)
    ensures w + Piece(s[i], NeedsEscape(s[i..])) + EscapeField(s[i + 1..]) == EscapeField(s)
  {
    hide Piece, NeedsEscape;
    assert s[i..][1..] == s[i + 1..];
    var piece, rest := Piece(s[i], NeedsEscape(s[i..])), EscapeField(s[i + 1..]);
    assert EscapeField(s[i..]) == piece + rest;
    hide EscapeField;
    Associate(w, piece, rest);
  }

  lemma EscapeDone(s: string, w: string)
    ensures s[|s|..] == "" && EscapeField("") == ""
    ensures w + EscapeField(s[|s|..]) == EscapeField(s) ==> w == EscapeField(s)
  {
    assert w + "" == w;
  }

  class Buf {
    var pos: nat
    var count: nat
    const content: array<char>

    constructor ()
      ensures pos == 0 && count == 0 && content.Length == BUFFER_LENGTH && fresh(content)
    {
      pos, count := 0, 0;
      content := new char[BUFFER_LENGTH];
    }

    // ---------- Output ----------

    ghost predicate Ring()
      reads this
    {
      content.Length == BUFFER_LENGTH && pos < BUFFER_LENGTH && count <= BUFFER_LENGTH
    }

    ghost function Queue(): (q: string)
      requires Ring()
      reads this, content
      ensures |q| == count
    {
      RingView(content[..], pos, count)
    }

    /** Appends one byte, or refuses when the buffer is full. */
    method PutCar(car: char) returns (rc: int)
      requires Ring()
      modifies this`count, content
      ensures Ring()
      ensures rc == if old(count) < BUFFER_LENGTH then 0 else -ECANCELED
      ensures Queue() == if rc == 0 then old(Queue()) + [car] else old(Queue())
    {
      var p := count;
      if p >= BUFFER_LENGTH {
        return -ECANCELED;
      }
      RingAppend(content[..], pos, count, car);
      count := p + 1;
      p := p + pos;
      if p >= BUFFER_LENGTH {
        p := p - BUFFER_LENGTH;
      }
      ghost var before := content[..];
      content[p] := car;
      assert content[..] == before[p := car];
      rc := 0;
    }

    /** One store of the loop of PutString: w has been written behind the queue and x is next. */
    ghost predicate Written(q: string, w: string, p: nat, remain: nat)
      requires Ring()
      reads this, content
    {
      && |q| == count && |q| + |w| + remain == BUFFER_LENGTH
      && p == Slot(pos, |q| + |w|)
      && RingView(content[..], pos, |q| + |w|) == q + w
    }

    method Store(x: char, p: nat, remain: nat, ghost q: string, ghost w: string) returns (p': nat)
      requires Ring() && remain > 0 && Written(q, w, p, remain)
      modifies content
      ensures Ring() && Written(q, w + [x], p', remain - 1)
    {
      RingAppend(content[..], pos, |q| + |w|, x);
      ghost var before := content[..];
      content[p] := x;
      assert content[..] == before[p := x];
      assert q + w + [x] == q + (w + [x]);
      p' := p + 1;
      if p' == BUFFER_LENGTH {
        p' := 0;
      }
    }

    /** Stores x, behind a backslash if escape is set; tells whether there was room for all of it. */
    method StoreEscaped(x: char, escape: bool, p: nat, remain: nat, ghost q: string, ghost w: string)
      returns (ok: bool, p': nat, remain': nat, ghost w': string)
      requires Ring() && Written(q, w, p, remain)
      modifies content
      ensures Ring() && Written(q, w', p', remain')
      ensures ok == (|Piece(x, escape)| <= remain)
      ensures ok ==> w' == w + Piece(x, escape)
    {
      p', remain', w' := p, remain, w;
      if escape {
        if remain' == 0 {
          return false, p', remain', w';
        }
        p' := Store(ESC, p', remain', q, w');
        remain', w' := remain' - 1, w' + [ESC];
      }
      if remain' == 0 {
        return false, p', remain', w';
      }
      p' := Store(x, p', remain', q, w');
      remain', w' := remain' - 1, w' + [x];
      ok := true;
    }

    lemma WrittenQueue(q: string, w: string, p: nat, remain: nat)
      requires Ring() && Written(q, w, p, remain)
      ensures Queue() == q && p == Slot(pos, count + |w|)
      ensures count + |w| + remain == BUFFER_LENGTH && RingView(content[..], pos, count + |w|) == q + w
    {
      RingTake(content[..], pos, |q| + |w|, |q|);
      assert (q + w)[..|q|] == q;
    }

    /** Must the character at i be escaped? A backslash only where what follows would make it one. */
    static method MustEscape(s: string, i: nat) returns (escape: bool)
      requires i < |s|
      ensures escape == NeedsEscape(s[i..])
    {
      escape := s[i] == SP || s[i] == LF;
      if s[i] == ESC {
        escape := i + 1 == |s| || s[i + 1] == SP || s[i + 1] == LF || s[i + 1] == ESC;
      }
    }

    /** The loop of PutString: stores the escaped string behind the queue q, as far as there is room. */
    method StoreString(s: string, p0: nat, remain0: nat, ghost q: string)
      returns (ok: bool, remain: nat, ghost w: string)
      requires Ring() && Written(q, "", p0, remain0)
      modifies content
      ensures Ring() && exists p: nat :: Written(q, w, p, remain)
      ensures ok == (|EscapeField(s)| <= remain0)
      ensures ok ==> w == EscapeField(s)
    {
      hide EscapeField, Piece, NeedsEscape, Written, Queue;
      ok, remain, w := true, remain0, "";
      var i, p := 0, p0;
      WrittenQueue(q, w, p, remain);
      assert s[0..] == s && "" + EscapeField(s) == EscapeField(s);
      while ok && i < |s|
        invariant 0 <= i <= |s| && Ring() && Written(q, w, p, remain)
        invariant ok ==> w + EscapeField(s[i..]) == EscapeField(s) && |w| + remain == remain0
        invariant !ok ==> |EscapeField(s)| > remain0
      {
        var escape := MustEscape(s, i);
        EscapeStep(s, i, w);
        WrittenQueue(q, w, p, remain);
        ok, p, remain, w := StoreEscaped(s[i], escape, p, remain, q, w);
        WrittenQueue(q, w, p, remain);
        i := i + 1;
      }
      EscapeDone(s, w);
    }

    /** Appends the escaped string, or leaves the queue as it was when there is not enough room. */
    method PutString(s: string) returns (rc: int)
      requires Ring()
      modifies this`count, content
      ensures Ring()
      ensures rc == if old(count) + |EscapeField(s)| <= BUFFER_LENGTH then 0 else -ECANCELED
      ensures Queue() == if rc == 0 then old(Queue()) + EscapeField(s) else old(Queue())
    {
      hide EscapeField, RingView;
      var remain := count;
      var p := pos + remain;
      if p >= BUFFER_LENGTH {
        p := p - BUFFER_LENGTH;
      }
      remain := BUFFER_LENGTH - remain;
      ghost var q := Queue();
      assert q + "" == q;
      var ok;
      ghost var w;
      ok, remain, w := StoreString(s, p, remain, q);
      ghost var p' :| p' >= 0 && Written(q, w, p', remain);
      WrittenQueue(q, w, p', remain);
      if !ok {
        return -ECANCELED;
      }
      count := BUFFER_LENGTH - remain;
      rc := 0;
    }

    /**
     Hands at most limit bytes to the kernel in one or two segments; answer is
     what the kernel says: how many it took, or an error. The bytes that left
     are exactly the first rc of the queue.
     */
    method WriteLength(limit: nat, answer: int) returns (rc: int, sent: string)
      requires Ring()
      modifies this`pos, this`count
      ensures Ring()
      ensures rc == if limit == 0 || old(count) == 0 then -ENODATA else Min(answer, Min(limit, old(count)))
      ensures rc < 0 ==> sent == "" && Queue() == old(Queue())
      ensures rc >= 0 ==> rc <= old(count) && sent == old(Queue())[..rc] && Queue() == old(Queue())[rc..]
    {
      var n := limit;
      if n > count {
        n := count;
      }
      if n == 0 {
        return -ENODATA, "";
      }
      var vec0, vec1;
      if pos + n <= BUFFER_LENGTH {
        vec0, vec1 := content[pos..pos + n], "";
      } else {
        vec0, vec1 := content[pos..], content[..n - (BUFFER_LENGTH - pos)];
      }
      assert vec0 + vec1 == RingView(content[..], pos, n);
      assert vec0 + vec1 == Queue()[..n] by {
        RingTake(content[..], pos, count, n);
      }
      rc := Min(answer, n);
      if rc < 0 {
        return rc, "";
      }
      sent := (vec0 + vec1)[..rc];
      assert sent == Queue()[..n][..rc] == Queue()[..rc];
      Consume(rc);
    }

    method Consume(n: nat)
      requires Ring() && n <= count
      modifies this`pos, this`count
      ensures Ring() && Queue() == old(Queue())[n..]
    {
      RingDrop(content[..], pos, count, n);
      count := count - n;
      pos := pos + n;
      if pos >= BUFFER_LENGTH {
        pos := pos - BUFFER_LENGTH;
      }
    }

    // ---------- Input ----------

    ghost predicate Line()
      reads this
    {
      content.Length == BUFFER_LENGTH && pos <= count <= BUFFER_LENGTH
    }

    /** Advances pos to the first unescaped line feed at or after it. */
    method ScanEndRecord() returns (found: bool)
      requires Line()
      requires forall j: nat :: j < pos ==> !StopsAt(content[..count], j)
      modifies this`pos
      ensures Line()
      ensures forall j: nat :: j < pos ==> !StopsAt(content[..count], j)
      ensures found == FirstEnd(content[..count]).Some?
      ensures found ==> FirstEnd(content[..count]) == Some(pos)
    {
      ghost var s := content[..count];
      while pos < count
        invariant Line() && s == content[..count]
        invariant forall j: nat :: j < pos ==> !StopsAt(s, j)
      {
        if content[pos] == LF {
          var nesc := 0;
          while pos > nesc && content[pos - (nesc + 1)] == ESC
            invariant nesc <= pos
            invariant BackslashesBefore(s, pos) == nesc + BackslashesBefore(s, pos - nesc)
          {
            nesc := nesc + 1;
          }
          if nesc % 2 == 0 {
            ScannerAgreesWithReader(s, pos);
            return true;
          }
        }
        pos := pos + 1;
      }
      NoEndMeansNoStop(s);
      return false;
    }

    /** Removes the first pos bytes. */
    method Crop()
      requires Line()
      modifies this, content
      ensures Line() && pos == 0 && count == old(count - pos)
      ensures content[..count] == old(content[pos..count])
    {
      count := count - pos;
      forall i | 0 <= i < count {
        content[i] := content[pos + i];
      }
      pos := 0;
    }

    /** Appends what the kernel has, as far as there is room. */
    method Read(answer: ReadAnswer) returns (rc: int)
      requires Line()
      modifies this`count, content
      ensures Line()
      ensures old(count) == BUFFER_LENGTH ==> rc == -ENOBUFS
      ensures old(count) < BUFFER_LENGTH && answer.Fails? ==> rc == -answer.errno
      ensures old(count) < BUFFER_LENGTH && answer.Bytes? ==> rc == Min(|answer.data|, BUFFER_LENGTH - old(count))
      ensures count == old(count) + if old(count) < BUFFER_LENGTH && answer.Bytes? then rc else 0
      ensures old(count) < BUFFER_LENGTH && answer.Bytes? ==>
                content[..count] == old(content[..count]) + answer.data[..rc]
      ensures count == old(count) ==> content[..] == old(content[..])
    {
      if count == BUFFER_LENGTH {
        return -ENOBUFS;
      }
      match answer
      case Fails(e) => rc := -e;
      case Bytes(data) =>
        rc := Min(|data|, BUFFER_LENGTH - count);
        forall i | 0 <= i < rc {
          content[count + i] := data[i];
        }
        count := count + rc;
        assert content[..count] == old(content[..count]) + data[..rc];
    }

    /** What remains to be read from index read on is as it was in s. */
    ghost predicate Unread(s: string, read: nat)
      reads this, content
    {
      |s| == count <= content.Length && forall i :: read <= i < count ==> content[i] == s[i]
    }

    /** content[write++] = x: extends the decoded text and leaves what is still to be read. */
    method Emit(write: nat, x: char, ghost out: string, ghost s: string, ghost read: nat) returns (write': nat)
      requires write < read <= content.Length && content[..write] == out && Unread(s, read)
      modifies content
      ensures write' == write + 1 && content[..write'] == out + [x] && Unread(s, read)
    {
      content[write] := x;
      assert content[..write + 1] == content[..write] + [x];
      write' := write + 1;
    }

    /** Extends the current field cur, behind the finished ones in flat. */
    method EmitPlain(write: nat, x: char, ghost flat: string, ghost cur: string, ghost s: string, ghost read: nat)
      returns (write': nat)
      requires write < read <= content.Length && content[..write] == flat + cur && Unread(s, read)
      modifies content
      ensures write' == write + 1 && content[..write'] == flat + (cur + [x]) && Unread(s, read)
    {
      write' := Emit(write, x, flat + cur, s, read);
      Associate(flat, cur, [x]);
    }

    /** An escaped character: the backslash stays in front of one that is not special. */
    method EmitEscaped(write: nat, x: char, ghost flat: string, ghost cur: string, ghost s: string, ghost read: nat)
      returns (write': nat)
      requires write + 1 < read <= content.Length && content[..write] == flat + cur && Unread(s, read)
      modifies content
      ensures write < write' <= read && content[..write'] == flat + (cur + Unescaped(x)) && Unread(s, read)
    {
      write' := write;
      ghost var w := cur;
      if x != SP && x != LF && x != ESC {
        write' := EmitPlain(write', ESC, flat, w, s, read);
        w := w + [ESC];
        assert w + [x] == cur + Unescaped(x);
      }
      write' := EmitPlain(write', x, flat, w, s, read);
    }

    /** A separator ends a field; full tells that it is one field too many. */
    method EndField(fields: FieldTable, write: nat, ghost done: seq<string>, ghost cur: string, ghost s: string,
        ghost read: nat)
      returns (write': nat, full: bool)
      requires content.Length == BUFFER_LENGTH && fields.start.Length == MAX_FIELDS
      requires write < read <= content.Length && content[..write] == Flat(done) + cur && Unread(s, read)
      requires fields.count == |done| <= MAX_FIELDS && fields.Starts(done)
      modifies content, fields, fields.start
      ensures write' == write + 1 && content[..write'] == Flat(done + [cur]) && Unread(s, read)
      ensures full == (|done| == MAX_FIELDS)
      ensures fields.count == if full then |done| else |done| + 1
      ensures fields.Starts(done + [cur])
    {
      hide Flat, Offsets;
      FlatSnoc(done, cur);
      write' := Emit(write, NUL, Flat(done) + cur, s, read);
      full := fields.count >= MAX_FIELDS;
      if full {
        return;
      }
      fields.count := fields.count + 1;
      if fields.count < MAX_FIELDS {
        fields.start[fields.count] := write';
      }
    }

    /** The line feed ends the last field, and an empty record has no field. */
    method EndRecord(fields: FieldTable, write: nat, ghost done: seq<string>, ghost cur: string, ghost s: string,
        ghost read: nat)
      requires content.Length == BUFFER_LENGTH && fields.start.Length == MAX_FIELDS
      requires write < read <= content.Length && content[..write] == Flat(done) + cur && Unread(s, read)
      requires fields.count == |done| <= MAX_FIELDS && fields.Starts(done)
      modifies content, fields`count
      ensures content[..write + 1] == Flat(done + [cur]) && Unread(s, read)
      ensures fields.count == if write > 0 && |done| < MAX_FIELDS then |done| + 1 else |done|
      ensures forall k :: 0 <= k < fields.count ==> fields.start[k] == Offsets(done + [cur])[k]
    {
      hide Flat, Offsets;
      FlatSnoc(done, cur);
      ghost var end := Emit(write, NUL, Flat(done) + cur, s, read);
      if write > 0 && fields.count < MAX_FIELDS {
        fields.count := fields.count + 1;
      }
    }

    /** Invariant of the decoding loop: write has not passed read, and both sides of them are as they should be. */
    ghost predicate DecodeState(fields: FieldTable, s: string, end: nat, read: nat, write: nat, done: seq<string>,
        cur: string)
      reads this, content, fields, fields.start
    {
      && content.Length == BUFFER_LENGTH && fields.start.Length == MAX_FIELDS
      && pos == end + 1 && Unread(s, read)
      && Decoding(s, end, read, done, cur)
      && write <= read <= end && (write == 0 ==> read == 0 && done == [])
      && content[..write] == Flat(done) + cur
      && fields.count == |done| <= MAX_FIELDS && fields.Starts(done)
    }

    /** What the decoding leaves: the fields all are laid out, and those to be reported are counted. */
    ghost predicate DecodeDone(fields: FieldTable, s: string, end: nat, all: seq<string>)
      reads this, content, fields, fields.start
    {
      && content.Length == BUFFER_LENGTH && fields.start.Length == MAX_FIELDS
      && pos == end + 1 <= content.Length && end < |s| && Unread(s, pos)
      && fields.LaidOut(content[..pos], all)
      && all <= Split(s[..end])
      && fields.count == if end == 0 then 0 else Min(|Split(s[..end])|, MAX_FIELDS)
    }

    /** One turn of the loop, for a separator or the end of the record. */
    method DecodeEnds(fields: FieldTable, c: char, read: nat, write: nat,
                      ghost s: string, ghost end: nat, ghost done: seq<string>, ghost cur: string)
      returns (finished: bool, write': nat)
      requires DecodeState(fields, s, end, read, write, done, cur)
      requires c == s[read] && (c == SP || c == LF)
      modifies content, fields, fields.start
      ensures finished ==> DecodeDone(fields, s, end, done + [cur])
      ensures !finished ==> c == SP && DecodeState(fields, s, end, read + 1, write', done + [cur], "")
    {
      hide Split, FirstEnd, Decoding, Flat, Offsets;
      DecodingEnds(s, end, read, done, cur);
      ghost var all := done + [cur];
      if c == SP {
        DecodingSpace(s, end, read, done, cur);
        write', finished := EndField(fields, write, done, cur, s, read + 1);
        LaidOutPrefix(content[..pos], content[..write'], all);
        assert Flat(all) + "" == Flat(all);
      } else {
        EndRecord(fields, write, done, cur, s, read + 1);
        LaidOutPrefix(content[..pos], content[..write + 1], all);
        finished, write' := true, write;
      }
    }

    /** One turn of the loop, for a character of a field. */
    method DecodeChar(fields: FieldTable, c: char, read: nat, write: nat,
                      ghost s: string, ghost end: nat, ghost done: seq<string>, ghost cur: string)
      returns (read': nat, write': nat, ghost cur': string)
      requires DecodeState(fields, s, end, read, write, done, cur)
      requires c == s[read] && c != SP && c != LF
      modifies content
      ensures read < read' && DecodeState(fields, s, end, read', write', done, cur')
    {
      hide Split, FirstEnd, Decoding, Flat, Offsets, Unescaped;
      DecodingEnds(s, end, read, done, cur);
      read' := read + 1;
      if c == ESC {
        DecodingEscape(s, end, read, done, cur);
        var x := content[read'];
        assert x == s[read + 1];
        read' := read' + 1;
        write' := EmitEscaped(write, x, Flat(done), cur, s, read');
        cur' := cur + Unescaped(x);
      } else {
        DecodingPlain(s, end, read, done, cur);
        write' := EmitPlain(write, c, Flat(done), cur, s, read');
        cur' := cur + [c];
      }
    }

    method DecodeRecord(fields: FieldTable, ghost s: string, ghost end: nat) returns (ghost all: seq<string>)
      requires DecodeState(fields, s, end, 0, 0, [], "")
      modifies content, fields, fields.start
      ensures DecodeDone(fields, s, end, all)
    {
      hide Split, FirstEnd, Decoding, Flat, Offsets;
      var read, write, finished := 0, 0, false;
      ghost var done: seq<string>, cur: string := [], "";
      while !finished
        invariant if finished then DecodeDone(fields, s, end, done)
                  else DecodeState(fields, s, end, read, write, done, cur)
        decreases !finished, end - read
      {
        DecodingEnds(s, end, read, done, cur);
        var c := content[read];
        if c == SP || c == LF {
          finished, write := DecodeEnds(fields, c, read, write, s, end, done, cur);
          read, done, cur := read + 1, done + [cur], "";
        } else {
          read, write, cur := DecodeChar(fields, c, read, write, s, end, done, cur);
        }
      }
      all := done;
    }

    method StartDecoding(fields: FieldTable, ghost s: string)
      requires Line() && fields.start.Length == MAX_FIELDS && s == content[..count]
      requires FirstEnd(s) == Some(pos)
      modifies this`pos, fields, fields.start
      ensures DecodeState(fields, s, old(pos), 0, 0, [], "")
    {
      DecodingStarts(s, pos);
      hide FirstEnd, Decoding;
      pos := pos + 1;
      fields.count := 0;
      fields.start[0] := 0;
    }

    lemma Decoded(fields: FieldTable, s: string, end: nat, all: seq<string>)
      requires DecodeDone(fields, s, end, all) && |s| == count
      ensures Line() && fields.Inside(content[..pos]) && fields.Strings(content[..pos]) == Decode(s[..end])
      ensures content[pos..count] == s[end + 1..]
    {
      hide Split, Flat, Offsets, Decode;
      fields.Ready(content[..pos], all);
      DecodedFields(s[..end], all, fields.count, fields.Strings(content[..pos]));
    }

    /**
     Decodes in place the record that ends at pos, overwriting its bytes. The
     writing index never passes the reading index, the bytes behind the record
     stay, and the field pointers denote the decoded fields.
     */
    method GetFields(fields: FieldTable)
      requires Line() && fields.start.Length == MAX_FIELDS
      requires FirstEnd(content[..count]) == Some(pos)
      modifies this`pos, content, fields, fields.start
      ensures Line() && pos == old(pos) + 1 && count == old(count)
      ensures content[pos..count] == old(content[pos + 1..count])
      ensures fields.Inside(content[..pos])
      ensures fields.Strings(content[..pos]) == Decode(old(content[..pos]))
    {
      ghost var s := content[..count];
      ghost var end := pos;
      assert s[..end] == old(content[..pos]) && s[end + 1..] == old(content[pos + 1..count]);
      StartDecoding(fields, s);
      hide FirstEnd, Decode, DecodeState;
      ghost var all := DecodeRecord(fields, s, end);
      Decoded(fields, s, end, all);
    }
  }

  lemma DecodedFields(body: string, all: seq<string>, count: nat, r: seq<string>)
    requires all <= Split(body) && |r| == count <= |all|
    requires count == if body == "" then 0 else Min(|Split(body)|, MAX_FIELDS)
    requires forall k :: 0 <= k < count ==> r[k] == CStr(all[k])
    ensures r == Decode(body)
  {
  }
}
