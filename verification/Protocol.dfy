/**
 The protocol handler: an output ring with a committed and a pending part, an
 input buffer with at most one decoded record, and the functions on plain
 values that its methods compute.
 */
module Protocol {
  import opened Text
  import opened Escaping
  import opened Buffers

  // ---------- Output, on values ----------

  /** Bytes ready to be written, bytes of a record being put, and the number of fields of that record. */
  datatype OutState = OutState(committed: string, pending: string, outfields: nat)
  {
    ghost predicate Valid() {
      |committed| + |pending| <= BUFFER_LENGTH && (outfields == 0 ==> pending == "")
    }
  }

  /** The text that putting fs adds behind n fields already put. */
  function Chain(n: nat, fs: seq<string>): string {
    if fs == [] then "" else (if n > 0 then [SP] else "") + EncodeFields(fs)
  }

  /** A put is all or nothing: the whole record is committed, or what was pending is dropped. */
  function PutSpec(o: OutState, fs: seq<string>, allowEmpty: bool): (OutState, int) {
    var text := o.pending + Chain(o.outfields, fs) + [LF];
    if o.outfields == 0 && fs == [] && !allowEmpty then (o, 0)
    else if |o.committed| + |text| <= BUFFER_LENGTH then (OutState(o.committed + text, "", 0), 0)
    else (OutState(o.committed, "", 0), -ECANCELED)
  }

  /** The variant that forgets to cancel when only the final line feed does not fit. */
  function PutxSpec(o: OutState, fs: seq<string>, allowEmpty: bool): (OutState, int) {
    var text := o.pending + Chain(o.outfields, fs);
    if |o.committed| + |text| == BUFFER_LENGTH && (o.outfields > 0 || fs != [])
    then (OutState(o.committed, text, o.outfields + |fs|), -ECANCELED)
    else PutSpec(o, fs, allowEmpty)
  }

  /** A write that the kernel answers takes the first bytes that are committed. */
  function WriteSpec(o: OutState, answer: int): (r: (OutState, string, int))
  {
    if o.committed == "" then (o, "", -ENODATA)
    else if answer < 0 then (o, "", answer)
    else
      var n := Min(answer, |o.committed|);
      (o.(committed := o.committed[n..]), o.committed[..n], n)
  }

  /** From a state with nothing pending, a put succeeds exactly when the encoded record fits. */
  lemma PutIsAtomic(o: OutState, fs: seq<string>, allowEmpty: bool)
    requires o.Valid() && o.outfields == 0
    ensures var text := EncodeRecord(fs, allowEmpty);
            var (o', rc) := PutSpec(o, fs, allowEmpty);
            && o'.Valid() && o'.outfields == 0
            && (rc == 0 <==> |o.committed| + |text| <= 2000)
            && (rc == 0 ==> o'.committed == o.committed + text)
            && (rc != 0 ==> rc == -125 && o' == o)
  {
    assert "" + Chain(0, fs) == Chain(0, fs);
    if fs != [] {
      assert "" + EncodeFields(fs) == EncodeFields(fs);
    } else {
      assert "" + "" + [LF] == [LF];
    }
    assert o.committed + "" == o.committed;
  }

  /**
   The variant leaves a pending record behind exactly when the free space is the
   size of the fields without their line feed; in every other case it is a put.
   */
  lemma PutxIsAtomicUnlessFull(o: OutState, fs: seq<string>, allowEmpty: bool)
    requires o.Valid() && o.outfields == 0
    ensures PutxSpec(o, fs, allowEmpty) == PutSpec(o, fs, allowEmpty)
            <==> (fs == [] || |o.committed| + |EncodeFields(fs)| != BUFFER_LENGTH)
  {
    assert "" + Chain(0, fs) == Chain(0, fs);
    if fs != [] {
      assert "" + EncodeFields(fs) == EncodeFields(fs);
    }
  }

  /** A field that fills the buffer: the variant refuses it and keeps it pending, where a put drops it. */
  lemma PutxMayKeepPending()
    ensures var o, f := OutState("", "", 0), seq(BUFFER_LENGTH, _ => 'a');
            && PutxSpec(o, [f], false) == (OutState("", f, 1), -ECANCELED)
            && PutSpec(o, [f], false) == (o, -ECANCELED)
  {
    var f := seq(BUFFER_LENGTH, _ => 'a');
    PlainFieldStays(f);
    hide EscapeField;
    assert Chain(0, [f]) == f && "" + f == f;
  }

  /** On the line: the byte 32 between two plain words, 10 behind a record, and 92 in front of these two in a field. */
  lemma BytesOnTheLine(a: string, b: string)
    requires forall i :: 0 <= i < |a| ==> a[i] as int !in {10, 32, 92}
    requires forall i :: 0 <= i < |b| ==> b[i] as int !in {10, 32, 92}
    ensures EncodeRecord([a, b], false) == a + [32 as char] + b + [10 as char]
    ensures EncodeRecord([[32 as char]], false) == [92 as char, 32 as char, 10 as char]
    ensures EncodeRecord([[10 as char]], false) == [92 as char, 10 as char, 10 as char]
    ensures EncodeRecord([[92 as char]], false) == [92 as char, 92 as char, 10 as char]
  {
    PlainFieldStays(a);
    PlainFieldStays(b);
    assert [a, b][1..] == [b];
    hide EscapeField;
    assert EncodeFields([b]) == b && EncodeFields([a, b]) == a + [SP] + b;
    OneByteField(SP);
    OneByteField(LF);
    OneByteField(ESC);
  }

  lemma OneByteField(c: char)
    requires Special(c)
    ensures EncodeRecord([[c]], false) == [ESC, c, LF]
  {
    assert [c][1..] == "" && EscapeField("") == "";
    assert EscapeField([c]) == [ESC, c] + "";
  }

  // ---------- Input, on values ----------

  /**
   held bytes of the buffer belong to the record that has been decoded into
   current; bytes are those received behind it.
   */
  datatype InState = InState(held: nat, bytes: string, current: Option<seq<string>>)
  {
    ghost predicate Valid() {
      held + |bytes| <= BUFFER_LENGTH && (current == None ==> held == 0)
    }

    function Room(): int {
      BUFFER_LENGTH - held - |bytes|
    }
  }

  function NextSpec(s: InState): InState {
    if s.current.Some? then InState(0, s.bytes, None) else s
  }

  /** The record at the head of the buffer, empty ones being skipped unless they are allowed. */
  function GetSpec(s: InState, allowEmpty: bool): (InState, int)
    decreases |s.bytes|, s.current.Some?
  {
    match s.current
    case Some(fs) => if fs == [] && !allowEmpty then GetSpec(NextSpec(s), allowEmpty) else (s, |fs|)
    case None =>
      match FirstEnd(s.bytes)
      case None => (s, if |s.bytes| < BUFFER_LENGTH then -EAGAIN else -EMSGSIZE)
      case Some(e) => GetSpec(InState(e + 1, s.bytes[e + 1..], Some(Decode(s.bytes[..e]))), allowEmpty)
  }

  function ReadSpec(s: InState, answer: ReadAnswer): (InState, int) {
    if s.Room() <= 0 then (s, -ENOBUFS)
    else match answer
      case Fails(e) => (s, -e)
      case Bytes(data) =>
        var n := Min(|data|, s.Room());
        (s.(bytes := s.bytes + data[..n]), n)
  }

  // ---------- The handler ----------

  class Prot {
    const inbuf: Buf
    const outbuf: Buf
    const fields: FieldTable
    var outfields: nat
    var wrokcnt: nat
    var allowEmpty: bool

    constructor ()
      ensures Valid() && !allowEmpty
      ensures fresh(inbuf) && fresh(inbuf.content) && fresh(outbuf) && fresh(outbuf.content)
      ensures fresh(fields) && fresh(fields.start)
      ensures Out() == OutState("", "", 0) && In() == InState(0, "", None)
    {
      inbuf := new Buf();
      outbuf := new Buf();
      fields := new FieldTable();
      outfields, wrokcnt, allowEmpty := 0, 0, false;
    }

    ghost function Repr(): set<object> {
      {this, inbuf, inbuf.content, outbuf, outbuf.content, fields, fields.start}
    }

    ghost predicate ValidOut()
      reads this`outfields, this`wrokcnt, outbuf
    {
      outbuf.Ring() && wrokcnt <= outbuf.count && (outfields == 0 ==> wrokcnt == outbuf.count)
    }

    /** While no record is decoded, the scan has not passed the end of one. */
    ghost predicate ValidIn()
      reads inbuf, inbuf.content, fields, fields.start
    {
      && inbuf.Line() && fields.start.Length == MAX_FIELDS
      && (fields.count < 0 ==> forall j: nat :: j < inbuf.pos ==> !StopsAt(inbuf.content[..inbuf.count], j))
      && (fields.count >= 0 ==> fields.Inside(inbuf.content[..inbuf.pos]))
    }

    ghost predicate Valid()
      reads this, inbuf, inbuf.content, outbuf, outbuf.content, fields, fields.start
    {
      inbuf != outbuf && inbuf.content != outbuf.content && ValidOut() && ValidIn()
    }

    ghost function Out(): (o: OutState)
      requires ValidOut()
      reads this`outfields, this`wrokcnt, outbuf, outbuf.content
      ensures o.Valid()
    {
      var q := outbuf.Queue();
      OutState(q[..wrokcnt], q[wrokcnt..], outfields)
    }

    ghost function In(): (s: InState)
      requires ValidIn()
      reads inbuf, inbuf.content, fields, fields.start
      ensures s.Valid()
    {
      if fields.count < 0 then InState(0, inbuf.content[..inbuf.count], None)
      else InState(inbuf.pos, inbuf.content[inbuf.pos..inbuf.count],
                   Some(fields.Strings(inbuf.content[..inbuf.pos])))
    }

    // ---------- Output ----------

    method PutCancel()
      requires Valid()
      modifies this`outfields, outbuf`count
      ensures Valid() && In() == old(In())
      ensures Out() == OutState(old(Out()).committed, "", 0)
    {
      if outfields > 0 {
        RingTake(outbuf.content[..], outbuf.pos, outbuf.count, wrokcnt);
        outbuf.count := wrokcnt;
        outfields := 0;
      }
    }

    method PutEnd() returns (rc: int)
      requires Valid()
      modifies this`outfields, this`wrokcnt, outbuf`count, outbuf.content
      ensures Valid() && In() == old(In())
      ensures var o := old(Out());
              if o.outfields == 0 && !allowEmpty then rc == 0 && Out() == o
              else if |o.committed| + |o.pending| < BUFFER_LENGTH then
                rc == 0 && Out() == OutState(o.committed + o.pending + [LF], "", 0)
              else rc == -ECANCELED && Out() == o
    {
      rc := 0;
      if outfields > 0 || allowEmpty {
        ghost var q := outbuf.Queue();
        assert q == q[..wrokcnt] + q[wrokcnt..];
        rc := outbuf.PutCar(LF);
        if rc == 0 {
          wrokcnt := outbuf.count;
          outfields := 0;
          assert outbuf.Queue() == q + [LF];
        }
      }
    }

    /** A field that does not fit may leave its separator behind, in the pending part only. */
    method PutField(field: string) returns (rc: int)
      requires Valid()
      modifies this`outfields, outbuf`count, outbuf.content
      ensures Valid() && In() == old(In())
      ensures outfields == old(outfields) + 1 && Out().committed == old(Out()).committed
      ensures var o := old(Out());
              var text := o.pending + Chain(o.outfields, [field]);
              if |o.committed| + |text| <= BUFFER_LENGTH then rc == 0 && Out().pending == text
              else rc == -ECANCELED
    {
      hide RingView, EscapeField;
      rc := 0;
      ghost var q, c := outbuf.Queue(), wrokcnt;
      ghost var sep := if outfields > 0 then [SP] else "";
      outfields := outfields + 1;
      if outfields > 1 {
        rc := outbuf.PutCar(SP);
      }
      if rc >= 0 {
        assert outbuf.Queue() == q + sep;
        rc := outbuf.PutString(field);
        assert rc == 0 ==> outbuf.Queue() == q + sep + EscapeField(field);
      }
      PendingGrows(q, c, sep, EscapeField(field));
    }

    lemma PendingGrows(q: string, c: nat, sep: string, e: string)
      requires c <= |q|
      ensures (q + sep)[..c] == q[..c] && (q + sep + e)[..c] == q[..c]
      ensures (q + sep + e)[c..] == q[c..] + (sep + e)
    {
    }

    method PutFields(fs: seq<string>) returns (rc: int)
      requires Valid()
      modifies this`outfields, outbuf`count, outbuf.content
      ensures Valid() && In() == old(In())
      ensures Out().committed == old(Out()).committed
      ensures fs != [] ==> outfields > 0
      ensures var o := old(Out());
              var text := o.pending + Chain(o.outfields, fs);
              if |o.committed| + |text| <= BUFFER_LENGTH then rc == 0
                  && Out() == OutState(o.committed, text, o.outfields + |fs|)
              else rc == -ECANCELED
    {
      hide RingView, EncodeFields;
      ghost var o := Out();
      if fs == [] {
        assert o.pending + "" == o.pending;
        return 0;
      }
      rc := PutField(fs[0]);
      assert fs[..1] == [fs[0]];
      var i := 1;
      while rc >= 0 && i < |fs|
        invariant 1 <= i <= |fs|
        invariant Valid() && In() == old(In()) && outfields == o.outfields + i && Out().committed == o.committed
        invariant rc == 0 || rc == -ECANCELED
        invariant |o.committed| + |o.pending + Chain(o.outfields, fs[..i])| <= BUFFER_LENGTH
                  ==> rc == 0 && Out().pending == o.pending + Chain(o.outfields, fs[..i])
        invariant |o.committed| + |o.pending + Chain(o.outfields, fs[..i])| > BUFFER_LENGTH ==> rc == -ECANCELED
      {
        ChainGrows(o.outfields, o.pending, fs, i);
        rc := PutField(fs[i]);
        i := i + 1;
      }
      ChainTotal(o.outfields, fs, i);
      assert fs[..|fs|] == fs;
    }

    /** Puts a record: all of it or nothing. */
    method Put(fs: seq<string>) returns (rc: int)
      requires Valid()
      modifies this`outfields, this`wrokcnt, outbuf`count, outbuf.content
      ensures Valid() && In() == old(In())
      ensures (Out(), rc) == PutSpec(old(Out()), fs, allowEmpty)
    {
      ghost var o := Out();
      rc := PutFields(fs);
      if rc == 0 {
        assert o.committed + (o.pending + Chain(o.outfields, fs)) + [LF]
            == o.committed + (o.pending + Chain(o.outfields, fs) + [LF]);
        assert o.pending + "" == o.pending;
        rc := PutEnd();
      }
      if rc != 0 {
        PutCancel();
      }
    }

    method Putx(fs: seq<string>) returns (rc: int)
      requires Valid()
      modifies this`outfields, this`wrokcnt, outbuf`count, outbuf.content
      ensures Valid() && In() == old(In())
      ensures (Out(), rc) == PutxSpec(old(Out()), fs, allowEmpty)
    {
      ghost var o := Out();
      rc := PutFields(fs);
      if rc != 0 {
        PutCancel();
      } else {
        assert o.committed + (o.pending + Chain(o.outfields, fs)) + [LF]
            == o.committed + (o.pending + Chain(o.outfields, fs) + [LF]);
        assert o.pending + "" == o.pending;
        rc := PutEnd();
      }
    }

    method ShouldWrite() returns (b: bool)
      requires Valid()
      ensures b == (Out().committed != "")
    {
      b := wrokcnt > 0;
    }

    /** Writes committed bytes only; sent is what the kernel took. */
    method Write(answer: int) returns (rc: int, sent: string)
      requires Valid()
      modifies this`wrokcnt, outbuf`pos, outbuf`count
      ensures Valid() && In() == old(In())
      ensures (Out(), sent, rc) == WriteSpec(old(Out()), answer)
    {
      hide RingView;
      ghost var q, c := outbuf.Queue(), wrokcnt;
      rc, sent := outbuf.WriteLength(wrokcnt, answer);
      if rc > 0 {
        wrokcnt := wrokcnt - rc;
      }
      if rc >= 0 {
        FrontRemoved(q, c, rc);
      }
    }

    lemma FrontRemoved(q: string, c: nat, n: nat)
      requires n <= c <= |q|
      ensures q[n..][..c - n] == q[..c][n..] && q[n..][c - n..] == q[c..] && q[..c][..n] == q[..n]
    {
    }

    // ---------- Input ----------

    method CanRead() returns (b: bool)
      requires Valid()
      ensures b == (In().Room() > 0)
    {
      b := inbuf.count < BUFFER_LENGTH;
    }

    method Read(answer: ReadAnswer) returns (rc: int)
      requires Valid()
      modifies inbuf`count, inbuf.content
      ensures Valid() && Out() == old(Out())
      ensures (In(), rc) == ReadSpec(old(In()), answer)
    {
      ghost var c, p := inbuf.content[..inbuf.count], inbuf.pos;
      assert fields.count < 0 ==> forall j: nat :: j < p ==> !StopsAt(c, j);
      assert inbuf.content[..p] == c[..p] && inbuf.content[p..inbuf.count] == c[p..];
      rc := inbuf.Read(answer);
      ghost var c' := inbuf.content[..inbuf.count];
      assert c <= c';
      if fields.count < 0 {
        forall j: nat | j < p ensures !StopsAt(c', j) {
          assert !StopsAt(c, j) && c'[..j] == c[..j] && c'[j] == c[j];
          StopIsLocal(c', c, j);
        }
      } else {
        assert c'[..p] == c[..p] && c'[..p] == inbuf.content[..p];
      }
      assert c'[p..] == inbuf.content[p..inbuf.count];
      if |c| < BUFFER_LENGTH && answer.Bytes? {
        assert c' == c + answer.data[..rc] && c'[p..] == c[p..] + answer.data[..rc];
      } else {
        assert c' == c;
      }
      assert fields.count >= 0 ==> In().current == old(In()).current;
      assert In().held == old(In()).held;
    }

    /** Decodes the record that the scan has found. */
    method DecodeNext()
      requires Valid() && fields.count < 0
      requires FirstEnd(In().bytes) == Some(inbuf.pos)
      modifies inbuf, inbuf.content, fields, fields.start
      ensures Valid() && Out() == old(Out()) && fields.count >= 0
      ensures var b, e := old(In()).bytes, old(inbuf.pos);
              e < |b| && In() == InState(e + 1, b[e + 1..], Some(Decode(b[..e])))
    {
      hide FirstEnd, Decode, RingView, StopsAt;
      ghost var b, e := inbuf.content[..inbuf.count], inbuf.pos;
      assert inbuf.content[..e] == b[..e] && inbuf.content[e + 1..inbuf.count] == b[e + 1..];
      inbuf.GetFields(fields);
    }

    /** Gives the current record, decoding the next one if there is none. */
    method Get() returns (rc: int)
      requires Valid()
      modifies inbuf, inbuf.content, fields, fields.start
      ensures Valid() && Out() == old(Out())
      ensures (In(), rc) == GetSpec(old(In()), allowEmpty)
    {
      hide FirstEnd, Decode, RingView, StopsAt;
      while true
        invariant Valid() && Out() == old(Out())
        invariant GetSpec(In(), allowEmpty) == GetSpec(old(In()), allowEmpty)
        decreases |In().bytes|, In().current.Some?
      {
        if fields.count < 0 {
          var found := inbuf.ScanEndRecord();
          if !found {
            var room := CanRead();
            return if room then -EAGAIN else -EMSGSIZE;
          }
          DecodeNext();
        }
        if fields.count == 0 && !allowEmpty {
          Next();
        } else {
          return fields.count;
        }
      }
    }

    /** The strings of the current record, as the holder of the field pointers reads them. */
    method Fields() returns (fs: seq<string>)
      requires Valid() && fields.count >= 0
      ensures In().current == Some(fs) && NulFreeFields(fs)
    {
      var c := inbuf.content[..inbuf.pos];
      fs := [];
      var k := 0;
      while k < fields.count
        invariant 0 <= k <= fields.count && |fs| == k
        invariant forall i :: 0 <= i < k ==> fs[i] == fields.Strings(c)[i]
      {
        fs := fs + [CStr(c[fields.start[k]..])];
        k := k + 1;
      }
      assert fs == fields.Strings(c);
    }

    /** Drops the current record. */
    method Next()
      requires Valid()
      modifies inbuf, inbuf.content, fields`count
      ensures Valid() && Out() == old(Out())
      ensures In() == NextSpec(old(In()))
    {
      if fields.count >= 0 {
        inbuf.Crop();
        fields.count := -1;
      }
    }
  }

  lemma ChainGrows(n: nat, pending: string, fs: seq<string>, i: nat)
    requires 1 <= i < |fs|
    ensures pending + Chain(n, fs[..i + 1]) == pending + Chain(n, fs[..i]) + Chain(n + i, [fs[i]])
    ensures |Chain(n, fs[..i])| <= |Chain(n, fs[..i + 1])|
  {
    assert fs[..i + 1] == fs[..i] + [fs[i]];
    EncodeAppend(fs[..i], fs[i]);
    hide EscapeField;
    assert EncodeFields([fs[i]]) == EscapeField(fs[i]);
    hide EncodeFields;
    Concat4(pending, if n > 0 then [SP] else "", EncodeFields(fs[..i]), [SP], EscapeField(fs[i]));
  }

  lemma Concat4(p: string, a: string, b: string, c: string, d: string)
    ensures p + (a + (b + c + d)) == p + (a + b) + (c + d)
  {
  }

  lemma {:induction false} ChainTotal(n: nat, fs: seq<string>, i: nat)
    requires 1 <= i <= |fs|
    ensures |Chain(n, fs[..i])| <= |Chain(n, fs)|
    decreases |fs| - i
  {
    hide Chain;
    if i == |fs| {
      assert fs[..i] == fs;
    } else {
      ChainGrows(n, "", fs, i);
      ChainTotal(n, fs, i + 1);
    }
  }
}
