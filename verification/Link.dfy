/** The output side of a connection: lines are buffered, and flushed to the peer when they do not fit. */
module Links {
  import opened Text
  import opened Escaping
  import opened Buffers
  import opened Protocol
  import Channel

  /** The bytes of the lines, one after the other. */
  function Stream(lines: seq<seq<string>>): string {
    if lines == [] then "" else Stream(lines[..|lines| - 1]) + EncodeRecord(lines[|lines| - 1], false)
  }

  lemma StreamMore(lines: seq<seq<string>>, fs: seq<string>)
    ensures Stream(lines + [fs]) == Stream(lines) + EncodeRecord(fs, false)
  {
    assert (lines + [fs])[..|lines|] == lines;
  }

  /** The lines can be read back from their bytes. */
  lemma {:induction false} StreamReadsBack(lines: seq<seq<string>>, allowEmpty: bool)
    requires forall i :: 0 <= i < |lines| ==> NulFreeFields(lines[i])
    ensures Whole(Stream(lines)) && Records(Stream(lines), allowEmpty) == Channel.ExpectedAll(lines, false, allowEmpty)
    decreases |lines|
  {
    hide EncodeRecord, Expected, FirstEnd;
    if lines == [] {
      RecordsOfNothing(allowEmpty);
    } else {
      var before, fs := lines[..|lines| - 1], lines[|lines| - 1];
      StreamReadsBack(before, allowEmpty);
      RecordRoundTrip(fs, false, allowEmpty);
      WholeAppend(Stream(before), EncodeRecord(fs, false));
      RecordsAppend(Stream(before), EncodeRecord(fs, false), allowEmpty);
    }
  }

  /** Bytes that are still to come only add records behind those that are there. */
  lemma {:induction false} RecordsOfPrefix(s: string, t: string, allowEmpty: bool)
    ensures Records(s, allowEmpty) <= Records(s + t, allowEmpty)
    decreases |s|
  {
    hide FirstEnd, Decode, Shown;
    if FirstEnd(s).Some? {
      var e := FirstEnd(s).value;
      EndIsStable(s, t);
      assert (s + t)[..e] == s[..e] && (s + t)[e + 1..] == s[e + 1..] + t;
      RecordsOfPrefix(s[e + 1..], t, allowEmpty);
    }
  }

  /** Whatever has been sent so far, the peer reads it as the first of the lines put, in order. */
  lemma PeerReadsPrefix(sent: string, waiting: string, lines: seq<seq<string>>, allowEmpty: bool)
    requires sent + waiting == Stream(lines) && forall i :: 0 <= i < |lines| ==> NulFreeFields(lines[i])
    ensures Records(sent, allowEmpty) <= Channel.ExpectedAll(lines, false, allowEmpty)
    ensures waiting == "" ==> Records(sent, allowEmpty) == Channel.ExpectedAll(lines, false, allowEmpty)
  {
    hide Stream, Records;
    StreamReadsBack(lines, allowEmpty);
    RecordsOfPrefix(sent, waiting, allowEmpty);
    assert sent + "" == sent;
  }

  class Link {
    const prot: Prot
    ghost var sent: string  // the bytes the peer was given
    ghost var lines: seq<seq<string>>  // the lines put
    ghost var flushed: bool  // nothing waits in the buffer

    constructor ()
      ensures Valid() && fresh(Repr()) && lines == [] && flushed && prot.In() == InState(0, "", None)
    {
      prot := new Prot();
      sent, lines, flushed := "", [], true;
    }

    ghost function Repr(): set<object> {
      {this} + prot.Repr()
    }

    /** What was given to the peer and what waits in the buffer are the lines put. */
    ghost predicate Valid()
      reads Repr()
    {
      && prot.Valid() && !prot.allowEmpty && prot.outfields == 0
      && sent + prot.Out().committed == Stream(lines) && (flushed ==> sent == Stream(lines))
    }

    /** One write; the kernel takes some bytes. */
    method WriteSome()
      requires Valid() && prot.Out().committed != "" && !flushed
      modifies this`sent, prot`wrokcnt, prot.outbuf`pos, prot.outbuf`count
      ensures Valid() && prot.In() == old(prot.In())
      ensures |prot.Out().committed| < |old(prot.Out()).committed|
    {
      hide Stream;
      var answer: int :| answer > 0;
      ghost var c := prot.Out().committed;
      var rc, bytes := prot.Write(answer);
      Regroup(sent, c, |bytes|);
      sent := sent + bytes;
    }

    method WriteAll()
      requires Valid() && !flushed
      modifies this`sent, prot`wrokcnt, prot.outbuf`pos, prot.outbuf`count
      ensures Valid() && prot.In() == old(prot.In()) && prot.Out() == OutState("", "", 0)
    {
      hide Stream, Prot.In;
      var should := prot.ShouldWrite();
      while should
        invariant Valid() && prot.In() == old(prot.In())
        invariant should == (prot.Out().committed != "")
        decreases |prot.Out().committed|
      {
        WriteSome();
        should := prot.ShouldWrite();
      }
    }

    /** Writes until nothing is left to write. */
    method Flush()
      requires Valid()
      modifies this`sent, this`flushed, prot`wrokcnt, prot.outbuf`pos, prot.outbuf`count
      ensures Valid() && flushed && prot.In() == old(prot.In()) && prot.Out() == OutState("", "", 0)
    {
      hide Stream, Prot.In;
      flushed := false;
      WriteAll();
      assert sent + "" == sent;
      flushed := true;
    }

    lemma Regroup(s: string, c: string, n: nat)
      requires n <= |c|
      ensures s + c[..n] + c[n..] == s + c
    {
    }

    /** Puts one line, or nothing. */
    method TryPut(fs: seq<string>) returns (rc: int)
      requires Valid() && fs != []
      modifies this, prot`outfields, prot`wrokcnt, prot.outbuf, prot.outbuf.content
      ensures Valid() && prot.In() == old(prot.In())
      ensures rc == if |old(prot.Out()).committed| + |EncodeRecord(fs, false)| <= BUFFER_LENGTH then 0 else -ECANCELED
      ensures lines == old(lines) + if rc == 0 then [fs] else []
    {
      hide EncodeRecord, PutSpec, Stream;
      ghost var text, c := EncodeRecord(fs, false), prot.Out().committed;
      PutIsAtomic(prot.Out(), fs, false);
      StreamMore(lines, fs);
      rc := prot.Put(fs);
      if rc == 0 {
        assert sent + (c + text) == sent + c + text;
        lines, flushed := lines + [fs], false;
      }
    }

    /** Puts one line, making room for it if there is not enough. */
    method Putx(fs: seq<string>) returns (rc: int)
      requires Valid() && fs != []
      modifies this, prot`outfields, prot`wrokcnt, prot.outbuf, prot.outbuf.content
      ensures Valid() && prot.In() == old(prot.In())
      ensures rc == if |EncodeRecord(fs, false)| <= BUFFER_LENGTH then 0 else -ECANCELED
      ensures lines == old(lines) + if rc == 0 then [fs] else []
    {
      hide EncodeRecord, Stream;
      rc := TryPut(fs);
      if rc == -ECANCELED {
        Flush();
        rc := TryPut(fs);
      }
    }

    // ---------- Input ----------

    method Get() returns (rc: int)
      requires Valid()
      modifies prot.inbuf, prot.inbuf.content, prot.fields, prot.fields.start
      ensures Valid() && lines == old(lines) && flushed == old(flushed)
      ensures (prot.In(), rc) == GetSpec(old(prot.In()), false)
    {
      hide Stream;
      rc := prot.Get();
    }

    method Next()
      requires Valid()
      modifies prot.inbuf, prot.inbuf.content, prot.fields`count
      ensures Valid() && lines == old(lines) && flushed == old(flushed)
      ensures prot.In() == NextSpec(old(prot.In()))
    {
      hide Stream;
      prot.Next();
    }

    method Read(answer: ReadAnswer) returns (rc: int)
      requires Valid()
      modifies prot.inbuf`count, prot.inbuf.content
      ensures Valid() && lines == old(lines) && flushed == old(flushed)
      ensures (prot.In(), rc) == ReadSpec(old(prot.In()), answer)
    {
      hide Stream;
      rc := prot.Read(answer);
    }
  }
}
