/**
 Two protocol handlers joined by a byte stream. The steps are the operations of
 `Protocol.Prot` on their abstract values; every interleaving is a run.
 */
module Channel {
  import opened Text
  import opened Escaping
  import opened Buffers
  import opened Protocol

  // ---------- The receiver alone, fed with arbitrary bytes ----------

  datatype Input = Chunk(answer: ReadAnswer) | Get | Next

  /** Receiver with the bytes it took from the kernel and the records it reported. */
  datatype Receiver = Receiver(state: InState, taken: string, got: seq<seq<string>>)

  /** A Get reports a record unless it repeats the current one. */
  function GetReports(s: InState, allowEmpty: bool): (r: (InState, seq<seq<string>>)) {
    var (s', rc) := GetSpec(s, allowEmpty);
    (s', if rc >= 0 && s'.current.Some? && !Reported(s, allowEmpty) then [s'.current.value] else [])
  }

  predicate Reported(s: InState, allowEmpty: bool) {
    s.current.Some? && (s.current.value != [] || allowEmpty)
  }

  function Receive(r: Receiver, a: Input, allowEmpty: bool): Receiver {
    match a
    case Chunk(answer) =>
      var (s', rc) := ReadSpec(r.state, answer);
      var data := if rc > 0 && answer.Bytes? && rc <= |answer.data| then answer.data[..rc] else "";
      r.(state := s', taken := r.taken + data)
    case Get =>
      var (s', records) := GetReports(r.state, allowEmpty);
      r.(state := s', got := r.got + records)
    case Next => r.(state := NextSpec(r.state))
  }

  function ReceiveAll(r: Receiver, run: seq<Input>, allowEmpty: bool): Receiver
    decreases |run|
  {
    if run == [] then r else ReceiveAll(Receive(r, run[0], allowEmpty), run[1..], allowEmpty)
  }

  const NewReceiver := Receiver(InState(0, "", None), "", [])

  /**
   What a Get does to the buffer: the bytes it removes are whole records, they
   are the records it reports, and its answer tells what is left.
   */
  ghost predicate GetFacts(s: InState, eaten: string, allowEmpty: bool) {
    var (s', rc) := GetSpec(s, allowEmpty);
    && s'.Valid() && s.bytes == eaten + s'.bytes
    && Whole(eaten) && Records(eaten, allowEmpty) == GetReports(s, allowEmpty).1
    && (s'.current.Some? ==> Reported(s', allowEmpty) && rc == |s'.current.value|)
    && (s'.current == None ==> FirstEnd(s'.bytes) == None)
    && (s'.current == None && |s'.bytes| < BUFFER_LENGTH ==> rc == -EAGAIN)
    && (s'.current == None && |s'.bytes| == BUFFER_LENGTH ==> rc == -EMSGSIZE)
  }

  lemma {:induction false} GetEats(s: InState, allowEmpty: bool) returns (eaten: string)
    requires s.Valid()
    ensures GetFacts(s, eaten, allowEmpty)
    decreases |s.bytes|, s.current.Some?, 1
  {
    hide GetSpec, GetFacts, FirstEnd;
    if s.current.Some? && !Reported(s, allowEmpty) {
      eaten := GetEats(NextSpec(s), allowEmpty);
      GetSkips(s, eaten, allowEmpty);
    } else if s.current == None && FirstEnd(s.bytes).Some? {
      eaten := GetEatsFirst(s, FirstEnd(s.bytes).value, allowEmpty);
    } else {
      eaten := "";
      GetStays(s, allowEmpty);
    }
  }

  lemma GetStays(s: InState, allowEmpty: bool)
    requires s.Valid() && if s.current.Some? then Reported(s, allowEmpty) else FirstEnd(s.bytes) == None
    ensures GetFacts(s, "", allowEmpty)
  {
    assert Whole("") && Records("", allowEmpty) == [];
    hide FirstEnd, Whole, Records;
    assert "" + s.bytes == s.bytes;
  }

  lemma GetSkips(s: InState, eaten: string, allowEmpty: bool)
    requires s.current.Some? && !Reported(s, allowEmpty) && GetFacts(NextSpec(s), eaten, allowEmpty)
    ensures GetFacts(s, eaten, allowEmpty)
  {
    assert GetSpec(s, allowEmpty) == GetSpec(NextSpec(s), allowEmpty);
    hide GetSpec, FirstEnd, Whole, Records;
  }

  lemma {:induction false} GetEatsFirst(s: InState, e: nat, allowEmpty: bool) returns (eaten: string)
    requires s.Valid() && s.current == None && FirstEnd(s.bytes) == Some(e)
    ensures GetFacts(s, eaten, allowEmpty) && eaten != ""
    decreases |s.bytes|, false, 0
  {
    hide GetSpec, GetFacts, Whole, Records, FirstEnd, Decode;
    GetDecodes(s, e, allowEmpty);
    OneRecord(s.bytes, e, allowEmpty);
    var t := InState(e + 1, s.bytes[e + 1..], Some(Decode(s.bytes[..e])));
    eaten := s.bytes[..e + 1];
    assert s.bytes == eaten + t.bytes;
    if Reported(t, allowEmpty) {
      GetTakes(s, t, eaten, allowEmpty);
    } else {
      var more := GetEats(t, allowEmpty);
      GetEatsBoth(s, t, eaten, more, allowEmpty);
      eaten := eaten + more;
    }
  }

  lemma GetTakes(s: InState, t: InState, head: string, allowEmpty: bool)
    requires s.current == None && t.Valid() && t.current.Some? && Reported(t, allowEmpty) && s.bytes == head + t.bytes
    requires GetSpec(s, allowEmpty) == GetSpec(t, allowEmpty) == (t, |t.current.value|)
    requires Whole(head) && Records(head, allowEmpty) == [t.current.value]
    ensures GetFacts(s, head, allowEmpty)
  {
    hide GetSpec, Whole, Records, FirstEnd;
  }

  /** A Get without a current record takes the next one. */
  lemma GetDecodes(s: InState, e: nat, allowEmpty: bool)
    requires s.current == None && FirstEnd(s.bytes) == Some(e)
    ensures e < |s.bytes|
    ensures var t := InState(e + 1, s.bytes[e + 1..], Some(Decode(s.bytes[..e])));
            && GetSpec(s, allowEmpty) == GetSpec(t, allowEmpty)
            && (Reported(t, allowEmpty) ==> GetSpec(t, allowEmpty) == (t, |t.current.value|))
  {
    hide Decode;
  }

  lemma GetEatsBoth(s: InState, t: InState, head: string, more: string, allowEmpty: bool)
    requires GetSpec(s, allowEmpty) == GetSpec(t, allowEmpty) && s.bytes == head + t.bytes
    requires !Reported(s, allowEmpty) && !Reported(t, allowEmpty)
    requires Whole(head) && Records(head, allowEmpty) == [] && GetFacts(t, more, allowEmpty)
    ensures GetFacts(s, head + more, allowEmpty)
  {
    hide GetSpec, Whole, Records, FirstEnd;
    RecordsAppend(head, more, allowEmpty);
    WholeAppend(head, more);
    assert [] + Records(more, allowEmpty) == Records(more, allowEmpty);
    var s' := GetSpec(s, allowEmpty).0;
    assert head + more + s'.bytes == head + (more + s'.bytes);
  }

  lemma OneRecord(s: string, e: nat, allowEmpty: bool)
    requires FirstEnd(s) == Some(e)
    ensures e < |s| && Whole(s[..e + 1])
    ensures Records(s[..e + 1], allowEmpty) == Shown(Decode(s[..e]), allowEmpty)
  {
    var head := s[..e + 1];
    EndOfPrefix(s, e);
    assert head[..e] == s[..e] && head[e + 1..] == "";
    assert Whole("") && Records("", allowEmpty) == [];
  }

  lemma EndOfPrefix(s: string, e: nat)
    requires e < |s|
    ensures FirstEnd(s) == Some(e) <==> FirstEnd(s[..e + 1]) == Some(e)
  {
    var head := s[..e + 1];
    ScannerAgreesWithReader(s, e);
    ScannerAgreesWithReader(head, e);
    forall j: nat | j <= e ensures StopsAt(s, j) <==> StopsAt(head, j) {
      assert s[..j] == head[..j];
      StopIsLocal(s, head, j);
    }
  }

  /** A run of the receiver keeps: what was taken is the records reported followed by the buffer. */
  ghost predicate ReceiverInv(r: Receiver, eaten: string, allowEmpty: bool) {
    && r.state.Valid() && r.taken == eaten + r.state.bytes
    && Whole(eaten) && Records(eaten, allowEmpty) == r.got
    && (r.state.current.Some? ==> Reported(r.state, allowEmpty))
  }

  lemma ReceiveKeeps(r: Receiver, a: Input, eaten: string, allowEmpty: bool) returns (eaten': string)
    requires ReceiverInv(r, eaten, allowEmpty)
    ensures ReceiverInv(Receive(r, a, allowEmpty), eaten', allowEmpty)
  {
    hide Whole, Records, FirstEnd, GetSpec;
    eaten' := eaten;
    match a
    case Chunk(answer) =>
      var (s', rc) := ReadSpec(r.state, answer);
      if r.state.Room() > 0 && answer.Bytes? {
        assert eaten + r.state.bytes + answer.data[..rc] == eaten + (r.state.bytes + answer.data[..rc]);
      }
      assert r.taken + "" == r.taken;
    case Get =>
      var more := GetEats(r.state, allowEmpty);
      var s' := GetReports(r.state, allowEmpty).0;
      RecordsAppend(eaten, more, allowEmpty);
      WholeAppend(eaten, more);
      eaten' := eaten + more;
      assert eaten + (more + s'.bytes) == eaten + more + s'.bytes;
    case Next =>
  }

  lemma {:induction false} ReceiveAllKeeps(r: Receiver, run: seq<Input>, eaten: string, allowEmpty: bool)
    returns (eaten': string)
    requires ReceiverInv(r, eaten, allowEmpty)
    ensures ReceiverInv(ReceiveAll(r, run, allowEmpty), eaten', allowEmpty)
    decreases |run|
  {
    eaten' := eaten;
    if run != [] {
      eaten' := ReceiveKeeps(r, run[0], eaten, allowEmpty);
      eaten' := ReceiveAllKeeps(Receive(r, run[0], allowEmpty), run[1..], eaten', allowEmpty);
    }
  }

  /**
   However the reads cut the stream and whenever records are asked for, the
   records reported are the first ones of the bytes taken, and the remaining
   ones are those still in the buffer.
   */
  lemma RecordsDependOnBytesOnly(run: seq<Input>, allowEmpty: bool)
    ensures var r := ReceiveAll(NewReceiver, run, allowEmpty);
            Records(r.taken, allowEmpty) == r.got + Records(r.state.bytes, allowEmpty)
  {
    assert Whole("") && Records("", allowEmpty) == [];
    var eaten := ReceiveAllKeeps(NewReceiver, run, "", allowEmpty);
    RecordsAppend(eaten, ReceiveAll(NewReceiver, run, allowEmpty).state.bytes, allowEmpty);
  }

  /** Two receivers that took the same bytes and have no record left to report have reported the same. */
  lemma ChunkIndependence(run1: seq<Input>, run2: seq<Input>, allowEmpty: bool)
    requires ReceiveAll(NewReceiver, run1, allowEmpty).taken == ReceiveAll(NewReceiver, run2, allowEmpty).taken
    requires GetReports(ReceiveAll(NewReceiver, run1, allowEmpty).state, allowEmpty).1 == []
    requires GetReports(ReceiveAll(NewReceiver, run2, allowEmpty).state, allowEmpty).1 == []
    requires ReceiveAll(NewReceiver, run1, allowEmpty).state.current == None
    requires ReceiveAll(NewReceiver, run2, allowEmpty).state.current == None
    ensures ReceiveAll(NewReceiver, run1, allowEmpty).got == ReceiveAll(NewReceiver, run2, allowEmpty).got
  {
    RecordsDependOnBytesOnly(run1, allowEmpty);
    RecordsDependOnBytesOnly(run2, allowEmpty);
    var r1, r2 := ReceiveAll(NewReceiver, run1, allowEmpty), ReceiveAll(NewReceiver, run2, allowEmpty);
    DrainedHasNoRecord(r1, allowEmpty, run1);
    DrainedHasNoRecord(r2, allowEmpty, run2);
    assert r1.got + [] == r1.got && r2.got + [] == r2.got;
  }

  lemma DrainedHasNoRecord(r: Receiver, allowEmpty: bool, run: seq<Input>)
    requires r == ReceiveAll(NewReceiver, run, allowEmpty)
    requires GetReports(r.state, allowEmpty).1 == [] && r.state.current == None
    ensures Records(r.state.bytes, allowEmpty) == []
  {
    assert Whole("") && Records("", allowEmpty) == [];
    var eaten := ReceiveAllKeeps(NewReceiver, run, "", allowEmpty);
    var more := GetEats(r.state, allowEmpty);
    var s' := GetReports(r.state, allowEmpty).0;
    RecordsAppend(more, s'.bytes, allowEmpty);
    assert Records(s'.bytes, allowEmpty) == [];
  }

  /**
   The answer of a Get: a record, "try again", or "message too big"; the last
   exactly when the buffer is full of 2000 bytes without an unescaped line feed.
   */
  lemma GetVerdict(s: InState, allowEmpty: bool)
    requires s.Valid()
    ensures var (s', rc) := GetSpec(s, allowEmpty);
            && (rc == -90 <==> s'.current == None && |s'.bytes| == 2000 && FirstEnd(s'.bytes) == None)
            && (rc == -11 <==> s'.current == None && |s'.bytes| < 2000 && FirstEnd(s'.bytes) == None)
            && (rc >= 0 <==> s'.current.Some?)
            && exists eaten :: s.bytes == eaten + s'.bytes && Whole(eaten)
  {
    var eaten := GetEats(s, allowEmpty);
  }

  // ---------- Sender, stream and receiver ----------

  datatype Action = Put(fs: seq<string>) | Write(answer: int) | Deliver(answer: int) | Ask | Drop

  /**
   out is the sender, wire the bytes in flight and inp the receiver; sent are
   the puts that succeeded and got the records reported.
   */
  datatype System = System(out: OutState, wire: string, inp: InState, sent: seq<seq<string>>, got: seq<seq<string>>)

  function Step(y: System, a: Action, sendEmpty: bool, allowEmpty: bool): System {
    match a
    case Put(fs) =>
      var (o, rc) := PutSpec(y.out, fs, sendEmpty);
      y.(out := o, sent := y.sent + if rc == 0 then [fs] else [])
    case Write(answer) =>
      var (o, bytes, rc) := WriteSpec(y.out, answer);
      y.(out := o, wire := y.wire + bytes)
    case Deliver(answer) =>
      if answer < 0 then y.(inp := ReadSpec(y.inp, Fails(-answer)).0)
      else
        var (s, rc) := ReadSpec(y.inp, Bytes(y.wire[..Min(answer, |y.wire|)]));
        y.(inp := s, wire := if 0 <= rc <= |y.wire| then y.wire[rc..] else y.wire)
    case Ask =>
      var (s, records) := GetReports(y.inp, allowEmpty);
      y.(inp := s, got := y.got + records)
    case Drop => y.(inp := NextSpec(y.inp))
  }

  function Run(y: System, run: seq<Action>, sendEmpty: bool, allowEmpty: bool): System
    decreases |run|
  {
    if run == [] then y else Run(Step(y, run[0], sendEmpty, allowEmpty), run[1..], sendEmpty, allowEmpty)
  }

  const NewSystem := System(OutState("", "", 0), "", InState(0, "", None), [], [])

  /** What the receiver is to see of all the puts. */
  function ExpectedAll(sent: seq<seq<string>>, sendEmpty: bool, allowEmpty: bool): seq<seq<string>> {
    if sent == [] then []
    else ExpectedAll(sent[..|sent| - 1], sendEmpty, allowEmpty) + Expected(sent[|sent| - 1], sendEmpty, allowEmpty)
  }

  /** C strings hold no zero. */
  predicate Proper(a: Action) {
    a.Put? ==> NulFreeFields(a.fs)
  }

  /** No record of s is longer than a buffer. */
  predicate Short(s: string)
    decreases |s|
  {
    match FirstEnd(s)
    case None => true
    case Some(e) => e < BUFFER_LENGTH && Short(s[e + 1..])
  }

  /** Bytes between the puts and the gets. */
  function Pipe(y: System): string {
    y.inp.bytes + (y.wire + y.out.committed)
  }

  ghost predicate Inv(y: System, sendEmpty: bool, allowEmpty: bool) {
    && y.out.Valid() && y.out.outfields == 0 && y.inp.Valid()
    && Whole(Pipe(y)) && Short(Pipe(y))
    && ExpectedAll(y.sent, sendEmpty, allowEmpty) == y.got + Records(Pipe(y), allowEmpty)
    && (y.inp.current.Some? ==> Reported(y.inp, allowEmpty))
  }

  lemma {:induction false} ShortAppend(s: string, t: string)
    requires Whole(s)
    ensures Short(s + t) <==> Short(s) && Short(t)
    decreases |s|
  {
    if s == "" {
      assert s + t == t;
    } else {
      var e := FirstEnd(s).value;
      EndIsStable(s, t);
      assert (s + t)[e + 1..] == s[e + 1..] + t;
      ShortAppend(s[e + 1..], t);
    }
  }

  lemma EncodedIsShort(fs: seq<string>, sendEmpty: bool)
    requires |EncodeRecord(fs, sendEmpty)| <= BUFFER_LENGTH
    ensures Short(EncodeRecord(fs, sendEmpty))
  {
    var s := EncodeRecord(fs, sendEmpty);
    if FirstEnd(s).Some? {
      var e := FirstEnd(s).value;
      if fs != [] {
        EncodedEnd(fs, "");
        assert EncodeFields(fs) + [LF] + "" == s;
      }
      assert s[e + 1..] == "" && Short("");
    }
  }

  lemma PutKeeps(y: System, fs: seq<string>, sendEmpty: bool, allowEmpty: bool)
    requires Inv(y, sendEmpty, allowEmpty) && NulFreeFields(fs)
    ensures Inv(Step(y, Put(fs), sendEmpty, allowEmpty), sendEmpty, allowEmpty)
  {
    var text := EncodeRecord(fs, sendEmpty);
    PutIsAtomic(y.out, fs, sendEmpty);
    hide Whole, Records, Short, EncodeRecord, PutSpec, Expected, ExpectedAll;
    var y' := Step(y, Put(fs), sendEmpty, allowEmpty);
    if PutSpec(y.out, fs, sendEmpty).1 == 0 {
      Associate(y.wire, y.out.committed, text);
      Associate(y.inp.bytes, y.wire + y.out.committed, text);
      assert Pipe(y') == Pipe(y) + text;
      EncodedIsShort(fs, sendEmpty);
      PipeGrows(Pipe(y), fs, y.sent, y.got, sendEmpty, allowEmpty);
    } else {
      assert y'.sent == y.sent && Pipe(y') == Pipe(y);
    }
  }

  lemma ExpectedSnoc(sent: seq<seq<string>>, fs: seq<string>, sendEmpty: bool, allowEmpty: bool)
    ensures ExpectedAll(sent + [fs], sendEmpty, allowEmpty)
         == ExpectedAll(sent, sendEmpty, allowEmpty) + Expected(fs, sendEmpty, allowEmpty)
  {
    assert (sent + [fs])[..|sent|] == sent;
  }

  lemma PipeGrows(pipe: string, fs: seq<string>, sent: seq<seq<string>>, got: seq<seq<string>>, sendEmpty: bool,
      allowEmpty: bool)
    requires NulFreeFields(fs) && Whole(pipe) && Short(pipe) && Short(EncodeRecord(fs, sendEmpty))
    requires ExpectedAll(sent, sendEmpty, allowEmpty) == got + Records(pipe, allowEmpty)
    ensures var pipe' := pipe + EncodeRecord(fs, sendEmpty);
            && Whole(pipe') && Short(pipe')
            && ExpectedAll(sent + [fs], sendEmpty, allowEmpty) == got + Records(pipe', allowEmpty)
  {
    var text := EncodeRecord(fs, sendEmpty);
    RecordRoundTrip(fs, sendEmpty, allowEmpty);
    RecordsAppend(pipe, text, allowEmpty);
    WholeAppend(pipe, text);
    ShortAppend(pipe, text);
    ExpectedSnoc(sent, fs, sendEmpty, allowEmpty);
    hide Whole, Records, Short, EncodeRecord, Expected, ExpectedAll;
    assert got + Records(pipe, allowEmpty) + Records(text, allowEmpty)
        == got + (Records(pipe, allowEmpty) + Records(text, allowEmpty));
  }

  lemma MoveKeeps(y: System, a: Action, sendEmpty: bool, allowEmpty: bool)
    requires Inv(y, sendEmpty, allowEmpty) && (a.Write? || a.Deliver? || a.Drop?)
    ensures Inv(Step(y, a, sendEmpty, allowEmpty), sendEmpty, allowEmpty)
  {
    hide Whole, Records, Short, FirstEnd, GetSpec, ExpectedAll, EncodeRecord, PutSpec;
    assert Pipe(Step(y, a, sendEmpty, allowEmpty)) == Pipe(y);
  }

  lemma AskKeeps(y: System, sendEmpty: bool, allowEmpty: bool)
    requires Inv(y, sendEmpty, allowEmpty)
    ensures Inv(Step(y, Ask, sendEmpty, allowEmpty), sendEmpty, allowEmpty)
  {
    hide Whole, Records, Short, FirstEnd, GetSpec, ExpectedAll;
    var eaten := GetEats(y.inp, allowEmpty);
    var y' := Step(y, Ask, sendEmpty, allowEmpty);
    assert Pipe(y) == eaten + Pipe(y');
    RecordsAppend(eaten, Pipe(y'), allowEmpty);
    WholeAppend(eaten, Pipe(y'));
    ShortAppend(eaten, Pipe(y'));
    assert y.got + (Records(eaten, allowEmpty) + Records(Pipe(y'), allowEmpty))
        == y'.got + Records(Pipe(y'), allowEmpty);
  }

  lemma {:induction false} RunKeeps(y: System, run: seq<Action>, sendEmpty: bool, allowEmpty: bool)
    requires Inv(y, sendEmpty, allowEmpty) && forall i :: 0 <= i < |run| ==> Proper(run[i])
    ensures Inv(Run(y, run, sendEmpty, allowEmpty), sendEmpty, allowEmpty)
    decreases |run|
  {
    if run != [] {
      assert Proper(run[0]);
      match run[0] {
        case Put(fs) => PutKeeps(y, fs, sendEmpty, allowEmpty);
        case Ask => AskKeeps(y, sendEmpty, allowEmpty);
        case _ => MoveKeeps(y, run[0], sendEmpty, allowEmpty);
      }
      RunKeeps(Step(y, run[0], sendEmpty, allowEmpty), run[1..], sendEmpty, allowEmpty);
    }
  }

  lemma NewSystemInv(sendEmpty: bool, allowEmpty: bool)
    ensures Inv(NewSystem, sendEmpty, allowEmpty)
  {
    assert Pipe(NewSystem) == "";
    assert Whole("") && Short("") && Records("", allowEmpty) == [];
  }

  /**
   End to end: whatever the schedule, the records reported are a prefix, in
   order, of those put; the rest is exactly what the buffers and the wire hold.
   */
  lemma EndToEnd(run: seq<Action>, sendEmpty: bool, allowEmpty: bool)
    requires forall i :: 0 <= i < |run| ==> Proper(run[i])
    ensures var y := Run(NewSystem, run, sendEmpty, allowEmpty);
            && y.got <= ExpectedAll(y.sent, sendEmpty, allowEmpty)
            && ExpectedAll(y.sent, sendEmpty, allowEmpty) == y.got + Records(Pipe(y), allowEmpty)
  {
    NewSystemInv(sendEmpty, allowEmpty);
    RunKeeps(NewSystem, run, sendEmpty, allowEmpty);
  }

  /** Once the sender and the wire are empty and the receiver answers "try again", everything has arrived. */
  lemma DrainedMeansDelivered(run: seq<Action>, sendEmpty: bool, allowEmpty: bool)
    requires forall i :: 0 <= i < |run| ==> Proper(run[i])
    requires var y := Run(NewSystem, run, sendEmpty, allowEmpty);
             y.out.committed == "" && y.wire == "" && GetSpec(y.inp, allowEmpty) == (y.inp, -EAGAIN)
    ensures var y := Run(NewSystem, run, sendEmpty, allowEmpty);
            y.got == ExpectedAll(y.sent, sendEmpty, allowEmpty)
  {
    NewSystemInv(sendEmpty, allowEmpty);
    RunKeeps(NewSystem, run, sendEmpty, allowEmpty);
    var y := Run(NewSystem, run, sendEmpty, allowEmpty);
    var eaten := GetEats(y.inp, allowEmpty);
    assert Pipe(y) == y.inp.bytes;
  }

  /** A receiver of records that a sender could put never answers "message too big". */
  lemma NeverTooBig(run: seq<Action>, sendEmpty: bool, allowEmpty: bool)
    requires forall i :: 0 <= i < |run| ==> Proper(run[i])
    ensures GetSpec(Run(NewSystem, run, sendEmpty, allowEmpty).inp, allowEmpty).1 != -EMSGSIZE
  {
    hide Whole, Records, Short, FirstEnd, GetSpec, ExpectedAll, Run;
    NewSystemInv(sendEmpty, allowEmpty);
    RunKeeps(NewSystem, run, sendEmpty, allowEmpty);
    var y := Run(NewSystem, run, sendEmpty, allowEmpty);
    AskKeeps(y, sendEmpty, allowEmpty);
    var eaten := GetEats(y.inp, allowEmpty);
    var z := Step(y, Ask, sendEmpty, allowEmpty);
    if |z.inp.bytes| == BUFFER_LENGTH {
      FullHasEnd(z, sendEmpty, allowEmpty);
    }
  }

  lemma FullHasEnd(y: System, sendEmpty: bool, allowEmpty: bool)
    requires Inv(y, sendEmpty, allowEmpty) && |y.inp.bytes| == BUFFER_LENGTH
    ensures FirstEnd(y.inp.bytes).Some?
  {
    var p := Pipe(y);
    var e := FirstEnd(p).value;
    EndOfPrefix(p, e);
    var b := y.inp.bytes;
    assert b[..e + 1] == p[..e + 1];
    EndOfPrefix(b, e);
  }

  // ---------- Nothing gets stuck ----------

  /** From every state of every run there is a continuation, without any put, that delivers all that was put. */
  lemma {:induction false} Drain(y: System, sendEmpty: bool, allowEmpty: bool) returns (run: seq<Action>)
    requires Inv(y, sendEmpty, allowEmpty)
    ensures forall i :: 0 <= i < |run| ==> !run[i].Put?
    ensures var z := Run(y, run, sendEmpty, allowEmpty);
            z.sent == y.sent && z.got == ExpectedAll(y.sent, sendEmpty, allowEmpty)
    decreases |y.out.committed|, |y.wire|, |y.inp.bytes|, y.inp.current.Some?
  {
    var a := Drop;
    if y.inp.current == None {
      if FirstEnd(y.inp.bytes).Some? {
        a := Ask;
      } else if y.wire != "" {
        a := Deliver(BUFFER_LENGTH);
      } else if y.out.committed != "" {
        a := Write(BUFFER_LENGTH);
      } else {
        assert Pipe(y) == y.inp.bytes;
        return [];
      }
    }
    var y' := Step(y, a, sendEmpty, allowEmpty);
    DrainStep(y, a, sendEmpty, allowEmpty);
    var rest := Drain(y', sendEmpty, allowEmpty);
    run := [a] + rest;
    assert run[1..] == rest;
  }

  lemma DrainStep(y: System, a: Action, sendEmpty: bool, allowEmpty: bool)
    requires Inv(y, sendEmpty, allowEmpty)
    requires (a == Drop && y.inp.current.Some?)
          || (y.inp.current == None && a == Ask && FirstEnd(y.inp.bytes).Some?)
          || (y.inp.current == None && a == Deliver(BUFFER_LENGTH) && FirstEnd(y.inp.bytes) == None && y.wire != "")
          || (y.inp.current == None && a == Write(BUFFER_LENGTH) && y.out.committed != "")
    ensures var z := Step(y, a, sendEmpty, allowEmpty);
            && Inv(z, sendEmpty, allowEmpty) && z.sent == y.sent
            && (|z.out.committed| < |y.out.committed|
                || (z.out.committed == y.out.committed &&
                    (|z.wire| < |y.wire|
                     || (z.wire == y.wire &&
                         (|z.inp.bytes| < |y.inp.bytes|
                          || (z.inp.bytes == y.inp.bytes && y.inp.current.Some? && !z.inp.current.Some?))))))
  {
    hide Whole, Records, Short, FirstEnd, GetSpec, ExpectedAll;
    if a == Ask {
      AskKeeps(y, sendEmpty, allowEmpty);
      var eaten := GetEatsFirst(y.inp, FirstEnd(y.inp.bytes).value, allowEmpty);
    } else {
      MoveKeeps(y, a, sendEmpty, allowEmpty);
      if a.Deliver? && |y.inp.bytes| == BUFFER_LENGTH {
        FullHasEnd(y, sendEmpty, allowEmpty);
      }
    }
  }
}
