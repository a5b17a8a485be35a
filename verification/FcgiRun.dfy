// Whole responses: any interleaving of writes, flushes and closes on the two writer streams of a request, and its end.
module FcgiRuns {
  import opened Basics
  import opened FcgiRecords
  import opened FcgiParams
  import opened FcgiReaders
  import opened FcgiFraming
  import opened FcgiWriters

  // FCGX_Finish_r, up to the freeing of its memory: whether the connection is to be closed.
  method Finish(input: Reader, out: Writer, err: Writer) returns (close: bool)
    requires out.Valid() && err.Valid() && out != err && out.buff != err.buff && out.req == err.req
    modifies out, out.buff, err, err.buff, out.req.conn`output, out.req`nWriters
    ensures out.Valid() && err.Valid() && out.isClosed && err.isClosed
    ensures close <==> !out.req.keepConnection || out.errno != 0 || err.errno != 0 || input.errno != 0
    ensures var n := old(out.req.nWriters) - if old(err.wasFCloseCalled) then 0 else 1;
            var rs := old(err.Closing(err.State()));
            var rs' := old(CloseOut(out.State(), out.req.requestId, n, out.req.appStatus));
            err.errno == 0 && out.errno == 0 ==>
              AllFine(rs) && AllFine(rs') && out.req.conn.output == old(out.req.conn.output) + EncodeAll(rs) + EncodeAll(rs')
  {
    close := !out.req.keepConnection;
    var rc := err.FClose();
    close := close || rc != 0;
    rc := out.FClose();
    close := close || rc != 0 || input.errno != 0;
  }

  // --- Runs ---

  datatype Stream = StdOut | StdErr

  datatype Op = Put(stream: Stream, bytes: seq<Byte>) | Flush(stream: Stream) | Close(stream: Stream)

  // The request's id and status, and the most content a record of either stream gets.
  datatype Setup = Setup(id: nat, status: nat, outCap: nat, errCap: nat) {
    predicate Valid() {
      id < 0x10000 && status < 0x1_0000_0000 && 0 < outCap <= MAX_LENGTH && 0 < errCap <= MAX_LENGTH
    }

    function Cap(s: Stream): nat {
      if s == StdOut then outCap else errCap
    }
  }

  function KindOf(s: Stream): Byte {
    if s == StdOut then STDOUT else STDERR
  }

  datatype Run = Run(out: Out, err: Out, nWriters: int, sent: seq<Record>) {
    function Get(s: Stream): Out {
      if s == StdOut then out else err
    }

    function Set(s: Stream, o: Out, rs: seq<Record>): Run {
      if s == StdOut then this.(out := o, sent := sent + rs) else this.(err := o, sent := sent + rs)
    }
  }

  function Start(): Run {
    Run(Out(STDOUT, [], false, false), Out(STDERR, [], false, false), 2, [])
  }

  predicate Fits(u: Setup, r: Run) {
    u.Valid() && Ready(r.out, u.id, u.outCap) && Ready(r.err, u.id, u.errCap)
  }

  function Step(u: Setup, r: Run, op: Op): (r': Run)
    requires Fits(u, r)
    ensures Fits(u, r')
  {
    var s := op.stream;
    var o := r.Get(s);
    match op
    case Put(_, bytes) => var (rs, o') := PutOut(o, u.id, u.Cap(s), bytes); r.Set(s, o', rs)
    case Flush(_) => var (rs, o') := FlushOut(o, u.id); r.Set(s, o', rs)
    case Close(_) =>
      if o.closed then r
      else r.Set(s, o.(pend := [], closed := true), CloseOut(o, u.id, r.nWriters, u.status)).(nWriters := r.nWriters - 1)
  }

  function RunOps(u: Setup, ops: seq<Op>): (r: Run)
    requires u.Valid()
    ensures Fits(u, r)
  {
    if ops == [] then Start() else Step(u, RunOps(u, ops[..|ops| - 1]), ops[|ops| - 1])
  }

  // The whole response: what the application does, and FCGX_Finish_r.
  function Response(u: Setup, ops: seq<Op>): Run
    requires u.Valid()
  {
    Step(u, Step(u, RunOps(u, ops), Close(StdErr)), Close(StdOut))
  }

  // The bytes written to a stream while it was open.
  function Given(u: Setup, ops: seq<Op>, s: Stream): seq<Byte>
    requires u.Valid()
  {
    if ops == [] then [] else
      var before, op := ops[..|ops| - 1], ops[|ops| - 1];
      Given(u, before, s) + if op.Put? && op.stream == s && !RunOps(u, before).Get(s).closed then op.bytes else []
  }

  // --- What is on the wire ---

  function OfKind(rs: seq<Record>, kind: Byte): seq<Record> {
    if rs == [] then [] else
      OfKind(rs[..|rs| - 1], kind) + if rs[|rs| - 1].kind == kind then [rs[|rs| - 1]] else []
  }

  function Contents(rs: seq<Record>): seq<Byte> {
    if rs == [] then [] else Contents(rs[..|rs| - 1]) + rs[|rs| - 1].content
  }

  // Records of stream data, as section 3.3 of the FastCGI Specification 1.0 wants them and the stream's buffer allows.
  predicate DataRecords(rs: seq<Record>, kind: Byte, id: nat, cap: nat) {
    forall i :: 0 <= i < |rs| ==>
      && rs[i].kind == kind && rs[i].id == id && 0 < |rs[i].content| <= cap
      && |rs[i].padding| < 8 && (|rs[i].content| + |rs[i].padding|) % 8 == 0
  }

  lemma {:induction false} OfKindCat(a: seq<Record>, b: seq<Record>, kind: Byte)
    ensures OfKind(a + b, kind) == OfKind(a, kind) + OfKind(b, kind)
  {
    if b == [] {
      assert a + b == a;
    } else {
      var n := |b| - 1;
      OfKindCat(a, b[..n], kind);
      assert (a + b)[..|a| + n] == a + b[..n];
    }
  }

  lemma {:induction false} ContentsCat(a: seq<Record>, b: seq<Record>)
    ensures Contents(a + b) == Contents(a) + Contents(b)
  {
    if b == [] {
      assert a + b == a;
    } else {
      var n := |b| - 1;
      ContentsCat(a, b[..n]);
      assert (a + b)[..|a| + n] == a + b[..n];
      assert Contents(a) + Contents(b[..n]) + b[n].content == Contents(a) + (Contents(b[..n]) + b[n].content);
    }
  }

  lemma {:induction false} OfKindAll(rs: seq<Record>, kind: Byte, k: Byte)
    requires forall i :: 0 <= i < |rs| ==> rs[i].kind == k
    ensures OfKind(rs, kind) == if k == kind then rs else []
  {
    if rs != [] {
      OfKindAll(rs[..|rs| - 1], kind, k);
      assert rs == rs[..|rs| - 1] + [rs[|rs| - 1]];
    }
  }

  lemma DataRecordsCat(a: seq<Record>, b: seq<Record>, kind: Byte, id: nat, cap: nat)
    requires DataRecords(a, kind, id, cap) && DataRecords(b, kind, id, cap)
    ensures DataRecords(a + b, kind, id, cap)
  {}

  lemma DataRecordsOne(kind: Byte, id: nat, data: seq<Byte>, cap: nat)
    requires 0 < |data| <= cap
    ensures DataRecords([DataRecord(kind, id, data)], kind, id, cap)
  {}

  // Writing: full records leave, the rest waits in the buffer, nothing is lost.
  lemma {:induction false} PutConserves(o: Out, id: nat, cap: nat, s: seq<Byte>)
    requires Ready(o, id, cap) && !o.closed
    ensures var (rs, o') := PutOut(o, id, cap, s);
            && DataRecords(rs, o.kind, id, cap) && Contents(rs) + o'.pend == o.pend + s
            && o'.kind == o.kind && !o'.closed && (o'.any <==> o.any || rs != [])
    decreases |s|, |o.pend|
  {
    hide DataRecords, DataRecord, Contents;
    var room := cap - |o.pend|;
    if |s| <= room {
      NoRecords(o.kind, id, cap);
      assert [] + (o.pend + s) == o.pend + s;
    } else {
      var o1, d := o.(pend := [], any := true), o.pend + s[..room];
      var r := DataRecord(o.kind, id, d);
      PutConserves(o1, id, cap, s[room..]);
      var (rs, o') := PutOut(o1, id, cap, s[room..]);
      DataRecordsOne(o.kind, id, d, cap);
      DataRecordsCat([r], rs, o.kind, id, cap);
      ContentsCat([r], rs);
      DataContent(o.kind, id, d);
      Associative(d, Contents(rs), o'.pend);
      assert o1.pend + s[room..] == s[room..];
      Regroup(o.pend, s, room);
    }
  }

  lemma NoRecords(kind: Byte, id: nat, cap: nat)
    ensures DataRecords([], kind, id, cap) && Contents([]) == []
  {}

  lemma DataContent(kind: Byte, id: nat, data: seq<Byte>)
    ensures Contents([DataRecord(kind, id, data)]) == data
  {
    var r := DataRecord(kind, id, data);
    assert [r][..0] == [] && [] + r.content == r.content;
  }

  // What waits in the buffer comes to one record, or none.
  lemma {:induction false} PendingConserves(o: Out, id: nat, cap: nat)
    requires Ready(o, id, cap)
    ensures var rs := PendingRecord(o, id);
            DataRecords(rs, o.kind, id, cap) && Contents(rs) == o.pend && (rs != [] <==> o.pend != [])
  {
    hide DataRecords, DataRecord, Contents;
    NoRecords(o.kind, id, cap);
    if o.pend != [] {
      DataRecordsOne(o.kind, id, o.pend, cap);
      DataContent(o.kind, id, o.pend);
    }
  }

  // --- What every step keeps ---

  // A stream that is open: its records so far carry what was given to it but for what waits in the buffer.
  predicate OpenWell(o: Out, fs: seq<Record>, given: seq<Byte>, id: nat, cap: nat) {
    !o.closed && DataRecords(fs, o.kind, id, cap) && Contents(fs) + o.pend == given && (o.any <==> fs != [])
  }

  // A stream that is closed: its data records carry all that was given to it, and one empty record follows; a standard
  // error stream to which nothing was given has no records at all.
  predicate ClosedWell(kind: Byte, fs: seq<Record>, given: seq<Byte>, id: nat, cap: nat) {
    if kind == STDERR && given == [] then fs == []
    else
      && fs != [] && fs[|fs| - 1] == Record(kind, id, [], [])
      && DataRecords(fs[..|fs| - 1], kind, id, cap) && Contents(fs[..|fs| - 1]) == given
  }

  predicate StreamWell(u: Setup, r: Run, s: Stream, given: seq<Byte>) {
    var o, fs := r.Get(s), OfKind(r.sent, KindOf(s));
    && o.kind == KindOf(s)
    && (if o.closed then ClosedWell(o.kind, fs, given, u.id, u.Cap(s)) else OpenWell(o, fs, given, u.id, u.Cap(s)))
  }

  // END_REQUEST is there exactly when both streams are closed, and then it is the last record and the only one of its kind.
  predicate EndWell(u: Setup, r: Run)
    requires u.Valid()
  {
    var ends := OfKind(r.sent, END_REQUEST);
    && r.nWriters == (if r.out.closed then 0 else 1) + (if r.err.closed then 0 else 1)
    && (r.nWriters > 0 ==> ends == [])
    && (r.nWriters == 0 ==>
          var last := EndRequest(u.id, u.status, REQUEST_COMPLETE);
          ends == [last] && r.sent != [] && r.sent[|r.sent| - 1] == last)
  }

  // Records of nothing but these kinds.
  predicate Kinds(rs: seq<Record>) {
    forall i :: 0 <= i < |rs| ==> rs[i].kind in {STDOUT, STDERR, END_REQUEST}
  }

  lemma {:induction false} PutKeeps(u: Setup, o: Out, fs: seq<Record>, given: seq<Byte>, cap: nat, bytes: seq<Byte>)
    requires Ready(o, u.id, cap) && OpenWell(o, fs, given, u.id, cap)
    ensures var (rs, o') := PutOut(o, u.id, cap, bytes);
            OpenWell(o', fs + rs, given + bytes, u.id, cap)
  {
    hide DataRecords, Contents, PutOut;
    PutConserves(o, u.id, cap, bytes);
    var (rs, o') := PutOut(o, u.id, cap, bytes);
    DataRecordsCat(fs, rs, o.kind, u.id, cap);
    ContentsCat(fs, rs);
    Associative(Contents(fs), Contents(rs), o'.pend);
    Associative(Contents(fs), o.pend, bytes);
  }

  lemma {:induction false} FlushKeeps(u: Setup, o: Out, fs: seq<Record>, given: seq<Byte>, cap: nat)
    requires Ready(o, u.id, cap) && OpenWell(o, fs, given, u.id, cap)
    ensures var (rs, o') := FlushOut(o, u.id);
            OpenWell(o', fs + rs, given, u.id, cap)
  {
    hide DataRecords, Contents, PendingRecord;
    PendingConserves(o, u.id, cap);
    var rs := PendingRecord(o, u.id);
    DataRecordsCat(fs, rs, o.kind, u.id, cap);
    ContentsCat(fs, rs);
    assert Contents(fs + rs) + [] == Contents(fs + rs);
  }

  lemma {:induction false} CloseKeeps(u: Setup, o: Out, fs: seq<Record>, given: seq<Byte>, cap: nat)
    requires Ready(o, u.id, cap) && OpenWell(o, fs, given, u.id, cap)
    ensures ClosedWell(o.kind, fs + (PendingRecord(o, u.id) + StreamEnd(o, u.id)), given, u.id, cap)
  {
    hide DataRecords, Contents, PendingRecord;
    PendingConserves(o, u.id, cap);
    var rs, end := PendingRecord(o, u.id), StreamEnd(o, u.id);
    DataRecordsCat(fs, rs, o.kind, u.id, cap);
    ContentsCat(fs, rs);
    NoRecords(o.kind, u.id, cap);
    assert fs + (rs + end) == fs + rs + end;
    if end != [] {
      assert (fs + rs + end)[..|fs + rs|] == fs + rs;
      if o.kind == STDERR && given == [] {
        assert Contents(fs) == [] && o.pend == [];
        NoContents(fs, o.kind, u.id, cap);
      }
    }
  }

  lemma NoContents(fs: seq<Record>, kind: Byte, id: nat, cap: nat)
    requires DataRecords(fs, kind, id, cap) && Contents(fs) == []
    ensures fs == []
  {}

  predicate AllOf(rs: seq<Record>, k: Byte) {
    forall i :: 0 <= i < |rs| ==> rs[i].kind == k
  }

  lemma {:induction false} Emitted(sent: seq<Record>, rs: seq<Record>, k: Byte, kind: Byte)
    requires AllOf(rs, k)
    ensures OfKind(sent + rs, kind) == OfKind(sent, kind) + if k == kind then rs else []
    ensures Kinds(sent) && k in {STDOUT, STDERR, END_REQUEST} ==> Kinds(sent + rs)
  {
    OfKindCat(sent, rs, kind);
    OfKindAll(rs, kind, k);
  }

  // The other stream and the end of the request are not touched by a stream's own records.
  lemma {:induction false} OthersKeep(u: Setup, r: Run, s: Stream, o: Out, rs: seq<Record>, given: seq<Byte>)
    requires u.Valid() && AllOf(rs, KindOf(s)) && EndWell(u, r) && !o.closed && !r.Get(s).closed && Kinds(r.sent)
    ensures EndWell(u, r.Set(s, o, rs)) && Kinds(r.Set(s, o, rs).sent)
    ensures forall t :: t != s && StreamWell(u, r, t, given) ==> StreamWell(u, r.Set(s, o, rs), t, given)
    ensures OfKind(r.Set(s, o, rs).sent, KindOf(s)) == OfKind(r.sent, KindOf(s)) + rs
  {
    hide ClosedWell, OpenWell;
    Emitted(r.sent, rs, KindOf(s), KindOf(s));
    Emitted(r.sent, rs, KindOf(s), END_REQUEST);
    Emitted(r.sent, rs, KindOf(s), KindOf(if s == StdOut then StdErr else StdOut));
    assert OfKind(r.sent, END_REQUEST) + [] == OfKind(r.sent, END_REQUEST);
    forall t | t != s && StreamWell(u, r, t, given) ensures StreamWell(u, r.Set(s, o, rs), t, given) {
      assert OfKind(r.sent, KindOf(t)) + [] == OfKind(r.sent, KindOf(t));
    }
  }

  lemma AllOfData(rs: seq<Record>, kind: Byte, id: nat, cap: nat)
    requires DataRecords(rs, kind, id, cap)
    ensures AllOf(rs, kind)
  {}

  // An open stream is written to or flushed.
  lemma {:induction false} OpenStep(u: Setup, r: Run, op: Op, s: Stream, given: seq<Byte>, t: Stream, other: seq<Byte>)
    requires Fits(u, r) && op.stream == s && t != s && !op.Close? && !r.Get(s).closed
    requires StreamWell(u, r, s, given) && StreamWell(u, r, t, other) && EndWell(u, r) && Kinds(r.sent)
    ensures var r' := Step(u, r, op);
            && StreamWell(u, r', s, given + if op.Put? then op.bytes else []) && StreamWell(u, r', t, other)
            && EndWell(u, r') && Kinds(r'.sent)
  {
    hide OpenWell, ClosedWell, EndWell, DataRecords, Kinds, AllOf, PutOut, FlushOut, PendingRecord;
    var o, fs := r.Get(s), OfKind(r.sent, KindOf(s));
    var (rs, o') := if op.Put? then PutOut(o, u.id, u.Cap(s), op.bytes) else FlushOut(o, u.id);
    assert given + [] == given;
    if op.Put? {
      PutKeeps(u, o, fs, given, u.Cap(s), op.bytes);
    } else {
      FlushKeeps(u, o, fs, given, u.Cap(s));
    }
    EmissionOpen(u, o, op, u.Cap(s));
    OthersKeep(u, r, s, o', rs, other);
    assert Step(u, r, op) == r.Set(s, o', rs);
  }

  lemma {:induction false} EmissionOpen(u: Setup, o: Out, op: Op, cap: nat)
    requires Ready(o, u.id, cap) && !o.closed && !op.Close?
    ensures var (rs, o') := if op.Put? then PutOut(o, u.id, cap, op.bytes) else FlushOut(o, u.id);
            AllOf(rs, o.kind) && o'.kind == o.kind && !o'.closed
  {
    hide PutOut, DataRecords;
    PendingConserves(o, u.id, cap);
    AllOfData(PendingRecord(o, u.id), o.kind, u.id, cap);
    if op.Put? {
      PutConserves(o, u.id, cap, op.bytes);
      AllOfData(PutOut(o, u.id, cap, op.bytes).0, o.kind, u.id, cap);
    }
  }

  // An open stream is closed.
  lemma {:induction false} CloseStep(u: Setup, r: Run, s: Stream, given: seq<Byte>, t: Stream, other: seq<Byte>)
    requires Fits(u, r) && t != s && !r.Get(s).closed
    requires StreamWell(u, r, s, given) && StreamWell(u, r, t, other) && EndWell(u, r) && Kinds(r.sent)
    ensures var r' := Step(u, r, Close(s));
            StreamWell(u, r', s, given) && StreamWell(u, r', t, other) && EndWell(u, r') && Kinds(r'.sent) && r'.Get(s).closed
  {
    hide OpenWell, ClosedWell, EndWell, Kinds, DataRecords, PendingRecord, StreamEnd, RequestEnd, AllOf, OfKind;
    var o, fs := r.Get(s), OfKind(r.sent, KindOf(s));
    var own, ends := PendingRecord(o, u.id) + StreamEnd(o, u.id), RequestEnd(u.id, r.nWriters, u.status);
    var mid, r' := r.Set(s, o, own), Step(u, r, Close(s));
    CloseKeeps(u, o, fs, given, u.Cap(s));
    EmissionClose(u, o, u.Cap(s), r.nWriters);
    OthersKeep(u, r, s, o, own, other);
    Emitted(mid.sent, ends, END_REQUEST, STDOUT);
    Emitted(mid.sent, ends, END_REQUEST, STDERR);
    var x, y := OfKind(mid.sent, STDOUT), OfKind(mid.sent, STDERR);
    assert x + [] == x && y + [] == y;
    assert r'.sent == mid.sent + ends by { assert r.sent + (own + ends) == r.sent + own + ends; }
    CloseEnd(u, mid, s, r');
  }

  // The closing of the last open stream ends the request.
  lemma {:induction false} CloseEnd(u: Setup, mid: Run, s: Stream, r': Run)
    requires u.Valid() && EndWell(u, mid) && !mid.Get(s).closed && r'.sent == mid.sent + RequestEnd(u.id, mid.nWriters, u.status)
    requires r'.nWriters == mid.nWriters - 1 && r'.Get(s).closed
    requires forall t :: t != s ==> r'.Get(t).closed == mid.Get(t).closed
    ensures EndWell(u, r')
  {
    hide OfKind, EndRequest;
    var ends := RequestEnd(u.id, mid.nWriters, u.status);
    assert AllOf(ends, END_REQUEST) by { EndKind(u); }
    Emitted(mid.sent, ends, END_REQUEST, END_REQUEST);
    var before := OfKind(mid.sent, END_REQUEST);
    assert before + [] == before && [] + ends == ends && mid.sent + [] == mid.sent;
    assert r'.Get(StdOut) == r'.out && r'.Get(StdErr) == r'.err && mid.Get(StdOut) == mid.out && mid.Get(StdErr) == mid.err;
  }

  lemma EndKind(u: Setup)
    requires u.Valid()
    ensures EndRequest(u.id, u.status, REQUEST_COMPLETE).kind == END_REQUEST
  {}

  lemma {:induction false} EmissionClose(u: Setup, o: Out, cap: nat, nWriters: int)
    requires Ready(o, u.id, cap) && u.Valid()
    ensures AllOf(PendingRecord(o, u.id) + StreamEnd(o, u.id), o.kind) && AllOf(RequestEnd(u.id, nWriters, u.status), END_REQUEST)
  {
    PendingConserves(o, u.id, cap);
    AllOfData(PendingRecord(o, u.id), o.kind, u.id, cap);
  }

  lemma {:induction false} StepKeeps(u: Setup, r: Run, op: Op, givenOut: seq<Byte>, givenErr: seq<Byte>)
    requires Fits(u, r) && StreamWell(u, r, StdOut, givenOut) && StreamWell(u, r, StdErr, givenErr)
    requires EndWell(u, r) && Kinds(r.sent)
    ensures var r' := Step(u, r, op);
            && StreamWell(u, r', StdOut, givenOut + if op.Put? && op.stream == StdOut && !r.out.closed then op.bytes else [])
            && StreamWell(u, r', StdErr, givenErr + if op.Put? && op.stream == StdErr && !r.err.closed then op.bytes else [])
            && EndWell(u, r') && Kinds(r'.sent)
  {
    hide OpenWell, ClosedWell, EndWell, Kinds, StreamWell;
    var s := op.stream;
    var given, t, other := if s == StdOut then givenOut else givenErr, if s == StdOut then StdErr else StdOut,
                           if s == StdOut then givenErr else givenOut;
    assert givenOut + [] == givenOut && givenErr + [] == givenErr;
    if r.Get(s).closed {
      ClosedStep(u, r, op);
    } else if op.Close? {
      CloseStep(u, r, s, given, t, other);
    } else {
      OpenStep(u, r, op, s, given, t, other);
    }
  }

  lemma ClosedStep(u: Setup, r: Run, op: Op)
    requires Fits(u, r) && r.Get(op.stream).closed
    ensures Step(u, r, op) == r
  {
    assert r.sent + [] == r.sent;
  }

  lemma {:induction false} RunKeeps(u: Setup, ops: seq<Op>)
    requires u.Valid()
    ensures var r := RunOps(u, ops);
            && StreamWell(u, r, StdOut, Given(u, ops, StdOut)) && StreamWell(u, r, StdErr, Given(u, ops, StdErr))
            && EndWell(u, r) && Kinds(r.sent)
  {
    if ops != [] {
      hide StreamWell, EndWell, Kinds, Step;
      var n := |ops| - 1;
      RunKeeps(u, ops[..n]);
      StepKeeps(u, RunOps(u, ops[..n]), ops[n], Given(u, ops[..n], StdOut), Given(u, ops[..n], StdErr));
    }
  }

  // Request completion: after any interleaving of writes, flushes and closes, FCGX_Finish_r leaves on the connection
  // exactly the bytes given to each stream, in padded records no longer than the stream's buffer, one empty record behind
  // those of standard output, one behind those of standard error if there are any, and one END_REQUEST record, the last.
  lemma {:induction false} RequestCompleted(u: Setup, ops: seq<Op>)
    requires u.Valid()
    ensures var r := Response(u, ops);
            && ClosedWell(STDOUT, OfKind(r.sent, STDOUT), Given(u, ops, StdOut), u.id, u.outCap)
            && ClosedWell(STDERR, OfKind(r.sent, STDERR), Given(u, ops, StdErr), u.id, u.errCap)
            && r.sent != [] && Ends(r.sent[|r.sent| - 1], u.id, u.status, 0)
            && OfKind(r.sent, END_REQUEST) == [r.sent[|r.sent| - 1]]
            && Kinds(r.sent)
  {
    hide ClosedWell, OpenWell, Kinds, PutOut, CloseOut, Ends, EndRequest;
    EndRequestEnds(u.id, u.status, REQUEST_COMPLETE);
    RunKeeps(u, ops);
    var r := RunOps(u, ops);
    var out, err := Given(u, ops, StdOut), Given(u, ops, StdErr);
    assert out + [] == out && err + [] == err;
    StepKeeps(u, r, Close(StdErr), out, err);
    StepKeeps(u, Step(u, r, Close(StdErr)), Close(StdOut), out, err);
  }

  // So the last sixteen bytes on the connection end the request with its status.
  lemma {:induction false} ResponseOnWire(u: Setup, ops: seq<Op>)
    requires u.Valid() && AllFine(Response(u, ops).sent)
    ensures var s := EncodeAll(Response(u, ops).sent);
            |s| >= 16 &&
            var end := s[|s| - 16..];
            && end[..2] == [1, 3] && Two(end[2], end[3]) == u.id && end[4..7] == [0, 8, 0]
            && Four(end[8], end[9], end[10], end[11]) == u.status && end[12] == 0
  {
    hide OfKind, ClosedWell, Kinds, Encode, Response;
    RequestCompleted(u, ops);
    var rs := Response(u, ops).sent;
    var last := rs[|rs| - 1];
    EncodeOnWire(last);
    EncodeCat(rs[..|rs| - 1], [last]);
    assert rs == rs[..|rs| - 1] + [last];
    assert [last][1..] == [] && Encode(last) + [] == Encode(last);
    assert EncodeAll([last]) == Encode(last);
    var s, e := EncodeAll(rs), Encode(last);
    assert s[|s| - 16..] == e;
    assert e[8..16] == last.content;
  }

  // A flush leaves nothing behind: the records of an open stream then carry all that was given to it.
  lemma {:induction false} FlushDelivers(u: Setup, ops: seq<Op>, s: Stream)
    requires u.Valid() && !RunOps(u, ops).Get(s).closed
    ensures var r := RunOps(u, ops + [Flush(s)]);
            Contents(OfKind(r.sent, KindOf(s))) == Given(u, ops, s) && r.Get(s).pend == []
  {
    var all := ops + [Flush(s)];
    assert all[..|ops|] == ops;
    assert Given(u, ops, s) + [] == Given(u, ops, s);
    RunKeeps(u, all);
    hide DataRecords, Contents, OfKind, PendingRecord, EndWell, Kinds;
    var r := RunOps(u, all);
    FlushEmpties(u, RunOps(u, ops), s);
    assert Contents(OfKind(r.sent, KindOf(s))) + [] == Contents(OfKind(r.sent, KindOf(s)));
  }

  lemma FlushEmpties(u: Setup, r: Run, s: Stream)
    requires Fits(u, r) && !r.Get(s).closed
    ensures Step(u, r, Flush(s)).Get(s).pend == [] && !Step(u, r, Flush(s)).Get(s).closed
  {}

  // --- The writers' methods do what the run says ---

  // What an operation does to its own stream: the records it emits, the stream behind it, and the writers still open.
  function Effect(u: Setup, o: Out, nWriters: int, op: Op): (seq<Record>, Out, int)
    requires u.Valid() && Ready(o, u.id, u.Cap(op.stream))
  {
    match op
    case Put(s, bytes) => var (rs, o') := PutOut(o, u.id, u.Cap(s), bytes); (rs, o', nWriters)
    case Flush(_) => var (rs, o') := FlushOut(o, u.id); (rs, o', nWriters)
    case Close(_) =>
      if o.closed then ([], o, nWriters)
      else (CloseOut(o, u.id, nWriters, u.status), o.(pend := [], closed := true), nWriters - 1)
  }

  lemma {:induction false} StepEffect(u: Setup, r: Run, op: Op)
    requires Fits(u, r)
    ensures var (rs, o, n) := Effect(u, r.Get(op.stream), r.nWriters, op);
            Step(u, r, op) == r.Set(op.stream, o, rs).(nWriters := n)
  {
    ClosedSame(r, op.stream);
  }

  lemma ClosedSame(r: Run, s: Stream)
    ensures r.Set(s, r.Get(s), []) == r
  {
    assert r.sent + [] == r.sent;
  }

  // A writer object in the state o; of a closed stream only that it is closed.
  ghost predicate Matches(w: Writer, o: Out)
    reads w, w.buff
  {
    && w.wrNext <= w.buff.Length && o.kind == w.kind && o.closed == w.wasFCloseCalled
    && (if o.closed then o.pend == [] else w.State() == o)
  }

  method Perform(w: Writer, op: Op, ghost u: Setup, ghost o: Out)
    requires w.Valid() && u.Valid() && u.id == w.req.requestId && u.status == w.req.appStatus && u.Cap(op.stream) == w.Cap()
    requires Ready(o, u.id, w.Cap()) && (w.errno == 0 ==> Matches(w, o))
    modifies w, w.buff, w.req.conn`output, w.req`nWriters
    ensures w.Valid() && (old(w.errno) > 0 ==> w.errno > 0)
    ensures w.errno == 0 ==>
              var (rs, o', n) := Effect(u, o, old(w.req.nWriters), op);
              && Matches(w, o') && w.req.nWriters == n
              && AllFine(rs) && w.req.conn.output == old(w.req.conn.output) + EncodeAll(rs)
  {
    hide PutOut, EncodeAll, PendingRecord, StreamEnd, RequestEnd;
    assert w.req.conn.output + [] == w.req.conn.output;
    Nothing();
    match op
    case Put(_, bytes) =>
      PutClosed(o, u.id, w.Cap(), bytes);
      var rc := w.PutStr(bytes);
    case Flush(_) =>
      var rc := w.FFlush();
    case Close(_) =>
      var rc := w.FClose();
  }

  lemma Nothing()
    ensures AllFine([]) && EncodeAll([]) == []
  {}

  lemma PutClosed(o: Out, id: nat, cap: nat, s: seq<Byte>)
    requires Ready(o, id, cap)
    ensures o.closed ==> PutOut(o, id, cap, s) == ([], o)
  {}

  // Both writers of a request against a run: as long as no write to the connection has failed, the connection carries
  // exactly the run's records behind what it carried before.
  ghost predicate Follows(out: Writer, err: Writer, u: Setup, r: Run, base: seq<Byte>)
    reads out, out.buff, err, err.buff, out.req, out.req.conn
  {
    && Fits(u, r)
    && (out.errno == 0 ==> Matches(out, r.out)) && (err.errno == 0 ==> Matches(err, r.err))
    && (out.errno == 0 && err.errno == 0 ==>
          out.req.nWriters == r.nWriters && AllFine(r.sent) && out.req.conn.output == base + EncodeAll(r.sent))
  }

  ghost predicate Pair(out: Writer, err: Writer, u: Setup)
    reads out, err, out.req, err.req
  {
    && out.Valid() && err.Valid() && out != err && out.buff != err.buff && out.req == err.req
    && u == Setup(out.req.requestId, out.req.appStatus, out.Cap(), err.Cap())
  }

  // One operation on one of the two.
  method PerformOn(out: Writer, err: Writer, op: Op, ghost u: Setup, ghost r: Run, ghost base: seq<Byte>)
    requires Pair(out, err, u) && Follows(out, err, u, r, base)
    modifies out, out.buff, err, err.buff, out.req.conn`output, out.req`nWriters
    ensures Pair(out, err, u) && Follows(out, err, u, Step(u, r, op), base)
  {
    hide Matches, Step, EncodeAll, PutOut, FlushOut, CloseOut;
    StepEffect(u, r, op);
    ghost var (rs, o, n) := Effect(u, r.Get(op.stream), r.nWriters, op);
    if op.stream == StdOut {
      Perform(out, op, u, r.out);
    } else {
      Perform(err, op, u, r.err);
    }
    if out.errno == 0 && err.errno == 0 {
      EncodeCat(r.sent, rs);
      Associative(base, EncodeAll(r.sent), EncodeAll(rs));
    }
  }

  // Any operations on the two writers of a request, and FCGX_Finish_r's closing of them: if no write fails, the
  // connection carries exactly the records of the response.
  method Respond(out: Writer, err: Writer, ops: seq<Op>, ghost u: Setup)
    requires Pair(out, err, u) && out.req.nWriters == 2
    requires out.State() == Start().out && err.State() == Start().err && !out.wasFCloseCalled && !err.wasFCloseCalled
    requires out.errno == 0 && err.errno == 0
    modifies out, out.buff, err, err.buff, out.req.conn`output, out.req`nWriters
    ensures u.Valid()
    ensures out.errno == 0 && err.errno == 0 ==>
              AllFine(Response(u, ops).sent)
              && out.req.conn.output == old(out.req.conn.output) + EncodeAll(Response(u, ops).sent)
  {
    hide Step, EncodeAll;
    ghost var base := out.req.conn.output;
    Nothing();
    assert base + [] == base;
    var i := 0;
    while i < |ops|
      invariant i <= |ops| && Pair(out, err, u) && Follows(out, err, u, RunOps(u, ops[..i]), base)
    {
      assert ops[..i + 1][..i] == ops[..i];
      PerformOn(out, err, ops[i], u, RunOps(u, ops[..i]), base);
      i := i + 1;
    }
    assert ops[..i] == ops;
    PerformOn(out, err, Close(StdErr), u, RunOps(u, ops), base);
    PerformOn(out, err, Close(StdOut), u, Step(u, RunOps(u, ops), Close(StdErr)), base);
  }
}
