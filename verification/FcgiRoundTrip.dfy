// What a writer stream puts on a connection, read back by a reader stream.
module FcgiRoundTrip {
  import opened Basics
  import opened FcgiRecords
  import opened FcgiParams
  import opened FcgiDemux
  import opened FcgiServe
  import opened FcgiInput
  import opened FcgiReaders
  import opened FcgiFraming
  import opened FcgiWriters
  import opened FcgiRuns

  // A writer's life before it is closed: bytes written, in any pieces, and flushes in between.
  function Session(o: Out, id: nat, cap: nat, ops: seq<Option<seq<Byte>>>): (r: (seq<Record>, Out))
    requires Ready(o, id, cap)
    ensures Ready(r.1, id, cap)
  {
    if ops == [] then ([], o)
    else
      var (rs, o1) := Session(o, id, cap, ops[..|ops| - 1]);
      match ops[|ops| - 1]
      case Some(bytes) => var (rs', o2) := PutOut(o1, id, cap, bytes); (rs + rs', o2)
      case None => var (rs', o2) := FlushOut(o1, id); (rs + rs', o2)
  }

  function AllBytes(ops: seq<Option<seq<Byte>>>): seq<Byte> {
    if ops == [] then [] else
      AllBytes(ops[..|ops| - 1]) + match ops[|ops| - 1] case Some(bytes) => bytes case None => []
  }

  // Closed while another writer of the request is open, so that no END_REQUEST follows.
  function Sent(kind: Byte, id: nat, cap: nat, ops: seq<Option<seq<Byte>>>): seq<Record>
    requires id < 0x10000 && 0 < cap <= MAX_LENGTH
  {
    var (rs, o) := Session(Out(kind, [], false, false), id, cap, ops);
    rs + CloseOut(o, id, 2, 0)
  }

  lemma {:induction false} SessionWell(u: Setup, kind: Byte, cap: nat, ops: seq<Option<seq<Byte>>>)
    requires u.id < 0x10000 && 0 < cap <= MAX_LENGTH
    ensures var (rs, o) := Session(Out(kind, [], false, false), u.id, cap, ops);
            OpenWell(o, rs, AllBytes(ops), u.id, cap) && o.kind == kind
  {
    var o0 := Out(kind, [], false, false);
    if ops == [] {
      NoRecords(kind, u.id, cap);
    } else {
      hide OpenWell, PutOut, FlushOut;
      var n := |ops| - 1;
      SessionWell(u, kind, cap, ops[..n]);
      var (rs, o) := Session(o0, u.id, cap, ops[..n]);
      var given := AllBytes(ops[..n]);
      assert given + [] == given;
      SessionOpen(o, rs, given, u.id, cap);
      match ops[n]
      case Some(bytes) =>
        PutKeeps(u, o, rs, given, cap, bytes);
        EmissionOpen(u, o, Put(StdOut, bytes), cap);
      case None =>
        FlushKeeps(u, o, rs, given, cap);
        EmissionOpen(u, o, Flush(StdOut), cap);
    }
  }

  lemma SessionOpen(o: Out, rs: seq<Record>, given: seq<Byte>, id: nat, cap: nat)
    requires OpenWell(o, rs, given, id, cap)
    ensures !o.closed
  {}

  lemma OneDelivered(who: Who, r: Record, cap: nat)
    requires 0 < who.id < 0x10000 && who.kind != BEGIN_REQUEST && cap <= MAX_LENGTH
    requires r.kind == who.kind && r.id == who.id && 0 < |r.content| <= cap && |r.padding| < 8
    ensures Expected(who, false, r) && DataOf(who, false, r) == r.content && !SkipBehind(who, false, r)
    ensures ReplyTo(who, false, r) == []
  {}

  // Data records of a stream are what its reader expects and delivers.
  lemma {:induction false} DataDelivered(who: Who, rs: seq<Record>, cap: nat)
    requires DataRecords(rs, who.kind, who.id, cap) && cap <= MAX_LENGTH
    requires 0 < who.id < 0x10000 && who.kind != BEGIN_REQUEST
    ensures AllExpected(who, rs) && !SkipAfter(who, rs) && DataAll(who, rs) == Contents(rs)
    ensures AllFine(rs) && ReplyAll(who, rs) == []
  {
    if rs != [] {
      var before, r := rs[..|rs| - 1], rs[|rs| - 1];
      OneDelivered(who, r, cap);
      DataDelivered(who, before, cap);
      hide Expected, DataOf, ReplyTo, SkipBehind;
      ExpectedFine(who, rs);
    }
  }

  // The round trip: whatever is written to a stream, in any pieces and with any flushes, through a buffer of any size,
  // comes out of a reader of the same type and request byte for byte, and then the end of the stream.
  lemma {:induction false} RoundTrip(who: Who, cap: nat, ops: seq<Option<seq<Byte>>>, tail: seq<Byte>, sent: seq<Byte>)
    requires who.begun && 0 < who.id < 0x10000 && who.kind != BEGIN_REQUEST && 0 < cap <= MAX_LENGTH
    requires who.kind == STDERR ==> AllBytes(ops) != []
    ensures var rs := Sent(who.kind, who.id, cap, ops);
            && AllFine(rs)
            && Rest(Between(who, false, EncodeAll(rs) + tail, sent)) == (AllBytes(ops), Live(false, who, Cur(false, 0, 0), tail, false, sent, 0))
  {
    hide Rest, Encode, DataRecords, OpenWell, PendingRecord, StreamEnd, Expected, AllExpected, SkipAfter, DataAll, ReplyAll,
         Session, AllBytes;
    var u := Setup(who.id, 0, cap, cap);
    SessionWell(u, who.kind, cap, ops);
    var (rs, o) := Session(Out(who.kind, [], false, false), who.id, cap, ops);
    SessionOpen(o, rs, AllBytes(ops), who.id, cap);
    CloseKeeps(u, o, rs, AllBytes(ops), cap);
    var all := rs + (PendingRecord(o, who.id) + StreamEnd(o, who.id));
    assert Sent(who.kind, who.id, cap, ops) == all by {
      assert PendingRecord(o, who.id) + StreamEnd(o, who.id) + [] == PendingRecord(o, who.id) + StreamEnd(o, who.id);
    }
    var n := |all| - 1;
    var data, end := all[..n], all[n];
    DataDelivered(who, data, cap);
    Demultiplexed(who, data, end, tail, sent);
    AllFineLast(data, end);
    assert all == data + [end];
    EncodeLast(all, tail);
    assert [] + tail == tail && sent + [] == sent;
  }

  lemma AllFineLast(rs: seq<Record>, r: Record)
    requires AllFine(rs) && Fine(r)
    ensures AllFine(rs + [r])
  {}

  // So every run of reads returns the bytes that were written, in consecutive slices.
  lemma {:induction false} RoundTripSlices(who: Who, cap: nat, ops: seq<Option<seq<Byte>>>, tail: seq<Byte>, sent: seq<Byte>, ns: seq<nat>)
    requires who.begun && 0 < who.id < 0x10000 && who.kind != BEGIN_REQUEST && 0 < cap <= MAX_LENGTH
    requires who.kind == STDERR ==> AllBytes(ops) != []
    ensures AllFine(Sent(who.kind, who.id, cap, ops))
    ensures var v := Between(who, false, EncodeAll(Sent(who.kind, who.id, cap, ops)) + tail, sent);
            var pieces := ReadMany(v, ns).0;
            && Joined(pieces) <= AllBytes(ops)
            && forall i :: 0 <= i < |ns| && |pieces[i]| < ns[i] ==> Joined(pieces) == AllBytes(ops)
  {
    hide Rest, ReadMany, Joined, Sent;
    RoundTrip(who, cap, ops, tail, sent);
    Slices(Between(who, false, EncodeAll(Sent(who.kind, who.id, cap, ops)) + tail, sent), ns);
  }

  // --- The same for the two streams' methods ---

  // A writer that FCGX_CreateWriter has made: any writes and flushes, and its closing.
  method WriteAll(w: Writer, ops: seq<Option<seq<Byte>>>)
    requires w.Valid() && w.req.appStatus == 0 && w.req.nWriters == 2 && w.errno == 0 && !w.wasFCloseCalled
    requires w.State() == Out(w.kind, [], false, false)
    modifies w, w.buff, w.req.conn`output, w.req`nWriters
    ensures w.errno == 0 ==>
              var rs := Sent(w.kind, w.req.requestId, w.Cap(), ops);
              AllFine(rs) && w.req.conn.output == old(w.req.conn.output) + EncodeAll(rs)
  {
    hide EncodeAll, PutOut, FlushOut, Ready, CloseOut;
    ghost var id, cap, o0, base := w.req.requestId, w.Cap(), w.State(), w.req.conn.output;
    ReadyAtFirst(o0, id, cap);
    Nothing();
    assert base + [] == base;
    var i := 0;
    while i < |ops|
      invariant i <= |ops| && w.Valid() && w.req.nWriters == 2
      invariant w.errno == 0 ==> !w.wasFCloseCalled && var (rs, o) := Session(o0, id, cap, ops[..i]);
                                 && AllFine(rs) && w.State() == o && w.req.conn.output == base + EncodeAll(rs)
    {
      ghost var (rs, o) := Session(o0, id, cap, ops[..i]);
      assert ops[..i + 1][..i] == ops[..i];
      ghost var more;
      match ops[i] {
        case Some(bytes) =>
          var rc := w.PutStr(bytes);
          more := PutOut(o, id, cap, bytes).0;
        case None =>
          var rc := w.FFlush();
          more := FlushOut(o, id).0;
      }
      if w.errno == 0 {
        EncodeCat(rs, more);
        Associative(base, EncodeAll(rs), EncodeAll(more));
      }
      i := i + 1;
    }
    assert ops[..i] == ops;
    ghost var (rs, o) := Session(o0, id, cap, ops);
    var rc := w.FClose();
    if w.errno == 0 {
      EncodeCat(rs, CloseOut(o, id, 2, 0));
      Associative(base, EncodeAll(rs), EncodeAll(CloseOut(o, id, 2, 0)));
    }
  }

  lemma ReadyAtFirst(o: Out, id: nat, cap: nat)
    requires id < 0x10000 && 0 < cap <= MAX_LENGTH && o.pend == []
    ensures Ready(o, id, cap)
  {}

  // Any reads off a stream.
  method ReadAll(r: Reader, ns: seq<nat>) returns (pieces: seq<seq<Byte>>)
    requires r.Valid() && InUse(r.Now())
    modifies r, r.buff, r.req, r.req.conn
    ensures r.Valid() && r.osErrors >= old(r.osErrors)
    ensures r.osErrors > old(r.osErrors) || (pieces, r.Now()) == ReadMany(old(r.Now()), ns)
  {
    hide ReadN;
    ghost var v := r.Now();
    pieces := [];
    var i := 0;
    while i < |ns|
      invariant i <= |ns| && r.Valid() && InUse(r.Now()) && r.osErrors >= old(r.osErrors)
      invariant r.osErrors > old(r.osErrors) || (pieces, r.Now()) == ReadMany(v, ns[..i])
    {
      assert ns[..i + 1][..i] == ns[..i];
      var bytes := r.GetStr(ns[i]);
      pieces := pieces + [bytes];
      i := i + 1;
    }
    assert ns[..i] == ns;
  }

  // One end writes, the other reads what has been written: unless the operating system reports an error, the reads
  // return consecutive slices of the bytes written, and a short one only at their end.
  method Transfer(kind: Byte, id: nat, writeLen: nat, readLen: nat, aligned: bool, ops: seq<Option<seq<Byte>>>, ns: seq<nat>)
    returns (pieces: seq<seq<Byte>>, w: Writer, r: Reader)
    requires 0 < id < 0x10000 && kind != BEGIN_REQUEST && (kind == STDERR ==> AllBytes(ops) != [])
    ensures w.errno == 0 && r.osErrors == 0 ==>
              && |pieces| == |ns| && Joined(pieces) <= AllBytes(ops)
              && forall i :: 0 <= i < |ns| && |pieces[i]| < ns[i] ==> Joined(pieces) == AllBytes(ops)
  {
    hide Sent, EncodeAll, ReadMany, Joined, AllBytes;
    var there := new Conn([]);
    var writing := new Request(there);
    writing.requestId, writing.nWriters := id, 2;
    w := new Writer(writing, writeLen, kind, aligned);
    WriteAll(w, ops);
    var here := new Conn(there.output);
    var reading := new Request(here);
    reading.requestId, reading.isBeginProcessed := id, true;
    r := new Reader(reading, readLen, kind, aligned);
    ghost var who := r.Self();
    pieces := ReadAll(r, ns);
    if w.errno == 0 && r.osErrors == 0 {
      RoundTripSlices(who, w.Cap(), ops, [], [], ns);
      var none: seq<Byte> := [];
      assert none + EncodeAll(Sent(kind, id, w.Cap(), ops)) == EncodeAll(Sent(kind, id, w.Cap(), ops)) + none;
    }
  }
}
