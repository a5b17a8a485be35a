// The writer streams of fcgiapp.c: records are framed in place, in a buffer with room for a header at its front.
module FcgiWriters {
  import opened Basics
  import opened FcgiRecords
  import opened FcgiParams
  import opened FcgiReaders
  import opened FcgiFraming

  class Writer {
    const req: Request
    const buff: array<Byte>
    var wrNext: nat
    var stop: nat
    var isClosed: bool
    var wasFCloseCalled: bool
    var errno: int
    const kind: Byte
    var isAnythingWritten: bool
    var rawWrite: bool

    // NewStream for a writer.
    constructor (req: Request, bufflen: nat, streamType: Byte, aligned: bool)
      requires req.requestId < 0x10000 && req.appStatus < 0x1_0000_0000
      ensures Valid() && this.req == req && fresh(buff) && errno == 0 && !isClosed && !wasFCloseCalled
      ensures kind == streamType && State() == Out(streamType, [], false, false)
      ensures 16 <= Cap() <= MAX_LENGTH && Cap() % 8 == 0
    {
      this.req := req;
      buff := new Byte[BuffLen(bufflen, aligned)];
      kind := streamType;
      isClosed, wasFCloseCalled, errno := false, false, 0;
      isAnythingWritten, rawWrite := false, false;
      new;
      wrNext, stop := HEADER_LEN, buff.Length;
    }

    ghost predicate Sane()
      reads this, req
    {
      && wrNext <= stop <= buff.Length && 24 <= buff.Length <= MAX_LENGTH + 1 && buff.Length % 8 == 0
      && req.requestId < 0x10000 && req.appStatus < 0x1_0000_0000
      && errno >= 0 && (isClosed <==> errno > 0 || wasFCloseCalled) && (!wasFCloseCalled ==> stop == buff.Length)
    }

    ghost predicate Valid()
      reads this, req
    {
      && Sane() && (!wasFCloseCalled ==> !rawWrite && HEADER_LEN <= wrNext) && (wasFCloseCalled ==> wrNext == stop)
    }

    // The most content a record gets.
    ghost function Cap(): nat
      reads this
      requires buff.Length >= HEADER_LEN
    {
      buff.Length - HEADER_LEN
    }

    ghost function State(): Out
      reads this, buff
      requires wrNext <= buff.Length
    {
      Out(kind, if isClosed || wrNext < HEADER_LEN then [] else buff[HEADER_LEN..wrNext], isAnythingWritten, isClosed)
    }

    // Everything sent and everything still in the buffer; with rawWrite set it goes out as it is.
    ghost function Wire(): seq<Byte>
      reads this, buff, req.conn
      requires wrNext <= buff.Length
    {
      req.conn.output + buff[..wrNext]
    }

    // memcpy to wrNext.
    method Append(s: seq<Byte>)
      requires Sane() && |s| <= stop - wrNext
      modifies this`wrNext, buff
      ensures Sane() && wrNext == old(wrNext) + |s|
      ensures buff[..wrNext] == old(buff[..wrNext]) + s
    {
      var at := wrNext;
      ghost var before := buff[..];
      forall i | 0 <= i < |s| {
        buff[at + i] := s[i];
      }
      wrNext := at + |s|;
      assert buff[..at] == before[..at];
      assert buff[at..wrNext] == s;
      assert buff[..wrNext] == buff[..at] + buff[at..wrNext];
    }

    // Sends what the buffer holds.
    method Send() returns (ok: bool)
      requires Sane()
      modifies this`wrNext, this`isAnythingWritten, this`errno, this`isClosed, req.conn`output
      ensures Sane() && (ok ==> isClosed == old(isClosed) && errno == old(errno) && wrNext == 0 && req.conn.output == old(Wire()))
      ensures ok ==> isAnythingWritten == (old(isAnythingWritten) || old(wrNext) != 0)
      ensures !ok ==> Failed() && wrNext == old(wrNext) != 0
    {
      if wrNext != 0 {
        isAnythingWritten := true;
        ok := req.conn.WriteItAll(buff[..wrNext]);
        if !ok {
          // SetError keeps the first error.
          var osErrno: int :| osErrno > 0;
          errno := if errno == 0 then osErrno else errno;
          isClosed := true;
          return;
        }
        wrNext := 0;
      }
      assert buff[..0] == [] && req.conn.output + [] == req.conn.output;
      return true;
    }

    // The part of EmptyBuffProc that makes a record of the buffered content, in place.
    method Frame()
      requires Valid() && !wasFCloseCalled
      modifies this`wrNext, buff
      ensures Sane() && var data := old(buff[HEADER_LEN..wrNext]);
              && Fine(DataRecord(kind, req.requestId, data))
              && (data == [] ==> wrNext == 0)
              && (data != [] ==> buff[..wrNext] == Encode(DataRecord(kind, req.requestId, data)))
    {
      ghost var data := buff[HEADER_LEN..wrNext];
      DataRecordFine(kind, req.requestId, data);
      var cLen := wrNext - HEADER_LEN;
      if cLen > 0 {
        var eLen := AlignInt8(cLen);
        Append(Zeros(eLen - cLen));
        var header := MakeHeader(kind, req.requestId, cLen, eLen - cLen);
        ghost var body := buff[HEADER_LEN..wrNext];
        assert body == data + Zeros(eLen - cLen);
        forall i | 0 <= i < HEADER_LEN {
          buff[i] := header[i];
        }
        assert buff[..HEADER_LEN] == header && buff[HEADER_LEN..wrNext] == body;
        assert buff[..wrNext] == buff[..HEADER_LEN] + buff[HEADER_LEN..wrNext];
      } else {
        wrNext := 0;
      }
    }

    // A write to the connection failed.
    ghost predicate Failed()
      reads this
    {
      isClosed && errno > 0
    }

    // What the stream's closing puts on the connection.
    ghost function Closing(o: Out): seq<Record>
      reads req
      requires req.requestId < 0x10000 && req.appStatus < 0x1_0000_0000
    {
      CloseOut(o, req.requestId, req.nWriters, req.appStatus)
    }

    // EmptyBuffProc.
    method EmptyBuffProc(doClose: bool)
      requires Sane() && !wasFCloseCalled && (!rawWrite ==> Valid()) && !(rawWrite && doClose)
      modifies this`wrNext, this`isAnythingWritten, this`errno, this`isClosed, this`rawWrite, buff, req.conn`output, req`nWriters
      ensures Sane() && (Failed() || !isClosed) && (old(Failed()) ==> Failed()) && rawWrite == (old(rawWrite) || doClose)
      ensures !rawWrite ==> Valid()
      ensures req.nWriters == old(req.nWriters) - if doClose then 1 else 0
      ensures !Failed() && old(rawWrite) ==> wrNext == 0 && req.conn.output == old(Wire())
      ensures !Failed() && !rawWrite ==>
                && Valid() && wrNext == HEADER_LEN && State() == FlushOut(old(State()), req.requestId).1
                && AllFine(FlushOut(old(State()), req.requestId).0)
                && req.conn.output == old(req.conn.output) + EncodeAll(FlushOut(old(State()), req.requestId).0)
      ensures !Failed() && doClose ==>
                && wrNext == 0 && AllFine(old(Closing(State())))
                && req.conn.output == old(req.conn.output) + EncodeAll(old(Closing(State())))
      decreases if doClose then 3 else 0, 0
    {
      ghost var o := Out(kind, if rawWrite then [] else buff[HEADER_LEN..wrNext], isAnythingWritten, false);
      if !rawWrite {
        Frame();
        Framed(o);
      }
      if doClose {
        WriteCloseRecords(o);
      }
      var ok := Send();
      if ok && !rawWrite {
        wrNext := wrNext + HEADER_LEN;
        assert buff[HEADER_LEN..wrNext] == [];
      }
    }

    // WriteCloseRecords, behind the framing of what was left in the buffer.
    method WriteCloseRecords(ghost o: Out)
      requires Sane() && !wasFCloseCalled && !rawWrite
      requires o.kind == kind && o.any == isAnythingWritten && |o.pend| <= Cap() && AllFine(PendingRecord(o, req.requestId))
      requires !o.closed && buff[..wrNext] == EncodeAll(PendingRecord(o, req.requestId)) && (wrNext == 0 <==> o.pend == [])
      modifies this`wrNext, this`isAnythingWritten, this`errno, this`isClosed, this`rawWrite, buff, req.conn`output, req`nWriters
      ensures Sane() && (Failed() || !isClosed) && (old(Failed()) ==> Failed()) && rawWrite && req.nWriters == old(req.nWriters) - 1
      ensures AllFine(old(Closing(o)))
      ensures !Failed() ==> Wire() == old(req.conn.output) + EncodeAll(old(Closing(o)))
      decreases 2
    {
      hide Encode, MakeHeader;
      var id, status := req.requestId, req.appStatus;
      CloseParts(o, id, Cap(), req.nWriters, status, req.conn.output);
      rawWrite := true;
      if !(kind == STDERR && wrNext == 0 && !isAnythingWritten) {
        EmptyRecord(kind, id);
        var rc := PutStr(MakeHeader(kind, id, 0, 0));
      }
      if req.nWriters == 1 {
        EncodeOne(EndRequest(id, status, REQUEST_COMPLETE));
        var rc := PutStr(Encode(EndRequest(id, status, REQUEST_COMPLETE)));
      }
      req.nWriters := req.nWriters - 1;
    }

    // The buffer holds exactly the record that is due.
    lemma Framed(o: Out)
      requires wrNext <= buff.Length && req.requestId < 0x10000
      requires o.pend == [] ==> wrNext == 0
      requires o.pend != [] ==> var r := DataRecord(o.kind, req.requestId, o.pend); Fine(r) && buff[..wrNext] == Encode(r)
      ensures AllFine(PendingRecord(o, req.requestId)) && buff[..wrNext] == EncodeAll(PendingRecord(o, req.requestId))
      ensures wrNext == 0 <==> o.pend == []
    {
      if o.pend != [] {
        EncodeOne(DataRecord(o.kind, req.requestId, o.pend));
      }
    }

    // FCGX_PutChar.
    method PutChar(c: int) returns (rc: int)
      requires Valid()
      modifies this`wrNext, this`isAnythingWritten, this`errno, this`isClosed, this`rawWrite, buff, req.conn`output, req`nWriters
      ensures Valid() && rawWrite == old(rawWrite) && req.nWriters == old(req.nWriters)
      ensures Failed() || isClosed == old(isClosed)
      ensures !Failed() && old(isClosed) ==> rc == EOF && Wire() == old(Wire()) && State() == old(State())
      ensures !Failed() && !old(isClosed) ==> rc == c % 256 && Written(old(State()), [c % 256], old(req.conn.output))
    {
      hide Put, Written;
      var str: seq<Byte> := [c % 256];
      ghost var o, sent, wire := State(), req.conn.output, Wire();
      NothingMoved(str);
      if wrNext == stop {
        if isClosed {
          return EOF;
        }
        EmptyForMore(o, str, sent, wire, 0);
        if wrNext == stop {
          return EOF;
        }
      }
      AppendMore(o, str, sent, wire, 0, 1);
      AllMoved(o, str, sent, wire);
      return c % 256;
    }

    // FCGX_FFlush.
    method FFlush() returns (rc: int)
      requires Valid()
      modifies this`wrNext, this`isAnythingWritten, this`errno, this`isClosed, this`rawWrite, buff, req.conn`output, req`nWriters
      ensures Valid() && rawWrite == old(rawWrite) && req.nWriters == old(req.nWriters)
      ensures Failed() || isClosed == old(isClosed)
      ensures rc == (if !old(isClosed) && isClosed then -1 else 0) && (old(errno) > 0 ==> errno > 0)
      ensures !Failed() ==>
                && AllFine(FlushOut(old(State()), req.requestId).0) && State() == FlushOut(old(State()), req.requestId).1
                && req.conn.output == old(req.conn.output) + EncodeAll(FlushOut(old(State()), req.requestId).0)
    {
      if isClosed {
        assert req.conn.output + [] == req.conn.output;
        return 0;
      }
      EmptyBuffProc(false);
      return if isClosed then -1 else 0;
    }

    // FCGX_FClose.
    method FClose() returns (rc: int)
      requires Valid()
      modifies this, buff, req.conn`output, req`nWriters
      ensures Valid() && wasFCloseCalled && isClosed && rc == (if errno == 0 then 0 else EOF)
      ensures old(errno) > 0 ==> errno > 0
      ensures req.nWriters == old(req.nWriters) - if old(wasFCloseCalled) then 0 else 1
      ensures errno == 0 ==>
                && AllFine(old(Closing(State()))) && req.conn.output == old(req.conn.output) + EncodeAll(old(Closing(State())))
                && State().closed && State().kind == kind
    {
      if !wasFCloseCalled {
        EmptyBuffProc(true);
        wasFCloseCalled := true;
        isClosed := true;
        stop := wrNext;
      } else {
        assert req.conn.output + [] == req.conn.output;
      }
      return if errno == 0 then 0 else EOF;
    }

    // FCGX_PutStr.
    method PutStr(str: seq<Byte>) returns (rc: int)
      requires Sane() && ((rawWrite && !wasFCloseCalled) || Valid())
      modifies this`wrNext, this`isAnythingWritten, this`errno, this`isClosed, this`rawWrite, buff, req.conn`output, req`nWriters
      ensures Sane() && ((rawWrite && !wasFCloseCalled) || Valid()) && rawWrite == old(rawWrite) && req.nWriters == old(req.nWriters)
      ensures (Failed() || isClosed == old(isClosed)) && (old(Failed()) ==> Failed())
      ensures !Failed() && old(isClosed) ==>
                rc == (if str == [] then 0 else -1) && req.conn.output == old(req.conn.output) && State() == old(State())
      ensures !Failed() && !old(isClosed) ==> rc == |str|
      ensures !Failed() && !old(isClosed) && rawWrite ==> Wire() == old(Wire()) + str
      ensures !Failed() && !old(isClosed) && !rawWrite ==> Valid() && Written(old(State()), str, old(req.conn.output))
      decreases 1
    {
      hide Put, Written;
      ghost var o, sent, wire := State(), req.conn.output, Wire();
      NothingMoved(str);
      if |str| <= stop - wrNext {
        AppendMore(o, str, sent, wire, 0, |str|);
        AllMoved(o, str, sent, wire);
        return |str|;
      }
      var bytesMoved := 0;
      while true
        invariant Sane() && ((rawWrite && !wasFCloseCalled) || Valid()) && rawWrite == old(rawWrite) && req.nWriters == old(req.nWriters)
        invariant bytesMoved < |str| && (Failed() || isClosed == old(isClosed)) && (old(Failed()) ==> Failed())
        invariant Failed() || Moved(o, str, sent, wire, bytesMoved)
        invariant old(isClosed) ==> req.conn.output == sent
        decreases |str| - bytesMoved, !isClosed, wrNext == stop
      {
        if wrNext != stop {
          var m := Min(|str| - bytesMoved, stop - wrNext);
          AppendMore(o, str, sent, wire, bytesMoved, m);
          bytesMoved := bytesMoved + m;
          if bytesMoved == |str| {
            AllMoved(o, str, sent, wire);
            return bytesMoved;
          }
        }
        if isClosed {
          return -1;
        }
        EmptyForMore(o, str, sent, wire, bytesMoved);
      }
    }

    // k bytes of str have been moved into the stream: nothing at all if it is closed, raw bytes or data of the stream.
    ghost predicate Moved(o: Out, str: seq<Byte>, sent: seq<Byte>, wire: seq<Byte>, k: nat)
      reads this, buff, req, req.conn
      requires Sane()
    {
      && k <= |str|
      && (isClosed ==> k == 0 && Wire() == wire && State() == o)
      && (!isClosed && rawWrite ==> Wire() == wire + str[..k])
      && (!isClosed && !rawWrite ==> Put(o, str, sent, k))
    }

    // memcpy into the stream; a stream that has failed may still have room.
    method AppendMore(ghost o: Out, str: seq<Byte>, ghost sent: seq<Byte>, ghost wire: seq<Byte>, k: nat, m: nat)
      requires Sane() && ((rawWrite && !wasFCloseCalled) || Valid()) && (Failed() || Moved(o, str, sent, wire, k))
      requires k + m <= |str| && m <= stop - wrNext
      modifies this`wrNext, buff
      ensures Sane() && ((rawWrite && !wasFCloseCalled) || Valid()) && wrNext == old(wrNext) + m
      ensures Failed() || Moved(o, str, sent, wire, k + m)
    {
      ghost var s := State();
      Append(str[k..k + m]);
      assert str[..k] + str[k..k + m] == str[..k + m];
      Associative(req.conn.output, old(buff[..wrNext]), str[k..k + m]);
      Associative(wire, str[..k], str[k..k + m]);
      if !isClosed && !rawWrite {
        assert buff[HEADER_LEN..wrNext] == old(buff[HEADER_LEN..wrNext]) + str[k..k + m] by {
          assert buff[HEADER_LEN..wrNext] == buff[..wrNext][HEADER_LEN..];
        }
        PutSplit(s, req.requestId, Cap(), str[k..], m);
        assert str[k..][..m] == str[k..k + m] && str[k..][m..] == str[k + m..];
      }
    }

    // emptyBuffProc for a buffer that is full.
    method EmptyForMore(ghost o: Out, ghost str: seq<Byte>, ghost sent: seq<Byte>, ghost wire: seq<Byte>, ghost k: nat)
      requires Sane() && !isClosed && wrNext == stop && k < |str| && (rawWrite || Valid()) && Moved(o, str, sent, wire, k)
      modifies this`wrNext, this`isAnythingWritten, this`errno, this`isClosed, this`rawWrite, buff, req.conn`output, req`nWriters
      ensures Sane() && rawWrite == old(rawWrite) && req.nWriters == old(req.nWriters) && (Failed() || (!isClosed && wrNext < stop))
      ensures (rawWrite || Valid()) && (Failed() || Moved(o, str, sent, wire, k))
      decreases 0, 1
    {
      hide PutOut, EncodeAll;
      ghost var s, out := State(), req.conn.output;
      EmptyBuffProc(false);
      if !isClosed {
        assert buff[..0] == [];
        if !rawWrite {
          PutFull(s, req.requestId, Cap(), str[k..]);
          EmptiedWire(s, str[k..], out);
        }
      }
    }

    // What was to be sent before the buffer was emptied is what has been and is to be sent after it.
    lemma EmptiedWire(s: Out, rest: seq<Byte>, out: seq<Byte>)
      requires Sane() && Ready(s, req.requestId, Cap()) && !s.closed && |s.pend| == Cap() && rest != []
      requires State() == FlushOut(s, req.requestId).1 && AllFine(FlushOut(s, req.requestId).0)
      requires req.conn.output == out + EncodeAll(FlushOut(s, req.requestId).0)
      requires AllFine(PutOut(s, req.requestId, Cap(), rest).0)
      ensures Ready(State(), req.requestId, Cap()) && AllFine(PutOut(State(), req.requestId, Cap(), rest).0)
      ensures req.conn.output + EncodeAll(PutOut(State(), req.requestId, Cap(), rest).0)
           == out + EncodeAll(PutOut(s, req.requestId, Cap(), rest).0)
    {
      hide PutOut, EncodeAll;
      var a, b := FlushOut(s, req.requestId).0, PutOut(State(), req.requestId, Cap(), rest).0;
      PutFull(s, req.requestId, Cap(), rest);
      PutFine(State(), req.requestId, Cap(), rest);
      EncodeCat(a, b);
      Associative(out, EncodeAll(a), EncodeAll(b));
    }

    lemma NothingMoved(str: seq<Byte>)
      requires Sane() && ((rawWrite && !wasFCloseCalled) || Valid())
      ensures Moved(State(), str, req.conn.output, Wire(), 0)
    {
      assert str[0..] == str && str[..0] == [] && Wire() + [] == Wire();
      if !isClosed && !rawWrite {
        PutFine(State(), req.requestId, Cap(), str);
      }
    }

    lemma AllMoved(o: Out, str: seq<Byte>, sent: seq<Byte>, wire: seq<Byte>)
      requires Sane() && ((rawWrite && !wasFCloseCalled) || Valid()) && (Failed() || Moved(o, str, sent, wire, |str|))
      ensures !isClosed && rawWrite ==> Wire() == wire + str
      ensures !isClosed && !rawWrite ==> Written(o, str, sent)
    {
      assert str[..|str|] == str;
      if !isClosed && !rawWrite {
        PutDone(o, str, sent);
      }
    }

    // What PutOut says has happened.
    ghost predicate Written(o: Out, str: seq<Byte>, sent: seq<Byte>)
      reads this, buff, req, req.conn
      requires Sane()
    {
      && Ready(o, req.requestId, Cap())
      && var (rs, last) := PutOut(o, req.requestId, Cap(), str);
         State() == last && AllFine(rs) && req.conn.output == sent + EncodeAll(rs)
    }

    // The first k bytes of str have been put into a stream that was in the state o, with `sent` on the connection.
    ghost predicate Put(o: Out, str: seq<Byte>, sent: seq<Byte>, k: nat)
      reads this, buff, req, req.conn
      requires Sane()
    {
      var id := req.requestId;
      && k <= |str| && Ready(o, id, Cap()) && Ready(State(), id, Cap())
      && var (all, now) := (PutOut(o, id, Cap(), str), PutOut(State(), id, Cap(), str[k..]));
         && AllFine(all.0) && AllFine(now.0) && all.1 == now.1
         && sent + EncodeAll(all.0) == req.conn.output + EncodeAll(now.0)
    }

    // All of it: what PutOut says has happened.
    lemma PutDone(o: Out, str: seq<Byte>, sent: seq<Byte>)
      requires Valid() && !isClosed && Put(o, str, sent, |str|)
      ensures AllFine(PutOut(o, req.requestId, Cap(), str).0)
      ensures State() == PutOut(o, req.requestId, Cap(), str).1
      ensures req.conn.output == sent + EncodeAll(PutOut(o, req.requestId, Cap(), str).0)
    {
      assert str[|str|..] == [] && State().pend + [] == State().pend;
      assert req.conn.output + [] == req.conn.output;
    }
  }

  lemma EncodeOne(r: Record)
    requires Fine(r)
    ensures EncodeAll([r]) == Encode(r)
  {
    assert [r][1..] == [] && Encode(r) + [] == Encode(r);
  }

  lemma EmptyRecord(kind: Byte, id: nat)
    requires id < 0x10000
    ensures EncodeAll([Record(kind, id, [], [])]) == MakeHeader(kind, id, 0, 0)
  {
    EncodeOne(Record(kind, id, [], []));
    assert MakeHeader(kind, id, 0, 0) + [] + [] == MakeHeader(kind, id, 0, 0);
  }

  // The records of a closing, one behind the other.
  lemma {:induction false} CloseParts(o: Out, id: nat, cap: nat, nWriters: int, status: nat, sent: seq<Byte>)
    requires Ready(o, id, cap) && status < 0x1_0000_0000 && !o.closed
    ensures AllFine(PendingRecord(o, id)) && AllFine(StreamEnd(o, id)) && AllFine(RequestEnd(id, nWriters, status))
    ensures AllFine(CloseOut(o, id, nWriters, status))
    ensures sent + EncodeAll(CloseOut(o, id, nWriters, status))
         == sent + EncodeAll(PendingRecord(o, id)) + EncodeAll(StreamEnd(o, id)) + EncodeAll(RequestEnd(id, nWriters, status))
  {
    hide EncodeAll, PendingRecord, StreamEnd, RequestEnd;
    CloseFine(o, id, cap, nWriters, status);
    RequestEndFine(id, nWriters, status);
    EncodeCat(PendingRecord(o, id), StreamEnd(o, id));
    EncodeCat(PendingRecord(o, id) + StreamEnd(o, id), RequestEnd(id, nWriters, status));
    var a, b, c := EncodeAll(PendingRecord(o, id)), EncodeAll(StreamEnd(o, id)), EncodeAll(RequestEnd(id, nWriters, status));
    assert sent + (a + b + c) == sent + a + b + c;
  }

  lemma RequestEndFine(id: nat, nWriters: int, status: nat)
    requires id < 0x10000 && status < 0x1_0000_0000
    ensures AllFine(RequestEnd(id, nWriters, status))
  {}
}
