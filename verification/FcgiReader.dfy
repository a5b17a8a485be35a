// The reader streams of fcgiapp.c: a buffer between the connection and the functions that read from a stream.
module FcgiReaders {
  import opened Basics
  import opened FcgiRecords
  import opened FcgiParams
  import opened FcgiDemux

  const EOF: int := -1

  // FCGX_Request, as far as its streams share it.
  class Request {
    const conn: Conn
    var requestId: nat
    var role: nat
    var isBeginProcessed: bool
    var keepConnection: bool
    var appStatus: nat
    var nWriters: int

    constructor (conn: Conn)
      ensures this.conn == conn && requestId == 0 && !isBeginProcessed && appStatus == 0 && nWriters == 0
    {
      this.conn := conn;
      requestId, role, isBeginProcessed, keepConnection, appStatus, nWriters := 0, 0, false, false, 0, 0;
    }
  }

  // What ProcessHeader answers; negative numbers are errors.
  const STREAM_RECORD: int := 0
  const SKIP: int := 1
  const BEGIN_RECORD: int := 2
  const MGMT_RECORD: int := 3

  // How FillBuffProc's loop goes on.
  datatype Next = Deliver | Again | GoOn

  // The reader as it is outside ProcessHeader, where eorStop is not set.
  ghost function Outside(v: View): View
    requires v.Live?
  {
    v.(eor := false)
  }

  // Pointers into the buffer are offsets.
  class Reader {
    const req: Request
    const buff: array<Byte>
    var rdNext: nat
    var stop: nat
    var stopUnget: nat
    var buffStop: nat
    var isClosed: bool
    var wasFCloseCalled: bool
    var errno: int
    var kind: Byte
    var eorStop: bool
    var skip: bool
    var contentLen: nat
    var paddingLen: nat
    // How often the operating system has reported an error.
    ghost var osErrors: nat

    // NewStream for a reader.  The buffer holds the rounded number of bytes, eight less if Malloc does not align it.
    constructor (req: Request, bufflen: nat, streamType: Byte, aligned: bool)
      requires req.requestId < 0x10000
      ensures Valid() && this.req == req && fresh(buff) && kind == streamType && !eorStop && !wasFCloseCalled && osErrors == 0
      ensures Now() == Live(false, Who(streamType, req.requestId, req.isBeginProcessed, req.role, req.keepConnection),
                            Cur(false, 0, 0), req.conn.input, true, req.conn.output, 0)
    {
      this.req := req;
      buff := new Byte[BuffLen(bufflen, aligned)];
      rdNext, stop, stopUnget, buffStop := 0, 0, 0, 0;
      isClosed, wasFCloseCalled, errno, kind := false, false, 0, streamType;
      eorStop, skip, contentLen, paddingLen, osErrors := false, false, 0, 0, 0;
    }

    ghost predicate Sane()
      reads this, req
    {
      rdNext <= buffStop <= buff.Length && 0 < buff.Length && req.requestId < 0x10000
    }

    ghost predicate Valid()
      reads this, req
    {
      Sane() && (!isClosed ==> rdNext <= stop <= buffStop && (rdNext < stop ==> !skip))
    }

    ghost function Self(): Who
      reads this, req
    {
      Who(kind, req.requestId, req.isBeginProcessed, req.role, req.keepConnection)
    }

    // The reader as FillBuffProc's loop sees it: at rdNext, with nothing made ready.
    ghost function Inside(): (v: View)
      reads this, buff, req, req.conn
      requires Sane()
      ensures v.Live? && v.open
    {
      Live(eorStop, Self(), Cur(skip, contentLen, paddingLen), buff[rdNext..buffStop] + req.conn.input, true,
           req.conn.output, errno)
    }

    // The reader as its client sees it: the content made ready has been taken off contentLen already.
    ghost function Now(): View
      reads this, buff, req, req.conn
      requires Valid()
    {
      if isClosed then ShutUp(Inside())
      else WithCur(Inside(), Cur(skip, contentLen + stop - rdNext, paddingLen))
    }

    // How many bytes are not consumed yet.
    ghost function Unread(): nat
      reads this, req.conn
    {
      (if rdNext <= buffStop then buffStop - rdNext else 0) + |req.conn.input|
    }

    // What reading from the stream leaves alone.
    ghost function Fixed(): (Byte, bool, bool)
      reads this`kind, this`eorStop, this`wasFCloseCalled
    {
      (kind, eorStop, wasFCloseCalled)
    }

    // What reading from the stream of a request leaves alone.
    ghost function Stable(): (Byte, bool, bool, bool)
      reads this`kind, this`eorStop, this`wasFCloseCalled, req`isBeginProcessed
    {
      (kind, eorStop, wasFCloseCalled, req.isBeginProcessed)
    }

    // SetError keeps the first error.
    method SetError(code: int)
      modifies this`errno, this`isClosed
      ensures isClosed && errno == if old(errno) == 0 then code else old(errno)
    {
      if errno == 0 {
        errno := code;
      }
      isClosed := true;
    }

    // SetError with the error number of a failed read or write.
    method OsError()
      modifies this`errno, this`isClosed, this`osErrors
      ensures isClosed && errno != 0 && osErrors == old(osErrors) + 1
    {
      var osErrno: int :| osErrno > 0;
      SetError(osErrno);
      osErrors := osErrors + 1;
    }

    // The first step of FillBuffProc's loop: an empty buffer is filled.
    method Refill() returns (ok: bool)
      requires Sane() && !isClosed
      modifies this`rdNext, this`buffStop, this`errno, this`osErrors, this`isClosed, buff, req.conn`input
      ensures Sane() && Unread() <= old(Unread()) && (ok ==> osErrors == old(osErrors)) && osErrors >= old(osErrors)
      ensures ok ==> rdNext < buffStop && !isClosed && Inside() == old(Inside())
      ensures !ok ==> isClosed && errno != 0
      ensures !ok && osErrors == old(osErrors) ==>
                old(Inside()).raw == [] && Now() == Fail(old(Inside()), PROTOCOL_ERROR, [])
    {
      if rdNext == buffStop {
        var count := req.conn.Read(buff);
        if count < 0 {
          OsError();
          return false;
        }
        if count == 0 {
          SetError(PROTOCOL_ERROR);
          return false;
        }
        rdNext, buffStop := 0, count;
      }
      return true;
    }

    // Moves rdNext on over bytes that are not delivered.
    method Skip(count: nat)
      requires Sane() && count <= buffStop - rdNext
      modifies this`rdNext
      ensures Sane() && Unread() == old(Unread()) - count
      ensures Inside() == WithRaw(old(Inside()), old(Inside()).raw[count..])
    {
      ghost var raw := Inside().raw;
      rdNext := rdNext + count;
      assert buff[rdNext..buffStop] + req.conn.input == raw[count..];
    }

    // The view with the bytes of a header that have been copied already.
    ghost function Behind(header: seq<Byte>): View
      reads this, buff, req, req.conn
      requires Sane()
    {
      WithRaw(Inside(), header + Inside().raw)
    }

    // --- The steps of FillBuffProc's loop ---

    // Deliver or skip what the buffer holds of the current record's content.
    method PassContent() returns (next: Next)
      requires Sane() && !isClosed && rdNext < buffStop && contentLen > 0
      modifies this`rdNext, this`stop, this`contentLen, this`skip
      ensures Sane() && Unread() <= old(Unread())
      ensures next == Deliver ==> Valid() && Now() == old(Inside()) == Settle(old(Inside())) && rdNext < stop
      ensures next != Deliver ==> Unread() < old(Unread())
      ensures next == Again ==> Settle(old(Inside())) == Settle(Inside())
      ensures next == GoOn ==> contentLen == 0 && Settle(old(Inside())) == AfterContent(Inside())
    {
      hide AfterContent, Settle;
      ghost var v := Inside();
      var count := Min(contentLen, buffStop - rdNext);
      contentLen := contentLen - count;
      if !skip {
        SettleReadable(v);
        stop := rdNext + count;
        return Deliver;
      }
      Skip(count);
      if contentLen > 0 {
        SkipSome(v, count);
        return Again;
      }
      skip := false;
      SkipAll(v);
      assert Inside() == PastContent(v);
      return GoOn;
    }

    // Skip what the buffer holds of its padding.
    method PassPadding() returns (next: Next)
      requires Sane() && !isClosed && contentLen == 0 && paddingLen > 0
      modifies this`rdNext, this`paddingLen
      ensures Sane() && Unread() <= old(Unread()) && (old(rdNext) < buffStop ==> Unread() < old(Unread()))
      ensures next != Deliver
      ensures next == Again ==> AfterContent(old(Inside())) == Settle(Inside())
      ensures next == GoOn ==> AfterContent(old(Inside())) == AfterContent(Inside()) && paddingLen == 0
    {
      hide AfterContent, Settle;
      ghost var v := Inside();
      var count := Min(paddingLen, buffStop - rdNext);
      paddingLen := paddingLen - count;
      Skip(count);
      PadSome(v, count);
      if paddingLen > 0 {
        TopAfterContent(Inside());
        return Again;
      }
      return GoOn;
    }

    // Copy what the buffer holds of a header behind the part of it copied before.
    method CopyHeader(part: seq<Byte>) returns (header: seq<Byte>)
      requires Sane() && |part| < HEADER_LEN
      modifies this`rdNext
      ensures Sane() && part <= header && |header| <= HEADER_LEN && Unread() + |header| == old(Unread()) + |part|
      ensures |header| == HEADER_LEN || rdNext == buffStop
      ensures Behind(header) == old(Behind(part))
    {
      var count := Min(HEADER_LEN - |part|, buffStop - rdNext);
      ghost var raw := Inside().raw;
      var copied := buff[rdNext..rdNext + count];
      assert copied == raw[..count];
      header := part + copied;
      Skip(count);
      Regroup(part, raw, count);
    }

    // What is to come of the reader, with the part of a header that has been copied.
    ghost function Due(header: seq<Byte>): View
      reads this, buff, req, req.conn
      requires Sane() && (header != [] ==> contentLen == 0)
    {
      if header == [] then Settle(Inside()) else AfterContent(Behind(header))
    }

    // No bytes of a header have been copied while there is anything else to do.
    ghost predicate Orderly(header: seq<Byte>)
      reads this
    {
      |header| < HEADER_LEN && (header != [] ==> !eorStop && contentLen == 0 && paddingLen == 0)
    }

    // The rest of the current record, content and padding.
    method PassBody(ghost header: seq<Byte>) returns (next: Next)
      requires Sane() && !isClosed && rdNext < buffStop && Orderly(header)
      modifies this`rdNext, this`stop, this`contentLen, this`paddingLen, this`skip
      ensures Sane() && Unread() <= old(Unread()) && (rdNext == buffStop || next == Again ==> Unread() < old(Unread()))
      ensures Fixed() == old(Fixed())
      ensures next == Deliver ==> Valid() && Now() == old(Due(header)) && rdNext < stop
      ensures next == Again ==> header == [] && old(Due(header)) == Settle(Inside())
      ensures next == GoOn ==> contentLen == 0 && paddingLen == 0 && old(Due(header)) == AfterContent(Behind(header))
    {
      hide AfterContent, Settle;
      next := GoOn;
      if contentLen > 0 {
        next := PassContent();
        BehindNothing();
        if next != GoOn {
          return;
        }
      } else if header == [] {
        TopAfterContent(Inside());
      }
      if paddingLen > 0 {
        next := PassPadding();
      }
      BehindNothing();
    }

    // Refill, with what it means for the loop when there is no more input.
    method Supply(ghost header: seq<Byte>) returns (ok: bool)
      requires Sane() && !isClosed && Orderly(header)
      modifies this`rdNext, this`buffStop, this`errno, this`osErrors, this`isClosed, buff, req.conn`input
      ensures Sane() && Unread() <= old(Unread()) && Fixed() == old(Fixed()) && osErrors >= old(osErrors)
      ensures ok ==> rdNext < buffStop && !isClosed && osErrors == old(osErrors) && Orderly(header) && Due(header) == old(Due(header))
      ensures !ok ==> isClosed && Valid() && errno != 0 && (osErrors > old(osErrors) || Now() == old(Due(header)))
    {
      hide AfterContent, Settle;
      InputEnds(header);
      ok := Refill();
    }

    // The end of a record whose body only is read.
    method EndRecord(ghost header: seq<Byte>)
      requires Sane() && !isClosed && Orderly(header) && eorStop && contentLen == 0 && paddingLen == 0
      modifies this`stop, this`isClosed
      ensures Valid() && isClosed && Now() == old(AfterContent(Behind(header)))
      ensures Fixed() == old(Fixed())
    {
      hide AfterContent;
      EorReached(Inside());
      BehindNothing();
      stop := rdNext;
      isClosed := true;
    }

    // FillBuffProc.
    method FillBuffProc()
      requires Valid() && !isClosed && rdNext == stop
      modifies this, buff, req, req.conn
      ensures Valid() && Unread() <= old(Unread()) && Fixed() == old(Fixed()) && osErrors >= old(osErrors)
      ensures req.isBeginProcessed != old(req.isBeginProcessed) ==> !isClosed && !eorStop
      ensures osErrors > old(osErrors) || Now() == Settle(old(Now()))
      ensures osErrors > old(osErrors) ==> isClosed && errno != 0
      ensures !isClosed && Readable(Now()) ==> rdNext < stop
      decreases Unread(), 10, 0
    {
      hide AfterContent, Settle;
      var header: seq<Byte> := [];
      ghost var v := Settle(Now());
      while true
        invariant Sane() && !isClosed && Orderly(header) && Stable() == old(Stable()) && osErrors == old(osErrors)
        invariant v == Due(header) && Unread() + |header| <= old(Unread())
        decreases Unread()
      {
        var ok := Supply(header);
        if !ok {
          return;
        }
        ghost var unread := Unread();
        var next := PassBody(header);
        if next == Deliver {
          return;
        }
        assert Unread() < unread || rdNext < buffStop;
        if next == GoOn {
          if eorStop {
            EndRecord(header);
            return;
          }
          var done;
          done, header := PassHeader(header);
          if done {
            return;
          }
          assert Unread() < unread;
        }
      }
    }

    // More of a header, and all that it leads to if that completes it.
    method PassHeader(part: seq<Byte>) returns (done: bool, header: seq<Byte>)
      requires Sane() && !isClosed && |part| < HEADER_LEN
      requires !eorStop && contentLen == 0 && paddingLen == 0
      modifies this, buff, req, req.conn
      ensures Sane() && Fixed() == old(Fixed()) && Unread() <= old(Unread()) && osErrors >= old(osErrors)
      ensures req.isBeginProcessed != old(req.isBeginProcessed) ==> done && !isClosed
      ensures osErrors > old(osErrors) ==> done && isClosed && errno != 0
      ensures Unread() + |header| <= old(Unread()) + |part| && (old(rdNext) < old(buffStop) ==> Unread() < old(Unread()))
      ensures done ==> Valid() && (osErrors > old(osErrors) || old(AfterContent(Behind(part))) == Now()) && !(!isClosed && Readable(Now()))
      ensures !done ==> !isClosed && Orderly(header) && old(AfterContent(Behind(part))) == Due(header)
      decreases Unread(), 9
    {
      hide AfterContent, Settle, Process;
      header := CopyHeader(part);
      done := false;
      if |header| == HEADER_LEN {
        HeaderReached(Behind(header), header, Inside().raw);
        done := Interpret(header);
        header := [];
      } else if header == [] {
        BehindNothing();
        TopAfterContent(Inside());
      }
    }

    // With the input at its end there is nothing more to settle.
    lemma InputEnds(header: seq<Byte>)
      requires Sane() && Orderly(header)
      ensures Inside().raw == [] ==> Due(header) == Fail(Inside(), PROTOCOL_ERROR, [])
    {}

    // A header is complete: process it, and see to its answer.
    method Interpret(header: seq<Byte>) returns (done: bool)
      requires Sane() && !isClosed && |header| == HEADER_LEN
      requires !eorStop && contentLen == 0 && paddingLen == 0
      modifies this, buff, req, req.conn
      ensures Sane() && Unread() <= old(Unread()) && osErrors >= old(osErrors)
      ensures Fixed() == old(Fixed()) && (req.isBeginProcessed != old(req.isBeginProcessed) ==> done && !isClosed)
      ensures osErrors > old(osErrors) ==> done && isClosed && errno != 0
      ensures !done ==> !isClosed && Process(old(Inside()), header) == More(Inside())
      ensures done ==> Valid() && (osErrors > old(osErrors) || Process(old(Inside()), header) == Halt(Now()))
      ensures done && !isClosed ==> !Readable(Now())
      decreases Unread(), 17
    {
      hide Process;
      eorStop := true;
      stop := rdNext;
      var status := ProcessHeader(header);
      eorStop := false;
      isClosed := false;
      if status == STREAM_RECORD {
        if contentLen == 0 {
          stop := rdNext;
          isClosed := true;
          return true;
        }
      } else if status == SKIP {
        skip := true;
      } else if status == BEGIN_RECORD {
        return true;
      } else if status != MGMT_RECORD {
        SetError(status);
        return true;
      }
      return false;
    }

    // What the answer of ProcessHeader stands for, unless the operating system has reported more than `errors` errors.
    ghost predicate Answered(p: Processed, status: int, errors: nat)
      reads this, buff, req, req.conn
      requires Sane()
    {
      var v := Outside(Inside());
      && (status in {STREAM_RECORD, SKIP, BEGIN_RECORD, MGMT_RECORD} || status < 0)
      && osErrors >= errors && (osErrors > errors ==> status < 0 && errno != 0)
      && (osErrors == errors ==>
            && (status == STREAM_RECORD ==> p == if contentLen == 0 then Halt(ShutUp(v)) else More(v))
            && (status == SKIP ==> p == More(WithCur(v, v.cur.(skip := true))))
            && (status == BEGIN_RECORD ==> p == Halt(v) && contentLen == 0 && stop == rdNext)
            && (status == MGMT_RECORD ==> p == More(v))
            && (status < 0 ==> p == Halt(Fail(v, status, v.raw))))
    }

    // ProcessHeader, called with eorStop set.
    method ProcessHeader(header: seq<Byte>) returns (status: int)
      requires Sane() && !isClosed && |header| == HEADER_LEN
      requires eorStop && stop == rdNext && contentLen == 0 && paddingLen == 0
      modifies this, buff, req, req.conn
      ensures Sane() && Unread() <= old(Unread())
      ensures Fixed() == old(Fixed()) && (req.isBeginProcessed != old(req.isBeginProcessed) ==> status == BEGIN_RECORD)
      ensures Answered(Process(Outside(old(Inside())), header), status, old(osErrors))
      decreases Unread(), 16
    {
      hide ProcessBegin, ProcessManagement;
      if header[0] != VERSION_1 {
        return UNSUPPORTED_VERSION;
      }
      var requestId := Little(header[2], header[3]);
      contentLen := Little(header[4], header[5]);
      paddingLen := header[6];
      if header[1] == BEGIN_REQUEST {
        status := ProcessBeginRecord(requestId);
        return;
      }
      if requestId == 0 {
        var answered, _ := ProcessManagementRecord(header[1]);
        return answered;
      }
      if requestId != req.requestId {
        return SKIP;
      }
      if header[1] != kind {
        return PROTOCOL_ERROR;
      }
      return STREAM_RECORD;
    }

    // ProcessBeginRecord.
    method ProcessBeginRecord(requestId: nat) returns (status: int)
      requires Sane() && !isClosed && eorStop && stop == rdNext && requestId < 0x10000
      modifies this, buff, req, req.conn
      ensures Sane() && Unread() <= old(Unread())
      ensures Fixed() == old(Fixed()) && (req.isBeginProcessed != old(req.isBeginProcessed) ==> status == BEGIN_RECORD)
      ensures var v := WithCur(Outside(old(Inside())), Cur(old(skip), 0, 0));
              Answered(ProcessBegin(v, requestId, old(contentLen), old(paddingLen)), status, old(osErrors))
      decreases Unread(), 15
    {
      hide Encode, ReadN, RestEor;
      if requestId == 0 || contentLen != 8 {
        return PROTOCOL_ERROR;
      }
      if req.isBeginProcessed {
        var ok := req.conn.WriteItAll(Encode(EndRequest(requestId, 0, CANT_MPX_CONN)));
        if !ok {
          OsError();
          return -1;
        }
        return SKIP;
      }
      req.requestId := requestId;
      ghost var v := Inside();
      BodyShort(v);
      var body := GetStr(8);
      if |body| != 8 {
        return PROTOCOL_ERROR;
      }
      req.keepConnection := body[2] % 2 == 1;
      req.role := Little(body[0], body[1]);
      req.isBeginProcessed := true;
      return BEGIN_RECORD;
    }

    // ProcessManagementRecord.  fits is false if it writes past the end of its buffer, which the source does not notice.
    method ProcessManagementRecord(recordType: Byte) returns (status: int, ghost fits: bool)
      requires Sane() && !isClosed && eorStop && stop == rdNext
      modifies this, buff, req, req.conn
      ensures Sane() && Unread() <= old(Unread())
      ensures Stable() == old(Stable())
      ensures var v := WithCur(Outside(old(Inside())), Cur(old(skip), 0, 0));
              Answered(ProcessManagement(v, recordType, old(contentLen), old(paddingLen)), status, old(osErrors))
      ensures fits <==> recordType == GET_VALUES && status == MGMT_RECORD ==>
                          KnownCount(ReadPairs(RestEor(old(Inside())).0).0) <= 3
      decreases Unread(), 15
    {
      hide Rest, RestEor, ReadPairs, Encode, UnknownType, ValuesResult, KnownCount;
      fits := true;
      var response;
      if recordType == GET_VALUES {
        ghost var v := Inside();
        RestEorSame(v);
        RestEorEnds(v);
        RestEorWho(v);
        var params := new Params(3);
        var rc := ReadParams(params);
        assert [] + ReadPairs(Rest(v).0).0 == ReadPairs(Rest(v).0).0;
        if errno != 0 || contentLen != 0 {
          return PROTOCOL_ERROR, true;
        }
        var answers;
        answers, fits := AnswerAll(params);
        response := ValuesResult(answers);
      } else {
        response := UnknownType(recordType);
      }
      var ok := req.conn.WriteItAll(response);
      if !ok {
        OsError();
        return -1, true;
      }
      return MGMT_RECORD, fits;
    }

    // The loop that answers the variables asked for.  fits says whether each answer, with the NUL behind it, still went
    // into the buffer for the reply; the source does not look, and writes past its end.
    static method AnswerAll(params: Params) returns (answers: seq<Byte>, ghost fits: bool)
      requires params.Valid()
      ensures answers == Answers(params.Strings())
      ensures fits <==> KnownCount(params.Strings()) <= 3
    {
      hide Answer;
      answers, fits := [], true;
      ghost var all := params.Strings();
      assert all[0..] == all && [] + Answers(all) == Answers(all);
      var p := 0;
      while p < params.cur
        invariant p <= params.cur && answers + Answers(all[p..]) == Answers(all)
        invariant fits <==> HEADER_LEN + |answers| + 1 <= RESPONSE_LEN
      {
        Associative(answers, Answer(all[p]), Answers(all[p + 1..]));
        assert all[p..][1..] == all[p + 1..];
        answers := answers + Answer(params.vec[p].value);
        fits := fits && HEADER_LEN + |answers| + 1 <= RESPONSE_LEN;
        p := p + 1;
      }
      assert all[p..] == [] && answers + [] == answers;
      AnswersFit(all);
    }

    // --- Reading from the stream ---

    // m bytes off what is ready.
    method Take(m: nat) returns (bytes: seq<Byte>)
      requires Valid() && !isClosed && m <= stop - rdNext
      modifies this`rdNext
      ensures Valid() && |bytes| == m && Unread() == old(Unread()) - m
      ensures bytes == old(Now()).raw[..m] && Now() == Drop(old(Now()), m)
    {
      bytes := buff[rdNext..rdNext + m];
      ghost var raw := Inside().raw;
      rdNext := rdNext + m;
      assert bytes == raw[..m] && Inside().raw == raw[m..];
    }

    // FCGX_GetChar.
    method GetChar() returns (c: int)
      requires Valid() && InUse(Now())
      modifies this, buff, req, req.conn
      ensures Valid() && Unread() <= old(Unread()) && (c != EOF ==> 0 <= c < 256 && Unread() < old(Unread()) && !isClosed)
      ensures Stable() == old(Stable())
      ensures osErrors >= old(osErrors) && (osErrors > old(osErrors) ==> c == EOF && isClosed && errno != 0)
      ensures osErrors > old(osErrors) || (if c == EOF then [] else [c], Now()) == ReadN(old(Now()), 1)
      ensures old(isClosed) ==> c == EOF && isClosed && errno == old(errno) && osErrors == old(osErrors)
      ensures c != EOF && old(rdNext < stop ==> stopUnget <= rdNext) ==> stopUnget < rdNext && !skip
      ensures InUse(Now())
      decreases Unread(), 11
    {
      hide Settle, ReadN;
      ghost var v := Now();
      if isClosed {
        ReadNothing(v, 1);
        return EOF;
      }
      if rdNext != stop {
        c := TakeOne();
        return;
      }
      SettleInUse(v);
      ReadSettled(v, 1);
      FillBuffProc();
      if isClosed {
        return EOF;
      }
      stopUnget := rdNext;
      c := TakeOne();
    }

    // *stream->rdNext++
    method TakeOne() returns (c: Byte)
      requires Valid() && !isClosed && rdNext < stop
      modifies this`rdNext
      ensures Valid() && Unread() == old(Unread()) - 1
      ensures ([c], Now()) == ReadN(old(Now()), 1)
      ensures InUse(old(Now())) ==> InUse(Now())
    {
      ghost var v := Now();
      ReadSplit(v, 1, 1);
      var bytes := Take(1);
      ReadNothing(Now(), 0);
      assert bytes == [bytes[0]] && v.raw[..1] + [] == bytes;
      return bytes[0];
    }

    // FCGX_UnGetChar: puts a byte back in front of what is left, if one has been read off the current buffer fragment.
    method UnGetChar(c: int) returns (r: int)
      requires Valid() && (c == EOF || 0 <= c < 256)
      requires !isClosed && c != EOF && rdNext != stopUnget ==> rdNext > 0 && !skip
      modifies this`rdNext, buff
      ensures Valid() && r == if c == EOF || isClosed || old(rdNext) == stopUnget then EOF else c
      ensures r == EOF ==> Now() == old(Now())
      ensures r != EOF ==> ([c], old(Now())) == ReadN(Now(), 1)
    {
      if c == EOF || isClosed || rdNext == stopUnget {
        return EOF;
      }
      ghost var raw := Inside().raw;
      rdNext := rdNext - 1;
      buff[rdNext] := c;
      assert Inside().raw == [c] + raw;
      ghost var v := Now();
      ReadSplit(v, 1, 1);
      assert v.raw[1..] == raw && v.raw[..1] == [c] && [c] + [] == [c];
      ReadNothing(Drop(v, 1), 0);
      return c;
    }

    // SetReaderType.
    method SetReaderType(streamType: Byte)
      requires Valid()
      modifies this
      ensures Valid() && Now() == Retyped(old(Now()), streamType) && !isClosed && rdNext == stop && osErrors == old(osErrors)
    {
      kind := streamType;
      eorStop, skip, contentLen, paddingLen := false, false, 0, 0;
      stop := rdNext;
      isClosed := false;
    }

    // FCGX_FClose on a reader: whatever was ready is gone, and there is nothing more to read.
    method FClose() returns (rc: int)
      requires Valid()
      modifies this`wasFCloseCalled, this`isClosed, this`stop
      ensures Valid() && wasFCloseCalled && rc == (if errno == 0 then 0 else EOF)
      ensures !old(wasFCloseCalled) ==> isClosed && stop == rdNext
    {
      if !wasFCloseCalled {
        wasFCloseCalled := true;
        isClosed := true;
        stop := rdNext;
      }
      return if errno == 0 then 0 else EOF;
    }

    // FCGX_GetStr.
    method GetStr(n: int) returns (str: seq<Byte>)
      requires Valid() && InUse(Now())
      modifies this, buff, req, req.conn
      ensures Valid() && Unread() <= old(Unread()) && Stable() == old(Stable()) && osErrors >= old(osErrors)
      ensures str <= ReadN(old(Now()), if n < 0 then 0 else n).0 && (|str| == n && !old(isClosed) ==> !isClosed)
      ensures osErrors > old(osErrors) ==> isClosed && errno != 0 && |str| < n
      ensures osErrors > old(osErrors) || (str, Now()) == ReadN(old(Now()), if n < 0 then 0 else n)
      ensures InUse(Now())
      decreases Unread(), 11
    {
      hide Settle, ReadN, Stable;
      ghost var v := Now();
      if isClosed || n <= 0 {
        ReadNothing(v, if n < 0 then 0 else n);
        return [];
      }
      str := [];
      NothingMoved(n);
      if n <= stop - rdNext {
        str := MoveReady(v, n, str);
        return;
      }
      while true
        invariant Valid() && !isClosed && InUse(Now()) && Unread() <= old(Unread()) && Stable() == old(Stable())
        invariant osErrors == old(osErrors)
        invariant |str| < n && Moved(v, n, str)
        decreases n - |str|, rdNext == stop
      {
        if rdNext != stop {
          str := MoveReady(v, n, str);
          if |str| == n {
            return;
          }
        }
        FillFor(v, n, str);
        if isClosed {
          return;
        }
      }
    }

    // More of the stream for FCGX_GetStr, or its end.
    method FillFor(ghost v: View, ghost n: nat, ghost str: seq<Byte>)
      requires Valid() && !isClosed && InUse(Now()) && rdNext == stop && |str| < n && Moved(v, n, str)
      modifies this, buff, req, req.conn
      ensures Valid() && InUse(Now()) && Unread() <= old(Unread()) && Stable() == old(Stable())
      ensures str <= ReadN(v, n).0 && osErrors >= old(osErrors)
      ensures osErrors > old(osErrors) ==> isClosed && errno != 0
      ensures isClosed ==> osErrors > old(osErrors) || (str, Now()) == ReadN(v, n)
      ensures !isClosed ==> rdNext < stop && Moved(v, n, str)
      decreases Unread(), 10, 1
    {
      hide Settle, ReadN, Stable;
      MovedOn(v, n, str);
      SettleInUse(Now());
      FillBuffProc();
      if !isClosed {
        stopUnget := rdNext;
      }
    }

    lemma NothingMoved(n: nat)
      requires Valid()
      ensures Moved(Now(), n, [])
    {
      assert [] + ReadN(Now(), n).0 == ReadN(Now(), n).0;
    }

    // FillBuffProc does not change what can be read, or there is nothing left to read.
    lemma MovedOn(v: View, n: nat, str: seq<Byte>)
      requires Valid() && !isClosed && |str| < n && Moved(v, n, str)
      ensures var w := Settle(Now());
              && str <= ReadN(v, n).0
              && (!Opened(w) ==> ReadN(v, n) == (str, w))
              && (Readable(w) ==> ReadN(v, n) == (str + ReadN(w, n - |str|).0, ReadN(w, n - |str|).1))
    {
      hide Settle, ReadN;
      ReadSettled(Now(), n - |str|);
      assert str + [] == str;
    }

    // str has been read of the n bytes asked for at v.
    ghost predicate Moved(v: View, n: nat, str: seq<Byte>)
      reads this, buff, req, req.conn
      requires Valid()
    {
      |str| <= n && ReadN(v, n) == (str + ReadN(Now(), n - |str|).0, ReadN(Now(), n - |str|).1)
    }

    // What is ready, up to the number of bytes asked for.
    method MoveReady(ghost v: View, n: nat, str: seq<Byte>) returns (more: seq<Byte>)
      requires Valid() && !isClosed && rdNext < stop && |str| < n && Moved(v, n, str)
      modifies this`rdNext
      ensures Valid() && Unread() < old(Unread()) && |str| < |more| <= n && Moved(v, n, more)
      ensures Stable() == old(Stable()) && (InUse(old(Now())) ==> InUse(Now()))
      ensures |more| == n || rdNext == stop
      ensures |more| == n ==> (more, Now()) == ReadN(v, n)
      ensures n - |str| <= old(stop - rdNext) ==> |more| == n
    {
      hide Settle, ReadN;
      var m := Min(n - |str|, stop - rdNext);
      ghost var w := Now();
      ReadSplit(w, n - |str|, m);
      Associative(str, w.raw[..m], ReadN(Drop(w, m), n - |str| - m).0);
      var bytes := Take(m);
      more := str + bytes;
      if |more| == n {
        ReadNothing(Now(), 0);
        assert more + [] == more;
      }
    }

    // A length whose first byte has been read; -1 if the stream ends inside it.  ReadParams has this code twice.
    method ReadLengthFrom(first: Byte) returns (len: int)
      requires Valid() && InUse(Now()) && !isClosed
      modifies this, buff, req, req.conn
      ensures Valid() && InUse(Now()) && Unread() <= old(Unread()) && -1 <= len && (len >= 0 ==> !isClosed)
      ensures Stable() == old(Stable()) && osErrors >= old(osErrors) && (osErrors > old(osErrors) ==> len < 0 && isClosed && errno != 0)
      ensures osErrors > old(osErrors) ||
              var (data, end) := Rest(old(Now()));
              if len < 0 then ReadLength([first] + data) == None && Now() == end
              else ReadLength([first] + data) == Some((len, Rest(Now()).0)) && Rest(Now()).1 == end
      decreases Unread(), 12
    {
      hide Rest, ReadN, Settle;
      ghost var v := Now();
      ghost var data := Rest(v).0;
      if first < 128 {
        assert ([first] + data)[1..] == data;
        return first;
      }
      ReadRest(v, 3);
      var lenBuff := GetStr(3);
      if |lenBuff| != 3 {
        return -1;
      }
      ghost var s := [first] + data;
      assert s[1..4] == lenBuff && s[4..] == Rest(Now()).0;
      assert s[1] == lenBuff[0] && s[2] == lenBuff[1] && s[3] == lenBuff[2];
      return Number(first - 128, lenBuff[0], lenBuff[1], lenBuff[2]);
    }

    // A pair whose first byte has been read.
    method ReadEntry(first: Byte) returns (ok: bool, nameValue: seq<Byte>)
      requires Valid() && InUse(Now()) && !isClosed
      modifies this, buff, req, req.conn
      ensures Valid() && InUse(Now()) && Unread() <= old(Unread()) && (ok ==> !isClosed)
      ensures Stable() == old(Stable()) && osErrors >= old(osErrors) && (osErrors > old(osErrors) ==> !ok && isClosed && errno != 0)
      ensures osErrors > old(osErrors) ||
              var (data, end) := Rest(old(Now()));
              if !ok then ReadPair([first] + data) == None && Now() == end
              else ReadPair([first] + data) == Some((nameValue, Rest(Now()).0)) && Rest(Now()).1 == end
      decreases Unread(), 13, 0
    {
      hide Rest, ReadN, Settle, ReadLength, ReadPair, Stable, InUse;
      ok, nameValue := false, [];
      ghost var s := [first] + Rest(Now()).0;
      var nameLen := ReadLengthFrom(first);
      if nameLen < 0 {
        PairNone(s, 0, [], 0, []);
        return;
      }
      ReadRest(Now(), 1);
      ghost var s1 := Rest(Now()).0;
      var c := GetChar();
      if c == EOF {
        LengthOfNothing();
        PairNone(s, nameLen, s1, 0, []);
        return;
      }
      var valueLen := ReadLengthFrom(c);
      if valueLen < 0 {
        PairNone(s, nameLen, s1, 0, []);
        return;
      }
      ghost var d := Rest(Now()).0;
      PairNone(s, nameLen, s1, valueLen, d);
      ReadRest(Now(), nameLen);
      var name := GetStr(nameLen);
      if |name| != nameLen {
        return;
      }
      ReadRest(Now(), valueLen);
      var value := GetStr(valueLen);
      if |value| != valueLen {
        return;
      }
      PairSome(s, s1, d, name, value, Rest(Now()).0);
      return true, name + [EQUALS] + value;
    }

    // ReadParams.
    method ReadParams(params: Params) returns (rc: int)
      requires Valid() && InUse(Now()) && params.Valid()
      modifies this, buff, req, req.conn, params, params.vec
      ensures Valid() && Unread() <= old(Unread())
      ensures Stable() == old(Stable())
      ensures params.Valid() && (params.vec == old(params.vec) || fresh(params.vec))
      ensures osErrors >= old(osErrors) && (osErrors > old(osErrors) ==> errno != 0)
      ensures osErrors > old(osErrors) ||
              var ((data, end), (entries, whole)) := (Rest(old(Now())), ReadPairs(Rest(old(Now())).0));
              && params.Strings() == old(params.Strings()) + entries
              && rc == (if whole then 0 else -1)
              && Now() == if whole || end.Dead? then end else Dead(PARAMS_ERROR, end.who, end.raw, end.sent)
      decreases Unread(), 14
    {
      hide Rest, ReadPairs, ReadPair, Stable, InUse;
      ghost var (data, end) := Rest(Now());
      ghost var done: seq<seq<Byte>> := [];
      assert done + ReadPairs(data).0 == ReadPairs(data).0;
      while true
        invariant Valid() && InUse(Now()) && Unread() <= old(Unread()) && Stable() == old(Stable())
        invariant params.Valid() && (params.vec == old(params.vec) || fresh(params.vec))
        invariant params.Strings() == old(params.Strings()) + done
        invariant osErrors == old(osErrors)
        invariant var (d, e) := Rest(Now());
                  e == end && ReadPairs(data) == (done + ReadPairs(d).0, ReadPairs(d).1)
        decreases Unread()
      {
        ghost var d := Rest(Now()).0;
        var got, nameValue := NextEntry();
        assert done + [] == done;
        if got == 0 {
          PairsOfNothing();
          return 0;
        }
        if got < 0 {
          PairsOfNone(d);
          return -1;
        }
        params.PutParam(nameValue);
        PairsOfSome(d);
        Associative(done, [nameValue], ReadPairs(Rest(Now()).0).0);
        Associative(old(params.Strings()), done, [nameValue]);
        done := done + [nameValue];
      }
    }

    // One round of its loop: 1 for a pair, 0 at the end of the stream, -1 for a pair cut short.
    method NextEntry() returns (got: int, nameValue: seq<Byte>)
      requires Valid() && InUse(Now())
      modifies this, buff, req, req.conn
      ensures Valid() && InUse(Now()) && Stable() == old(Stable()) && -1 <= got <= 1
      ensures Unread() <= old(Unread()) && (got == 1 ==> Unread() < old(Unread()))
      ensures osErrors >= old(osErrors) && (osErrors > old(osErrors) ==> got <= 0 && errno != 0)
      ensures osErrors > old(osErrors) ||
              var (data, end) := Rest(old(Now()));
              && (got == 1 ==> data != [] && ReadPair(data) == Some((nameValue, Rest(Now()).0)) && Rest(Now()).1 == end)
              && (got == 0 ==> data == [] && Now() == end)
              && (got < 0 ==> data != [] && ReadPair(data) == None && Now() == if end.Dead? then end else Dead(PARAMS_ERROR, end.who, end.raw, end.sent))
      decreases Unread(), 13, 1
    {
      hide Rest, ReadN, ReadPair, Settle, Stable;
      nameValue := [];
      ReadRest(Now(), 1);
      var nameLen := GetChar();
      if nameLen == EOF {
        return 0, [];
      }
      var ok;
      ok, nameValue := ReadEntry(nameLen);
      if !ok {
        RestClosed(old(Now()));
        SetError(PARAMS_ERROR);
        return -1, [];
      }
      return 1, nameValue;
    }

    // What FCGX_Accept_r does with a reader for a new connection.
    method ReadRequest() returns (ok: bool, params: Params)
      requires Valid() && !isClosed && rdNext == stop && !eorStop && !req.isBeginProcessed
      modifies this, buff, req, req.conn
      ensures params.Valid() && fresh(params) && fresh(params.vec)
      ensures osErrors > old(osErrors) ||
              match Accept(old(Now()))
              case None => !ok
              case Some((entries, input)) => ok && params.Strings() == entries && Valid() && Now() == input
    {
      hide Settle, Rest, ReadPairs, AfterContent, Fixed, Stable, Inside, Unread, Now;
      params := new Params(30);
      FillBuffProc();
      NowWho();
      if !req.isBeginProcessed {
        return false, params;
      }
      var role := RoleEntry(req.role);
      if role.None? {
        return false, params;
      }
      params.PutParam(role.value);
      SetReaderType(PARAMS);
      NowWho();
      var rc := ReadParams(params);
      if rc < 0 {
        return false, params;
      }
      SetReaderType(STDIN);
      return true, params;
    }

    lemma NowWho()
      requires Valid()
      ensures Now().who == Self() && (Now().Live? ==> Now().eor == eorStop)
    {}

    lemma BehindNothing()
      requires Sane()
      ensures Behind([]) == Inside()
    {
      assert [] + Inside().raw == Inside().raw;
    }
  }

  lemma Regroup(a: seq<Byte>, s: seq<Byte>, k: nat)
    requires k <= |s|
    ensures a + s[..k] + s[k..] == a + s
  {}

  // The length asked for, within bounds and rounded up to a multiple of eight; eight less if Malloc does not align it.
  function BuffLen(bufflen: nat, aligned: bool): (n: nat)
    ensures 24 <= n <= MAX_LENGTH + 1 && n % 8 == 0
    ensures var wanted := if bufflen < 32 then 32 else if bufflen > 65536 then 65536 else bufflen;
            wanted <= n + (if aligned then 0 else 8) < wanted + 8
  {
    var rounded := AlignInt8(if bufflen < 32 then 32 else if bufflen > MAX_LENGTH + 1 then MAX_LENGTH + 1 else bufflen);
    if aligned then rounded else rounded - 8
  }
}
