// What a reader delivers, record by record: the demultiplexing that the FastCGI protocol asks of an application.
module FcgiServe {
  import opened Basics
  import opened FcgiRecords
  import opened FcgiParams
  import opened FcgiDemux

  // The records a web server may send while a stream is read.
  predicate Own(who: Who, r: Record) {
    r.id == who.id && r.id != 0 && r.kind == who.kind && r.kind != BEGIN_REQUEST
  }

  predicate Foreign(who: Who, r: Record) {
    r.id != who.id && r.id != 0 && r.kind != BEGIN_REQUEST
  }

  predicate Begin(r: Record) {
    r.id != 0 && r.kind == BEGIN_REQUEST && |r.content| == 8
  }

  // A question for variables, which must be whole pairs, unless `skip` is set: then it is not read.
  predicate Values(skip: bool, r: Record) {
    r.id == 0 && r.kind == GET_VALUES && (skip || ReadPairs(r.content).1)
  }

  // A management record of another type.  The library does not read its content.
  predicate Management(r: Record) {
    r.id == 0 && r.kind != GET_VALUES && r.kind != BEGIN_REQUEST
  }

  predicate Expected(who: Who, skip: bool, r: Record) {
    Fine(r) && ((Own(who, r) && r.content != []) || Foreign(who, r) || Begin(r) || Values(skip, r) || Management(r))
  }

  // The flag `skip` behind a record.
  function SkipBehind(who: Who, skip: bool, r: Record): bool {
    if r.content != [] then false else skip || Foreign(who, r)
  }

  function DataOf(who: Who, skip: bool, r: Record): seq<Byte> {
    if (Own(who, r) || Management(r)) && !skip then r.content else []
  }

  function ReplyTo(who: Who, skip: bool, r: Record): seq<Byte>
    requires Fine(r)
  {
    if Begin(r) then Encode(EndRequest(r.id, 0, CANT_MPX_CONN))
    else if Values(skip, r) then ValuesResult(Answers(ReadPairs(if skip then [] else r.content).0))
    else if Management(r) then UnknownType(r.kind)
    else []
  }

  // A reader between two records.
  function Between(who: Who, skip: bool, raw: seq<Byte>, sent: seq<Byte>): View {
    Live(false, who, Cur(skip, 0, 0), raw, true, sent, 0)
  }

  lemma {:induction false} HeaderOf(r: Record, tail: seq<Byte>)
    requires Fine(r)
    ensures var h := MakeHeader(r.kind, r.id, |r.content|, |r.padding|);
            && Encode(r) + tail == h + (r.content + (r.padding + tail))
            && h[0] == VERSION_1 && h[1] == r.kind && Little(h[2], h[3]) == r.id
            && Little(h[4], h[5]) == |r.content| && h[6] == |r.padding|
  {}

  // A header has been read.
  lemma {:induction false} Headed(who: Who, skip: bool, h: seq<Byte>, rest: seq<Byte>, sent: seq<Byte>)
    requires |h| == HEADER_LEN
    ensures var p, v := Process(Between(who, skip, rest, sent), h), Between(who, skip, h + rest, sent);
            && (p.Halt? ==> Settle(v) == p.v)
            && (p.More? ==> Opened(p.v) && Settle(v) == Settle(p.v))
  {
    hide Process, Settle, AfterContent;
    var v := Between(who, skip, h + rest, sent);
    TopAfterContent(v);
    HeaderReached(v, h, rest);
    assert WithRaw(v, rest) == Between(who, skip, rest, sent);
  }

  // Content that is skipped, and padding.
  lemma {:induction false} Passed(who: Who, skip: bool, content: seq<Byte>, padding: seq<Byte>, tail: seq<Byte>, sent: seq<Byte>)
    requires content != [] ==> skip
    ensures Settle(Live(false, who, Cur(skip, |content|, |padding|), content + (padding + tail), true, sent, 0))
         == Settle(Between(who, skip && content == [], tail, sent))
  {
    hide AfterContent;
    var v := Live(false, who, Cur(skip, |content|, |padding|), content + (padding + tail), true, sent, 0);
    var u := Live(false, who, Cur(skip && content == [], 0, |padding|), padding + tail, true, sent, 0);
    if content != [] {
      SkipAll(v);
      assert v.raw[|content|..] == padding + tail;
      assert PastContent(v) == u;
    } else {
      assert v.raw == padding + tail;
      TopAfterContent(v);
    }
    PadSome(u, |padding|);
    assert u.raw[|padding|..] == tail;
    TopAfterContent(Between(who, skip && content == [], tail, sent));
  }

  lemma {:induction false} RestBySettle(v: View, w: View)
    requires Opened(v) && Opened(w) && Settle(v) == Settle(w)
    ensures Rest(v) == Rest(w)
  {
    hide Settle;
  }

  // The body of one record, with something behind its content.
  lemma {:induction false} BodyWhole(v: View, content: seq<Byte>, padding: seq<Byte>, tail: seq<Byte>)
    requires Opened(v) && v.eor && v.err == 0 && v.cur.content == |content| && v.cur.padding == |padding|
    requires v.raw == content + (padding + tail) && tail != []
    ensures RestEor(v) == (if v.cur.skip then [] else content,
                           v.(cur := Cur(v.cur.skip && content == [], 0, 0), raw := tail, open := false))
  {
    var u := v.(cur := Cur(v.cur.skip && content == [], 0, |padding|), raw := padding + tail);
    assert Tail(true, |padding|, padding + tail) == Shut(tail) by { assert (padding + tail)[|padding|..] == tail; }
    assert SettleEor(u) == CloseAt(u, tail) by { assert u.raw[0..] == u.raw; }
    if content == [] || v.cur.skip {
      assert v.raw[|content|..] == padding + tail;
      assert SettleEor(v) == CloseAt(u, tail);
    } else {
      assert v.raw[|content|..] == padding + tail && v.raw[..|content|] == content && content + [] == content;
      assert RestEor(u) == ([], CloseAt(u, tail));
    }
  }

  lemma {:induction false} ProcessValues(who: Who, skip: bool, r: Record, tail: seq<Byte>, sent: seq<Byte>)
    requires Fine(r) && Values(skip, r) && tail != []
    ensures var v := Between(who, skip, r.content + (r.padding + tail), sent);
            ProcessManagement(v, r.kind, |r.content|, |r.padding|)
              == More(Between(who, skip && r.content == [], tail, sent + ReplyTo(who, skip, r)))
  {
    hide RestEor, ReadPairs, ValuesResult;
    BodyWhole(BodyOf(Between(who, skip, r.content + (r.padding + tail), sent), |r.content|, |r.padding|),
              r.content, r.padding, tail);
    PairsOfNothing();
  }

  // Every record but one whose content is delivered only leads to the next.
  lemma {:induction false} ServeQuiet(who: Who, skip: bool, r: Record, tail: seq<Byte>, sent: seq<Byte>, cur: Cur, sent': seq<Byte>)
    requires Fine(r) && (r.content != [] ==> cur.skip) && cur == Cur(cur.skip, |r.content|, |r.padding|)
    requires Process(Between(who, skip, r.content + (r.padding + tail), sent), MakeHeader(r.kind, r.id, |r.content|, |r.padding|))
          == More(Live(false, who, cur, r.content + (r.padding + tail), true, sent', 0))
    ensures Rest(Between(who, skip, Encode(r) + tail, sent)) == Rest(Between(who, cur.skip && r.content == [], tail, sent'))
  {
    hide Rest, Settle, Encode, Process, MakeHeader;
    HeaderOf(r, tail);
    Headed(who, skip, MakeHeader(r.kind, r.id, |r.content|, |r.padding|), r.content + (r.padding + tail), sent);
    Passed(who, cur.skip, r.content, r.padding, tail, sent');
    RestBySettle(Between(who, skip, Encode(r) + tail, sent), Between(who, cur.skip && r.content == [], tail, sent'));
  }

  lemma {:induction false} ServeSkipped(who: Who, skip: bool, r: Record, tail: seq<Byte>, sent: seq<Byte>)
    requires Fine(r) && (Foreign(who, r) || (Own(who, r) && r.content != [] && skip))
    ensures Rest(Between(who, skip, Encode(r) + tail, sent)) == Rest(Between(who, SkipBehind(who, skip, r), tail, sent))
  {
    hide Rest, Encode, ProcessBegin, ProcessManagement, MakeHeader;
    HeaderOf(r, tail);
    ServeQuiet(who, skip, r, tail, sent, Cur(true, |r.content|, |r.padding|), sent);
  }

  lemma {:induction false} ServeBegin(who: Who, skip: bool, r: Record, tail: seq<Byte>, sent: seq<Byte>)
    requires Fine(r) && who.begun && Begin(r)
    ensures Rest(Between(who, skip, Encode(r) + tail, sent))
         == Rest(Between(who, SkipBehind(who, skip, r), tail, sent + ReplyTo(who, skip, r)))
  {
    hide Rest, Encode, ProcessManagement, MakeHeader;
    HeaderOf(r, tail);
    ServeQuiet(who, skip, r, tail, sent, Cur(true, |r.content|, |r.padding|), sent + ReplyTo(who, skip, r));
  }

  lemma {:induction false} ServeManagement(who: Who, skip: bool, r: Record, tail: seq<Byte>, sent: seq<Byte>)
    requires Fine(r) && Management(r) && (r.content == [] || skip)
    ensures Rest(Between(who, skip, Encode(r) + tail, sent))
         == Rest(Between(who, SkipBehind(who, skip, r), tail, sent + ReplyTo(who, skip, r)))
  {
    hide Rest, Encode, ProcessBegin, ProcessManagement, MakeHeader, ReplyTo;
    HeaderOf(r, tail);
    ProcessOther(Between(who, skip, r.content + (r.padding + tail), sent), r, tail);
    ServeQuiet(who, skip, r, tail, sent, Cur(skip, |r.content|, |r.padding|), sent + ReplyTo(who, skip, r));
  }

  // The content of a management record of another type is not read: where no content is to be skipped, it goes to the
  // client as if it were the stream's.
  lemma {:induction false} ManagementContent(who: Who, r: Record, tail: seq<Byte>, sent: seq<Byte>)
    requires Fine(r) && Management(r) && r.content != []
    ensures var next := Rest(Between(who, false, tail, sent + UnknownType(r.kind)));
            Rest(Between(who, false, Encode(r) + tail, sent)) == (r.content + next.0, next.1)
  {
    hide Rest, Settle, Encode, ProcessBegin, MakeHeader, UnknownType;
    HeaderOf(r, tail);
    Headed(who, false, MakeHeader(r.kind, r.id, |r.content|, |r.padding|), r.content + (r.padding + tail), sent);
    var sent' := sent + UnknownType(r.kind);
    var v := Live(false, who, Cur(false, |r.content|, |r.padding|), r.content + (r.padding + tail), true, sent', 0);
    RestBySettle(Between(who, false, Encode(r) + tail, sent), v);
    DeliverOwn(who, r, tail, sent');
  }

  lemma {:induction false} ServeValues(who: Who, skip: bool, r: Record, tail: seq<Byte>, sent: seq<Byte>)
    requires Fine(r) && Values(skip, r) && tail != []
    ensures Rest(Between(who, skip, Encode(r) + tail, sent))
         == Rest(Between(who, SkipBehind(who, skip, r), tail, sent + ReplyTo(who, skip, r)))
  {
    hide Rest, Encode, Settle, ProcessBegin, ProcessManagement, MakeHeader, ReplyTo, Values;
    HeaderOf(r, tail);
    Headed(who, skip, MakeHeader(r.kind, r.id, |r.content|, |r.padding|), r.content + (r.padding + tail), sent);
    ProcessValues(who, skip, r, tail, sent);
    ValuesKind(skip, r);
    RestBySettle(Between(who, skip, Encode(r) + tail, sent),
                 Between(who, skip && r.content == [], tail, sent + ReplyTo(who, skip, r)));
  }

  lemma ValuesKind(skip: bool, r: Record)
    requires Values(skip, r)
    ensures r.id == 0 && r.kind == GET_VALUES
  {}

  lemma {:induction false} ServeOwn(who: Who, r: Record, tail: seq<Byte>, sent: seq<Byte>)
    requires Fine(r) && Own(who, r) && r.content != []
    ensures var next := Rest(Between(who, false, tail, sent));
            Rest(Between(who, false, Encode(r) + tail, sent)) == (r.content + next.0, next.1)
  {
    hide Rest, Settle, Encode, ProcessBegin, ProcessManagement, MakeHeader;
    HeaderOf(r, tail);
    Headed(who, false, MakeHeader(r.kind, r.id, |r.content|, |r.padding|), r.content + (r.padding + tail), sent);
    var v := Live(false, who, Cur(false, |r.content|, |r.padding|), r.content + (r.padding + tail), true, sent, 0);
    RestBySettle(Between(who, false, Encode(r) + tail, sent), v);
    DeliverOwn(who, r, tail, sent);
  }

  // One record that is not the end of the stream.
  lemma {:induction false} ServeOne(who: Who, skip: bool, r: Record, tail: seq<Byte>, sent: seq<Byte>)
    requires who.begun && Expected(who, skip, r) && tail != []
    ensures var next := Rest(Between(who, SkipBehind(who, skip, r), tail, sent + ReplyTo(who, skip, r)));
            Rest(Between(who, skip, Encode(r) + tail, sent)) == (DataOf(who, skip, r) + next.0, next.1)
  {
    hide Rest, Encode, ReadPairs, ValuesResult, UnknownType;
    assert sent + [] == sent;
    Plus(Rest(Between(who, SkipBehind(who, skip, r), tail, sent + ReplyTo(who, skip, r))).0);
    if Begin(r) {
      ServeBegin(who, skip, r, tail, sent);
    } else if Values(skip, r) {
      ServeValues(who, skip, r, tail, sent);
    } else if Management(r) && !skip && r.content != [] {
      ManagementContent(who, r, tail, sent);
    } else if Management(r) {
      ServeManagement(who, skip, r, tail, sent);
    } else if Own(who, r) && !skip {
      ServeOwn(who, r, tail, sent);
    } else {
      ServeSkipped(who, skip, r, tail, sent);
    }
  }

  // --- Records that break the protocol ---

  // Not for a reader of this stream, in a sequence of records where `skip` is set or not.
  predicate Wrong(who: Who, skip: bool, r: Record) {
    || (r.kind == BEGIN_REQUEST && (r.id == 0 || |r.content| != 8))
    || (r.id == 0 && r.kind == GET_VALUES && !skip && !ReadPairs(r.content).1)
    || (r.id != 0 && r.kind != BEGIN_REQUEST && r.id == who.id && r.kind != who.kind)
  }

  // The end of the stream.
  predicate Ending(who: Who, r: Record) {
    Fine(r) && Own(who, r) && r.content == []
  }

  // A record is either wrong, or expected, or the end of the stream.
  lemma {:induction false} WrongOrExpected(who: Who, skip: bool, r: Record)
    requires Fine(r)
    ensures !Expected(who, skip, r) <==> Wrong(who, skip, r) || Ending(who, r)
    ensures !(Wrong(who, skip, r) && Ending(who, r))
  {
    hide ReadPairs;
  }

  // A wrong record ends the reading with an error, with nothing of it delivered.
  lemma {:induction false} WrongStops(who: Who, skip: bool, r: Record, tail: seq<Byte>, sent: seq<Byte>)
    requires who.begun && Fine(r) && Wrong(who, skip, r) && tail != []
    ensures var left := if r.kind == GET_VALUES && r.id == 0 then tail else r.content + (r.padding + tail);
            Rest(Between(who, skip, Encode(r) + tail, sent))
              == ([], Dead(if r.kind == GET_VALUES && r.id == 0 then PARAMS_ERROR else PROTOCOL_ERROR, who, left, sent))
  {
    hide Settle, Encode, ReadPairs, RestEor, MakeHeader;
    HeaderOf(r, tail);
    Headed(who, skip, MakeHeader(r.kind, r.id, |r.content|, |r.padding|), r.content + (r.padding + tail), sent);
    if r.kind == GET_VALUES && r.id == 0 {
      BodyWhole(BodyOf(Between(who, skip, r.content + (r.padding + tail), sent), |r.content|, |r.padding|),
                r.content, r.padding, tail);
    }
  }

  // --- What the replies say ---

  // The answer to a second BEGIN_REQUEST: that request ends at once, and cannot share the connection.
  lemma {:induction false} BeginReply(who: Who, skip: bool, r: Record) returns (e: Record)
    requires Fine(r) && Begin(r)
    ensures OnWire(ReplyTo(who, skip, r), e) && Ends(e, r.id, 0, 1)
  {
    e := EndRequest(r.id, 0, CANT_MPX_CONN);
    EndRequestEnds(r.id, 0, CANT_MPX_CONN);
    EncodeOnWire(e);
    hide Encode, EndRequest, OnWire, Ends;
  }

  // The answer to a management record of another type names that type.
  lemma {:induction false} UnknownReply(who: Who, skip: bool, r: Record)
    requires Fine(r) && Management(r)
    ensures var reply := ReplyTo(who, skip, r);
            |reply| == 16 && reply[..7] == [1, 11, 0, 0, 0, 8, 0] && reply[8..] == [r.kind, 0, 0, 0, 0, 0, 0, 0]
  {
    hide ReadPairs, ValuesResult;
  }

  lemma Plus(s: seq<Byte>)
    ensures [] + s == s
  {}

  lemma {:induction false} ProcessOther(u: View, r: Record, tail: seq<Byte>)
    requires Opened(u) && !u.eor && Fine(r) && Management(r)
    ensures ProcessManagement(u, r.kind, |r.content|, |r.padding|)
         == More(u.(cur := Cur(u.cur.skip, |r.content|, |r.padding|), sent := u.sent + ReplyTo(u.who, u.cur.skip, r)))
  {
    hide UnknownType;
  }

  lemma {:induction false} DeliverOwn(who: Who, r: Record, tail: seq<Byte>, sent: seq<Byte>)
    requires r.content != []
    ensures var v := Live(false, who, Cur(false, |r.content|, |r.padding|), r.content + (r.padding + tail), true, sent, 0);
            var next := Rest(Between(who, false, tail, sent));
            Rest(v) == (r.content + next.0, next.1)
  {
    hide Rest, Settle;
    var v := Live(false, who, Cur(false, |r.content|, |r.padding|), r.content + (r.padding + tail), true, sent, 0);
    RestSplit(v, |r.content|);
    var u := Drop(v, |r.content|);
    assert v.raw[..|r.content|] == r.content && v.raw[|r.content|..] == r.padding + tail;
    Passed(who, false, [], r.padding, tail, sent);
    assert u.raw == [] + (r.padding + tail);
    RestBySettle(u, Between(who, false, tail, sent));
  }

  // --- Whole streams ---

  // Every record is expected where it stands.
  predicate AllExpected(who: Who, rs: seq<Record>) {
    rs == [] ||
    (AllExpected(who, rs[..|rs| - 1]) && Expected(who, SkipAfter(who, rs[..|rs| - 1]), rs[|rs| - 1]))
  }

  function SkipAfter(who: Who, rs: seq<Record>): bool {
    if rs == [] then false else SkipBehind(who, SkipAfter(who, rs[..|rs| - 1]), rs[|rs| - 1])
  }

  function DataAll(who: Who, rs: seq<Record>): seq<Byte> {
    if rs == [] then [] else
      DataAll(who, rs[..|rs| - 1]) + DataOf(who, SkipAfter(who, rs[..|rs| - 1]), rs[|rs| - 1])
  }

  function ReplyAll(who: Who, rs: seq<Record>): seq<Byte>
    requires AllFine(rs)
  {
    if rs == [] then [] else
      ReplyAll(who, rs[..|rs| - 1]) + ReplyTo(who, SkipAfter(who, rs[..|rs| - 1]), rs[|rs| - 1])
  }

  // What the stream's records say, one after the other.
  function OwnPart(who: Who, r: Record): seq<Byte> {
    if Own(who, r) then r.content else []
  }

  function OwnContent(who: Who, rs: seq<Record>): seq<Byte> {
    if rs == [] then [] else OwnContent(who, rs[..|rs| - 1]) + OwnPart(who, rs[|rs| - 1])
  }

  lemma {:induction false} ServeAll(who: Who, rs: seq<Record>, tail: seq<Byte>, sent: seq<Byte>)
    requires who.begun && AllExpected(who, rs) && tail != []
    ensures AllFine(rs)
    ensures var next := Rest(Between(who, SkipAfter(who, rs), tail, sent + ReplyAll(who, rs)));
            Rest(Between(who, false, EncodeAll(rs) + tail, sent)) == (DataAll(who, rs) + next.0, next.1)
  {
    hide Rest, Encode, Expected, DataOf, ReplyTo, SkipBehind;
    ExpectedFine(who, rs);
    if rs == [] {
      assert EncodeAll(rs) + tail == tail && sent + [] == sent;
      Plus(Rest(Between(who, false, tail, sent)).0);
    } else {
      var n := |rs| - 1;
      var before, r := rs[..n], rs[n];
      var skip := SkipAfter(who, before);
      ServeAll(who, before, Encode(r) + tail, sent);
      ServeOne(who, skip, r, tail, sent + ReplyAll(who, before));
      EncodeLast(rs, tail);
      Associative(sent, ReplyAll(who, before), ReplyTo(who, skip, r));
      Associative(DataAll(who, before), DataOf(who, skip, r),
                  Rest(Between(who, SkipAfter(who, rs), tail, sent + ReplyAll(who, rs))).0);
    }
  }

  lemma {:induction false} ExpectedFine(who: Who, rs: seq<Record>)
    requires AllExpected(who, rs)
    ensures AllFine(rs)
  {
    if rs != [] {
      ExpectedFine(who, rs[..|rs| - 1]);
      forall i | 0 <= i < |rs| ensures Fine(rs[i]) {
        if i < |rs| - 1 {
          assert rs[i] == rs[..|rs| - 1][i];
        }
      }
    }
  }

  lemma {:induction false} EncodeLast(rs: seq<Record>, tail: seq<Byte>)
    requires AllFine(rs) && rs != []
    ensures EncodeAll(rs) + tail == EncodeAll(rs[..|rs| - 1]) + (Encode(rs[|rs| - 1]) + tail)
    ensures Encode(rs[|rs| - 1]) != []
  {
    var n := |rs| - 1;
    assert rs == rs[..n] + [rs[n]];
    EncodeCat(rs[..n], [rs[n]]);
    assert EncodeAll([rs[n]]) == Encode(rs[n]) + EncodeAll([rs[n]][1..]) && [rs[n]][1..] == [];
    assert Encode(rs[n]) + [] == Encode(rs[n]);
    Associative(EncodeAll(rs[..n]), Encode(rs[n]), tail);
  }

  lemma {:induction false} ServeEnd(who: Who, skip: bool, r: Record, tail: seq<Byte>, sent: seq<Byte>)
    requires Fine(r) && Own(who, r) && r.content == []
    ensures Rest(Between(who, skip, Encode(r) + tail, sent))
         == ([], Live(false, who, Cur(skip, 0, |r.padding|), r.padding + tail, false, sent, 0))
  {
    hide Settle, Encode, ProcessBegin, ProcessManagement, MakeHeader;
    HeaderOf(r, tail);
    Headed(who, skip, MakeHeader(r.kind, r.id, |r.content|, |r.padding|), r.content + (r.padding + tail), sent);
    assert r.content + (r.padding + tail) == r.padding + tail;
  }

  // Demultiplexing: between the records of its stream a reader passes over those of other requests, answers new requests
  // and management records, and ends at the empty record of its stream.
  lemma {:induction false} Demultiplexed(who: Who, rs: seq<Record>, end: Record, tail: seq<Byte>, sent: seq<Byte>)
    requires who.begun && AllExpected(who, rs) && Ending(who, end)
    ensures AllFine(rs)
    ensures Rest(Between(who, false, EncodeAll(rs) + (Encode(end) + tail), sent))
         == (DataAll(who, rs),
             Live(false, who, Cur(SkipAfter(who, rs), 0, |end.padding|), end.padding + tail, false, sent + ReplyAll(who, rs), 0))
  {
    hide Rest, Expected;
    ServeAll(who, rs, Encode(end) + tail, sent);
    ServeEnd(who, SkipAfter(who, rs), end, tail, sent + ReplyAll(who, rs));
    assert DataAll(who, rs) + [] == DataAll(who, rs);
  }

  // A record that breaks the protocol: all that came before it has been delivered.
  lemma {:induction false} StoppedAtWrong(who: Who, rs: seq<Record>, r: Record, tail: seq<Byte>, sent: seq<Byte>)
    requires who.begun && AllExpected(who, rs) && Fine(r) && Wrong(who, SkipAfter(who, rs), r) && tail != []
    ensures AllFine(rs)
    ensures var (data, end) := Rest(Between(who, false, EncodeAll(rs) + (Encode(r) + tail), sent));
            data == DataAll(who, rs) && end.Dead? && end.code in {PARAMS_ERROR, PROTOCOL_ERROR} && end.sent == sent + ReplyAll(who, rs)
  {
    hide Rest, Expected, Wrong;
    ServeAll(who, rs, Encode(r) + tail, sent);
    WrongStops(who, SkipAfter(who, rs), r, tail, sent + ReplyAll(who, rs));
    assert DataAll(who, rs) + [] == DataAll(who, rs);
  }

  // So of any sequence of records it is settled what a reader makes of it: all are expected, or the first that is not is
  // wrong or the end of the stream.
  lemma {:induction false} FirstUnexpected(who: Who, rs: seq<Record>)
    requires AllFine(rs)
    ensures AllExpected(who, rs) ||
            exists k :: 0 <= k < |rs| && AllExpected(who, rs[..k])
                     && (Wrong(who, SkipAfter(who, rs[..k]), rs[k]) || Ending(who, rs[k]))
  {
    hide Expected, Wrong, Ending;
    if rs != [] {
      var n := |rs| - 1;
      FirstUnexpected(who, rs[..n]);
      if AllExpected(who, rs[..n]) {
        WrongOrExpected(who, SkipAfter(who, rs[..n]), rs[n]);
      } else {
        var k :| 0 <= k < n && AllExpected(who, rs[..n][..k])
              && (Wrong(who, SkipAfter(who, rs[..n][..k]), rs[..n][k]) || Ending(who, rs[..n][k]));
        assert rs[..n][..k] == rs[..k];
      }
    }
  }

  // --- The swallowed records ---

  // An empty record of another request leaves `skip` set, and no content has taken it back.
  ghost predicate SkipLeft(who: Who, rs: seq<Record>, j: nat)
    requires j <= |rs|
  {
    exists i :: 0 <= i < j && Foreign(who, rs[i]) && forall k :: i <= k < j ==> rs[k].content == []
  }

  lemma {:induction false} SkipLeftAfter(who: Who, rs: seq<Record>, j: nat)
    requires j <= |rs|
    ensures SkipAfter(who, rs[..j]) <==> SkipLeft(who, rs, j)
  {
    if j > 0 {
      SkipLeftAfter(who, rs, j - 1);
      assert rs[..j][..j - 1] == rs[..j - 1];
      if Foreign(who, rs[j - 1]) && rs[j - 1].content == [] {
        assert SkipLeft(who, rs, j);
      }
      if SkipLeft(who, rs, j - 1) && rs[j - 1].content == [] {
        var i :| 0 <= i < j - 1 && Foreign(who, rs[i]) && forall k :: i <= k < j - 1 ==> rs[k].content == [];
        assert forall k :: i <= k < j ==> rs[k].content == [];
      }
      if SkipLeft(who, rs, j) {
        var i :| 0 <= i < j && Foreign(who, rs[i]) && forall k :: i <= k < j ==> rs[k].content == [];
        assert rs[j - 1].content == [];
        if i < j - 1 {
          assert SkipLeft(who, rs, j - 1);
        }
      }
    }
  }

  // No record of the stream is swallowed.
  ghost predicate NoneSwallowed(who: Who, rs: seq<Record>) {
    forall j :: 0 <= j < |rs| && Own(who, rs[j]) ==> !SkipLeft(who, rs, j)
  }

  lemma {:induction false} SkipLeftBefore(who: Who, rs: seq<Record>, j: nat)
    requires rs != [] && j < |rs|
    ensures SkipLeft(who, rs[..|rs| - 1], j) <==> SkipLeft(who, rs, j)
  {
    SkipLeftAfter(who, rs[..|rs| - 1], j);
    SkipLeftAfter(who, rs, j);
    assert rs[..|rs| - 1][..j] == rs[..j];
  }

  // No management record's content gets in between: where there is any, it is skipped.
  ghost predicate NoneIntrudes(who: Who, rs: seq<Record>) {
    forall j :: 0 <= j < |rs| && Management(rs[j]) && rs[j].content != [] ==> SkipLeft(who, rs, j)
  }

  // Record by record, the client gets what the stream's records say and nothing else.
  ghost predicate ServedAsSent(who: Who, rs: seq<Record>) {
    forall j :: 0 <= j < |rs| ==> DataOf(who, SkipLeft(who, rs, j), rs[j]) == OwnPart(who, rs[j])
  }

  lemma {:induction false} ServedLast(who: Who, rs: seq<Record>)
    requires rs != []
    ensures var before, r := rs[..|rs| - 1], rs[|rs| - 1];
            && (NoneSwallowed(who, rs) <==> NoneSwallowed(who, before) && !(Own(who, r) && SkipAfter(who, before)))
            && (NoneIntrudes(who, rs) <==>
                  NoneIntrudes(who, before) && !(Management(r) && r.content != [] && !SkipAfter(who, before)))
            && (ServedAsSent(who, rs) <==>
                  ServedAsSent(who, before) && DataOf(who, SkipAfter(who, before), r) == OwnPart(who, r))
  {
    hide SkipLeft, DataOf, OwnPart;
    var n := |rs| - 1;
    forall j: nat | j <= n ensures SkipLeft(who, rs[..n], j) <==> SkipLeft(who, rs, j) {
      SkipLeftBefore(who, rs, j);
    }
    SkipLeftAfter(who, rs, n);
  }

  // What comes out in bytes, as long as nothing is lost, or as long as nothing gets in.
  lemma {:induction false} ServedLength(who: Who, rs: seq<Record>)
    ensures NoneIntrudes(who, rs) ==> |DataAll(who, rs)| <= |OwnContent(who, rs)|
    ensures NoneSwallowed(who, rs) ==> |DataAll(who, rs)| >= |OwnContent(who, rs)|
  {
    if rs != [] {
      hide NoneSwallowed, NoneIntrudes, ServedAsSent;
      ServedLast(who, rs);
      ServedLength(who, rs[..|rs| - 1]);
    }
  }

  // The client gets exactly the stream's records if and only if none of them comes right behind an empty record of another
  // request, with no content in between, and every management record of another type with content does.
  lemma {:induction false} ServedExactly(who: Who, rs: seq<Record>)
    requires AllExpected(who, rs)
    ensures ServedAsSent(who, rs) <==> NoneSwallowed(who, rs) && NoneIntrudes(who, rs)
    ensures ServedAsSent(who, rs) ==> DataAll(who, rs) == OwnContent(who, rs)
  {
    if rs != [] {
      hide NoneSwallowed, NoneIntrudes, ServedAsSent;
      var n := |rs| - 1;
      ServedLast(who, rs);
      ServedExactly(who, rs[..n]);
    }
  }

  // The same in bytes: where no other content gets in, the content is the stream's exactly if none of its records is
  // swallowed, and where none is swallowed, exactly if nothing else gets in.
  lemma {:induction false} ServedBytes(who: Who, rs: seq<Record>)
    requires AllExpected(who, rs)
    ensures NoneIntrudes(who, rs) ==> (DataAll(who, rs) == OwnContent(who, rs) <==> NoneSwallowed(who, rs))
    ensures NoneSwallowed(who, rs) ==> (DataAll(who, rs) == OwnContent(who, rs) <==> NoneIntrudes(who, rs))
  {
    if rs != [] {
      hide NoneSwallowed, NoneIntrudes, ServedAsSent;
      var n := |rs| - 1;
      var before, r := rs[..n], rs[n];
      ServedLast(who, rs);
      ServedBytes(who, before);
      ServedLength(who, before);
      var x, y := DataOf(who, SkipAfter(who, before), r), OwnPart(who, r);
      if NoneIntrudes(who, rs) {
        SumsEqual(DataAll(who, before), x, OwnContent(who, before), y);
      }
      if NoneSwallowed(who, rs) {
        SumsEqual(OwnContent(who, before), y, DataAll(who, before), x);
      }
    }
  }

  lemma {:induction false} OneMore(who: Who, rs: seq<Record>, r: Record)
    ensures var skip, all := SkipAfter(who, rs), rs + [r];
            && (AllExpected(who, all) <==> AllExpected(who, rs) && Expected(who, skip, r))
            && SkipAfter(who, all) == SkipBehind(who, skip, r)
            && DataAll(who, all) == DataAll(who, rs) + DataOf(who, skip, r)
            && OwnContent(who, all) == OwnContent(who, rs) + OwnPart(who, r)
  {
    assert (rs + [r])[..|rs|] == rs;
  }

  lemma ThreeRecords(who: Who, foreign: Record, own: Record, odd: Record)
    requires Fine(foreign) && Foreign(who, foreign) && foreign.content == []
    requires Fine(own) && Own(who, own) && own.content != []
    requires Fine(odd) && Management(odd) && odd.content != []
    ensures AllExpected(who, []) && !SkipAfter(who, []) && DataAll(who, []) == [] && OwnContent(who, []) == []
    ensures Expected(who, false, foreign) && SkipBehind(who, false, foreign)
    ensures DataOf(who, false, foreign) == [] && OwnPart(who, foreign) == []
    ensures Expected(who, true, own) && !SkipBehind(who, true, own) && DataOf(who, true, own) == [] && OwnPart(who, own) == own.content
    ensures Expected(who, false, odd) && DataOf(who, false, odd) == odd.content && OwnPart(who, odd) == []
  {}

  lemma {:induction false} SwallowedPair(who: Who, foreign: Record, own: Record)
    requires Fine(foreign) && Foreign(who, foreign) && foreign.content == []
    requires Fine(own) && Own(who, own) && own.content != []
    ensures var rs := [foreign] + [own];
            && AllExpected(who, rs) && !SkipAfter(who, rs) && DataAll(who, rs) == [] && OwnContent(who, rs) == own.content
            && !ServedAsSent(who, rs)
  {
    ThreeRecords(who, foreign, own, Record(UNKNOWN_TYPE, 0, [0], []));
    var none: seq<Record> := [];
    OneMore(who, none, foreign);
    OneMore(who, [foreign], own);
    ServedLast(who, [foreign] + [own]);
    hide AllExpected, DataAll, OwnContent, SkipAfter, ServedAsSent, Expected, DataOf, OwnPart, SkipBehind, Own, Foreign;
    assert none + [foreign] == [foreign] && ([foreign] + [own])[..1] == [foreign];
    assert [] + own.content == own.content;
  }

  // An empty record of another request, and behind it one of the stream: it is lost.
  lemma {:induction false} SwallowExample(who: Who, other: nat, c: seq<Byte>)
    requires 0 < who.id < 0x10000 && who.kind != BEGIN_REQUEST && 0 < other < 0x10000 && other != who.id
    requires 0 < |c| <= MAX_LENGTH
    ensures var rs := [Record(who.kind, other, [], [])] + [Record(who.kind, who.id, c, [])];
            AllExpected(who, rs) && OwnContent(who, rs) == c && DataAll(who, rs) == []
  {
    hide AllExpected, DataAll, OwnContent, SkipAfter, ServedAsSent;
    SwallowedPair(who, Record(who.kind, other, [], []), Record(who.kind, who.id, c, []));
  }

  // The content of a management record may take its place, so that the right bytes come out of the wrong records.
  lemma {:induction false} CoincidenceExample(who: Who, other: nat, c: seq<Byte>)
    requires 0 < who.id < 0x10000 && who.kind != BEGIN_REQUEST && 0 < other < 0x10000 && other != who.id
    requires 0 < |c| <= MAX_LENGTH
    ensures var rs := [Record(who.kind, other, [], [])] + [Record(who.kind, who.id, c, [])] + [Record(UNKNOWN_TYPE, 0, c, [])];
            AllExpected(who, rs) && OwnContent(who, rs) == DataAll(who, rs) == c && !ServedAsSent(who, rs)
  {
    hide AllExpected, DataAll, OwnContent, SkipAfter, ServedAsSent;
    var foreign, own, odd := Record(who.kind, other, [], []), Record(who.kind, who.id, c, []), Record(UNKNOWN_TYPE, 0, c, []);
    ThreeRecords(who, foreign, own, odd);
    SwallowedPair(who, foreign, own);
    CoincidenceOf(who, [foreign] + [own], odd);
  }

  lemma {:induction false} CoincidenceOf(who: Who, two: seq<Record>, odd: Record)
    requires AllExpected(who, two) && !SkipAfter(who, two) && DataAll(who, two) == [] && OwnContent(who, two) == odd.content
    requires !ServedAsSent(who, two)
    requires Expected(who, false, odd) && DataOf(who, false, odd) == odd.content && OwnPart(who, odd) == []
    ensures var rs := two + [odd];
            AllExpected(who, rs) && OwnContent(who, rs) == DataAll(who, rs) == odd.content && !ServedAsSent(who, rs)
  {
    OneMore(who, two, odd);
    ServedLast(who, two + [odd]);
    hide *;
    assert (two + [odd])[..|two + [odd]| - 1] == two;
    assert [] + odd.content == odd.content && odd.content + [] == odd.content;
  }

  lemma SumsEqual(a: seq<Byte>, x: seq<Byte>, b: seq<Byte>, y: seq<Byte>)
    requires |a| <= |b| && |x| <= |y|
    ensures a + x == b + y <==> a == b && x == y
  {
    if a + x == b + y {
      assert |a| == |b|;
      assert a == (a + x)[..|a|] == (b + y)[..|b|] == b;
      assert x == (a + x)[|a|..] == (b + y)[|b|..] == y;
    }
  }
}
