// A whole request on a connection, as FCGX_Accept_r and its caller read it: from BEGIN_REQUEST over the PARAMS stream to
// the standard input, with padding, and with a connection that ends early.
module FcgiRequests {
  import opened Basics
  import opened FcgiRecords
  import opened FcgiParams
  import opened FcgiDemux
  import opened FcgiServe
  import opened FcgiInput

  // A request as the record that begins it describes it (section 5.1 of the FastCGI Specification 1.0): the lowest bit of
  // the flags asks to keep the connection, and five bytes are reserved.
  datatype Ask = Ask(id: nat, role: nat, flags: Byte, reserved: seq<Byte>)

  predicate Numbered(ask: Ask) {
    0 < ask.id < 0x10000 && ask.role < 0x10000 && |ask.reserved| == 5
  }

  predicate Proper(ask: Ask) {
    Numbered(ask) && 1 <= ask.role <= 3
  }

  // The reader of one of its streams.
  function Reading(ask: Ask, kind: Byte): Who {
    Who(kind, ask.id, true, ask.role, ask.flags % 2 == 1)
  }

  // The record that begins it.
  function Opening(ask: Ask, padding: seq<Byte>): Record
    requires Numbered(ask)
  {
    Record(BEGIN_REQUEST, ask.id, [ask.role / 256, ask.role % 256, ask.flags] + ask.reserved, padding)
  }

  // The first string of the environment, byte by byte: FCGI_ROLE= and RESPONDER, AUTHORIZER or FILTER.
  function RoleText(role: nat): seq<Byte>
    requires 1 <= role <= 3
  {
    [70, 67, 71, 73, 95, 82, 79, 76, 69, 61] +
    (if role == 1 then [82, 69, 83, 80, 79, 78, 68, 69, 82]
     else if role == 2 then [65, 85, 84, 72, 79, 82, 73, 90, 69, 82]
     else [70, 73, 76, 84, 69, 82])
  }

  lemma ResponderText()
    ensures Ascii("FCGI_ROLE=RESPONDER") == RoleText(1)
  {}

  lemma AuthorizerText()
    ensures Ascii("FCGI_ROLE=AUTHORIZER") == RoleText(2)
  {}

  lemma FilterText()
    ensures Ascii("FCGI_ROLE=FILTER") == RoleText(3)
  {}

  lemma {:induction false} RoleSays(role: nat)
    ensures RoleEntry(role) == if 1 <= role <= 3 then Some(RoleText(role)) else None
  {
    hide Ascii, RoleText;
    ResponderText();
    AuthorizerText();
    FilterText();
  }

  // A new request: the reader is left at the padding of the record that begins it.
  lemma {:induction false} Begun(who: Who, ask: Ask, padding: seq<Byte>, tail: seq<Byte>, sent: seq<Byte>)
    requires !who.begun && Numbered(ask) && |padding| < 256
    ensures Settle(Between(who, false, Encode(Opening(ask, padding)) + tail, sent))
         == Live(false, Reading(ask, who.kind), Cur(false, 0, |padding|), padding + tail, true, sent, 0)
  {
    hide Settle, Encode, ProcessManagement, MakeHeader;
    var r := Opening(ask, padding);
    HeaderOf(r, tail);
    Headed(who, false, MakeHeader(r.kind, r.id, |r.content|, |r.padding|), r.content + (r.padding + tail), sent);
    var raw := r.content + (padding + tail);
    assert raw[8..] == padding + tail;
    assert raw[0] == ask.role / 256 && raw[1] == ask.role % 256 && raw[2] == ask.flags;
  }

  // So a request is accepted with whatever the bytes behind its first record, padding included, say as PARAMS records.
  lemma {:induction false} AcceptBehind(who: Who, ask: Ask, padding: seq<Byte>, tail: seq<Byte>, sent: seq<Byte>)
    requires !who.begun && Proper(ask) && |padding| < 256
    ensures var (data, end) := Rest(Between(Reading(ask, PARAMS), false, padding + tail, sent));
            Accept(Between(who, false, Encode(Opening(ask, padding)) + tail, sent))
              == if ReadPairs(data).1 then Some(([RoleText(ask.role)] + ReadPairs(data).0, Retyped(end, STDIN))) else None
  {
    hide Settle, Rest, Encode, ReadPairs, RoleEntry, RoleText;
    Begun(who, ask, padding, tail, sent);
    RoleSays(ask.role);
  }

  // A request with any other role is not accepted.
  lemma {:induction false} OtherRole(who: Who, ask: Ask, padding: seq<Byte>, tail: seq<Byte>, sent: seq<Byte>)
    requires !who.begun && Numbered(ask) && !(1 <= ask.role <= 3) && |padding| < 256
    ensures Accept(Between(who, false, Encode(Opening(ask, padding)) + tail, sent)) == None
  {
    hide Settle, Rest, Encode, ReadPairs, RoleEntry;
    Begun(who, ask, padding, tail, sent);
    RoleSays(ask.role);
  }

  // Padding of the record that begins a request is not skipped: it is read as if it came behind that record.
  lemma {:induction false} PaddingRead(who: Who, ask: Ask, padding: seq<Byte>, tail: seq<Byte>, sent: seq<Byte>)
    requires !who.begun && Proper(ask) && |padding| < 256
    ensures Accept(Between(who, false, Encode(Opening(ask, padding)) + tail, sent))
         == Accept(Between(who, false, Encode(Opening(ask, [])) + (padding + tail), sent))
  {
    hide Rest, Encode, ReadPairs, Accept;
    AcceptBehind(who, ask, padding, tail, sent);
    AcceptBehind(who, ask, [], padding + tail, sent);
    assert [] + (padding + tail) == padding + tail;
  }

  // --- Requests that arrive whole ---

  // The PARAMS stream of a request: its pairs in records, among others that the reader passes over, and no record of it
  // lost and none put in.
  ghost predicate Sends(w: Who, rs: seq<Record>, ps: seq<Pair>) {
    && (forall i :: 0 <= i < |ps| ==> Lengths(ps[i]))
    && AllExpected(w, rs) && OwnContent(w, rs) == EncodePairs(ps)
    && NoneSwallowed(w, rs) && NoneIntrudes(w, rs)
  }

  // A request is accepted with its role and exactly the pairs of its PARAMS stream, whatever other records come between;
  // its standard input is read from behind the header of the last record, any padding included.
  lemma {:induction false} RequestRead(who: Who, ask: Ask, ps: seq<Pair>, rs: seq<Record>, padding: seq<Byte>,
                                       tail: seq<Byte>, sent: seq<Byte>)
    requires !who.begun && Proper(ask) && |padding| < 256 && Sends(Reading(ask, PARAMS), rs, ps)
    ensures AllFine(rs)
    ensures var w := Reading(ask, PARAMS);
            var input := EncodeAll(rs) + (Encode(Record(PARAMS, ask.id, [], padding)) + tail);
            Accept(Between(who, false, Encode(Opening(ask, [])) + input, sent))
              == Some(([RoleText(ask.role)] + Entries(ps),
                       Between(Reading(ask, STDIN), false, padding + tail, sent + ReplyAll(w, rs))))
  {
    hide Settle, Rest, Encode, Expected, NoneSwallowed, NoneIntrudes, DataAll, ReadPairs, EncodePairs, Lengths, Accept;
    var w, end := Reading(ask, PARAMS), Record(PARAMS, ask.id, [], padding);
    Demultiplexed(w, rs, end, tail, sent);
    var input := EncodeAll(rs) + (Encode(end) + tail);
    AcceptBehind(who, ask, [], input, sent);
    assert [] + input == input;
    ServedExactly(w, rs);
    PairsBack(ps, []);
    PairsOfNothing();
    assert EncodePairs(ps) + [] == EncodePairs(ps) && Entries(ps) + [] == Entries(ps);
  }

  // From the first byte of a connection to the last of the standard input: the environment is the pairs, and any run of
  // reads returns consecutive slices of the standard input, each as long as asked for until it ends.
  lemma {:induction false} RequestServed(who: Who, ask: Ask, ps: seq<Pair>, rs: seq<Record>, body: seq<Record>,
                                         end: Record, tail: seq<Byte>, sent: seq<Byte>, ns: seq<nat>)
    requires !who.begun && Proper(ask) && Sends(Reading(ask, PARAMS), rs, ps)
    requires var s := Reading(ask, STDIN);
             && AllExpected(s, body) && NoneSwallowed(s, body) && NoneIntrudes(s, body)
             && Ending(s, end)
    ensures AllFine(rs) && AllFine(body)
    ensures var input := EncodeAll(rs) + (Encode(Record(PARAMS, ask.id, [], [])) + (EncodeAll(body) + (Encode(end) + tail)));
            var accepted := Accept(Between(who, false, Encode(Opening(ask, [])) + input, sent));
            && accepted.Some? && accepted.value.0 == [RoleText(ask.role)] + Entries(ps)
            && var (pieces, v) := ReadMany(accepted.value.1, ns);
               && Joined(pieces) <= OwnContent(Reading(ask, STDIN), body)
               && (forall i :: 0 <= i < |ns| ==> |pieces[i]| <= ns[i])
               && (forall i :: 0 <= i < |ns| && |pieces[i]| < ns[i] ==>
                     Joined(pieces) == OwnContent(Reading(ask, STDIN), body) && v.Live? && !v.open)
  {
    hide Rest, Encode, Expected, NoneSwallowed, NoneIntrudes, DataAll, Accept, ReadMany, Joined, Sends;
    var w, s := Reading(ask, PARAMS), Reading(ask, STDIN);
    ExpectedFine(s, body);
    var stdin := EncodeAll(body) + (Encode(end) + tail);
    RequestRead(who, ask, ps, rs, [], stdin, sent);
    assert [] + stdin == stdin;
    Demultiplexed(s, body, end, tail, sent + ReplyAll(w, rs));
    ServedExactly(s, body);
    Slices(Between(s, false, stdin, sent + ReplyAll(w, rs)), ns);
  }

  // --- Padding ---

  // Bytes that do not begin with the version of the protocol end the reading, unless there are none.
  lemma {:induction false} NoHeader(who: Who, raw: seq<Byte>, sent: seq<Byte>)
    requires raw != [] && raw[0] != VERSION_1
    ensures Rest(Between(who, false, raw, sent))
         == ([], if |raw| < HEADER_LEN then Dead(PROTOCOL_ERROR, who, [], sent)
                 else Dead(UNSUPPORTED_VERSION, who, raw[HEADER_LEN..], sent))
  {
    if |raw| < HEADER_LEN {
      CutHeader(who, false, raw, sent);
    } else {
      hide Settle;
      assert raw == raw[..HEADER_LEN] + raw[HEADER_LEN..];
      Headed(who, false, raw[..HEADER_LEN], raw[HEADER_LEN..], sent);
      RestSettled(Between(who, false, raw, sent));
    }
  }

  // Padding of the record that begins a request is taken for the next header: unless it looks like one, the request is
  // accepted without any of its pairs, and its standard input keeps the error.
  lemma {:induction false} PaddedBegin(who: Who, ask: Ask, padding: seq<Byte>, tail: seq<Byte>, sent: seq<Byte>)
    requires !who.begun && Proper(ask) && 0 < |padding| < 256 && padding[0] != VERSION_1
    ensures var raw := padding + tail;
            var (code, rest) := if |raw| < HEADER_LEN then (PROTOCOL_ERROR, []) else (UNSUPPORTED_VERSION, raw[HEADER_LEN..]);
            Accept(Between(who, false, Encode(Opening(ask, padding)) + tail, sent))
              == Some(([RoleText(ask.role)], Live(false, Reading(ask, STDIN), Cur(false, 0, 0), rest, true, sent, code)))
  {
    hide Rest, Encode, Accept;
    AcceptBehind(who, ask, padding, tail, sent);
    NoHeader(Reading(ask, PARAMS), padding + tail, sent);
    PairsOfNothing();
    assert [RoleText(ask.role)] + [] == [RoleText(ask.role)];
  }

  // So with padding that does not begin like a header, a request is read right exactly if there is no padding: behind the
  // record that begins it, ...
  lemma {:induction false} BeginPadding(who: Who, ask: Ask, ps: seq<Pair>, rs: seq<Record>, padding: seq<Byte>,
                                        tail: seq<Byte>, sent: seq<Byte>)
    requires !who.begun && Proper(ask) && Sends(Reading(ask, PARAMS), rs, ps) && AllFine(rs)
    requires |padding| < 256 && (padding == [] || padding[0] != VERSION_1)
    ensures var input := EncodeAll(rs) + (Encode(Record(PARAMS, ask.id, [], [])) + tail);
            var accepted := Accept(Between(who, false, Encode(Opening(ask, padding)) + input, sent));
            && accepted.Some? && accepted.value.1.Live? && accepted.value.1.open
            && (accepted.value.1.err == 0 <==> padding == [])
            && (accepted.value.0 == [RoleText(ask.role)] + Entries(ps) <==> padding == [] || ps == [])
  {
    hide Encode, Accept, Sends;
    var input := EncodeAll(rs) + (Encode(Record(PARAMS, ask.id, [], [])) + tail);
    if padding == [] {
      RequestRead(who, ask, ps, rs, [], tail, sent);
    } else {
      PaddedBegin(who, ask, padding, input, sent);
    }
  }

  // ... and behind the last record of its PARAMS stream, where what is lost is its standard input.
  lemma {:induction false} ParamsPadding(who: Who, ask: Ask, ps: seq<Pair>, rs: seq<Record>, padding: seq<Byte>,
                                         body: seq<Record>, end: Record, tail: seq<Byte>, sent: seq<Byte>)
    requires !who.begun && Proper(ask) && Sends(Reading(ask, PARAMS), rs, ps) && AllFine(rs)
    requires AllExpected(Reading(ask, STDIN), body) && Ending(Reading(ask, STDIN), end)
    requires |padding| < 256 && (padding == [] || padding[0] != VERSION_1) && AllFine(body)
    ensures var stdin := EncodeAll(body) + (Encode(end) + tail);
            var input := EncodeAll(rs) + (Encode(Record(PARAMS, ask.id, [], padding)) + stdin);
            var accepted := Accept(Between(who, false, Encode(Opening(ask, [])) + input, sent));
            && accepted.Some? && accepted.value.0 == [RoleText(ask.role)] + Entries(ps)
            && var (data, v) := Rest(accepted.value.1);
               && (v.Live? <==> padding == [])
               && data == if padding == [] then DataAll(Reading(ask, STDIN), body) else []
  {
    hide Rest, Encode, Expected, Accept, Sends, DataAll;
    var s, w := Reading(ask, STDIN), Reading(ask, PARAMS);
    var stdin := EncodeAll(body) + (Encode(end) + tail);
    RequestRead(who, ask, ps, rs, padding, stdin, sent);
    if padding == [] {
      assert [] + stdin == stdin;
      Demultiplexed(s, body, end, tail, sent + ReplyAll(w, rs));
    } else {
      NoHeader(s, padding + stdin, sent + ReplyAll(w, rs));
    }
  }

  // Padding that happens to be records is read as these records, ...
  lemma {:induction false} RecordsAsPadding(who: Who, ask: Ask, ps: seq<Pair>, extra: seq<Record>, rs: seq<Record>,
                                            tail: seq<Byte>, sent: seq<Byte>)
    requires !who.begun && Proper(ask) && AllFine(extra) && AllFine(rs) && |EncodeAll(extra)| < 256
    requires Sends(Reading(ask, PARAMS), extra + rs, ps)
    ensures var input := EncodeAll(rs) + (Encode(Record(PARAMS, ask.id, [], [])) + tail);
            Accept(Between(who, false, Encode(Opening(ask, EncodeAll(extra))) + input, sent))
              == Some(([RoleText(ask.role)] + Entries(ps),
                       Between(Reading(ask, STDIN), false, tail, sent + ReplyAll(Reading(ask, PARAMS), extra + rs))))
  {
    hide Encode, Accept, Sends, ReplyAll;
    EncodeCat(extra, rs);
    var end := Encode(Record(PARAMS, ask.id, [], [])) + tail;
    PaddingRead(who, ask, EncodeAll(extra), EncodeAll(rs) + end, sent);
    RequestRead(who, ask, ps, extra + rs, [], tail, sent);
    Associative(EncodeAll(extra), EncodeAll(rs), end);
    assert [] + tail == tail;
  }

  // Records that say nothing to a stream, and do not make its reader skip anything.
  ghost predicate Quiet(w: Who, rs: seq<Record>) {
    && AllExpected(w, rs) && !SkipAfter(w, rs)
    && forall i :: 0 <= i < |rs| ==> !Own(w, rs[i]) && (Management(rs[i]) ==> rs[i].content == [])
  }

  lemma {:induction false} QuietContent(w: Who, rs: seq<Record>)
    requires forall i :: 0 <= i < |rs| ==> !Own(w, rs[i])
    ensures OwnContent(w, rs) == []
  {
    if rs != [] {
      QuietContent(w, rs[..|rs| - 1]);
    }
  }

  // What holds of b for the reader of a stream holds of a.
  ghost predicate Alike(w: Who, a: seq<Record>, b: seq<Record>) {
    && SkipAfter(w, a) == SkipAfter(w, b) && OwnContent(w, a) == OwnContent(w, b)
    && (AllExpected(w, b) ==> AllExpected(w, a))
    && (NoneSwallowed(w, b) ==> NoneSwallowed(w, a)) && (NoneIntrudes(w, b) ==> NoneIntrudes(w, a))
  }

  lemma {:induction false} AlikeMore(w: Who, a: seq<Record>, b: seq<Record>, r: Record)
    requires Alike(w, a, b)
    ensures Alike(w, a + [r], b + [r])
  {
    hide AllExpected, SkipAfter, OwnContent, NoneSwallowed, NoneIntrudes, ServedAsSent, Expected, OwnPart, SkipBehind, Own, DataOf, DataAll;
    OneMore(w, a, r);
    OneMore(w, b, r);
    LastOf(a, r);
    LastOf(b, r);
    ServedLast(w, a + [r]);
    ServedLast(w, b + [r]);
  }

  lemma LastOf(rs: seq<Record>, r: Record)
    ensures (rs + [r])[..|rs + [r]| - 1] == rs && (rs + [r])[|rs + [r]| - 1] == r
  {}

  lemma {:induction false} QuietAlike(w: Who, rs: seq<Record>)
    requires Quiet(w, rs)
    ensures Alike(w, rs, [])
  {
    QuietContent(w, rs);
    assert NoneSwallowed(w, rs) && NoneIntrudes(w, rs) by { hide SkipLeft, AllExpected, SkipAfter; }
  }

  lemma {:induction false} BehindQuiet(w: Who, extra: seq<Record>, rs: seq<Record>)
    requires Quiet(w, extra)
    ensures Alike(w, extra + rs, rs)
  {
    hide Alike, Quiet;
    if rs == [] {
      assert extra + rs == extra;
      QuietAlike(w, extra);
    } else {
      var before, r := rs[..|rs| - 1], rs[|rs| - 1];
      BehindQuiet(w, extra, before);
      AlikeMore(w, extra + before, before, r);
      assert before + [r] == rs && extra + before + [r] == extra + rs;
    }
  }

  // ... and does no harm if they say nothing to the stream.
  lemma {:induction false} QuietPadding(who: Who, ask: Ask, ps: seq<Pair>, extra: seq<Record>, rs: seq<Record>,
                                        tail: seq<Byte>, sent: seq<Byte>)
    requires !who.begun && Proper(ask) && AllFine(extra) && AllFine(rs) && |EncodeAll(extra)| < 256
    requires Quiet(Reading(ask, PARAMS), extra) && Sends(Reading(ask, PARAMS), rs, ps)
    ensures var input := EncodeAll(rs) + (Encode(Record(PARAMS, ask.id, [], [])) + tail);
            var accepted := Accept(Between(who, false, Encode(Opening(ask, EncodeAll(extra))) + input, sent));
            && accepted.Some? && accepted.value.0 == [RoleText(ask.role)] + Entries(ps)
            && accepted.value.1 == Between(Reading(ask, STDIN), false, tail, accepted.value.1.sent)
  {
    hide Encode, Accept, NoneSwallowed, NoneIntrudes, Quiet, EncodePairs, Lengths;
    BehindQuiet(Reading(ask, PARAMS), extra, rs);
    RecordsAsPadding(who, ask, ps, extra, rs, tail, sent);
  }

  // --- A connection that ends inside a request ---

  lemma {:induction false} ArrivedPrefix(who: Who, rs: seq<Record>, n: nat)
    requires AllFine(rs)
    ensures Arrived(who, rs, n) <= DataAll(who, rs)
  {
    if rs != [] {
      hide DataOf;
      var before := rs[..|rs| - 1];
      ArrivedPrefix(who, before, n);
      if n > |EncodeAll(before)| {
        ArrivedAll(who, before, n);
      } else {
        ArrivedBefore(who, rs, n);
      }
    }
  }

  // A connection that ends before the end of the PARAMS stream: the request is accepted exactly if the content that has
  // arrived ends between two pairs.  It then has the pairs so far, and a standard input that is empty and has failed.
  lemma {:induction false} RequestCut(who: Who, ask: Ask, ps: seq<Pair>, rs: seq<Record>, padding: seq<Byte>,
                                      tail: seq<Byte>, sent: seq<Byte>, got: seq<Byte>, m: seq<Byte>)
    requires !who.begun && Proper(ask) && |padding| < 256 && Sends(Reading(ask, PARAMS), rs, ps) && AllFine(rs)
    requires got + m == EncodeAll(rs) + (Encode(Record(PARAMS, ask.id, [], padding)) + tail)
    requires |got| < |EncodeAll(rs)| + HEADER_LEN
    ensures var arrived := Arrived(Reading(ask, PARAMS), rs, |got|);
            var accepted := Accept(Between(who, false, Encode(Opening(ask, [])) + got, sent));
            && (accepted.Some? <==> exists j :: 0 <= j <= |ps| && arrived == EncodePairs(ps[..j]))
            && forall j :: 0 <= j <= |ps| && arrived == EncodePairs(ps[..j]) ==>
                 && accepted.Some? && accepted.value.0 == [RoleText(ask.role)] + Entries(ps[..j])
                 && accepted.value.1 == Live(false, Reading(ask, STDIN), Cur(false, 0, 0), [], true, accepted.value.1.sent, PROTOCOL_ERROR)
                 && Rest(accepted.value.1).0 == [] && Rest(accepted.value.1).1.Dead?
  {
    hide Rest, Encode, Expected, NoneSwallowed, NoneIntrudes, DataAll, ReadPairs, EncodePairs, Lengths, Accept, Arrived;
    var w := Reading(ask, PARAMS);
    NoEarlyEnd(w, rs, Record(PARAMS, ask.id, [], padding), tail, sent, got, m);
    AcceptBehind(who, ask, [], got, sent);
    assert [] + got == got;
    ServedExactly(w, rs);
    ArrivedPrefix(w, rs, |got|);
    PairsBegun(ps, Arrived(w, rs, |got|));
    var accepted := Accept(Between(who, false, Encode(Opening(ask, [])) + got, sent));
    if accepted.Some? {
      DryDead(accepted.value.1);
    }
  }

  // A record that breaks the protocol inside the PARAMS stream is not told from the stream's end, either.
  lemma {:induction false} RequestBroken(who: Who, ask: Ask, ps: seq<Pair>, rs: seq<Record>, r: Record,
                                         tail: seq<Byte>, sent: seq<Byte>)
    requires !who.begun && Proper(ask) && forall i :: 0 <= i < |ps| ==> Lengths(ps[i])
    requires var w := Reading(ask, PARAMS);
             && AllExpected(w, rs) && NoneSwallowed(w, rs) && NoneIntrudes(w, rs)
             && OwnContent(w, rs) <= EncodePairs(ps)
             && Fine(r) && Wrong(w, SkipAfter(w, rs), r) && tail != []
    ensures AllFine(rs)
    ensures var arrived := OwnContent(Reading(ask, PARAMS), rs);
            var accepted := Accept(Between(who, false, Encode(Opening(ask, [])) + (EncodeAll(rs) + (Encode(r) + tail)), sent));
            && (accepted.Some? <==> exists j :: 0 <= j <= |ps| && arrived == EncodePairs(ps[..j]))
            && forall j :: 0 <= j <= |ps| && arrived == EncodePairs(ps[..j]) ==>
                 && accepted.Some? && accepted.value.0 == [RoleText(ask.role)] + Entries(ps[..j])
                 && accepted.value.1.Live? && accepted.value.1.err in {PARAMS_ERROR, PROTOCOL_ERROR}
  {
    hide Rest, Encode, Expected, NoneSwallowed, NoneIntrudes, DataAll, ReadPairs, EncodePairs, Lengths, Accept, Wrong;
    var w := Reading(ask, PARAMS);
    StoppedAtWrong(w, rs, r, tail, sent);
    var input := EncodeAll(rs) + (Encode(r) + tail);
    AcceptBehind(who, ask, [], input, sent);
    assert [] + input == input;
    ServedExactly(w, rs);
    PairsBegun(ps, OwnContent(w, rs));
  }

  // The shortest such request: a connection that ends right behind BEGIN_REQUEST.
  lemma {:induction false} NothingBehindBegin(who: Who, ask: Ask, sent: seq<Byte>)
    requires !who.begun && Proper(ask)
    ensures Accept(Between(who, false, Encode(Opening(ask, [])), sent))
         == Some(([RoleText(ask.role)], Live(false, Reading(ask, STDIN), Cur(false, 0, 0), [], true, sent, PROTOCOL_ERROR)))
  {
    hide Rest, Encode, Accept;
    var none: seq<Byte> := [];
    AcceptBehind(who, ask, none, none, sent);
    assert Encode(Opening(ask, [])) + none == Encode(Opening(ask, [])) && none + none == none;
    CutHeader(Reading(ask, PARAMS), false, [], sent);
    PairsOfNothing();
    assert [RoleText(ask.role)] + [] == [RoleText(ask.role)];
  }

  // A connection that ends inside BEGIN_REQUEST is dropped.
  lemma {:induction false} BeginCut(who: Who, ask: Ask, k: nat, sent: seq<Byte>)
    requires !who.begun && Proper(ask) && k < |Encode(Opening(ask, []))|
    ensures Accept(Between(who, false, Encode(Opening(ask, []))[..k], sent)) == None
  {
    var r := Opening(ask, []);
    var s, h := Encode(r)[..k], MakeHeader(r.kind, r.id, |r.content|, |r.padding|);
    hide Encode, RestEor, MakeHeader, Rest, ReadPairs;
    if k < HEADER_LEN {
      assert s[0..] == s;
      assert Settle(Between(who, false, s, sent)) == Dead(PROTOCOL_ERROR, who, [], sent);
    } else {
      hide Settle;
      HeaderOf(r, []);
      assert Encode(r) + [] == Encode(r) && s == h + s[HEADER_LEN..];
      Headed(who, false, h, s[HEADER_LEN..], sent);
    }
  }
}
