// What a reader stream of fcgiapp.c makes of the bytes on its connection, however they arrive.
module FcgiDemux {
  import opened Basics
  import opened FcgiRecords
  import opened FcgiParams

  const UNSUPPORTED_VERSION: int := -2
  const PROTOCOL_ERROR: int := -3
  const PARAMS_ERROR: int := -4

  // What is left of the current record.
  datatype Cur = Cur(skip: bool, content: nat, padding: nat)

  // The stream that is read, and what the request's BEGIN_REQUEST record said.
  datatype Who = Who(kind: Byte, id: nat, begun: bool, role: nat, keep: bool)

  // A reader: `raw` are all bytes it has not delivered, in its buffer or still to come; `eor` is set while it reads the
  // body of one record; `sent` is what the peer has been sent.  A reader that an error has closed is Dead.  One that was
  // opened again after an error keeps that error in `err`; otherwise `err` is 0.
  datatype View =
    | Live(eor: bool, who: Who, cur: Cur, raw: seq<Byte>, open: bool, sent: seq<Byte>, err: int)
    | Dead(code: int, who: Who, raw: seq<Byte>, sent: seq<Byte>)

  predicate Opened(v: View) {
    v.Live? && v.open
  }

  // The end of the stream.
  function ShutUp(v: View): (w: View)
    requires v.Live?
    ensures w.raw == v.raw && w.who == v.who && w.sent == v.sent && !Opened(w)
  {
    if v.err != 0 then Dead(v.err, v.who, v.raw, v.sent) else v.(open := false)
  }

  // An error, with the bytes behind it: SetError keeps the first.
  function Fail(v: View, code: int, raw: seq<Byte>): (w: View)
    requires v.Live?
    ensures w.Dead? && w.raw == raw && w.who == v.who && w.sent == v.sent
  {
    Dead(if v.err != 0 then v.err else code, v.who, raw, v.sent)
  }

  function WithCur(v: View, cur: Cur): View
    requires v.Live?
  {
    v.(cur := cur)
  }

  function WithRaw(v: View, raw: seq<Byte>): View
    requires v.Live?
  {
    Live(v.eor, v.who, v.cur, raw, v.open, v.sent, v.err)
  }

  // Content is at hand.
  predicate Readable(v: View) {
    Opened(v) && v.raw != [] && v.cur.content > 0 && !v.cur.skip
  }

  // What follows the content of the current record: its padding, and then, unless the reader stops there, a header.
  datatype Stage = Starved | Shut(rest: seq<Byte>) | Header(h: seq<Byte>, rest: seq<Byte>)

  function Tail(eor: bool, padding: nat, raw: seq<Byte>): (s: Stage)
    ensures s.Header? ==> !eor && |s.h| == HEADER_LEN && |s.rest| < |raw|
    ensures s.Shut? ==> eor && |s.rest| <= |raw|
  {
    if |raw| < padding then Starved
    else
      var r := raw[padding..];
      if eor then Shut(r)
      else if |r| < HEADER_LEN then Starved
      else Header(r[..HEADER_LEN], r[HEADER_LEN..])
  }

  // The content is left behind.  The flag `skip` is taken back by the content it skips, and only by content.
  function PastContent(v: View): (w: View)
    requires Opened(v) && v.cur.content <= |v.raw|
    ensures Opened(w) && |w.raw| <= |v.raw| && w.cur.content == 0
  {
    v.(cur := Cur(v.cur.skip && v.cur.content == 0, 0, v.cur.padding), raw := v.raw[v.cur.content..])
  }

  // Nothing to deliver: the input ends first.
  predicate Dry(v: View)
    requires v.Live?
  {
    v.raw == [] || |v.raw| < v.cur.content
  }

  function CloseAt(v: View, rest: seq<Byte>): View
    requires v.Live?
  {
    ShutUp(v.(cur := Cur(v.cur.skip, 0, 0), raw := rest))
  }

  // --- Reading the body of one record ---

  function SettleEor(v: View): (w: View)
    requires Opened(v) && v.eor
    ensures Opened(w) ==> w == v && Readable(w)
    ensures w.Live? ==> w.eor && |w.raw| <= |v.raw|
  {
    if Readable(v) then v
    else if Dry(v) then Fail(v, PROTOCOL_ERROR, [])
    else
      var u := PastContent(v);
      match Tail(true, u.cur.padding, u.raw)
      case Shut(rest) => CloseAt(u, rest)
      case _ => Fail(v, PROTOCOL_ERROR, [])
  }

  // --- Headers ---

  // ProcessHeader and what FillBuffProc does with its answer.
  datatype Processed = More(v: View) | Halt(v: View)

  function Little(a: Byte, b: Byte): nat {
    (a as int) * 256 + b
  }

  function BodyOf(v: View, content: nat, padding: nat): View
    requires v.Live?
  {
    v.(eor := true, cur := Cur(v.cur.skip, content, padding))
  }

  // ProcessBeginRecord.
  function ProcessBegin(v: View, id: nat, content: nat, padding: nat): Processed
    requires Opened(v) && !v.eor && id < 0x10000
  {
    if id == 0 || content != 8 then Halt(Fail(v, PROTOCOL_ERROR, v.raw))
    else if v.who.begun then
      More(v.(cur := Cur(true, 8, padding), sent := v.sent + Encode(EndRequest(id, 0, CANT_MPX_CONN))))
    else if v.cur.skip || |v.raw| < 8 then
      var body := Live(true, v.who.(id := id), Cur(v.cur.skip, 8, padding), v.raw, true, v.sent, v.err);
      Halt(Fail(body, PROTOCOL_ERROR, RestEor(body).1.raw))
    else
      var who := v.who.(id := id, begun := true, role := Little(v.raw[0], v.raw[1]), keep := v.raw[2] % 2 == 1);
      Halt(v.(who := who, cur := Cur(false, 0, padding), raw := v.raw[8..]))
  }

  // Everything a reader of one record's body delivers, and where that leaves it.
  function RestEor(v: View): (r: (seq<Byte>, View))
    requires Opened(v) && v.eor
    ensures r.1.Live? ==> !r.1.open && r.1.eor && |r.1.raw| <= |v.raw|
    decreases |v.raw|
  {
    var w := SettleEor(v);
    if !Opened(w) then ([], w)
    else
      var k := if w.cur.content < |w.raw| then w.cur.content else |w.raw|;
      var (data, end) := RestEor(w.(cur := w.cur.(content := w.cur.content - k), raw := w.raw[k..]));
      (w.raw[..k] + data, end)
  }

  const MAX_CONNS := Ascii("FCGI_MAX_CONNS")
  const MAX_REQS := Ascii("FCGI_MAX_REQS")
  const MPXS_CONNS := Ascii("FCGI_MPXS_CONNS")

  // The name in an entry name=value, as the C string functions see it.
  function NameOf(entry: seq<Byte>): seq<Byte> {
    if entry == [] || entry[0] == EQUALS || entry[0] == 0 then [] else [entry[0]] + NameOf(entry[1..])
  }

  // The answer to one variable: '1' or '0' behind its name, or nothing for a name that is not known.
  function Answer(entry: seq<Byte>): seq<Byte> {
    var name := NameOf(entry);
    if name == MAX_CONNS || name == MAX_REQS then [|name|, 1] + name + [49]
    else if name == MPXS_CONNS then [|name|, 1] + name + [48]
    else []
  }

  function Answers(entries: seq<seq<Byte>>): seq<Byte> {
    if entries == [] then [] else Answer(entries[0]) + Answers(entries[1..])
  }

  // A GET_VALUES_RESULT record; AnswersFit says when it fits the buffer that the code builds it in.
  function ValuesResult(answers: seq<Byte>): seq<Byte> {
    var n, m := |answers|, AlignInt8(|answers|);
    [VERSION_1, GET_VALUES_RESULT, 0, 0, n / 256 % 256, n % 256, m - n, 0] + answers + Zeros(m - n)
  }

  predicate Asked(name: seq<Byte>, entries: seq<seq<Byte>>) {
    exists i :: 0 <= i < |entries| && NameOf(entries[i]) == name
  }

  // No variable that is known is asked for twice.
  predicate AskedOnce(entries: seq<seq<Byte>>) {
    forall i, j :: 0 <= i < j < |entries| && NameOf(entries[i]) == NameOf(entries[j]) ==> Answer(entries[i]) == []
  }

  lemma {:induction false} AnswersLength(entries: seq<seq<Byte>>)
    requires AskedOnce(entries)
    ensures |Answers(entries)| == (if Asked(MAX_CONNS, entries) then 17 else 0) + (if Asked(MAX_REQS, entries) then 16 else 0)
                                + (if Asked(MPXS_CONNS, entries) then 18 else 0)
  {
    if entries != [] {
      var e, rest := entries[0], entries[1..];
      assert forall i :: 0 < i < |entries| ==> entries[i] == rest[i - 1];
      AnswersLength(rest);
      DistinctNames();
      forall name ensures Asked(name, entries) <==> NameOf(e) == name || Asked(name, rest) {
        if NameOf(e) == name { assert entries[0] == e; }
        if Asked(name, rest) {
          var i :| 0 <= i < |rest| && NameOf(rest[i]) == name;
          assert entries[i + 1] == rest[i];
        }
      }
      assert Answer(e) != [] ==> !Asked(NameOf(e), rest);
    }
  }

  lemma DistinctNames()
    ensures MAX_CONNS != MAX_REQS && MAX_CONNS != MPXS_CONNS && MAX_REQS != MPXS_CONNS
    ensures |MAX_CONNS| == 14 && |MAX_REQS| == 13 && |MPXS_CONNS| == 15
  {}

  // The code builds a reply in this many bytes.
  const RESPONSE_LEN: nat := 64

  predicate Known(entry: seq<Byte>) {
    var name := NameOf(entry);
    name == MAX_CONNS || name == MAX_REQS || name == MPXS_CONNS
  }

  // How many of the entries ask for a variable that is known, repeated ones counted again.
  function KnownCount(entries: seq<seq<Byte>>): nat {
    if entries == [] then 0 else (if Known(entries[0]) then 1 else 0) + KnownCount(entries[1..])
  }

  lemma AnswerLength(entry: seq<Byte>)
    ensures if Known(entry) then 16 <= |Answer(entry)| <= 18 else Answer(entry) == []
  {
    DistinctNames();
    hide NameOf;
  }

  lemma {:induction false} AnswersBounds(entries: seq<seq<Byte>>)
    ensures 16 * KnownCount(entries) <= |Answers(entries)| <= 18 * KnownCount(entries)
  {
    if entries != [] {
      hide Answer, Known;
      AnswerLength(entries[0]);
      AnswersBounds(entries[1..]);
    }
  }

  // The reply, and the NUL that sprintf writes behind its last answer, fit their buffer exactly if at most three entries
  // ask for variables that are known.
  lemma {:induction false} AnswersFit(entries: seq<seq<Byte>>)
    ensures |ValuesResult(Answers(entries))| <= RESPONSE_LEN <==> KnownCount(entries) <= 3
    ensures HEADER_LEN + |Answers(entries)| + 1 <= RESPONSE_LEN <==> KnownCount(entries) <= 3
  {
    AnswersBounds(entries);
  }

  // So it fits if no variable is asked for twice, ...
  lemma {:induction false} AskedOnceFits(entries: seq<seq<Byte>>)
    requires AskedOnce(entries)
    ensures KnownCount(entries) <= 3
  {
    AnswersLength(entries);
    AnswersFit(entries);
  }

  function Copies(entry: seq<Byte>, n: nat): seq<seq<Byte>> {
    if n == 0 then [] else [entry] + Copies(entry, n - 1)
  }

  lemma {:induction false} CopiesLength(entry: seq<Byte>, n: nat)
    ensures |Answers(Copies(entry, n))| == n * |Answer(entry)|
  {
    hide Answer;
    if n > 0 {
      CopiesLength(entry, n - 1);
      assert Copies(entry, n)[1..] == Copies(entry, n - 1);
    }
  }

  // ... and not for FCGI_MAX_CONNS asked for a fourth time.
  lemma {:induction false} AnswersOverflow(n: nat)
    ensures |ValuesResult(Answers(Copies(MAX_CONNS, n)))| <= RESPONSE_LEN <==> n <= 3
  {
    hide Answers;
    CopiesLength(MAX_CONNS, n);
    MaxConnsAnswer();
  }

  lemma MaxConnsAnswer()
    ensures |Answer(MAX_CONNS)| == 17
  {
    PlainName(MAX_CONNS);
    DistinctNames();
    PlainAscii("FCGI_MAX_CONNS");
    hide NameOf, Ascii;
  }

  lemma {:induction false} PlainAscii(s: string)
    ensures (forall i :: 0 <= i < |s| ==> '=' < s[i] < 'z' || s[i] == '_') ==>
              forall i :: 0 <= i < |s| ==> Ascii(s)[i] != EQUALS && Ascii(s)[i] != 0
  {}

  lemma {:induction false} PlainName(s: seq<Byte>)
    ensures (forall i :: 0 <= i < |s| ==> s[i] != EQUALS && s[i] != 0) ==> NameOf(s) == s
  {
    if s != [] {
      PlainName(s[1..]);
    }
  }

  function UnknownType(kind: Byte): seq<Byte> {
    Encode(Record(UNKNOWN_TYPE, 0, [kind, 0, 0, 0, 0, 0, 0, 0], []))
  }

  // ProcessManagementRecord.
  function ProcessManagement(v: View, kind: Byte, content: nat, padding: nat): Processed
    requires Opened(v) && !v.eor
  {
    if kind == GET_VALUES then
      var (data, end) := RestEor(BodyOf(v, content, padding));
      var (entries, whole) := ReadPairs(data);
      if end.Dead? then Halt(end)
      else if !whole then Halt(Fail(v, PARAMS_ERROR, end.raw))
      else More(end.(eor := false, open := true, sent := v.sent + ValuesResult(Answers(entries))))
    else More(v.(cur := Cur(v.cur.skip, content, padding), sent := v.sent + UnknownType(kind)))
  }

  function Process(v: View, h: seq<Byte>): (p: Processed)
    requires Opened(v) && !v.eor && |h| == HEADER_LEN
  {
    var id, content, padding := Little(h[2], h[3]), Little(h[4], h[5]), h[6] as nat;
    if h[0] != VERSION_1 then Halt(Fail(v, UNSUPPORTED_VERSION, v.raw))
    else if h[1] == BEGIN_REQUEST then ProcessBegin(v, id, content, padding)
    else if id == 0 then ProcessManagement(v, h[1], content, padding)
    else if id != v.who.id then More(v.(cur := Cur(true, content, padding)))
    else if h[1] != v.who.kind then Halt(Fail(v, PROTOCOL_ERROR, v.raw))
    else
      var w := v.(cur := Cur(v.cur.skip, content, padding));
      if content == 0 then Halt(ShutUp(w)) else More(w)
  }

  lemma {:induction false} ProcessFits(v: View, h: seq<Byte>)
    requires Opened(v) && !v.eor && |h| == HEADER_LEN
    ensures Process(v, h).More? ==> Opened(Process(v, h).v) && !Process(v, h).v.eor && |Process(v, h).v.raw| <= |v.raw|
    ensures Process(v, h).Halt? && Process(v, h).v.Live? ==> !Process(v, h).v.eor && |Process(v, h).v.raw| <= |v.raw|
  {
    hide Encode, ReadPairs, ValuesResult, UnknownType;
  }

  // FillBuffProc: on to the next content, the end of the stream, the begin of a request, or an error.
  function Settle(v: View): (w: View)
    requires Opened(v)
    ensures w.Live? ==> w.eor == v.eor && |w.raw| <= |v.raw|
    decreases |v.raw|, 1
  {
    if Readable(v) then v
    else if Dry(v) then Fail(v, PROTOCOL_ERROR, [])
    else AfterContent(PastContent(v))
  }

  // The same from the padding of a record on.
  function AfterContent(v: View): (w: View)
    requires Opened(v) && v.cur.content == 0
    ensures w.Live? ==> w.eor == v.eor && |w.raw| <= |v.raw|
    decreases |v.raw|, 0
  {
    match Tail(v.eor, v.cur.padding, v.raw)
    case Starved => Fail(v, PROTOCOL_ERROR, [])
    case Shut(rest) => CloseAt(v, rest)
    case Header(h, rest) =>
      var u := v.(cur := Cur(v.cur.skip, 0, 0), raw := rest);
      ProcessFits(u, h);
      match Process(u, h)
      case Halt(w) => w
      case More(w) => Settle(w)
  }

  // --- What a client of the stream sees ---

  function Drop(v: View, k: nat): View
    requires v.Live? && k <= v.cur.content && k <= |v.raw|
  {
    v.(cur := v.cur.(content := v.cur.content - k), raw := v.raw[k..])
  }

  // FCGX_GetStr: up to n bytes, and the reader behind them.
  function ReadN(v: View, n: nat): (r: (seq<Byte>, View))
    ensures |r.0| <= n
    decreases n
  {
    if n == 0 || !Opened(v) then ([], v)
    else
      var w := Settle(v);
      if !Readable(w) then ([], w)
      else
        var k := Min(n, Min(w.cur.content, |w.raw|));
        var (data, end) := ReadN(Drop(w, k), n - k);
        (w.raw[..k] + data, end)
  }

  // Everything up to the end of the stream, and how it ends.
  function Rest(v: View): (r: (seq<Byte>, View))
    decreases if v.Live? then |v.raw| else 0
  {
    if !Opened(v) then ([], v)
    else
      var w := Settle(v);
      if !Readable(w) then ([], w)
      else
        var k := Min(w.cur.content, |w.raw|);
        var (data, end) := Rest(Drop(w, k));
        (w.raw[..k] + data, end)
  }

  // A record's body of eight bytes, as ProcessBeginRecord reads it.
  lemma {:induction false} BodyRead(v: View)
    requires Opened(v) && v.eor && v.cur.content == 8
    ensures v.cur.skip || |v.raw| < 8 ==> |ReadN(v, 8).0| < 8 && ReadN(v, 8).1 == RestEor(v).1
    ensures !v.cur.skip && |v.raw| >= 8 ==> ReadN(v, 8) == (v.raw[..8], Drop(v, 8))
  {
    SettleEorSame(v);
    hide Settle;
    if !v.cur.skip && v.raw != [] {
      var k := Min(8, |v.raw|);
      var w := Drop(v, k);
      if k < 8 {
        SettleEorSame(w);
        assert ReadN(w, 8 - k) == ([], Fail(v, PROTOCOL_ERROR, []));
      } else {
        assert v.raw[..8] + [] == v.raw[..8];
      }
    }
  }

  lemma {:induction false} RestEorEnds(v: View)
    requires Opened(v) && v.eor
    ensures RestEor(v).1.Live? ==> RestEor(v).1.cur.content == 0 && RestEor(v).1.sent == v.sent && v.err == 0
    ensures RestEor(v).1.Dead? ==> RestEor(v).1 == Fail(v, PROTOCOL_ERROR, RestEor(v).1.raw)
    decreases |v.raw|
  {
    var w := SettleEor(v);
    if Opened(w) {
      RestEorEnds(Drop(w, Min(w.cur.content, |w.raw|)));
    }
  }

  // The same with what becomes of a reader that cannot read the eight bytes.
  lemma {:induction false} BodyShort(v: View)
    requires Opened(v) && v.eor && v.cur.content == 8
    ensures !v.cur.skip && |v.raw| >= 8 ==> ReadN(v, 8) == (v.raw[..8], Drop(v, 8))
    ensures v.cur.skip || |v.raw| < 8 ==>
              var (bytes, end) := ReadN(v, 8);
              && |bytes| < 8 && !Opened(end) && end.who == v.who && end.sent == v.sent && end.raw == RestEor(v).1.raw
              && (if end.Live? then v.err == 0 else end.code == if v.err != 0 then v.err else PROTOCOL_ERROR)
  {
    hide ReadN;
    BodyRead(v);
    RestEorEnds(v);
    RestEorWho(v);
  }

  // --- Accepting a request ---

  function RoleEntry(role: nat): Option<seq<Byte>> {
    if role == RESPONDER then Some(Ascii("FCGI_ROLE=RESPONDER"))
    else if role == AUTHORIZER then Some(Ascii("FCGI_ROLE=AUTHORIZER"))
    else if role == FILTER then Some(Ascii("FCGI_ROLE=FILTER"))
    else None
  }

  // SetReaderType: padding that is left of the current record is forgotten, not read; a reader that has failed is opened
  // again, with its error.
  function Retyped(v: View, kind: Byte): View {
    var err := match v case Live(_, _, _, _, _, _, err) => err case Dead(code, _, _, _) => code;
    Live(false, v.who.(kind := kind), Cur(false, 0, 0), v.raw, true, v.sent, err)
  }

  // What FCGX_Accept_r reads of a request: its environment, and the reader of its standard input; None if it drops the
  // connection.  Whether the PARAMS stream ended or an error stopped it makes no difference.
  function Accept(v: View): Option<(seq<seq<Byte>>, View)>
    requires Opened(v)
  {
    var w := Settle(v);
    if !w.who.begun || RoleEntry(w.who.role).None? then None
    else
      var (data, end) := Rest(Retyped(w, PARAMS));
      var (entries, whole) := ReadPairs(data);
      if whole then Some(([RoleEntry(w.who.role).value] + entries, Retyped(end, STDIN))) else None
  }

  // --- Steps of FillBuffProc ---

  // A reader in use reads the body of a record, or a stream whose request has begun.
  predicate InUse(v: View) {
    v.Live? ==> v.eor || v.who.begun
  }

  lemma {:induction false} ManagementInUse(v: View, kind: Byte, content: nat, padding: nat)
    requires Opened(v) && !v.eor
    ensures var p := ProcessManagement(v, kind, content, padding);
            p.v.who == v.who && (p.Halt? ==> !Opened(p.v))
  {
    hide ReadPairs, ValuesResult, UnknownType, RestEor;
    RestEorWho(BodyOf(v, content, padding));
  }

  lemma {:induction false} ProcessInUse(v: View, h: seq<Byte>)
    requires Opened(v) && !v.eor && |h| == HEADER_LEN && v.who.begun
    ensures var p := Process(v, h); p.v.who == v.who && (p.Halt? ==> !Opened(p.v))
  {
    hide Encode, ProcessManagement;
    ManagementInUse(v, h[1], Little(h[4], h[5]), h[6]);
  }

  lemma {:induction false} RestEorWho(v: View)
    requires Opened(v) && v.eor
    ensures RestEor(v).1.who == v.who
    decreases |v.raw|
  {
    var w := SettleEor(v);
    if Opened(w) {
      var k := if w.cur.content < |w.raw| then w.cur.content else |w.raw|;
      RestEorWho(w.(cur := w.cur.(content := w.cur.content - k), raw := w.raw[k..]));
    }
  }

  // In use, a reader that is still open has content at hand.
  lemma {:induction false} SettleInUse(v: View)
    requires Opened(v) && InUse(v)
    ensures InUse(Settle(v)) && (Opened(Settle(v)) ==> Readable(Settle(v)))
    ensures Settle(v).who == v.who
    decreases |v.raw|
  {
    hide Process;
    if !Readable(v) && !Dry(v) {
      var u := PastContent(v);
      var s := Tail(u.eor, u.cur.padding, u.raw);
      if s.Header? {
        var w := u.(cur := Cur(u.cur.skip, 0, 0), raw := s.rest);
        ProcessInUse(w, s.h);
        ProcessFits(w, s.h);
        if Process(w, s.h).More? {
          SettleInUse(Process(w, s.h).v);
        }
      }
    }
  }

  // Part of the content to be skipped is gone.
  lemma {:induction false} SkipSome(v: View, k: nat)
    requires Opened(v) && v.cur.skip && k < v.cur.content && k <= |v.raw|
    ensures Settle(v) == Settle(Drop(v, k))
  {
    hide AfterContent;
    if !Dry(v) {
      assert PastContent(Drop(v, k)) == PastContent(v);
    }
  }

  lemma {:induction false} SkipAll(v: View)
    requires Opened(v) && v.cur.skip && 0 < v.cur.content <= |v.raw|
    ensures Settle(v) == AfterContent(PastContent(v))
  {}

  lemma {:induction false} EorReached(v: View)
    requires Opened(v) && v.eor && v.cur.content == 0 && v.cur.padding == 0
    ensures AfterContent(v) == ShutUp(v)
  {
    assert v.raw[0..] == v.raw;
  }

  // A whole header is at hand.
  lemma {:induction false} HeaderReached(v: View, h: seq<Byte>, rest: seq<Byte>)
    requires Opened(v) && !v.eor && v.cur.content == 0 && v.cur.padding == 0 && v.raw == h + rest && |h| == HEADER_LEN
    ensures var p := Process(WithRaw(v, rest), h);
            && (p.Halt? ==> AfterContent(v) == p.v)
            && (p.More? ==> Opened(p.v) && !p.v.eor && AfterContent(v) == Settle(p.v))
  {
    hide Process, Settle;
    assert v.raw[0..] == v.raw && v.raw[..HEADER_LEN] == h && v.raw[HEADER_LEN..] == rest;
    ProcessFits(WithRaw(v, rest), h);
  }

  // Part of the padding is gone.
  lemma {:induction false} PadSome(v: View, k: nat)
    requires Opened(v) && v.cur.content == 0 && k <= v.cur.padding && k <= |v.raw|
    ensures AfterContent(v) == AfterContent(v.(cur := v.cur.(padding := v.cur.padding - k), raw := v.raw[k..]))
  {
    hide Process;
    if v.cur.padding <= |v.raw| {
      assert v.raw[k..][v.cur.padding - k..] == v.raw[v.cur.padding..];
    }
  }

  // At the top of the loop the input must not be at its end; past the content, padding or a header asks for more, too.
  lemma {:induction false} TopAfterContent(v: View)
    requires Opened(v) && v.cur.content == 0 && (v.raw != [] || v.cur.padding > 0 || !v.eor)
    ensures Settle(v) == AfterContent(v)
  {
    if v.raw != [] {
      assert PastContent(v) == v;
    }
  }

  // --- Reading in slices ---

  lemma {:induction false} SettleReadable(v: View)
    requires Readable(v)
    ensures Settle(v) == v
  {}

  // How many bytes come out at once.
  function AtOnce(v: View, n: nat): nat
    requires v.Live?
  {
    Min(n, Min(v.cur.content, |v.raw|))
  }

  lemma {:induction false} ReadOnce(v: View, n: nat)
    requires Readable(v)
    ensures var k := AtOnce(v, n);
            ReadN(v, n) == (v.raw[..k] + ReadN(Drop(v, k), n - k).0, ReadN(Drop(v, k), n - k).1)
  {
    hide Settle;
    SettleReadable(v);
    if n == 0 {
      assert Drop(v, 0) == v && v.raw[..0] + ReadN(v, 0).0 == ReadN(v, 0).0;
    }
  }

  lemma {:induction false} AtOnceDrop(v: View, n: nat, j: nat)
    requires Readable(v) && j < AtOnce(v, n)
    ensures var k, w := AtOnce(v, n), Drop(v, j);
            && Readable(w) && AtOnce(w, n - j) == k - j && Drop(w, k - j) == Drop(v, k)
            && v.raw[..j] + w.raw[..k - j] == v.raw[..k]
  {}

  lemma {:induction false} ReadSplit(v: View, n: nat, j: nat)
    requires Readable(v) && j <= n && j <= v.cur.content && j <= |v.raw|
    ensures ReadN(v, n) == (v.raw[..j] + ReadN(Drop(v, j), n - j).0, ReadN(Drop(v, j), n - j).1)
  {
    hide ReadN;
    var k, w := AtOnce(v, n), Drop(v, j);
    ReadOnce(v, n);
    if j < k {
      hide Drop, AtOnce, Min;
      AtOnceDrop(v, n, j);
      ReadOnce(w, n - j);
      Associative(v.raw[..j], w.raw[..k - j], ReadN(Drop(v, k), n - k).0);
    }
  }

  lemma {:induction false} ReadNothing(v: View, n: nat)
    requires n == 0 || !Opened(v)
    ensures ReadN(v, n) == ([], v)
  {}

  lemma {:induction false} ReadSettled(v: View, n: nat)
    requires Opened(v) && n > 0
    ensures Readable(Settle(v)) ==> ReadN(v, n) == ReadN(Settle(v), n)
    ensures !Readable(Settle(v)) ==> ReadN(v, n) == ([], Settle(v))
  {
    hide AfterContent;
  }

  lemma {:induction false} RestSettled(v: View)
    requires Opened(v)
    ensures Readable(Settle(v)) ==> Rest(v) == Rest(Settle(v))
    ensures !Readable(Settle(v)) ==> Rest(v) == ([], Settle(v))
  {
    hide AfterContent;
  }

  // Reading goes on to the end of the stream or an error.
  lemma {:induction false} RestClosed(v: View)
    requires InUse(v)
    ensures !Opened(Rest(v).1)
    decreases if v.Live? then |v.raw| else 0
  {
    hide Settle;
    if Opened(v) {
      SettleInUse(v);
      var w := Settle(v);
      if Readable(w) {
        RestClosed(Drop(w, Min(w.cur.content, |w.raw|)));
      }
    }
  }

  lemma {:induction false} RestSplit(v: View, j: nat)
    requires Readable(v) && j <= v.cur.content && j <= |v.raw|
    ensures Rest(v) == (v.raw[..j] + Rest(Drop(v, j)).0, Rest(Drop(v, j)).1)
  {
    hide AfterContent;
    var k := Min(v.cur.content, |v.raw|);
    if j < k {
      var w := Drop(v, j);
      assert Drop(w, k - j) == Drop(v, k);
      assert v.raw[..j] + w.raw[..k - j] == v.raw[..k];
      assert v.raw[..j] + (w.raw[..k - j] + Rest(Drop(v, k)).0) == v.raw[..k] + Rest(Drop(v, k)).0;
    }
  }

  // What FCGX_GetStr returns are the next bytes of what is left, as many as asked for unless the stream ends first.
  lemma {:induction false} ReadRest(v: View, n: nat)
    requires InUse(v)
    ensures var (bytes, w) := ReadN(v, n);
            && bytes + Rest(w).0 == Rest(v).0 && Rest(w).1 == Rest(v).1
            && (|bytes| < n ==> !Readable(w) && w == Rest(v).1 && bytes == Rest(v).0)
    decreases n
  {
    hide Settle;
    assert forall s: seq<Byte> :: [] + s == s && s + [] == s;
    if n > 0 && Opened(v) {
      var w := Settle(v);
      RestSettled(v);
      SettleInUse(v);
      if Readable(w) {
        var k := Min(n, Min(w.cur.content, |w.raw|));
        RestSplit(w, k);
        ReadRest(Drop(w, k), n - k);
        var (bytes, end) := ReadN(Drop(w, k), n - k);
        assert w.raw[..k] + bytes + Rest(end).0 == w.raw[..k] + (bytes + Rest(end).0);
      }
    }
  }

  lemma {:induction false} SettleEorSame(v: View)
    requires Opened(v) && v.eor
    ensures SettleEor(v) == Settle(v)
  {
    if !Readable(v) && !Dry(v) {
      assert AfterContent(PastContent(v)) == SettleEor(v);
    }
  }

  lemma {:induction false} RestEorSame(v: View)
    requires Opened(v) && v.eor
    ensures RestEor(v) == Rest(v)
    decreases |v.raw|
  {
    hide AfterContent;
    SettleEorSame(v);
    var w := SettleEor(v);
    if Opened(w) {
      RestEorSame(Drop(w, Min(w.cur.content, |w.raw|)));
    }
  }
}
