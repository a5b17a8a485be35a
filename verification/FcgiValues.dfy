// What a web server learns from the replies to its GET_VALUES records (section 4.1 of the FastCGI Specification 1.0).
module FcgiValues {
  import opened Basics
  import opened FcgiRecords
  import opened FcgiParams
  import opened FcgiDemux
  import opened FcgiServe

  // The names as bytes.
  const CONNS: seq<Byte> := [70, 67, 71, 73, 95, 77, 65, 88, 95, 67, 79, 78, 78, 83]
  const REQS: seq<Byte> := [70, 67, 71, 73, 95, 77, 65, 88, 95, 82, 69, 81, 83]
  const MPXS: seq<Byte> := [70, 67, 71, 73, 95, 77, 80, 88, 83, 95, 67, 79, 78, 78, 83]

  lemma {:induction false} NamesAsBytes()
    ensures MAX_CONNS == CONNS && MAX_REQS == REQS && MPXS_CONNS == MPXS
  {}

  // The library serves one connection and one request at a time, and does not multiplex.
  function ValueOf(name: seq<Byte>): Option<seq<Byte>> {
    if name == CONNS || name == REQS then Some([49])
    else if name == MPXS then Some([48])
    else None
  }

  // One name=value for each variable asked for that has a value, in the order asked.
  function ValuesOf(ps: seq<Pair>): seq<seq<Byte>> {
    if ps == [] then [] else
      (match ValueOf(ps[0].name) case Some(v) => [ps[0].name + [61] + v] case None => []) + ValuesOf(ps[1..])
  }

  // Without a '=' (61) or a NUL.
  predicate Simple(name: seq<Byte>) {
    61 !in name && 0 !in name
  }

  // The name in an entry is what stands before its first '=' or NUL.
  lemma {:induction false} NameBefore(name: seq<Byte>, rest: seq<Byte>)
    requires Simple(name) && (rest == [] || rest[0] == 61 || rest[0] == 0)
    ensures NameOf(name + rest) == name
  {
    if name == [] {
      assert name + rest == rest;
    } else {
      NameBefore(name[1..], rest);
      assert (name + rest)[1..] == name[1..] + rest && [name[0]] + name[1..] == name;
    }
  }

  lemma {:induction false} AnswerSays(p: Pair)
    requires Simple(p.name)
    ensures Known(Entry(p)) <==> ValueOf(p.name).Some?
    ensures Answer(Entry(p)) == match ValueOf(p.name)
                                case Some(v) => EncodePair(Pair(p.name, v, false, false))
                                case None => []
  {
    NameBefore(p.name, [EQUALS] + p.value);
    assert p.name + ([EQUALS] + p.value) == Entry(p);
    hide NameOf;
    NamesAsBytes();
  }

  // The reply's content reads back as these pairs, ...
  lemma {:induction false} AnswersSay(ps: seq<Pair>)
    requires forall i :: 0 <= i < |ps| ==> Simple(ps[i].name)
    ensures ReadPairs(Answers(Entries(ps))) == (ValuesOf(ps), true)
    ensures KnownCount(Entries(ps)) == |ValuesOf(ps)|
  {
    hide ReadPairs, Answer, Known, Entry, EncodePair;
    if ps == [] {
      PairsOfNothing();
    } else {
      var p, rest := ps[0], Entries(ps[1..]);
      AnswerSays(p);
      AnswersSay(ps[1..]);
      assert Entries(ps)[1..] == rest;
      match ValueOf(p.name)
      case Some(v) =>
        OnePairBack(Pair(p.name, v, false, false), Answers(rest));
        EntryOf(p.name, v);
      case None =>
        assert [] + Answers(rest) == Answers(rest) && [] + ValuesOf(ps[1..]) == ValuesOf(ps[1..]);
    }
  }

  lemma EntryOf(name: seq<Byte>, v: seq<Byte>)
    ensures Entry(Pair(name, v, false, false)) == name + [61] + v
    ensures ValueOf(name) == Some(v) ==> Lengths(Pair(name, v, false, false))
  {}

  lemma {:induction false} PairsWhole(ps: seq<Pair>)
    requires forall i :: 0 <= i < |ps| ==> Lengths(ps[i])
    ensures ReadPairs(EncodePairs(ps)) == (Entries(ps), true)
  {
    hide ReadPairs, EncodePairs, Lengths;
    PairsBack(ps, []);
    PairsOfNothing();
    assert EncodePairs(ps) + [] == EncodePairs(ps) && Entries(ps) + [] == Entries(ps);
  }

  lemma ReplyWith(who: Who, r: Record, entries: seq<seq<Byte>>)
    requires Fine(r) && r.id == 0 && r.kind == 9 && ReadPairs(r.content) == (entries, true)
    ensures ReplyTo(who, false, r) == ValuesResult(Answers(entries))
  {
    hide ReadPairs, ValuesResult, Answers;
  }

  // A GET_VALUES_RESULT record without a request, padded to a multiple of eight bytes.
  predicate Result(r: Record) {
    r.kind == 10 && r.id == 0 && |r.padding| < 8 && (|r.content| + |r.padding|) % 8 == 0
  }

  lemma {:induction false} ResultEncoded(answers: seq<Byte>) returns (r: Record)
    requires |answers| <= 0xffff
    ensures Fine(r) && Encode(r) == ValuesResult(answers) && r.content == answers && Result(r)
  {
    r := Record(GET_VALUES_RESULT, 0, answers, Zeros(AlignInt8(|answers|) - |answers|));
  }

  // ... and goes out as such a record.
  lemma {:induction false} ValuesReply(who: Who, r: Record, ps: seq<Pair>) returns (reply: Record)
    requires Fine(r) && r.id == 0 && r.kind == 9
    requires (forall i :: 0 <= i < |ps| ==> Lengths(ps[i]) && Simple(ps[i].name)) && r.content == EncodePairs(ps)
    requires |ValuesOf(ps)| <= 3
    ensures OnWire(ReplyTo(who, false, r), reply) && Result(reply) && ReadPairs(reply.content) == (ValuesOf(ps), true)
  {
    hide *;
    AnswersSay(ps);
    AnswersBounds(Entries(ps));
    PairsWhole(ps);
    ReplyWith(who, r, Entries(ps));
    reply := ResultEncoded(Answers(Entries(ps)));
    EncodeOnWire(reply);
  }
}
