// A connection that ends early, and reading in pieces.
module FcgiInput {
  import opened Basics
  import opened FcgiRecords
  import opened FcgiParams
  import opened FcgiDemux
  import opened FcgiServe

  // The same reader with more input to come.
  function Extend(v: View, m: seq<Byte>): View {
    match v
    case Live(_, _, _, raw, _, _, _) => WithRaw(v, raw + m)
    case Dead(_, _, _, _) => v
  }

  lemma {:induction false} SettleEorExtend(v: View, m: seq<Byte>)
    requires Opened(v) && v.eor && SettleEor(v).Live?
    ensures SettleEor(Extend(v, m)) == Extend(SettleEor(v), m)
  {
    var u := Extend(v, m);
    if !Readable(v) {
      assert u.raw[v.cur.content..] == v.raw[v.cur.content..] + m;
      var p := PastContent(v);
      assert (p.raw + m)[p.cur.padding..] == p.raw[p.cur.padding..] + m;
    }
  }

  lemma {:induction false} DryEor(v: View)
    requires Opened(v) && v.eor && v.raw == []
    ensures SettleEor(v).Dead?
  {}

  lemma DropExtend(w: View, m: seq<Byte>, k: nat)
    requires w.Live? && k <= w.cur.content && k <= |w.raw|
    ensures Drop(Extend(w, m), k) == Extend(Drop(w, k), m) && (w.raw + m)[..k] == w.raw[..k]
  {
    assert (w.raw + m)[k..] == w.raw[k..] + m;
  }

  lemma {:induction false} RestEorExtend(v: View, m: seq<Byte>)
    requires Opened(v) && v.eor
    ensures RestEor(v).0 <= RestEor(Extend(v, m)).0
    ensures RestEor(v).1.Live? ==> RestEor(Extend(v, m)) == (RestEor(v).0, Extend(RestEor(v).1, m))
    decreases |v.raw|
  {
    hide SettleEor;
    var w, u := SettleEor(v), Extend(v, m);
    if w.Live? {
      SettleEorExtend(v, m);
    }
    if Opened(w) {
      var k, k' := Min(w.cur.content, |w.raw|), Min(w.cur.content, |w.raw + m|);
      RestEorExtend(Drop(w, k), m);
      if k == k' {
        DropExtend(w, m, k);
      } else {
        DryEor(Drop(w, k));
        assert w.raw[..k] <= (w.raw + m)[..k'];
      }
    }
  }

  lemma {:induction false} ProcessExtend(v: View, h: seq<Byte>, m: seq<Byte>)
    requires Opened(v) && !v.eor && |h| == HEADER_LEN && Process(v, h).v.Live?
    ensures Process(Extend(v, m), h)
         == match Process(v, h) case More(w) => More(Extend(w, m)) case Halt(w) => Halt(Extend(w, m))
  {
    hide Encode, ReadPairs, ValuesResult, UnknownType, RestEor;
    var b := BodyOf(v, Little(h[4], h[5]), h[6]);
    RestEorExtend(b, m);
    assert BodyOf(Extend(v, m), Little(h[4], h[5]), h[6]) == Extend(b, m);
    if |v.raw| >= 8 {
      assert (v.raw + m)[8..] == v.raw[8..] + m;
    }
  }

  lemma {:induction false} SettleExtend(v: View, m: seq<Byte>)
    requires Opened(v) && Settle(v).Live?
    ensures Settle(Extend(v, m)) == Extend(Settle(v), m)
    decreases |v.raw|
  {
    hide Process;
    if !Readable(v) {
      var p := PastContent(v);
      assert (v.raw + m)[v.cur.content..] == v.raw[v.cur.content..] + m;
      assert PastContent(Extend(v, m)) == Extend(p, m);
      assert (p.raw + m)[p.cur.padding..] == p.raw[p.cur.padding..] + m;
      var s := Tail(p.eor, p.cur.padding, p.raw);
      if s.Header? {
        var u := p.(cur := Cur(p.cur.skip, 0, 0), raw := s.rest);
        assert Tail(p.eor, p.cur.padding, p.raw + m) == Header(s.h, s.rest + m) by {
          var r := p.raw[p.cur.padding..];
          assert (r + m)[..HEADER_LEN] == r[..HEADER_LEN] && (r + m)[HEADER_LEN..] == r[HEADER_LEN..] + m;
        }
        ProcessFits(u, s.h);
        assert Settle(v) == AfterContent(p);
        assert Process(u, s.h).Halt? ==> Settle(v) == Process(u, s.h).v;
        ProcessExtend(u, s.h, m);
        if Process(u, s.h).More? {
          SettleExtend(Process(u, s.h).v, m);
        }
      }
    }
  }

  // A reader that has only seen the beginning of its input has delivered the beginning of what there is to deliver; and
  // where it found the end of its stream, the rest of the input does not matter.
  lemma {:induction false} RestExtend(v: View, m: seq<Byte>)
    requires Opened(v) && InUse(v)
    ensures Rest(v).0 <= Rest(Extend(v, m)).0
    ensures Rest(v).1.Live? ==> Rest(Extend(v, m)) == (Rest(v).0, Extend(Rest(v).1, m))
    decreases |v.raw|
  {
    hide Settle;
    var w := Settle(v);
    SettleInUse(v);
    if w.Live? {
      SettleExtend(v, m);
    }
    if Readable(w) {
      var k, k' := Min(w.cur.content, |w.raw|), Min(w.cur.content, |w.raw + m|);
      RestExtend(Drop(w, k), m);
      if k == k' {
        DropExtend(w, m, k);
      } else {
        DryDead(Drop(w, k));
        assert w.raw[..k] <= (w.raw + m)[..k'];
      }
    }
  }

  lemma {:induction false} DryDead(v: View)
    requires Opened(v) && v.raw == []
    ensures Rest(v) == ([], Fail(v, PROTOCOL_ERROR, []))
  {}

  // --- A connection that ends early ---

  // The first k bytes, or all there are.
  function Clip(s: seq<Byte>, k: int): (r: seq<Byte>)
    ensures |r| <= |s|
  {
    if k <= 0 then [] else if k < |s| then s[..k] else s
  }

  // What a reader gets of the content when only the first n bytes of the records arrive.
  function Arrived(who: Who, rs: seq<Record>, n: nat): seq<Byte>
    requires AllFine(rs)
  {
    if rs == [] then [] else
      var before, r := rs[..|rs| - 1], rs[|rs| - 1];
      Arrived(who, before, n) + Clip(DataOf(who, SkipAfter(who, before), r), n - |EncodeAll(before)| - HEADER_LEN)
  }

  // The reader has failed at the end of its input.
  predicate RanDry(who: Who, v: View) {
    v.Dead? && v.code == PROTOCOL_ERROR && v.who == who && v.raw == []
  }

  lemma {:induction false} DrySettle(v: View)
    requires Opened(v) && !v.eor && |v.raw| <= v.cur.content + v.cur.padding && !Readable(v)
    ensures Settle(v) == Fail(v, PROTOCOL_ERROR, [])
  {
    if !Dry(v) {
      assert Tail(false, v.cur.padding, PastContent(v).raw) == Starved;
    }
  }

  // The input ends in a record whose header has been read.
  lemma {:induction false} DryRest(v: View)
    requires Opened(v) && !v.eor && v.err == 0 && |v.raw| <= v.cur.content + v.cur.padding
    ensures Rest(v) == (if v.cur.skip then [] else Clip(v.raw, v.cur.content), Fail(v, PROTOCOL_ERROR, []))
  {
    hide Settle;
    if Readable(v) {
      var k := Min(v.cur.content, |v.raw|);
      RestSplit(v, k);
      DrySettle(Drop(v, k));
      RestSettled(Drop(v, k));
      assert v.raw[..k] + [] == v.raw[..k] == Clip(v.raw, v.cur.content);
    } else {
      DrySettle(v);
    }
  }

  lemma {:induction false} DryEorRest(v: View)
    requires Opened(v) && v.eor && v.err == 0 && |v.raw| <= v.cur.content + v.cur.padding
    ensures RestEor(v).1.raw == []
    decreases |v.raw|
  {
    var w := SettleEor(v);
    if Opened(w) {
      DryEorRest(Drop(w, Min(w.cur.content, |w.raw|)));
    }
  }

  // A GET_VALUES record with nothing behind it.
  lemma {:induction false} CutValues(who: Who, skip: bool, r: Record, rest: seq<Byte>, more: seq<Byte>, sent: seq<Byte>)
    requires Fine(r) && Values(skip, r) && rest + more == r.content + r.padding
    ensures var p := ProcessManagement(Between(who, skip, rest, sent), r.kind, |r.content|, |r.padding|);
            if p.Halt? then RanDry(who, p.v) else Opened(p.v) && p.v == Between(who, p.v.cur.skip, [], p.v.sent)
  {
    hide RestEor, ReadPairs, ValuesResult;
    var b := BodyOf(Between(who, skip, rest, sent), |r.content|, |r.padding|);
    DryEorRest(b);
    RestEorEnds(b);
    RestEorWho(b);
    PairsOfNothing();
    if RestEor(b).1.Live? {
      var m := more + [0];
      RestEorExtend(b, m);
      assert rest + m == rest + more + [0] == r.content + (r.padding + [0]);
      BodyWhole(Extend(b, m), r.content, r.padding, [0]);
    }
  }

  // The input ends in a record, or right behind it.
  lemma {:induction false} CutRecord(who: Who, skip: bool, r: Record, k: nat, sent: seq<Byte>)
    requires who.begun && Expected(who, skip, r) && k <= |Encode(r)|
    ensures var (data, end) := Rest(Between(who, skip, Encode(r)[..k], sent));
            data == Clip(DataOf(who, skip, r), k - HEADER_LEN) && RanDry(who, end)
  {
    var s := Encode(r)[..k];
    if k < HEADER_LEN {
      CutHeader(who, skip, s, sent);
    } else {
      CutBody(who, skip, r, s[HEADER_LEN..], Encode(r)[k..], sent);
      assert s == MakeHeader(r.kind, r.id, |r.content|, |r.padding|) + s[HEADER_LEN..];
    }
  }

  lemma {:induction false} CutHeader(who: Who, skip: bool, s: seq<Byte>, sent: seq<Byte>)
    requires |s| < HEADER_LEN
    ensures Rest(Between(who, skip, s, sent)) == ([], Dead(PROTOCOL_ERROR, who, [], sent))
  {
    assert s[0..] == s;
    assert Settle(Between(who, skip, s, sent)) == Dead(PROTOCOL_ERROR, who, [], sent);
  }

  lemma ClipBoth(rest: seq<Byte>, more: seq<Byte>, content: seq<Byte>, padding: seq<Byte>)
    requires rest + more == content + padding
    ensures Clip(rest, |content|) == Clip(content, |rest|)
  {
    if |content| <= |rest| {
      assert rest[..|content|] == (rest + more)[..|content|] == content;
    } else {
      assert content[..|rest|] == (rest + more)[..|rest|] == rest;
    }
  }

  lemma {:induction false} CutBody(who: Who, skip: bool, r: Record, rest: seq<Byte>, more: seq<Byte>, sent: seq<Byte>)
    requires who.begun && Expected(who, skip, r) && rest + more == r.content + r.padding
    ensures var h := MakeHeader(r.kind, r.id, |r.content|, |r.padding|);
            var (data, end) := Rest(Between(who, skip, h + rest, sent));
            data == Clip(DataOf(who, skip, r), |rest|) && RanDry(who, end)
  {
    hide Rest, Settle, RestEor, ReadPairs, Encode;
    var h := MakeHeader(r.kind, r.id, |r.content|, |r.padding|);
    Headed(who, skip, h, rest, sent);
    HeaderOf(r, []);
    assert h[1] == r.kind && Little(h[2], h[3]) == r.id && Little(h[4], h[5]) == |r.content| && h[6] == |r.padding|;
    var v, p := Between(who, skip, h + rest, sent), Process(Between(who, skip, rest, sent), h);
    if Values(skip, r) {
      CutValues(who, skip, r, rest, more, sent);
    }
    if p.More? {
      RestBySettle(v, p.v);
      DryRest(p.v);
      ClipBoth(rest, more, r.content, r.padding);
    } else {
      RestSettled(v);
    }
  }

  lemma {:induction false} EncodeSplit(rs: seq<Record>)
    requires AllFine(rs) && rs != []
    ensures EncodeAll(rs) == EncodeAll(rs[..|rs| - 1]) + Encode(rs[|rs| - 1])
  {
    hide EncodeAll, Encode;
    EncodeLast(rs, []);
    assert EncodeAll(rs) + [] == EncodeAll(rs) && Encode(rs[|rs| - 1]) + [] == Encode(rs[|rs| - 1]);
  }

  // Of records that have not begun to arrive there is nothing, ...
  lemma {:induction false} ArrivedBefore(who: Who, rs: seq<Record>, n: nat)
    requires AllFine(rs) && rs != [] && n <= |EncodeAll(rs[..|rs| - 1])|
    ensures Arrived(who, rs, n) == Arrived(who, rs[..|rs| - 1], n)
  {
    hide DataOf;
  }

  // ... of records that have arrived, everything.
  lemma {:induction false} ArrivedAll(who: Who, rs: seq<Record>, n: nat)
    requires AllFine(rs) && n >= |EncodeAll(rs)|
    ensures Arrived(who, rs, n) == DataAll(who, rs)
  {
    if rs != [] {
      EncodeSplit(rs);
      ArrivedAll(who, rs[..|rs| - 1], n);
    }
  }

  // Any number of bytes of the records.
  lemma {:induction false} CutAll(who: Who, rs: seq<Record>, n: nat, sent: seq<Byte>)
    requires who.begun && AllExpected(who, rs) && AllFine(rs) && n <= |EncodeAll(rs)|
    ensures var (data, end) := Rest(Between(who, false, EncodeAll(rs)[..n], sent));
            data == Arrived(who, rs, n) && RanDry(who, end)
  {
    hide Rest, Encode, Expected, DataOf, Fine;
    if rs == [] {
      CutHeader(who, false, EncodeAll(rs)[..n], sent);
    } else {
      var before, r := rs[..|rs| - 1], rs[|rs| - 1];
      var at := |EncodeAll(before)|;
      EncodeSplit(rs);
      if n <= at {
        assert EncodeAll(rs)[..n] == EncodeAll(before)[..n];
        CutAll(who, before, n, sent);
        ArrivedBefore(who, rs, n);
      } else {
        var tail := Encode(r)[..n - at];
        assert EncodeAll(rs)[..n] == EncodeAll(before) + tail;
        ServeAll(who, before, tail, sent);
        CutRecord(who, SkipAfter(who, before), r, n - at, sent + ReplyAll(who, before));
        ArrivedAll(who, before, n);
      }
    }
  }

  // The end of a stream is never reported early: a connection that ends before the whole header of the stream's empty
  // record has come yields an error, behind exactly the content that has arrived.
  lemma {:induction false} NoEarlyEnd(who: Who, rs: seq<Record>, end: Record, tail: seq<Byte>, sent: seq<Byte>, got: seq<Byte>, m: seq<Byte>)
    requires who.begun && AllExpected(who, rs) && Ending(who, end) && AllFine(rs)
    requires got + m == EncodeAll(rs) + (Encode(end) + tail) && |got| < |EncodeAll(rs)| + HEADER_LEN
    ensures var (data, stopped) := Rest(Between(who, false, got, sent));
            data == Arrived(who, rs, |got|) && RanDry(who, stopped)
  {
    hide Rest, Encode, Expected;
    var n, at := |got|, |EncodeAll(rs)|;
    if n <= at {
      assert got == (got + m)[..n] == EncodeAll(rs)[..n];
      CutAll(who, rs, n, sent);
    } else {
      var part := (Encode(end) + tail)[..n - at];
      assert got == (got + m)[..n] == EncodeAll(rs) + part;
      ServeAll(who, rs, part, sent);
      CutHeader(who, SkipAfter(who, rs), part, sent + ReplyAll(who, rs));
      ArrivedAll(who, rs, n);
      assert DataAll(who, rs) + [] == DataAll(who, rs);
    }
  }

  // --- Reading in pieces ---

  // FCGX_GetStr again and again, with these numbers of bytes.
  function ReadMany(v: View, ns: seq<nat>): (r: (seq<seq<Byte>>, View))
    ensures |r.0| == |ns|
  {
    if ns == [] then ([], v)
    else
      var (before, w) := ReadMany(v, ns[..|ns| - 1]);
      var (bytes, u) := ReadN(w, ns[|ns| - 1]);
      (before + [bytes], u)
  }

  function Joined(pieces: seq<seq<Byte>>): seq<Byte> {
    if pieces == [] then [] else Joined(pieces[..|pieces| - 1]) + pieces[|pieces| - 1]
  }

  lemma {:induction false} ReadManyInUse(v: View, ns: seq<nat>)
    requires InUse(v)
    ensures InUse(ReadMany(v, ns).1)
  {
    if ns != [] {
      ReadManyInUse(v, ns[..|ns| - 1]);
      ReadInUse(ReadMany(v, ns[..|ns| - 1]).1, ns[|ns| - 1]);
    }
  }

  lemma {:induction false} ReadInUse(v: View, n: nat)
    requires InUse(v)
    ensures InUse(ReadN(v, n).1)
    decreases n
  {
    hide Settle;
    if n > 0 && Opened(v) {
      SettleInUse(v);
      var w := Settle(v);
      if Readable(w) {
        var k := Min(n, Min(w.cur.content, |w.raw|));
        ReadInUse(Drop(w, k), n - k);
      }
    }
  }

  // Any run of reads returns consecutive slices of the stream's data, each as long as asked for until the data ends.
  lemma {:induction false} Slices(v: View, ns: seq<nat>)
    requires InUse(v)
    ensures var (pieces, w) := ReadMany(v, ns);
            && Joined(pieces) + Rest(w).0 == Rest(v).0 && Rest(w).1 == Rest(v).1
            && forall i :: 0 <= i < |ns| ==> |pieces[i]| == ns[i] || (|pieces[i]| < ns[i] && w == Rest(v).1 && Joined(pieces) == Rest(v).0)
  {
    hide Rest, ReadN;
    if ns == [] {
      assert [] + Rest(v).0 == Rest(v).0;
    } else {
      var n := |ns| - 1;
      var (before, u) := ReadMany(v, ns[..n]);
      Slices(v, ns[..n]);
      ReadManyInUse(v, ns[..n]);
      ReadRest(u, ns[n]);
      var (bytes, w) := ReadN(u, ns[n]);
      Associative(Joined(before), bytes, Rest(w).0);
      assert (before + [bytes])[..n] == before;
      assert ReadN(Rest(v).1, ns[n]) == ([], Rest(v).1) by { RestClosed(v); ReadNothing(Rest(v).1, ns[n]); }
      assert Joined(before) + [] == Joined(before);
    }
  }
}
