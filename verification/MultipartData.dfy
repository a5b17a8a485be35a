// What the multipart parser passes on as part data is what stands in the input, up to the closing delimiter.
module MultipartData {
  import opened Multipart
  import opened MultipartChunks

  predicate EndsWith(s: string, t: string) {
    |t| <= |s| && s[|s| - |t|..] == t
  }

  // No closing delimiter is complete anywhere in s.
  ghost predicate Open(b: string, s: string) {
    forall k :: 0 <= k <= |s| ==> !EndsWith(s[..k], Closing(b))
  }

  // The part data passed on.
  function Text(es: seq<Event>): string {
    if es == [] then "" else
      Text(es[..|es| - 1]) + match es[|es| - 1] case Data(t) => t case _ => ""
  }

  lemma {:induction false} TextPlus(es: seq<Event>, e: Event)
    ensures Text(es + [e]) == Text(es) + match e case Data(t) => t case _ => ""
  {
    assert (es + [e])[..|es|] == es;
  }

  // headers_complete and then nothing but part data.
  predicate OnlyData(es: seq<Event>) {
    es != [] && es[0] == HeadersComplete && forall i :: 1 <= i < |es| ==> es[i].Data?
  }

  lemma {:induction false} OnlyDataNorm(es: seq<Event>)
    requires OnlyData(es)
    ensures Norm(es) == if |es| == 1 then [HeadersComplete] else [HeadersComplete, Data(Text(es))]
  {
    hide Norm, Push, Text;
    var n := |es| - 1;
    var m, e := es[..n], es[n];
    assert es == m + [e];
    NormPush(m, e);
    TextPlus(m, e);
    if n == 0 {
      NormEmpty();
      PushCases([], e);
    } else {
      OnlyDataNorm(m);
      PushCases(Norm(m), e);
      if n == 1 {
        assert m == [] + [HeadersComplete];
        TextPlus([], HeadersComplete);
        TextEmpty();
        assert "" + "" + e.text == e.text;
      }
    }
  }

  lemma {:induction false} NormEmpty()
    ensures Norm([]) == []
  {}

  // --- The parser inside a part ---

  predicate InPart(core: Core) {
    core.state in {PartData, PartDataAlmostBoundary, PartDataBoundary}
  }

  // The event for a byte read as data: a carriage return is held back.
  function Plain(c: char): Event {
    Data(if c == CR then "" else [c])
  }

  lemma {:induction false} DeltaPlain(b: string, core: Core, c: char)
    requires Delimiter(b) && core.state in {PartDataStart, PartData}
    ensures var m, next := Delta(b, core, c), Core(if c == CR then PartDataAlmostBoundary else PartData, core.index);
            m == Move(next, if core.state == PartData then [Plain(c)] else [HeadersComplete, Plain(c)])
  {
    assert "" + [c] == [c];
  }

  lemma {:induction false} DeltaMatching(b: string, core: Core, c: char)
    requires Delimiter(b) && Fits(b, core) && core.state in {PartDataAlmostBoundary, PartDataBoundary}
    ensures var m, i := Delta(b, core, c), core.index;
            var next := Core(if c == CR then PartDataAlmostBoundary else PartData, i);
            && (core.state == PartDataAlmostBoundary ==>
                  m == if c == LF then Move(Core(PartDataBoundary, 0), []) else Move(next, [Data([CR]), Plain(c)]))
            && (core.state == PartDataBoundary ==>
                  m == if c != b[i] then Move(next, [Data(Held(b, core)), Plain(c)])
                       else if i == |b| - 1 then Move(Core(PartDataAlmostEnd, i + 1), [PartEnd])
                       else Move(Core(PartDataBoundary, i + 1), []))
  {
    assert "" + [c] == [c];
    assert Closing(b)[..1] == [CR];
  }

  lemma {:induction false} DeltaData(b: string, core: Core, c: char)
    requires Delimiter(b) && Fits(b, core) && (InPart(core) || core.state == PartDataStart)
    ensures var m, i := Delta(b, core, c), core.index;
            var next := Core(if c == CR then PartDataAlmostBoundary else PartData, i);
            && (core.state == PartDataStart ==> m == Move(next, [HeadersComplete, Plain(c)]))
            && (core.state == PartData ==> m == Move(next, [Plain(c)]))
            && (core.state == PartDataAlmostBoundary ==>
                  m == if c == LF then Move(Core(PartDataBoundary, 0), []) else Move(next, [Data([CR]), Plain(c)]))
            && (core.state == PartDataBoundary ==>
                  m == if c != b[i] then Move(next, [Data(Held(b, core)), Plain(c)])
                       else if i == |b| - 1 then Move(Core(PartDataAlmostEnd, i + 1), [PartEnd])
                       else Move(Core(PartDataBoundary, i + 1), []))
  {
    hide Delta;
    if core.state in {PartDataStart, PartData} {
      DeltaPlain(b, core, c);
    } else {
      DeltaMatching(b, core, c);
    }
  }

  lemma {:induction false} TextTwo(e: Event, t: string)
    ensures Text([Data(t)]) == t && (!e.Data? ==> Text([e, Data(t)]) == t) && (e.Data? ==> Text([e, Data(t)]) == e.text + t)
  {
    assert [e, Data(t)][..1] == [e] && [e][..0] == [] && [Data(t)][..0] == [];
  }

  // One byte inside a part that does not complete the delimiter: what is passed on and held back grows by it.
  lemma {:induction false} DataStep(b: string, core: Core, c: char)
    requires Delimiter(b) && Fits(b, core) && (InPart(core) || core.state == PartDataStart)
    requires !(core.state == PartDataBoundary && core.index == |b| - 1 && c == b[|b| - 1])
    ensures var m := Delta(b, core, c);
            && m.Move? && InPart(m.core)
            && (core.state == PartDataStart ==> OnlyData(m.es) && |m.es| == 2)
            && (core.state != PartDataStart ==> forall i :: 0 <= i < |m.es| ==> m.es[i].Data?)
            && Text(m.es) + Held(b, m.core) == Held(b, core) + [c]
  {
    hide Text, Delta;
    DeltaData(b, core, c);
    var m := Delta(b, core, c);
    if m.es == [] {
      assert Text([]) == "" by { TextEmpty(); }
      assert Held(b, m.core) == Held(b, core) + [c];
    } else if |m.es| == 1 {
      TextTwo(HeadersComplete, m.es[0].text);
      assert m.es == [m.es[0]];
    } else {
      TextTwo(m.es[0], m.es[1].text);
      assert m.es == [m.es[0], m.es[1]];
    }
  }

  lemma {:induction false} TextEmpty()
    ensures Text([]) == ""
  {}

  lemma {:induction false} TextCat(x: seq<Event>, y: seq<Event>)
    ensures Text(x + y) == Text(x) + Text(y)
  {
    if y == [] {
      assert x + y == x && Text(x) + "" == Text(x);
    } else {
      var n := |y| - 1;
      assert x + y == x + y[..n] + [y[n]] && y == y[..n] + [y[n]];
      TextCat(x, y[..n]);
      TextPlus(x + y[..n], y[n]);
    }
  }

  lemma {:induction false} OpenPrefix(b: string, s: string, n: nat)
    requires Open(b, s) && n <= |s|
    ensures Open(b, s[..n])
  {
    forall k | 0 <= k <= n ensures !EndsWith(s[..n][..k], Closing(b)) {
      assert s[..n][..k] == s[..k];
    }
  }

  // What the parser has passed on, with what it holds back, is what it has read.
  predicate Exact(b: string, core: Core, es: seq<Event>, s: string)
    requires Fits(b, core)
  {
    if s == "" then core.state == PartDataStart && es == []
    else InPart(core) && OnlyData(es) && |es| >= 2 && Text(es) + Held(b, core) == s
  }

  // What it holds back is all that could still become the delimiter.
  ghost predicate Longest(b: string, core: Core, s: string) {
    forall j :: 1 <= j <= |Closing(b)| && EndsWith(s, Closing(b)[..j]) ==> j == Matched(core)
  }

  lemma {:induction false} EndsWithStep(b: string, s: string, c: char, j: nat)
    requires 1 <= j <= |Closing(b)| && EndsWith(s + [c], Closing(b)[..j])
    ensures c == Closing(b)[j - 1] && (j > 1 ==> EndsWith(s, Closing(b)[..j - 1]))
  {
    var d, w := Closing(b)[..j], s + [c];
    assert w[|w| - 1] == d[j - 1];
    if j > 1 {
      assert s[|s| - (j - 1)..] == w[|w| - j..][..j - 1] == Closing(b)[..j - 1];
    }
  }

  lemma {:induction false} LongestStep(b: string, core: Core, s: string, c: char)
    requires Delimiter(b) && Fits(b, core) && (InPart(core) || core.state == PartDataStart) && Longest(b, core, s)
    requires !(core.state == PartDataBoundary && core.index == |b| - 1 && c == b[|b| - 1])
    ensures Longest(b, Delta(b, core, c).core, s + [c])
  {
    hide Delta, EndsWith;
    DeltaData(b, core, c);
    var m := Delta(b, core, c).core;
    forall j | 1 <= j <= |Closing(b)| && EndsWith(s + [c], Closing(b)[..j]) ensures j == Matched(m) {
      EndsWithStep(b, s, c, j);
      assert j > 1 ==> Matched(core) == j - 1;
    }
  }

  lemma {:induction false} Completed(b: string, core: Core, es: seq<Event>, s: string)
    requires Delimiter(b) && Fits(b, core) && Exact(b, core, es, s)
    requires core.state == PartDataBoundary && core.index == |b| - 1
    ensures EndsWith(s + [b[|b| - 1]], Closing(b))
  {
    var c := b[|b| - 1];
    assert Held(b, core) + [c] == Closing(b);
    assert s + [c] == Text(es) + Closing(b);
  }

  lemma {:induction false} ExactStep(b: string, core: Core, es: seq<Event>, s: string, c: char)
    requires Delimiter(b) && Fits(b, core) && Exact(b, core, es, s)
    requires !(core.state == PartDataBoundary && core.index == |b| - 1 && c == b[|b| - 1])
    ensures var m := Delta(b, core, c); m.Move? && Exact(b, m.core, es + m.es, s + [c])
  {
    hide Delta, Held, Text, Fits;
    DataStep(b, core, c);
    var m := Delta(b, core, c);
    TextCat(es, m.es);
    if s == "" {
      assert es + m.es == m.es && Held(b, core) + [c] == [c] by { HeldNothing(b, core); }
    } else {
      assert Text(es) + Text(m.es) + Held(b, m.core) == Text(es) + (Text(m.es) + Held(b, m.core));
      assert Text(es) + (Held(b, core) + [c]) == Text(es) + Held(b, core) + [c];
    }
  }

  lemma {:induction false} HeldNothing(b: string, core: Core)
    requires Fits(b, core) && Matched(core) == 0
    ensures Held(b, core) == ""
  {}

  // As long as no delimiter is complete, part data is passed on exactly.
  lemma {:induction false} DataExact(b: string, i: nat, s: string)
    requires Delimiter(b) && Open(b, s)
    ensures var m := Bytes(b, Core(PartDataStart, i), s);
            m.Move? && Exact(b, m.core, m.es, s) && Longest(b, m.core, s)
    ensures NamesEndInColon(b, Core(PartDataStart, i), s)
  {
    hide Delta, Held, Text, OnlyData, EndsWith;
    var start := Core(PartDataStart, i);
    if s == "" {
      assert forall j :: 1 <= j <= |Closing(b)| ==> !EndsWith("", Closing(b)[..j]) by { EndsWithEmpty(b); }
    } else {
      var n := |s| - 1;
      var s', c := s[..n], s[n];
      OpenPrefix(b, s, n);
      DataExact(b, i, s');
      var m := Bytes(b, start, s');
      assert s' + [c] == s && s[..|s|] == s;
      if m.core.state == PartDataBoundary && m.core.index == |b| - 1 && c == b[|b| - 1] {
        Completed(b, m.core, m.es, s');
        assert false;
      }
      ExactStep(b, m.core, m.es, s', c);
      LongestStep(b, m.core, s', c);
      forall k: nat ensures !BareName(b, start, s, k) {
        if k < n {
          assert s'[..k] == s[..k] && !BareName(b, start, s', k);
        }
      }
    }
  }

  lemma {:induction false} EndsWithEmpty(b: string)
    ensures forall j :: 1 <= j <= |Closing(b)| ==> !EndsWith("", Closing(b)[..j])
  {}

  lemma {:induction false} NamesJoin(b: string, core: Core, a: string, s: string)
    requires Delimiter(b) && Fits(b, core) && NamesEndInColon(b, core, a)
    requires Bytes(b, core, a).Move? && Bytes(b, core, a).core.state != HeaderField
    requires NamesEndInColon(b, Bytes(b, core, a).core, s)
    ensures NamesEndInColon(b, core, a + s)
  {
    hide Bytes, Delimiter;
    forall k: nat ensures !BareName(b, core, a + s, k) {
      if k < |a| {
        assert (a + s)[..k] == a[..k] && !BareName(b, core, a, k);
      } else if k < |a + s| {
        assert (a + s)[..k] == a + s[..k - |a|] && !BareName(b, Bytes(b, core, a).core, s, k - |a|);
        BytesCat(b, core, a, s[..k - |a|]);
        if k == |a| { BytesNothing(b, Bytes(b, core, a).core); assert s[..0] == ""; }
      }
    }
  }

  lemma {:induction false} BytesNothing(b: string, core: Core)
    requires Delimiter(b) && Fits(b, core)
    ensures Bytes(b, core, "") == Move(core, []) && NamesEndInColon(b, core, "")
  {}

  // From anywhere inside a part, the delimiter brings out what was held back, and then the part's end.
  lemma {:induction false} ClosingRun(b: string, core: Core, k: nat)
    requires Delimiter(b) && Fits(b, core) && (InPart(core) || core.state == PartDataStart) && 1 <= k <= |Closing(b)|
    ensures var d, first, m := Closing(b), Delta(b, core, CR), Bytes(b, core, Closing(b)[..k]);
            && first.Move? && m.Move?
            && (k < |d| ==> Matched(m.core) == k && InPart(m.core) && m.es == first.es)
            && (k == |d| ==> m == Move(Core(PartDataAlmostEnd, |b|), first.es + [PartEnd]))
    ensures NamesEndInColon(b, core, Closing(b)[..k])
  {
    hide Delta;
    var d := Closing(b);
    DeltaData(b, core, CR);
    if k == 1 {
      assert d[..1] == [CR];
      BytesOne(b, core, CR);
      BytesNothing(b, core);
    } else {
      ClosingRun(b, core, k - 1);
      var m := Bytes(b, core, d[..k - 1]);
      assert d[..k][..k - 1] == d[..k - 1];
      DeltaData(b, m.core, d[k - 1]);
      assert forall es: seq<Event> :: es + [] == es;
      forall i: nat ensures !BareName(b, core, d[..k], i) {
        if i < k - 1 {
          assert d[..k][..i] == d[..k - 1][..i] && !BareName(b, core, d[..k - 1], i);
        }
      }
    }
  }

  // The carriage return that may begin the delimiter brings out everything before it.
  lemma {:induction false} ClosingStart(b: string, core: Core, es: seq<Event>, body: string)
    requires Delimiter(b) && Fits(b, core) && Exact(b, core, es, body)
    ensures var first := Delta(b, core, CR);
            first.Move? && OnlyData(es + first.es) && |es + first.es| >= 2 && Text(es + first.es) == body
  {
    hide Delta, Text;
    DeltaData(b, core, CR);
    DataStep(b, core, CR);
    var first := Delta(b, core, CR);
    TextCat(es, first.es);
    var t, h := Text(first.es), Held(b, core);
    assert Held(b, first.core) == [CR];
    assert t == (t + [CR])[..|t + [CR]| - 1] == (h + [CR])[..|h + [CR]| - 1] == h;
    if body == "" {
      TextEmpty();
    }
  }

  // A part's body comes out exactly, and its end at the first delimiter that is complete.
  lemma {:induction false} PartExact(b: string, i: nat, body: string)
    requires Delimiter(b) && Open(b, body)
    ensures var start, s := Core(PartDataStart, i), body + Closing(b);
            var m := Bytes(b, start, s);
            && m.Move? && m.core == Core(PartDataAlmostEnd, |b|) && NamesEndInColon(b, start, s)
            && Norm(m.es) == [HeadersComplete, Data(body), PartEnd]
  {
    hide Delta, Text, Open, Norm, Push, Held, NamesEndInColon, OnlyData;
    var start, d := Core(PartDataStart, i), Closing(b);
    DataExact(b, i, body);
    var m := Bytes(b, start, body);
    ClosingRun(b, m.core, |d|);
    assert d[..|d|] == d;
    BytesCat(b, start, body, d);
    NamesJoin(b, start, body, d);
    ClosingStart(b, m.core, m.es, body);
    var first := Delta(b, m.core, CR);
    var es := m.es + first.es;
    OnlyDataNorm(es);
    NormPush(es, PartEnd);
    PushCases(Norm(es), PartEnd);
    assert m.es + (first.es + [PartEnd]) == es + [PartEnd];
  }

  lemma {:induction false} NormPair(t: string)
    ensures Norm([HeadersComplete, Data(t)]) == [HeadersComplete, Data(t)]
    ensures Norm([HeadersComplete, Data(t), PartEnd]) == [HeadersComplete, Data(t), PartEnd]
  {
    hide Text;
    var es := [HeadersComplete, Data(t)];
    OnlyDataNorm(es);
    TextTwo(HeadersComplete, t);
    assert es + [PartEnd] == [HeadersComplete, Data(t), PartEnd];
    NormPush(es, PartEnd);
  }

  // Whatever the cutting: as long as no delimiter is complete, the part data passed on and the bytes held back make up
  // what was fed since the part's headers ended, ...
  lemma {:induction false} PartDataPending(b: string, i: nat, log: seq<Event>, pieces: seq<string>)
    requires Delimiter(b) && Open(b, Concat(pieces)) && Concat(pieces) != ""
    ensures var r := Feed(b, Willing(), Core(PartDataStart, i), log, pieces);
            && r.left == 0 && InPart(r.core)
            && exists text :: text + Held(b, r.core) == Concat(pieces)
                           && Norm(r.log) == Norm(log + [HeadersComplete, Data(text)])
  {
    hide Text, Open, Norm, Push, Held, NamesEndInColon, Feed;
    var start, s := Core(PartDataStart, i), Concat(pieces);
    DataExact(b, i, s);
    FeedBytes(b, start, log, pieces);
    var m := Bytes(b, start, s);
    OnlyDataNorm(m.es);
    NormPair(Text(m.es));
    NormWithin(log, m.es, [HeadersComplete, Data(Text(m.es))]);
  }

  // ... and the end of the part is reported at the first complete delimiter, with exactly the body before it.
  lemma {:induction false} PartDataWhole(b: string, i: nat, log: seq<Event>, body: string, pieces: seq<string>)
    requires Delimiter(b) && Open(b, body) && Concat(pieces) == body + Closing(b)
    ensures var r := Feed(b, Willing(), Core(PartDataStart, i), log, pieces);
            && r.left == 0 && r.core == Core(PartDataAlmostEnd, |b|)
            && Norm(r.log) == Norm(log + [HeadersComplete, Data(body), PartEnd])
  {
    hide Open, Norm, Push, NamesEndInColon, Feed, Bytes;
    var start := Core(PartDataStart, i);
    PartExact(b, i, body);
    FeedBytes(b, start, log, pieces);
    var m := Bytes(b, start, body + Closing(b));
    NormPair(body);
    NormWithin(log, m.es, [HeadersComplete, Data(body), PartEnd]);
  }
}
