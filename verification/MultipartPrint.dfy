// Printing parts by section 5.1.1 of RFC 2046 and parsing the result.
module MultipartPrint {
  import opened Multipart
  import opened MultipartChunks
  import opened MultipartData

  datatype Header = Header(name: string, value: string)
  datatype Part = Part(headers: seq<Header>, body: string)

  predicate NameText(s: string) {
    forall i :: 0 <= i < |s| ==> NameChar(s[i])
  }

  predicate ValueText(s: string) {
    CR !in s && (s == "" || s[0] != ' ')
  }

  ghost predicate Printable(b: string, p: Part) {
    && (forall i :: 0 <= i < |p.headers| ==> NameText(p.headers[i].name) && ValueText(p.headers[i].value))
    && Open(b, p.body)
  }

  function PrintHeader(h: Header): string {
    h.name + ":" + (" " + h.value + [CR, LF])
  }

  function PrintHeaders(hs: seq<Header>): string {
    if hs == [] then "" else PrintHeaders(hs[..|hs| - 1]) + PrintHeader(hs[|hs| - 1])
  }

  // What follows a delimiter: "--" behind the last part, another part otherwise.
  function PrintParts(b: string, parts: seq<Part>): string {
    if parts == [] then "--" else [CR, LF] + (PrintPart(b, parts[0]) + PrintParts(b, parts[1..]))
  }

  // A part with the delimiter behind it.
  function PrintPart(b: string, p: Part): string {
    PrintHeaders(p.headers) + ([CR, LF] + (p.body + Closing(b)))
  }

  function Print(b: string, parts: seq<Part>): string {
    b + PrintParts(b, parts)
  }

  function HeaderEvents(hs: seq<Header>): seq<Event> {
    if hs == [] then [] else
      HeaderEvents(hs[..|hs| - 1]) + [Field(hs[|hs| - 1].name), Value(hs[|hs| - 1].value)]
  }

  // The callbacks that a list of parts calls for.
  function PartEvents(parts: seq<Part>): seq<Event> {
    if parts == [] then [BodyEnd]
    else [PartBegin] + (InnerEvents(parts[0]) + PartEvents(parts[1..]))
  }

  function InnerEvents(p: Part): seq<Event> {
    HeaderEvents(p.headers) + [HeadersComplete, Data(p.body), PartEnd]
  }

  // The reference reads s from one state to another with these events, up to joining texts, and no header name in s
  // lacks its colon.
  ghost predicate Reads(b: string, from: Core, s: string, to: Core, es: seq<Event>) {
    && Delimiter(b) && Fits(b, from) && Fits(b, to)
    && Bytes(b, from, s).Move? && Bytes(b, from, s).core == to && Norm(Bytes(b, from, s).es) == Norm(es)
    && NamesEndInColon(b, from, s)
  }

  lemma {:induction false} ReadsThen(b: string, c0: Core, s: string, c1: Core, es: seq<Event>, s': string, c2: Core, es': seq<Event>)
    requires Reads(b, c0, s, c1, es) && Reads(b, c1, s', c2, es') && c1.state != HeaderField
    ensures Reads(b, c0, s + s', c2, es + es')
  {
    hide Bytes, Norm, NamesEndInColon, Fits;
    BytesCat(b, c0, s, s');
    NamesJoin(b, c0, s, s');
    var m, m' := Bytes(b, c0, s), Bytes(b, c1, s');
    NormAfter(m.es, es, m'.es);
    NormWithin(es, m'.es, es');
  }

  lemma {:induction false} ReadsSame(b: string, c0: Core, s: string, c1: Core, es: seq<Event>, es': seq<Event>)
    requires Reads(b, c0, s, c1, es) && Norm(es) == Norm(es')
    ensures Reads(b, c0, s, c1, es')
  {}

  lemma {:induction false} ReadsNothing(b: string, c: Core)
    requires Delimiter(b) && Fits(b, c)
    ensures Reads(b, c, "", c, [])
  {}

  lemma {:induction false} ReadsPlus(b: string, c0: Core, s: string, c1: Core, es: seq<Event>, c: char)
    requires Reads(b, c0, s, c1, es) && Delta(b, c1, c).Move? && !(s != "" && c1.state == HeaderField && c == CR)
    ensures Reads(b, c0, s + [c], Delta(b, c1, c).core, es + Delta(b, c1, c).es)
  {
    hide Norm, Delta, Fits;
    BytesCat(b, c0, s, [c]);
    BytesOne(b, c1, c);
    NormAfter(Bytes(b, c0, s).es, es, Delta(b, c1, c).es);
    forall k: nat ensures !BareName(b, c0, s + [c], k) {
      if k < |s| {
        assert (s + [c])[..k] == s[..k] && !BareName(b, c0, s, k);
      } else if k == |s| {
        assert (s + [c])[..k] == s;
      }
    }
  }

  // --- Headers ---

  lemma {:induction false} NameDelta(b: string, i: nat, c: char)
    requires Delimiter(b)
    ensures NameChar(c) ==> Delta(b, Core(HeaderFieldStart, i), c) == Delta(b, Core(HeaderField, i), c)
                                == Move(Core(HeaderField, i), [Field([c])])
    ensures Delta(b, Core(HeaderFieldStart, i), ':') == Delta(b, Core(HeaderField, i), ':')
         == Move(Core(HeaderValueStart, i), [Field("")])
    ensures Delta(b, Core(HeaderFieldStart, i), CR) == Move(Core(HeadersAlmostDone, i), [])
    ensures Delta(b, Core(HeadersAlmostDone, i), LF) == Move(Core(PartDataStart, i), [])
  {
    assert "" + [c] == [c];
  }

  lemma {:induction false} ValueDelta(b: string, i: nat, c: char)
    requires Delimiter(b)
    ensures Delta(b, Core(HeaderValueStart, i), ' ') == Move(Core(HeaderValueStart, i), [])
    ensures Delta(b, Core(HeaderValueStart, i), CR) == Delta(b, Core(HeaderValue, i), CR)
         == Move(Core(HeaderValueAlmostDone, i), [Value("")])
    ensures c != CR ==> Delta(b, Core(HeaderValue, i), c) == Move(Core(HeaderValue, i), [Value([c])])
    ensures c != CR && c != ' ' ==> Delta(b, Core(HeaderValueStart, i), c) == Move(Core(HeaderValue, i), [Value([c])])
    ensures Delta(b, Core(HeaderValueAlmostDone, i), LF) == Move(Core(HeaderFieldStart, i), [])
  {
    assert "" + [c] == [c];
  }

  // Text read byte by byte comes to one event.
  lemma {:induction false} NormText(e: Event, t: string, u: string)
    requires Carries(e)
    ensures Norm([WithText(e, t)] + [WithText(e, u)]) == Norm([WithText(e, t + u)])
  {
    hide Norm;
    NormJoin([], e, t, u);
    assert [] + [WithText(e, t)] + [WithText(e, u)] == [WithText(e, t)] + [WithText(e, u)];
    assert [] + [WithText(e, t + u)] == [WithText(e, t + u)];
  }

  lemma {:induction false} NameOne(b: string, i: nat, c: char)
    requires Delimiter(b) && NameChar(c)
    ensures Reads(b, Core(HeaderFieldStart, i), [c], Core(HeaderField, i), [Field([c])])
  {
    hide Norm, Delta, Reads, NameChar;
    var start := Core(HeaderFieldStart, i);
    NameDelta(b, i, c);
    ReadsNothing(b, start);
    ReadsPlus(b, start, "", start, [], c);
    assert "" + [c] == [c];
    assert [] + [Field([c])] == [Field([c])];
  }

  lemma {:induction false} NameRun(b: string, i: nat, name: string)
    requires Delimiter(b) && NameText(name) && name != ""
    ensures Reads(b, Core(HeaderFieldStart, i), name, Core(HeaderField, i), [Field(name)])
  {
    hide Norm, Delta, Reads, NameChar;
    var n := |name| - 1;
    var s, c := name[..n], name[n];
    if n == 0 {
      NameOne(b, i, c);
      assert name == [c];
    } else {
      NameRun(b, i, s);
      NameDelta(b, i, c);
      ReadsPlus(b, Core(HeaderFieldStart, i), s, Core(HeaderField, i), [Field(s)], c);
      NormText(Field(""), s, [c]);
      assert name == s + [c];
      ReadsSame(b, Core(HeaderFieldStart, i), name, Core(HeaderField, i), [Field(s)] + [Field([c])], [Field(name)]);
    }
  }

  lemma {:induction false} FieldRun(b: string, i: nat, name: string)
    requires Delimiter(b) && NameText(name)
    ensures Reads(b, Core(HeaderFieldStart, i), name + ":", Core(HeaderValueStart, i), [Field(name)])
  {
    hide Norm, Delta, Reads;
    var start, next := Core(HeaderFieldStart, i), Core(HeaderValueStart, i);
    NameDelta(b, i, '-');
    if name == "" {
      ReadsNothing(b, start);
      ReadsPlus(b, start, "", start, [], ':');
      assert [] + [Field("")] == [Field(name)];
    } else {
      NameRun(b, i, name);
      ReadsPlus(b, start, name, Core(HeaderField, i), [Field(name)], ':');
      NormText(Field(""), name, "");
      assert name + "" == name;
      ReadsSame(b, start, name + ":", next, [Field(name)] + [Field("")], [Field(name)]);
    }
  }

  // The spaces that a header value's text begins with are not part of the value.
  function Spaces(text: string): (k: nat)
    ensures k <= |text| && (k < |text| ==> text[k] != ' ')
  {
    if text != "" && text[0] == ' ' then 1 + Spaces(text[1..]) else 0
  }

  lemma {:induction false} SpacesPlus(text: string, c: char)
    ensures Spaces(text + [c]) == if Spaces(text) == |text| && c == ' ' then |text| + 1 else Spaces(text)
  {
    if text == "" {
      assert text + [c] == [c] && [c][1..] == "";
    } else if text[0] == ' ' {
      assert (text + [c])[1..] == text[1..] + [c];
      SpacesPlus(text[1..], c);
    }
  }

  // A header value's text, as far as it has come.
  lemma {:induction false} ValueRun(b: string, i: nat, text: string)
    requires Delimiter(b) && CR !in text
    ensures var k := Spaces(text);
            Reads(b, Core(HeaderValueStart, i), text, Core(if k == |text| then HeaderValueStart else HeaderValue, i),
                  if k == |text| then [] else [Value(text[k..])])
  {
    hide Norm, Delta, Reads, Spaces;
    var start, to := Core(HeaderValueStart, i), Core(HeaderValue, i);
    if text == "" {
      ReadsNothing(b, start);
    } else {
      var n := |text| - 1;
      var t, c := text[..n], text[n];
      var k := Spaces(t);
      ValueRun(b, i, t);
      ValueDelta(b, i, c);
      SpacesPlus(t, c);
      assert t + [c] == text;
      var none: seq<Event> := [];
      assert none + [] == none && none + [Value([c])] == [Value([c])];
      if k == n {
        ReadsPlus(b, start, t, start, none, c);
        assert text[n..] == [c];
      } else {
        ReadsPlus(b, start, t, to, [Value(t[k..])], c);
        NormText(Value(""), t[k..], [c]);
        assert t[k..] + [c] == text[k..];
        ReadsSame(b, start, text, to, [Value(t[k..])] + [Value([c])], [Value(text[k..])]);
      }
    }
  }

  lemma {:induction false} ValueLine(b: string, i: nat, text: string)
    requires Delimiter(b) && CR !in text
    ensures Reads(b, Core(HeaderValueStart, i), text + [CR], Core(HeaderValueAlmostDone, i), [Value(text[Spaces(text)..])])
    ensures Reads(b, Core(HeaderValueStart, i), text + [CR, LF], Core(HeaderFieldStart, i), [Value(text[Spaces(text)..])])
  {
    hide Norm, Delta, Reads, Spaces;
    var start, mid, done := Core(HeaderValueStart, i), Core(HeaderValueAlmostDone, i), Core(HeaderFieldStart, i);
    var value := text[Spaces(text)..];
    ValueDelta(b, i, ' ');
    ValueRun(b, i, text);
    if value == "" {
      ReadsPlus(b, start, text, start, [], CR);
      assert [] + [Value("")] == [Value(value)];
    } else {
      ReadsPlus(b, start, text, Core(HeaderValue, i), [Value(value)], CR);
      NormText(Value(""), value, "");
      assert value + "" == value;
      ReadsSame(b, start, text + [CR], mid, [Value(value)] + [Value("")], [Value(value)]);
    }
    ReadsPlus(b, start, text + [CR], mid, [Value(value)], LF);
    assert text + [CR] + [LF] == text + [CR, LF] && [Value(value)] + [] == [Value(value)];
  }

  lemma PrintedValue(value: string)
    requires ValueText(value)
    ensures CR !in " " + value && (" " + value)[Spaces(" " + value)..] == value
  {
    assert (" " + value)[1..] == value;
  }

  lemma {:induction false} HeadersRun(b: string, i: nat, hs: seq<Header>)
    requires Delimiter(b) && forall j :: 0 <= j < |hs| ==> NameText(hs[j].name) && ValueText(hs[j].value)
    ensures Reads(b, Core(HeaderFieldStart, i), PrintHeaders(hs), Core(HeaderFieldStart, i), HeaderEvents(hs))
  {
    hide Norm, Delta, Reads, NameText, ValueText;
    var start := Core(HeaderFieldStart, i);
    if hs == [] {
      ReadsNothing(b, start);
    } else {
      var h, hs' := hs[|hs| - 1], hs[..|hs| - 1];
      HeadersRun(b, i, hs');
      FieldRun(b, i, h.name);
      PrintedValue(h.value) by { assert ValueText(hs[|hs| - 1].value); }
      ValueLine(b, i, " " + h.value);
      ReadsThen(b, start, h.name + ":", Core(HeaderValueStart, i), [Field(h.name)],
                " " + h.value + [CR, LF], start, [Value(h.value)]);
      assert [Field(h.name)] + [Value(h.value)] == [Field(h.name), Value(h.value)];
      ReadsThen(b, start, PrintHeaders(hs'), start, HeaderEvents(hs'), PrintHeader(h), start, [Field(h.name), Value(h.value)]);
    }
  }

  // --- Parts ---

  lemma {:induction false} EdgeDelta(b: string, i: nat)
    requires Delimiter(b)
    ensures Delta(b, Core(PartDataAlmostEnd, i), CR) == Move(Core(PartDataEnd, i), [])
    ensures Delta(b, Core(PartDataEnd, i), LF) == Move(Core(HeaderFieldStart, i), [PartBegin])
    ensures Delta(b, Core(PartDataAlmostEnd, i), '-') == Move(Core(PartDataFinalHyphen, i), [])
    ensures Delta(b, Core(PartDataFinalHyphen, i), '-') == Move(Core(End, i), [BodyEnd])
  {}

  lemma {:induction false} EndDelta(b: string, i: nat, c: char)
    requires Delimiter(b)
    ensures Delta(b, Core(End, i), c) == Move(Core(End, i), [])
  {}

  lemma {:induction false} OpeningDelta(b: string, i: nat)
    requires Delimiter(b)
    ensures i < |b| ==> Delta(b, Core(StartBoundary, i), b[i]) == Move(Core(StartBoundary, i + 1), [])
    ensures i == 0 ==> Delta(b, Core(Start, i), b[0]) == Move(Core(StartBoundary, 1), [])
    ensures i == |b| ==> Delta(b, Core(StartBoundary, i), CR) == Move(Core(StartBoundary, i + 1), [])
    ensures i == |b| + 1 ==> Delta(b, Core(StartBoundary, i), LF) == Move(Core(HeaderFieldStart, 0), [PartBegin])
  {}

  // Two bytes from one state through another.
  lemma {:induction false} ReadsTwo(b: string, c0: Core, x: char, c1: Core, y: char, c2: Core, es: seq<Event>)
    requires Delimiter(b) && Fits(b, c0) && Delta(b, c0, x) == Move(c1, []) && c1.state != HeaderField
    requires Fits(b, c1) && Delta(b, c1, y) == Move(c2, es)
    ensures Reads(b, c0, [x, y], c2, es)
  {
    hide Norm, Delta, Reads;
    var none: seq<Event> := [];
    ReadsNothing(b, c0);
    ReadsPlus(b, c0, "", c0, [], x);
    assert "" + [x] == [x] && [x] + [y] == [x, y] && none + [] == none && none + es == es;
    ReadsPlus(b, c0, [x], c1, [], y);
  }

  lemma {:induction false} OpeningRun(b: string, k: nat)
    requires Delimiter(b) && 1 <= k <= |b|
    ensures Reads(b, Core(Start, 0), b[..k], Core(StartBoundary, k), [])
  {
    hide Norm, Delta, Reads;
    var start := Core(Start, 0);
    var none: seq<Event> := [];
    assert b[..k] == b[..k - 1] + [b[k - 1]] && none + [] == none;
    if k == 1 {
      OpeningDelta(b, 0);
      ReadsNothing(b, start);
      ReadsPlus(b, start, "", start, [], b[0]);
      assert b[..0] == "";
    } else {
      OpeningDelta(b, k - 1);
      OpeningRun(b, k - 1);
      ReadsPlus(b, start, b[..k - 1], Core(StartBoundary, k - 1), [], b[k - 1]);
    }
  }

  lemma {:induction false} OpeningLine(b: string)
    requires Delimiter(b)
    ensures Reads(b, Core(Start, 0), b + [CR, LF], Core(HeaderFieldStart, 0), [PartBegin])
  {
    hide Norm, Delta, Reads;
    OpeningDelta(b, |b|);
    OpeningDelta(b, |b| + 1);
    OpeningRun(b, |b|);
    assert b[..|b|] == b && [] + [PartBegin] == [PartBegin];
    ReadsTwo(b, Core(StartBoundary, |b|), CR, Core(StartBoundary, |b| + 1), LF, Core(HeaderFieldStart, 0), [PartBegin]);
    ReadsThen(b, Core(Start, 0), b, Core(StartBoundary, |b|), [], [CR, LF], Core(HeaderFieldStart, 0), [PartBegin]);
  }

  lemma {:induction false} BodyRun(b: string, i: nat, body: string)
    requires Delimiter(b) && Open(b, body)
    ensures Reads(b, Core(PartDataStart, i), body + Closing(b), Core(PartDataAlmostEnd, |b|),
                  [HeadersComplete, Data(body), PartEnd])
  {
    hide Norm, Bytes, NamesEndInColon, Open;
    PartExact(b, i, body);
    NormPair(body);
  }

  // A part from its first header to the delimiter behind it.
  lemma {:induction false} PartRun(b: string, i: nat, p: Part)
    requires Delimiter(b) && Printable(b, p)
    ensures Reads(b, Core(HeaderFieldStart, i), PrintPart(b, p), Core(PartDataAlmostEnd, |b|), InnerEvents(p))
  {
    hide Norm, Delta, Reads, NameText, ValueText, Open;
    var start, body := Core(HeaderFieldStart, i), Core(PartDataStart, i);
    HeadersRun(b, i, p.headers);
    NameDelta(b, i, '-');
    var none: seq<Event> := [];
    ReadsTwo(b, start, CR, Core(HeadersAlmostDone, i), LF, body, []);
    BodyRun(b, i, p.body);
    var es := [HeadersComplete, Data(p.body), PartEnd];
    ReadsThen(b, start, [CR, LF], body, [], p.body + Closing(b), Core(PartDataAlmostEnd, |b|), es);
    assert none + es == es;
    ReadsThen(b, start, PrintHeaders(p.headers), start, HeaderEvents(p.headers),
              [CR, LF] + (p.body + Closing(b)), Core(PartDataAlmostEnd, |b|), es);
  }

  lemma {:induction false} PartsRun(b: string, parts: seq<Part>)
    requires Delimiter(b) && forall k :: 0 <= k < |parts| ==> Printable(b, parts[k])
    ensures Reads(b, Core(PartDataAlmostEnd, |b|), PrintParts(b, parts), Core(End, |b|), PartEvents(parts))
    decreases |parts|
  {
    hide Norm, Delta, Reads, Printable, PrintPart, InnerEvents;
    var start, headers, end := Core(PartDataAlmostEnd, |b|), Core(HeaderFieldStart, |b|), Core(End, |b|);
    EdgeDelta(b, |b|);
    if parts == [] {
      ReadsTwo(b, start, '-', Core(PartDataFinalHyphen, |b|), '-', end, [BodyEnd]);
    } else {
      var p, rest := parts[0], parts[1..];
      PartRun(b, |b|, p);
      PartsRun(b, rest);
      ReadsTwo(b, start, CR, Core(PartDataEnd, |b|), LF, headers, [PartBegin]);
      ReadsThen(b, headers, PrintPart(b, p), start, InnerEvents(p), PrintParts(b, rest), end, PartEvents(rest));
      ReadsThen(b, start, [CR, LF], headers, [PartBegin], PrintPart(b, p) + PrintParts(b, rest), end,
                InnerEvents(p) + PartEvents(rest));
    }
  }

  lemma {:induction false} EpilogueRun(b: string, i: nat, s: string)
    requires Delimiter(b)
    ensures Reads(b, Core(End, i), s, Core(End, i), [])
  {
    hide Norm, Delta, Reads;
    var end := Core(End, i);
    if s == "" {
      ReadsNothing(b, end);
    } else {
      var n := |s| - 1;
      var none: seq<Event> := [];
      EpilogueRun(b, i, s[..n]);
      EndDelta(b, i, s[n]);
      ReadsPlus(b, end, s[..n], end, [], s[n]);
      assert s == s[..n] + [s[n]] && none + [] == none;
    }
  }

  lemma {:induction false} PrintRun(b: string, parts: seq<Part>, epilogue: string)
    requires Delimiter(b) && parts != [] && forall k :: 0 <= k < |parts| ==> Printable(b, parts[k])
    ensures Reads(b, Core(Start, 0), Print(b, parts) + epilogue, Core(End, |b|), PartEvents(parts))
  {
    hide Norm, Delta, Reads, Printable, PrintPart, InnerEvents;
    var start, headers, next, end := Core(Start, 0), Core(HeaderFieldStart, 0), Core(PartDataAlmostEnd, |b|), Core(End, |b|);
    var p, rest := parts[0], parts[1..];
    OpeningLine(b);
    PartRun(b, 0, p);
    PartsRun(b, rest);
    ReadsThen(b, headers, PrintPart(b, p), next, InnerEvents(p), PrintParts(b, rest), end, PartEvents(rest));
    ReadsThen(b, start, b + [CR, LF], headers, [PartBegin], PrintPart(b, p) + PrintParts(b, rest), end,
              InnerEvents(p) + PartEvents(rest));
    assert b + [CR, LF] + (PrintPart(b, p) + PrintParts(b, rest)) == Print(b, parts);
    EpilogueRun(b, |b|, epilogue);
    ReadsThen(b, start, Print(b, parts), end, PartEvents(parts), epilogue, end, []);
    assert PartEvents(parts) + [] == PartEvents(parts);
  }

  // --- The events of a list of parts have nothing to join ---

  predicate Joined(es: seq<Event>) {
    forall i :: 0 < i < |es| ==> !Like(es[i - 1], es[i])
  }

  lemma {:induction false} JoinedNorm(es: seq<Event>)
    requires Joined(es)
    ensures Norm(es) == es
  {
    if es != [] {
      var n := |es| - 1;
      JoinedNorm(es[..n]);
      PushCases(es[..n], es[n]);
      if n > 0 { assert !Like(es[n - 1], es[n]); }
      assert es == es[..n] + [es[n]];
    }
  }

  lemma {:induction false} HeaderEventsJoined(hs: seq<Header>)
    ensures var es := HeaderEvents(hs); Joined(es) && (es != [] ==> es[0].Field? && es[|es| - 1].Value?)
  {
    if hs != [] {
      HeaderEventsJoined(hs[..|hs| - 1]);
    }
  }

  lemma {:induction false} PartEventsJoined(parts: seq<Part>)
    ensures var es := PartEvents(parts); es != [] && Joined(es) && !Carries(es[0])
  {
    if parts != [] {
      PartEventsJoined(parts[1..]);
      HeaderEventsJoined(parts[0].headers);
      var x, y := InnerEvents(parts[0]), PartEvents(parts[1..]);
      assert Joined(x) && !Carries(x[|x| - 1]);
      hide InnerEvents, PartEvents;
      assert Joined(x + y);
      assert PartEvents(parts) == [PartBegin] + (x + y) by { PartEventsFirst(parts); }
    }
  }

  lemma {:induction false} PartEventsFirst(parts: seq<Part>)
    requires parts != []
    ensures PartEvents(parts) == [PartBegin] + (InnerEvents(parts[0]) + PartEvents(parts[1..]))
  {}

  // The round trip: any list of parts, printed and fed to the parser in pieces of any sizes, is consumed to the end and
  // comes out as exactly its headers and bodies, in order.
  lemma {:induction false} RoundTrip(b: string, parts: seq<Part>, epilogue: string, pieces: seq<string>)
    requires Delimiter(b) && parts != [] && forall k :: 0 <= k < |parts| ==> Printable(b, parts[k])
    requires Concat(pieces) == Print(b, parts) + epilogue
    ensures var r := Feed(b, Willing(), Core(Start, 0), [], pieces);
            r.left == 0 && r.core.state == End && Norm(r.log) == PartEvents(parts)
  {
    hide Norm, Feed, Printable, PartEvents, Bytes, Delta, NamesEndInColon, Print;
    PrintRun(b, parts, epilogue);
    PartEventsJoined(parts);
    JoinedNorm(PartEvents(parts));
    FeedBytes(b, Core(Start, 0), [], pieces);
    var es := Bytes(b, Core(Start, 0), Concat(pieces)).es;
    assert [] + es == es;
  }
}
