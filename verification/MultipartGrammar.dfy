// Which inputs the multipart parser accepts, where it stops at the others, and what the accepted ones mean: a reading of
// the whole text by lines and delimiters (section 5.1.1 of RFC 2046), without states.
module MultipartGrammars {
  import opened Basics
  import opened Multipart
  import opened MultipartChunks
  import opened MultipartData
  import opened MultipartPrint
  import opened MultipartProtocol

  // The text cannot be the beginning of a multipart body, because of its byte `at`; or it is one, but the closing
  // delimiter has not come; or it is a whole body with these parts, and anything behind it.  It is plain if every header
  // name in it ends in a colon.
  datatype Verdict = Refused(at: nat) | Unfinished | Finished(parts: seq<Part>, plain: bool)

  // The same k bytes later.
  function Later(k: nat, v: Verdict): Verdict {
    if v.Refused? then Refused(k + v.at) else v
  }

  // With another header of the part that is being read, which stands first.
  function WithHeader(h: Header, v: Verdict): Verdict {
    if v.Finished? && v.parts != [] then
      v.(parts := [v.parts[0].(headers := [h] + v.parts[0].headers)] + v.parts[1..])
    else v
  }

  function WithPart(p: Part, v: Verdict): Verdict {
    if v.Finished? then v.(parts := [p] + v.parts) else v
  }

  function Plainly(plain: bool, v: Verdict): Verdict {
    if v.Finished? then v.(plain := plain && v.plain) else v
  }

  // How many bytes two texts have in common.
  function Common(s: string, t: string): (k: nat)
    ensures k <= |s| && k <= |t| && s[..k] == t[..k] && (k < |s| && k < |t| ==> s[k] != t[k])
  {
    if s == "" || t == "" || s[0] != t[0] then 0
    else
      assert s == [s[0]] + s[1..] && t == [t[0]] + t[1..];
      1 + Common(s[1..], t[1..])
  }

  // Letters and hyphens.
  lemma NameCodes(c: char)
    ensures NameChar(c) <==> c as int == 45 || 65 <= c as int <= 90 || 97 <= c as int <= 122
  {}

  function NameLength(s: string): (n: nat)
    ensures n <= |s| && NameText(s[..n]) && (n < |s| ==> !NameChar(s[n]))
  {
    if s == "" || !NameChar(s[0]) then 0
    else
      assert s == [s[0]] + s[1..];
      1 + NameLength(s[1..])
  }

  // Up to the first carriage return.
  function LineLength(s: string): (n: nat)
    ensures n <= |s| && CR !in s[..n] && (n < |s| ==> s[n] == CR)
  {
    if s == "" || s[0] == CR then 0
    else
      assert s == [s[0]] + s[1..];
      1 + LineLength(s[1..])
  }

  function Unspaced(text: string): string {
    text[Spaces(text)..]
  }

  // Where the first delimiter begins, line break included.
  function FirstClosing(b: string, s: string): (k: Option<nat>)
    ensures k.Some? ==> k.value + |b| + 2 <= |s| && s[k.value..k.value + |b| + 2] == Closing(b)
  {
    if |s| < |b| + 2 then None
    else if s[..|b| + 2] == Closing(b) then Some(0)
    else match FirstClosing(b, s[1..]) case None => None case Some(k) => Some(k + 1)
  }

  // A body begins with the delimiter and a line break.
  function Judge(b: string, s: string): Verdict {
    var opening := b + [CR, LF];
    var k := Common(s, opening);
    if k == |opening| then Later(k, Lines(b, s[k..]))
    else if k == |s| then Unfinished
    else Refused(k)
  }

  // The header lines of a part: a name, a colon, and a text whose leading spaces do not count; what is no such line must
  // be a line break at last, with or without a name in front of it.
  function Lines(b: string, s: string): Verdict
    decreases |s|, 2
  {
    var n := NameLength(s);
    if n == |s| then Unfinished
    else if s[n] == ':' then
      var k := n + 1 + LineLength(s[n + 1..]);
      if |s| <= k + 1 then Unfinished
      else if s[k + 1] != LF then Refused(k + 1)
      else Later(k + 2, WithHeader(Header(s[..n], Unspaced(s[n + 1..k])), Lines(b, s[k + 2..])))
    else if s[n] != CR then Refused(n)
    else if |s| == n + 1 then Unfinished
    else if s[n + 1] != LF then Refused(n + 1)
    else Later(n + 2, Plainly(n == 0, Contents(b, s[n + 2..])))
  }

  // The data of a part, up to the first delimiter.
  function Contents(b: string, s: string): Verdict
    decreases |s|, 1
  {
    match FirstClosing(b, s)
    case None => Unfinished
    case Some(k) => Later(k + |b| + 2, WithPart(Part([], s[..k]), Edge(b, s[k + |b| + 2..])))
  }

  // Behind a delimiter: "--" and anything, or a line break and the next part.
  function Edge(b: string, s: string): Verdict
    decreases |s|, 0
  {
    if s == "" then Unfinished
    else if s[0] != '-' && s[0] != CR then Refused(0)
    else if |s| == 1 then Unfinished
    else if s[1] != (if s[0] == '-' then '-' else LF) then Refused(1)
    else if s[0] == '-' then Finished([], true)
    else Later(2, Lines(b, s[2..]))
  }

  // --- The parser agrees ---

  predicate Agrees(m: Move, v: Verdict) {
    match v
    case Refused(at) => m == Stuck(at)
    case Unfinished => m.Move? && m.core.state != End
    case Finished(_, _) => m.Move? && m.core.state == End
  }

  // From this state on, the parser accepts and refuses s as v says.
  ghost predicate Judges(b: string, from: Core, s: string, v: Verdict) {
    Delimiter(b) && Fits(b, from) && Agrees(Bytes(b, from, s), v)
  }

  ghost predicate Goes(b: string, from: Core, s: string, to: Core) {
    Delimiter(b) && Fits(b, from) && Fits(b, to) && Bytes(b, from, s).Move? && Bytes(b, from, s).core == to
  }

  ghost predicate Steps(b: string, from: Core, c: char, to: Core) {
    Delimiter(b) && Fits(b, from) && Fits(b, to) && Delta(b, from, c).Move? && Delta(b, from, c).core == to
  }

  ghost predicate Sticks(b: string, from: Core, c: char) {
    Delimiter(b) && Fits(b, from) && Delta(b, from, c).Stuck?
  }

  lemma ReadsGoes(b: string, from: Core, s: string, to: Core, es: seq<Event>)
    requires Reads(b, from, s, to, es)
    ensures Goes(b, from, s, to)
  {}

  lemma {:induction false} GoesNowhere(b: string, from: Core, s: string)
    requires Delimiter(b) && Fits(b, from)
    ensures Goes(b, from, s[..0], from)
  {}

  // On to another place of the text, ...
  lemma {:induction false} GoesOn(b: string, from: Core, s: string, k: nat, mid: Core, j: nat, to: Core)
    requires k <= j <= |s| && Goes(b, from, s[..k], mid) && Goes(b, mid, s[k..j], to)
    ensures Goes(b, from, s[..j], to)
  {
    hide Bytes, Delimiter, Fits;
    BytesCat(b, from, s[..k], s[k..j]);
    assert s[..k] + s[k..j] == s[..j];
  }

  // ... one byte on, ...
  lemma {:induction false} GoesStep(b: string, from: Core, s: string, k: nat, mid: Core, to: Core)
    requires k < |s| && Goes(b, from, s[..k], mid) && Steps(b, mid, s[k], to)
    ensures Goes(b, from, s[..k + 1], to)
  {
    hide Delta, Delimiter, Fits;
    BytesOne(b, mid, s[k]);
    assert s[k..k + 1] == [s[k]];
    hide Bytes;
    GoesOn(b, from, s, k, mid, k + 1, to);
  }

  // ... to where the next byte is refused, ...
  lemma {:induction false} JudgesStuck(b: string, from: Core, s: string, k: nat, to: Core)
    requires k < |s| && Goes(b, from, s[..k], to) && Sticks(b, to, s[k])
    ensures Judges(b, from, s, Refused(k))
  {
    hide Delta, Delimiter, Fits;
    BytesOne(b, to, s[k]);
    BytesCat(b, to, [s[k]], s[k + 1..]);
    assert [s[k]] + s[k + 1..] == s[k..] && s[..k] + s[k..] == s;
    hide Bytes;
    BytesCat(b, from, s[..k], s[k..]);
  }

  // ... to the end of the text, ...
  lemma {:induction false} JudgesOpen(b: string, from: Core, s: string, to: Core)
    requires Goes(b, from, s[..|s|], to) && to.state != End
    ensures Judges(b, from, s, Unfinished)
  {
    assert s[..|s|] == s;
  }

  // ... or to where the rest has its own verdict.
  lemma {:induction false} JudgesLater(b: string, from: Core, s: string, k: nat, to: Core, v: Verdict)
    requires k <= |s| && Goes(b, from, s[..k], to) && Judges(b, to, s[k..], v)
    ensures Judges(b, from, s, Later(k, v))
  {
    hide Bytes, Delimiter, Fits;
    BytesCat(b, from, s[..k], s[k..]);
    assert s[..k] + s[k..] == s;
  }

  // What was read before does not matter for where the parser is.
  lemma JudgesHeader(b: string, from: Core, s: string, k: nat, h: Header, v: Verdict)
    requires Judges(b, from, s, Later(k, v))
    ensures Judges(b, from, s, Later(k, WithHeader(h, v)))
  {}

  lemma JudgesPart(b: string, from: Core, s: string, k: nat, p: Part, v: Verdict)
    requires Judges(b, from, s, Later(k, v))
    ensures Judges(b, from, s, Later(k, WithPart(p, v)))
  {}

  lemma JudgesPlainly(b: string, from: Core, s: string, k: nat, plain: bool, v: Verdict)
    requires Judges(b, from, s, Later(k, v))
    ensures Judges(b, from, s, Later(k, Plainly(plain, v)))
  {}

  // --- Single bytes ---

  lemma {:induction false} LineSteps(b: string, i: nat, c: char)
    requires Delimiter(b)
    ensures !NameChar(c) && c != ':' && c != CR ==> Sticks(b, Core(HeaderFieldStart, i), c) && Sticks(b, Core(HeaderField, i), c)
    ensures c == ':' ==> Steps(b, Core(HeaderFieldStart, i), c, Core(HeaderValueStart, i))
                         && Steps(b, Core(HeaderField, i), c, Core(HeaderValueStart, i))
    ensures c == CR ==> Steps(b, Core(HeaderFieldStart, i), c, Core(HeadersAlmostDone, i))
                        && Steps(b, Core(HeaderField, i), c, Core(HeadersAlmostDone, i))
  {}

  lemma {:induction false} BreakSteps(b: string, i: nat, c: char)
    requires Delimiter(b)
    ensures if c == LF then Steps(b, Core(HeadersAlmostDone, i), c, Core(PartDataStart, i))
            else Sticks(b, Core(HeadersAlmostDone, i), c)
    ensures if c == LF then Steps(b, Core(HeaderValueAlmostDone, i), c, Core(HeaderFieldStart, i))
            else Sticks(b, Core(HeaderValueAlmostDone, i), c)
    ensures c == CR ==> Steps(b, Core(HeaderValueStart, i), c, Core(HeaderValueAlmostDone, i))
                        && Steps(b, Core(HeaderValue, i), c, Core(HeaderValueAlmostDone, i))
  {}

  lemma {:induction false} EdgeSteps(b: string, i: nat, c: char)
    requires Delimiter(b)
    ensures c != '-' && c != CR ==> Sticks(b, Core(PartDataAlmostEnd, i), c)
    ensures c == '-' ==> Steps(b, Core(PartDataAlmostEnd, i), c, Core(PartDataFinalHyphen, i))
    ensures c == CR ==> Steps(b, Core(PartDataAlmostEnd, i), c, Core(PartDataEnd, i))
    ensures if c == '-' then Steps(b, Core(PartDataFinalHyphen, i), c, Core(End, i)) else Sticks(b, Core(PartDataFinalHyphen, i), c)
    ensures if c == LF then Steps(b, Core(PartDataEnd, i), c, Core(HeaderFieldStart, i)) else Sticks(b, Core(PartDataEnd, i), c)
  {}

  // The parser on the opening line.
  function Opened(k: nat): Core {
    if k == 0 then Core(Start, 0) else Core(StartBoundary, k)
  }

  lemma {:induction false} OpeningSteps(b: string, k: nat, c: char)
    requires Delimiter(b) && k < |b| + 2
    ensures c != (b + [CR, LF])[k] ==> Sticks(b, Opened(k), c)
    ensures c == (b + [CR, LF])[k] && k <= |b| ==> Steps(b, Opened(k), c, Opened(k + 1))
    ensures c == LF && k == |b| + 1 ==> Steps(b, Opened(k), c, Core(HeaderFieldStart, 0))
  {}

  // --- Lines and parts ---

  lemma {:induction false} OpeningGoes(b: string, s: string, k: nat)
    requires Delimiter(b) && k <= |s| && k < |b| + 2 && s[..k] == (b + [CR, LF])[..k]
    ensures Goes(b, Core(Start, 0), s[..k], Opened(k))
  {
    hide Goes, Steps, Sticks;
    if k == 0 {
      GoesNowhere(b, Core(Start, 0), s);
    } else {
      assert s[..k - 1] == s[..k][..k - 1] && s[k - 1] == s[..k][k - 1];
      OpeningGoes(b, s, k - 1);
      OpeningSteps(b, k - 1, s[k - 1]);
      GoesStep(b, Core(Start, 0), s, k - 1, Opened(k - 1), Opened(k));
    }
  }

  // Behind a header name.
  function Named(i: nat, n: nat): Core {
    Core(if n == 0 then HeaderFieldStart else HeaderField, i)
  }

  lemma {:induction false} NameGoes(b: string, i: nat, s: string)
    requires Delimiter(b)
    ensures Goes(b, Core(HeaderFieldStart, i), s[..NameLength(s)], Named(i, NameLength(s)))
  {
    hide Reads, NameChar;
    var name := s[..NameLength(s)];
    if name == "" {
      GoesNowhere(b, Core(HeaderFieldStart, i), s);
    } else {
      NameRun(b, i, name);
      ReadsGoes(b, Core(HeaderFieldStart, i), name, Core(HeaderField, i), [Field(name)]);
    }
  }

  lemma {:induction false} TextGoes(b: string, i: nat, text: string)
    requires Delimiter(b) && CR !in text
    ensures Goes(b, Core(HeaderValueStart, i), text, Core(if Spaces(text) == |text| then HeaderValueStart else HeaderValue, i))
  {
    hide Reads;
    ValueRun(b, i, text);
    var k := Spaces(text);
    ReadsGoes(b, Core(HeaderValueStart, i), text, Core(if k == |text| then HeaderValueStart else HeaderValue, i),
              if k == |text| then [] else [Value(text[k..])]);
  }

  lemma EndsShift(s: string, j: nat, t: string)
    requires |t| < j <= |s|
    ensures EndsWith(s[..j], t) <==> EndsWith(s[1..][..j - 1], t)
  {
    assert s[..j][j - |t|..] == s[j - |t|..j] && s[1..][..j - 1] == s[1..j] && s[1..j][j - 1 - |t|..] == s[j - |t|..j];
  }

  lemma EndsShort(s: string, t: string)
    requires |s| <= |t|
    ensures EndsWith(s, t) <==> s == t
  {
    assert |s| == |t| ==> s[0..] == s;
  }

  lemma {:induction false} ClosingFirst(b: string, s: string)
    ensures match FirstClosing(b, s) case None => Open(b, s) case Some(k) => Open(b, s[..k])
    decreases |s|
  {
    hide EndsWith;
    var d, first := Closing(b), FirstClosing(b, s);
    var end := if first.None? then |s| else first.value;
    if |s| >= |d| && s[..|d|] != d {
      ClosingFirst(b, s[1..]);
    }
    forall j | 0 <= j <= end ensures !EndsWith(s[..end][..j], d) {
      assert s[..end][..j] == s[..j];
      if j > |d| {
        EndsShift(s, j, d);
        assert first.Some? ==> s[1..][..end - 1][..j - 1] == s[1..][..j - 1];
      } else {
        EndsShort(s[..j], d);
      }
    }
    assert s[..|s|] == s;
  }

  // Up to the carriage return behind a header's text.
  lemma {:induction false} HeaderGoes(b: string, i: nat, s: string, k: nat)
    requires Delimiter(b) && NameLength(s) < |s| && s[NameLength(s)] == ':'
    requires NameLength(s) < k <= |s| && CR !in s[NameLength(s) + 1..k]
    ensures var start := Core(HeaderFieldStart, i);
            && (exists to: Core :: to.state in {HeaderValueStart, HeaderValue} && Goes(b, start, s[..k], to))
            && (k < |s| && s[k] == CR ==> Goes(b, start, s[..k + 1], Core(HeaderValueAlmostDone, i)))
  {
    hide Goes, Steps, Sticks, NameLength, Spaces, NameChar, NameText;
    var n, start := NameLength(s), Core(HeaderFieldStart, i);
    var text := s[n + 1..k];
    var to := Core(if Spaces(text) == |text| then HeaderValueStart else HeaderValue, i);
    NameGoes(b, i, s);
    LineSteps(b, i, ':');
    GoesStep(b, start, s, n, Named(i, n), Core(HeaderValueStart, i));
    TextGoes(b, i, text);
    GoesOn(b, start, s, n + 1, Core(HeaderValueStart, i), k, to);
    if k < |s| && s[k] == CR {
      BreakSteps(b, i, CR);
      GoesStep(b, start, s, k, to, Core(HeaderValueAlmostDone, i));
    }
  }

  lemma {:induction false} LinesAgree(b: string, i: nat, s: string)
    requires Delimiter(b)
    ensures Judges(b, Core(HeaderFieldStart, i), s, Lines(b, s))
    decreases |s|, 3
  {
    hide Goes, Steps, Sticks, Judges, NameChar, NameText;
    var start, n := Core(HeaderFieldStart, i), NameLength(s);
    NameGoes(b, i, s);
    if n == |s| {
      JudgesOpen(b, start, s, Named(i, n));
    } else if s[n] == ':' {
      HeaderLineAgrees(b, i, s);
    } else if s[n] != CR {
      LineSteps(b, i, s[n]);
      JudgesStuck(b, start, s, n, Named(i, n));
    } else {
      LastLineAgrees(b, i, s);
    }
  }

  // The end of the header line that a text begins with.
  lemma LineEnd(s: string, n: nat) returns (k: nat)
    requires n < |s|
    ensures k == n + 1 + LineLength(s[n + 1..]) && n < k <= |s| && CR !in s[n + 1..k] && (k < |s| ==> s[k] == CR)
  {
    k := n + 1 + LineLength(s[n + 1..]);
    assert s[n + 1..][..k - n - 1] == s[n + 1..k];
  }

  // A text that begins with a name and a colon.
  lemma LinesOfHeader(b: string, s: string)
    requires NameLength(s) < |s| && s[NameLength(s)] == ':'
    ensures var n := NameLength(s);
            var k := n + 1 + LineLength(s[n + 1..]);
            Lines(b, s) ==
              if |s| <= k + 1 then Unfinished
              else if s[k + 1] != LF then Refused(k + 1)
              else Later(k + 2, WithHeader(Header(s[..n], Unspaced(s[n + 1..k])), Lines(b, s[k + 2..])))
  {
    hide NameLength, LineLength, WithHeader, Unspaced, Later, Contents;
  }

  lemma {:induction false} HeaderLineAgrees(b: string, i: nat, s: string)
    requires Delimiter(b) && NameLength(s) < |s| && s[NameLength(s)] == ':'
    ensures Judges(b, Core(HeaderFieldStart, i), s, Lines(b, s))
    decreases |s|, 2
  {
    hide Goes, Steps, Sticks, Judges, NameChar, NameText, Lines, NameLength, LineLength, WithHeader, Later, Unspaced;
    var start, mid, n := Core(HeaderFieldStart, i), Core(HeaderValueAlmostDone, i), NameLength(s);
    var k := LineEnd(s, n);
    LinesOfHeader(b, s);
    HeaderGoes(b, i, s, k);
    if k == |s| {
      var to: Core :| to.state in {HeaderValueStart, HeaderValue} && Goes(b, start, s[..k], to);
      JudgesOpen(b, start, s, to);
    } else if k + 1 == |s| {
      JudgesOpen(b, start, s, mid);
    } else {
      BreakSteps(b, i, s[k + 1]);
      if s[k + 1] != LF {
        JudgesStuck(b, start, s, k + 1, mid);
      } else {
        GoesStep(b, start, s, k + 1, mid, start);
        var v := Lines(b, s[k + 2..]);
        LinesAgree(b, i, s[k + 2..]);
        JudgesLater(b, start, s, k + 2, start, v);
        JudgesHeader(b, start, s, k + 2, Header(s[..n], Unspaced(s[n + 1..k])), v);
      }
    }
  }

  lemma {:induction false} LastLineAgrees(b: string, i: nat, s: string)
    requires Delimiter(b) && NameLength(s) < |s| && s[NameLength(s)] == CR
    ensures Judges(b, Core(HeaderFieldStart, i), s, Lines(b, s))
    decreases |s|, 2
  {
    hide Goes, Steps, Sticks, Judges, NameChar, NameText, Contents, Later, Plainly, NameLength;
    var start, mid, data, n := Core(HeaderFieldStart, i), Core(HeadersAlmostDone, i), Core(PartDataStart, i), NameLength(s);
    NameGoes(b, i, s);
    LineSteps(b, i, CR);
    GoesStep(b, start, s, n, Named(i, n), mid);
    if |s| == n + 1 {
      JudgesOpen(b, start, s, mid);
    } else {
      BreakSteps(b, i, s[n + 1]);
      if s[n + 1] != LF {
        JudgesStuck(b, start, s, n + 1, mid);
      } else {
        GoesStep(b, start, s, n + 1, mid, data);
        ContentsAgree(b, i, s[n + 2..]);
        JudgesLater(b, start, s, n + 2, data, Contents(b, s[n + 2..]));
        JudgesPlainly(b, start, s, n + 2, n == 0, Contents(b, s[n + 2..]));
      }
    }
  }

  lemma {:induction false} ContentsAgree(b: string, i: nat, s: string)
    requires Delimiter(b)
    ensures Judges(b, Core(PartDataStart, i), s, Contents(b, s))
    decreases |s|, 1
  {
    hide Goes, Judges, Open, Edge, WithPart, Later;
    var start, edge := Core(PartDataStart, i), Core(PartDataAlmostEnd, |b|);
    ClosingFirst(b, s);
    match FirstClosing(b, s)
    case None =>
      InsideAgrees(b, i, s);
    case Some(k) =>
      var m := k + |b| + 2;
      PartGoes(b, i, s[..k]);
      assert s[..m] == s[..k] + Closing(b);
      EdgeAgrees(b, |b|, s[m..]);
      JudgesLater(b, start, s, m, edge, Edge(b, s[m..]));
      JudgesPart(b, start, s, m, Part([], s[..k]), Edge(b, s[m..]));
  }

  lemma {:induction false} InsideAgrees(b: string, i: nat, s: string)
    requires Delimiter(b) && Open(b, s)
    ensures Judges(b, Core(PartDataStart, i), s, Unfinished)
  {
    hide Bytes, Open, NamesEndInColon, Longest;
    DataExact(b, i, s);
  }

  lemma {:induction false} PartGoes(b: string, i: nat, body: string)
    requires Delimiter(b) && Open(b, body)
    ensures Goes(b, Core(PartDataStart, i), body + Closing(b), Core(PartDataAlmostEnd, |b|))
  {
    hide Bytes, Open, Norm, NamesEndInColon;
    PartExact(b, i, body);
  }

  lemma {:induction false} EdgeAgrees(b: string, i: nat, s: string)
    requires Delimiter(b)
    ensures Judges(b, Core(PartDataAlmostEnd, i), s, Edge(b, s))
    decreases |s|, 0
  {
    hide Goes, Steps, Sticks, Judges, Lines, Later;
    var start := Core(PartDataAlmostEnd, i);
    GoesNowhere(b, start, s);
    if s == "" {
      JudgesOpen(b, start, s, start);
    } else {
      EdgeSteps(b, i, s[0]);
      if s[0] != '-' && s[0] != CR {
        JudgesStuck(b, start, s, 0, start);
      } else {
        var mid := Core(if s[0] == '-' then PartDataFinalHyphen else PartDataEnd, i);
        GoesStep(b, start, s, 0, start, mid);
        if |s| == 1 {
          JudgesOpen(b, start, s, mid);
        } else {
          EdgeSteps(b, i, s[1]);
          if s[1] != (if s[0] == '-' then '-' else LF) {
            JudgesStuck(b, start, s, 1, mid);
          } else {
            var next := Core(if s[0] == '-' then End else HeaderFieldStart, i);
            GoesStep(b, start, s, 1, mid, next);
            if s[0] == '-' {
              AtEnd(b, start, i, s);
            } else {
              LinesAgree(b, i, s[2..]);
              JudgesLater(b, start, s, 2, next, Lines(b, s[2..]));
            }
          }
        }
      }
    }
  }

  lemma {:induction false} AtEnd(b: string, from: Core, i: nat, s: string)
    requires |s| >= 2 && Goes(b, from, s[..2], Core(End, i))
    ensures Judges(b, from, s, Finished([], true))
  {
    hide Reads, Bytes;
    EpilogueRun(b, i, s[2..]);
    ReadsGoes(b, Core(End, i), s[2..], Core(End, i), []);
    assert s[2..|s|] == s[2..] && s[..|s|] == s;
    GoesOn(b, from, s, 2, Core(End, i), |s|, Core(End, i));
  }

  // The parser, byte by byte, accepts and refuses what the grammar does.
  lemma {:induction false} JudgeAgrees(b: string, s: string)
    requires Delimiter(b)
    ensures Judges(b, Core(Start, 0), s, Judge(b, s))
  {
    hide Goes, Steps, Sticks, Judges, Lines, Later;
    var start, o := Core(Start, 0), b + [CR, LF];
    var k := Common(s, o);
    if k == |o| {
      var lines := Core(HeaderFieldStart, 0);
      assert s[..k - 1] == s[..k][..k - 1] == o[..k - 1] && s[k - 1] == s[..k][k - 1] == o[k - 1];
      OpeningGoes(b, s, k - 1);
      OpeningSteps(b, k - 1, s[k - 1]);
      GoesStep(b, start, s, k - 1, Opened(k - 1), lines);
      LinesAgree(b, 0, s[k..]);
      JudgesLater(b, start, s, k, lines, Lines(b, s[k..]));
    } else {
      OpeningGoes(b, s, k);
      if k == |s| {
        JudgesOpen(b, start, s, Opened(k));
      } else {
        OpeningSteps(b, k, s[k]);
        JudgesStuck(b, start, s, k, Opened(k));
      }
    }
  }

  // --- However the text is cut ---

  lemma {:induction false} ExecWhere(b: string, p: Progress, s: string)
    requires Delimiter(b) && Fits(b, p.core)
    ensures var r, m := Exec(b, Willing(), p, s), Bytes(b, p.core, s);
            r.left == (if m.Stuck? then |s| - m.at else 0) && (m.Move? ==> r.core == m.core)
    decreases |s|
  {
    hide Step, Fits, Delta, Handover;
    if s != "" {
      var c := s[0];
      StepCore(b, p, c);
      BytesOne(b, p.core, c);
      BytesCat(b, p.core, [c], s[1..]);
      assert [c] + s[1..] == s;
      hide Bytes;
      var o := Step(b, Willing(), p, c);
      if o.Go? {
        ExecWhere(b, o.p, s[1..]);
        if |s| == 1 {
          BytesNothing(b, o.p.core);
        }
      }
    }
  }

  lemma {:induction false} FeedWhere(b: string, core: Core, log: seq<Event>, pieces: seq<string>)
    requires Delimiter(b) && Fits(b, core)
    ensures var s := Concat(pieces);
            var r, m := Feed(b, Willing(), core, log, pieces), Bytes(b, core, s);
            r.left == (if m.Stuck? then |s| - m.at else 0) && (m.Move? ==> r.core == m.core)
    decreases |pieces|
  {
    hide Exec, Fits, Delta;
    if pieces != [] {
      var rest := Concat(pieces[1..]);
      ExecWhere(b, Progress(core, "", log), pieces[0]);
      BytesCat(b, core, pieces[0], rest);
      hide Bytes;
      var r := Exec(b, Willing(), Progress(core, "", log), pieces[0]);
      if r.left == 0 {
        FeedWhere(b, r.core, r.log, pieces[1..]);
      }
    } else {
      BytesNothing(b, core);
    }
  }

  // The parser consumes exactly the texts that can be the beginning of a multipart body, is at its end exactly for whole
  // bodies, and stops at any other text at the first byte that makes it none, in whatever pieces it comes.
  lemma {:induction false} Recognized(b: string, pieces: seq<string>)
    requires Delimiter(b)
    ensures var s := Concat(pieces);
            var r := Feed(b, Willing(), Core(Start, 0), [], pieces);
            match Judge(b, s)
            case Refused(at) => at < |s| && r.left == |s| - at
            case Unfinished => r.left == 0 && r.core.state != End
            case Finished(_, _) => r.left == 0 && r.core.state == End
  {
    hide Feed, Bytes, Judge;
    JudgeAgrees(b, Concat(pieces));
    FeedWhere(b, Core(Start, 0), [], pieces);
  }

  // --- What a whole body means ---

  lemma {:induction false} HeaderEventsFront(h: Header, hs: seq<Header>)
    ensures HeaderEvents([h] + hs) == [Field(h.name), Value(h.value)] + HeaderEvents(hs)
  {
    if hs == [] {
      assert [h] + hs == [h] && [h][..0] == [];
      assert HeaderEvents([]) + [Field(h.name), Value(h.value)] == [Field(h.name), Value(h.value)] + HeaderEvents(hs);
    } else {
      var before, x := hs[..|hs| - 1], hs[|hs| - 1];
      HeaderEventsFront(h, before);
      assert ([h] + hs)[..|hs|] == [h] + before;
      var two := [Field(h.name), Value(h.value)];
      assert two + HeaderEvents(before) + [Field(x.name), Value(x.value)]
          == two + (HeaderEvents(before) + [Field(x.name), Value(x.value)]);
    }
  }

  // The events of parts of which the first has begun.
  function Begun(parts: seq<Part>): seq<Event>
    requires parts != []
  {
    InnerEvents(parts[0]) + PartEvents(parts[1..])
  }

  lemma {:induction false} BegunWithHeader(h: Header, v: Verdict)
    requires v.Finished? && v.parts != []
    ensures var w := WithHeader(h, v);
            w.parts != [] && Begun(w.parts) == [Field(h.name), Value(h.value)] + Begun(v.parts)
  {
    hide HeaderEvents, PartEvents;
    var p, rest := v.parts[0], PartEvents(v.parts[1..]);
    HeaderEventsFront(h, p.headers);
    var w := WithHeader(h, v).parts;
    assert w[1..] == v.parts[1..];
    var two, end := [Field(h.name), Value(h.value)], [HeadersComplete, Data(p.body), PartEnd];
    assert two + HeaderEvents(p.headers) + end + rest == two + (HeaderEvents(p.headers) + end + rest);
  }

  lemma LinesOfBreak(b: string, s: string)
    requires NameLength(s) < |s| && s[NameLength(s)] == CR
    ensures var n := NameLength(s);
            Lines(b, s) ==
              if |s| == n + 1 then Unfinished
              else if s[n + 1] != LF then Refused(n + 1)
              else Later(n + 2, Plainly(n == 0, Contents(b, s[n + 2..])))
  {
    hide NameLength, LineLength, Contents, Later, Plainly, WithHeader;
  }

  lemma LinesOfOther(b: string, s: string)
    ensures var n := NameLength(s);
            n == |s| || (s[n] != ':' && s[n] != CR) ==> !Lines(b, s).Finished?
  {
    hide NameLength, LineLength, Contents, WithHeader, Plainly;
  }

  // A header line tells nothing of whether the body is whole.
  lemma HeaderWhole(k: nat, h: Header, v: Verdict)
    requires Later(k, WithHeader(h, v)).Finished? && Later(k, WithHeader(h, v)).plain
    ensures v.Finished? && v.plain && Later(k, WithHeader(h, v)) == WithHeader(h, v)
  {}

  lemma {:induction false} LineReads(b: string, i: nat, name: string, text: string)
    requires Delimiter(b) && NameText(name) && CR !in text
    ensures Reads(b, Core(HeaderFieldStart, i), name + ":" + (text + [CR, LF]), Core(HeaderFieldStart, i),
                  [Field(name), Value(Unspaced(text))])
  {
    hide Reads, Spaces, NameText;
    var start, value := Core(HeaderFieldStart, i), Unspaced(text);
    FieldRun(b, i, name);
    ValueLine(b, i, text);
    ReadsThen(b, start, name + ":", Core(HeaderValueStart, i), [Field(name)], text + [CR, LF], start, [Value(value)]);
    assert [Field(name)] + [Value(value)] == [Field(name), Value(value)];
  }

  lemma {:induction false} LinesWhole(b: string, i: nat, s: string)
    requires Delimiter(b) && Lines(b, s).Finished? && Lines(b, s).plain
    ensures var parts := Lines(b, s).parts;
            parts != [] && Reads(b, Core(HeaderFieldStart, i), s, Core(End, |b|), Begun(parts))
    decreases |s|, 3
  {
    hide Reads, NameChar, NameText, Begun, Lines, NameLength, LineLength, WithHeader, Later, Unspaced, Contents;
    var start, n := Core(HeaderFieldStart, i), NameLength(s);
    LinesOfOther(b, s);
    if s[n] == ':' {
      var k := LineEnd(s, n);
      LinesOfHeader(b, s);
      var line, rest, h := s[..n] + ":" + (s[n + 1..k] + [CR, LF]), s[k + 2..], Header(s[..n], Unspaced(s[n + 1..k]));
      HeaderWhole(k + 2, h, Lines(b, rest));
      LineReads(b, i, s[..n], s[n + 1..k]);
      LinesWhole(b, i, rest);
      BegunWithHeader(h, Lines(b, rest));
      ReadsThen(b, start, line, start, [Field(h.name), Value(h.value)], rest, Core(End, |b|), Begun(Lines(b, rest).parts));
      assert line + rest == s;
    } else {
      LastLineWhole(b, i, s);
    }
  }

  lemma {:induction false} LastLineWhole(b: string, i: nat, s: string)
    requires Delimiter(b) && Lines(b, s).Finished? && Lines(b, s).plain
    requires NameLength(s) < |s| && s[NameLength(s)] == CR
    ensures var parts := Lines(b, s).parts;
            parts != [] && Reads(b, Core(HeaderFieldStart, i), s, Core(End, |b|), Begun(parts))
    decreases |s|, 2
  {
    hide Reads, NameChar, NameText, Begun, Lines, LineLength, Contents, NameLength;
    var start, data := Core(HeaderFieldStart, i), Core(PartDataStart, i);
    var none: seq<Event> := [];
    LinesOfBreak(b, s);
    NameDelta(b, i, '-');
    ReadsTwo(b, start, CR, Core(HeadersAlmostDone, i), LF, data, none);
    assert [CR, LF] + s[2..] == s;
    ContentsWhole(b, i, s[2..]);
    var parts := Contents(b, s[2..]).parts;
    ReadsThen(b, start, [CR, LF], data, none, s[2..], Core(End, |b|), Begun(parts));
    assert none + Begun(parts) == Begun(parts);
  }

  lemma {:induction false} ContentsWhole(b: string, i: nat, s: string)
    requires Delimiter(b) && Contents(b, s).Finished? && Contents(b, s).plain
    ensures var parts := Contents(b, s).parts;
            parts != [] && Reads(b, Core(PartDataStart, i), s, Core(End, |b|), Begun(parts))
    decreases |s|, 1
  {
    hide Reads, Goes, NamesEndInColon, Open, Edge;
    var start, edge := Core(PartDataStart, i), Core(PartDataAlmostEnd, |b|);
    ClosingFirst(b, s);
    var k := FirstClosing(b, s).value;
    var m := k + |b| + 2;
    var body, rest := s[..k], s[m..];
    BodyRun(b, i, body);
    assert s[..m] == body + Closing(b) && body + Closing(b) + rest == s;
    var es := [HeadersComplete, Data(body), PartEnd];
    EdgeWhole(b, |b|, rest);
    var parts := Edge(b, rest).parts;
    ReadsThen(b, start, body + Closing(b), edge, es, rest, Core(End, |b|), PartEvents(parts));
    BegunWithoutHeaders(body, parts);
  }

  lemma BegunWithoutHeaders(body: string, parts: seq<Part>)
    ensures Begun([Part([], body)] + parts) == [HeadersComplete, Data(body), PartEnd] + PartEvents(parts)
  {
    hide PartEvents;
    assert ([Part([], body)] + parts)[1..] == parts;
    var es := [HeadersComplete, Data(body), PartEnd];
    assert HeaderEvents([]) + es == es;
  }

  lemma {:induction false} EdgeWhole(b: string, i: nat, s: string)
    requires Delimiter(b) && i == |b| && Edge(b, s).Finished? && Edge(b, s).plain
    ensures Reads(b, Core(PartDataAlmostEnd, i), s, Core(End, i), PartEvents(Edge(b, s).parts))
    decreases |s|, 0
  {
    hide Reads, Goes, NamesEndInColon, Delta, Lines;
    var start, end := Core(PartDataAlmostEnd, i), Core(End, i);
    EdgeDelta(b, i);
    assert s[..2] == [s[0], s[1]] && s[..2] + s[2..] == s;
    if s[0] == '-' {
      ReadsTwo(b, start, '-', Core(PartDataFinalHyphen, i), '-', end, [BodyEnd]);
      EpilogueRun(b, i, s[2..]);
      ReadsThen(b, start, s[..2], end, [BodyEnd], s[2..], end, []);
      assert [BodyEnd] + [] == [BodyEnd] == PartEvents([]);
    } else {
      var lines := Core(HeaderFieldStart, i);
      ReadsTwo(b, start, CR, Core(PartDataEnd, i), LF, lines, [PartBegin]);
      LinesWhole(b, i, s[2..]);
      var parts := Lines(b, s[2..]).parts;
      ReadsThen(b, start, s[..2], lines, [PartBegin], s[2..], end, Begun(parts));
    }
  }

  // A whole body in which header names end in colons comes out as exactly its parts, in whatever pieces it comes.
  lemma {:induction false} Understood(b: string, pieces: seq<string>)
    requires Delimiter(b) && Judge(b, Concat(pieces)).Finished? && Judge(b, Concat(pieces)).plain
    ensures Norm(Feed(b, Willing(), Core(Start, 0), [], pieces).log) == PartEvents(Judge(b, Concat(pieces)).parts)
  {
    hide Reads, Goes, NamesEndInColon, Feed, Norm, Lines;
    var s, start, o, lines := Concat(pieces), Core(Start, 0), b + [CR, LF], Core(HeaderFieldStart, 0);
    var rest := s[|o|..];
    assert s == o + rest;
    OpeningLine(b);
    LinesWhole(b, 0, rest);
    var parts := Lines(b, rest).parts;
    ReadsThen(b, start, o, lines, [PartBegin], rest, Core(End, |b|), Begun(parts));
    WholeEvents(b, s, parts);
    FeedBytes(b, start, [], pieces);
    var es := Bytes(b, start, s).es;
    assert [] + es == es;
    PartEventsJoined(parts);
    JoinedNorm(PartEvents(parts));
  }

  lemma WholeEvents(b: string, s: string, parts: seq<Part>)
    requires parts != [] && Reads(b, Core(Start, 0), s, Core(End, |b|), [PartBegin] + Begun(parts))
    ensures NamesEndInColon(b, Core(Start, 0), s)
    ensures Bytes(b, Core(Start, 0), s).Move? && Norm(Bytes(b, Core(Start, 0), s).es) == Norm(PartEvents(parts))
  {}

  // --- Before the first part ---

  // What is still to come of the opening line.
  function Awaited(b: string, core: Core): string
    requires Fits(b, core)
  {
    if core.state == StartBoundary then (b + [CR, LF])[core.index..] else b + [CR, LF]
  }

  lemma {:induction false} OpeningStep(b: string, ok: Callbacks, p: Progress, c: char)
    requires Delimiter(b) && Fits(b, p.core) && p.core.state in {Start, StartBoundary} && p.pend == ""
    ensures var o, w := Step(b, ok, p, c), Awaited(b, p.core);
            && (c != w[0] ==> o.Halt? && o.log == p.log)
            && (c == w[0] && |w| > 1 ==> o.Go? && o.p.core.state == StartBoundary && o.p.log == p.log && o.p.pend == ""
                                         && Awaited(b, o.p.core) == w[1..])
  {}

  lemma {:induction false} OpeningExec(b: string, ok: Callbacks, p: Progress, s: string)
    requires Delimiter(b) && Fits(b, p.core) && p.core.state in {Start, StartBoundary} && p.pend == ""
    requires !(Awaited(b, p.core) <= s)
    ensures var r, w := Exec(b, ok, p, s), Awaited(b, p.core);
            && r.log == p.log
            && (r.left == 0 ==> r.core.state in {Start, StartBoundary} && s <= w && Awaited(b, r.core) == w[|s|..])
    decreases |s|
  {
    hide Step, Fits;
    var w := Awaited(b, p.core);
    if s == "" {
      assert w[0..] == w;
    } else {
      OpeningStep(b, ok, p, s[0]);
      hide Awaited;
      if s[0] == w[0] {
        assert |w| > 1;
        OpeningExec(b, ok, Step(b, ok, p, s[0]).p, s[1..]);
        assert s == [s[0]] + s[1..] && w == [w[0]] + w[1..];
      }
    }
  }

  lemma PrefixJoins(w: string, s: string, rest: string)
    ensures w <= s ==> w <= s + rest
    ensures s <= w && w[|s|..] <= rest ==> w <= s + rest
  {
    if s <= w {
      assert w == s + w[|s|..];
    }
  }

  // Nothing is called before the whole opening line has come, whatever the callbacks return.
  lemma {:induction false} OpeningSilent(b: string, ok: Callbacks, core: Core, log: seq<Event>, pieces: seq<string>)
    requires Delimiter(b) && Fits(b, core) && core.state in {Start, StartBoundary}
    requires !(Awaited(b, core) <= Concat(pieces))
    ensures Feed(b, ok, core, log, pieces).log == log
    decreases |pieces|
  {
    hide Exec, Fits, Awaited, Delimiter;
    if pieces != [] {
      var s, rest, w := pieces[0], Concat(pieces[1..]), Awaited(b, core);
      PrefixJoins(w, s, rest);
      OpeningExec(b, ok, Progress(core, "", log), s);
      var r := Exec(b, ok, Progress(core, "", log), s);
      if r.left == 0 {
        OpeningSilent(b, ok, r.core, r.log, pieces[1..]);
      }
    }
  }

  // So a text that does not begin with the delimiter and a line break makes no callback; it is consumed up to its first
  // difference from them.
  lemma {:induction false} OpeningRefused(b: string, ok: Callbacks, pieces: seq<string>)
    requires Delimiter(b) && !(b + [CR, LF] <= Concat(pieces))
    ensures var s, r := Concat(pieces), Feed(b, ok, Core(Start, 0), [], pieces);
            r.log == [] && r.left == |s| - Common(s, b + [CR, LF])
  {
    var s, start := Concat(pieces), Core(Start, 0);
    OpeningSilent(b, ok, start, [], pieces);
    OpeningSilent(b, Willing(), start, [], pieces);
    FeedStops(b, ok, start, [], pieces);
    Recognized(b, pieces);
    assert Common(s, b + [CR, LF]) < |b + [CR, LF]| by { assert s[..Common(s, b + [CR, LF])] <= s; }
  }
}
