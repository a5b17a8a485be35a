// Cutting the input of the multipart parser into pieces: what stays the same, and when.
module MultipartChunks {
  import opened Multipart

  // Callbacks that always return 0.
  function Willing(): Callbacks {
    (log: seq<Event>) => true
  }

  // --- Event sequences up to joining the texts of adjacent events of one kind ---

  function Push(es: seq<Event>, e: Event): seq<Event> {
    if es == [] then [e] else
      var rest := es[..|es| - 1];
      match (es[|es| - 1], e)
      case (Field(t), Field(u)) => rest + [Field(t + u)]
      case (Value(t), Value(u)) => rest + [Value(t + u)]
      case (Data(t), Data(u)) => rest + [Data(t + u)]
      case _ => es + [e]
  }

  function Norm(es: seq<Event>): seq<Event> {
    if es == [] then [] else Push(Norm(es[..|es| - 1]), es[|es| - 1])
  }

  function WithText(e: Event, t: string): Event {
    match e
    case Field(_) => Field(t)
    case Value(_) => Value(t)
    case Data(_) => Data(t)
    case _ => e
  }

  predicate Carries(e: Event) {
    e.Field? || e.Value? || e.Data?
  }

  // Events of one kind whose texts can be joined.
  predicate Like(x: Event, e: Event) {
    (x.Field? && e.Field?) || (x.Value? && e.Value?) || (x.Data? && e.Data?)
  }

  lemma {:induction false} NormPush(es: seq<Event>, e: Event)
    ensures Norm(es + [e]) == Push(Norm(es), e)
  {
    assert (es + [e])[..|es|] == es;
  }

  lemma {:induction false} PushCases(es: seq<Event>, e: Event)
    ensures es != [] && Carries(e) && Like(es[|es| - 1], e) ==>
              Push(es, e) == es[..|es| - 1] + [WithText(e, es[|es| - 1].text + e.text)]
    ensures es != [] && Carries(e) && Like(es[|es| - 1], e) ==> es[|es| - 1] == WithText(e, es[|es| - 1].text)
    ensures !(es != [] && Carries(e) && Like(es[|es| - 1], e)) ==> Push(es, e) == es + [e]
  {}

  lemma {:induction false} PushJoin(es: seq<Event>, e: Event, t: string, u: string)
    requires Carries(e)
    ensures Push(Push(es, WithText(e, t)), WithText(e, u)) == Push(es, WithText(e, t + u))
  {
    hide Push;
    var et, eu, etu := WithText(e, t), WithText(e, u), WithText(e, t + u);
    PushCases(es, et);
    PushCases(es, etu);
    PushCases(Push(es, et), eu);
    if es != [] && Like(es[|es| - 1], e) {
      assert es[|es| - 1].text + t + u == es[|es| - 1].text + (t + u);
    }
  }

  // Two events of one kind in a row are as good as one.
  lemma {:induction false} NormJoin(es: seq<Event>, e: Event, t: string, u: string)
    requires Carries(e)
    ensures Norm(es + [WithText(e, t)] + [WithText(e, u)]) == Norm(es + [WithText(e, t + u)])
  {
    hide Norm, Push;
    NormPush(es + [WithText(e, t)], WithText(e, u));
    NormPush(es, WithText(e, t));
    NormPush(es, WithText(e, t + u));
    PushJoin(Norm(es), e, t, u);
  }

  lemma {:induction false} NormAfter(a: seq<Event>, a': seq<Event>, c: seq<Event>)
    requires Norm(a) == Norm(a')
    ensures Norm(a + c) == Norm(a' + c)
  {
    hide Norm, Push;
    if c == [] {
      assert a + c == a && a' + c == a';
    } else {
      var n := |c| - 1;
      NormAfter(a, a', c[..n]);
      NormPush(a + c[..n], c[n]);
      NormPush(a' + c[..n], c[n]);
      assert a + c == a + c[..n] + [c[n]] && a' + c == a' + c[..n] + [c[n]];
    }
  }

  lemma {:induction false} NormInnerOne(a: seq<Event>, m: seq<Event>, e: Event)
    ensures Norm(a + m + [e]) == Norm(a + Push(m, e))
  {
    hide Norm, Push;
    PushCases(m, e);
    if m != [] && Carries(e) && Like(m[|m| - 1], e) {
      var y, x := m[..|m| - 1], m[|m| - 1];
      NormJoin(a + y, e, x.text, e.text);
      assert a + m + [e] == a + y + [x] + [e];
      assert a + Push(m, e) == a + y + [WithText(e, x.text + e.text)];
    } else {
      assert a + m + [e] == a + Push(m, e);
    }
  }

  lemma LastApart(a: seq<Event>, c: seq<Event>)
    requires c != []
    ensures c == c[..|c| - 1] + [c[|c| - 1]] && a + c == a + c[..|c| - 1] + [c[|c| - 1]]
  {}

  lemma {:induction false} NormInner(a: seq<Event>, c: seq<Event>)
    ensures Norm(a + c) == Norm(a + Norm(c))
  {
    if c != [] {
      hide Norm, Push;
      var before, e := c[..|c| - 1], c[|c| - 1];
      LastApart(a, c);
      NormInner(a, before);
      NormAfter(a + before, a + Norm(before), [e]);
      NormInnerOne(a, Norm(before), e);
      NormPush(before, e);
    }
  }

  lemma {:induction false} NormWithin(a: seq<Event>, c: seq<Event>, c': seq<Event>)
    requires Norm(c) == Norm(c')
    ensures Norm(a + c) == Norm(a + c')
  {
    NormInner(a, c);
    NormInner(a, c');
  }

  // --- The reference: the input one byte at a time ---

  datatype Move = Stuck(at: nat) | Move(core: Core, es: seq<Event>)

  // The events of a step, the pending text included.
  function Flushed(p: Progress): seq<Event> {
    p.log + if p.pend == "" then [] else [Handover(p)]
  }

  function Delta(b: string, core: Core, c: char): (m: Move)
    requires Delimiter(b) && Fits(b, core)
    ensures m.Move? ==> Fits(b, m.core)
  {
    match Step(b, Willing(), Progress(core, "", []), c)
    case Halt(_, _) => Stuck(0)
    case Go(p) => Move(p.core, Flushed(p))
  }

  function Bytes(b: string, core: Core, s: string): (m: Move)
    requires Delimiter(b) && Fits(b, core)
    ensures m.Move? ==> Fits(b, m.core)
    ensures m.Stuck? ==> m.at < |s|
  {
    if s == "" then Move(core, [])
    else
      var n := |s| - 1;
      match Bytes(b, core, s[..n])
      case Stuck(at) => Stuck(at)
      case Move(k, es) =>
        match Delta(b, k, s[n])
        case Stuck(_) => Stuck(n)
        case Move(k', es') => Move(k', es + es')
  }

  lemma {:induction false} BytesCat(b: string, core: Core, a: string, c: string)
    requires Delimiter(b) && Fits(b, core)
    ensures var m, w := Bytes(b, core, a), Bytes(b, core, a + c);
            && (m.Stuck? ==> w == m)
            && (m.Move? ==>
                  w == match Bytes(b, m.core, c)
                       case Stuck(at) => Stuck(|a| + at)
                       case Move(k, es) => Move(k, m.es + es))
  {
    hide Delta, Fits;
    if c == "" {
      assert a + c == a;
    } else {
      var n := |c| - 1;
      BytesCat(b, core, a, c[..n]);
      assert (a + c)[..|a| + n] == a + c[..n];
    }
  }

  lemma {:induction false} BytesOne(b: string, core: Core, c: char)
    requires Delimiter(b) && Fits(b, core)
    ensures Bytes(b, core, [c]) == Delta(b, core, c)
  {
    assert [c][..0] == "";
  }

  // A header name that ends in a line break instead of a colon, with some of it read from s.
  predicate BareName(b: string, core: Core, s: string, k: nat)
    requires Delimiter(b) && Fits(b, core)
  {
    0 < k < |s| && s[k] == CR && Bytes(b, core, s[..k]).Move? && Bytes(b, core, s[..k]).core.state == HeaderField
  }

  ghost predicate NamesEndInColon(b: string, core: Core, s: string)
    requires Delimiter(b) && Fits(b, core)
  {
    forall k :: !BareName(b, core, s, k)
  }

  // --- One call against the reference ---

  // Text is pending only in the states that collect it.
  predicate Tidy(p: Progress) {
    p.pend != "" ==> p.core.state in {HeaderField, HeaderValue, PartData}
  }

  // Willing callbacks do not look at the log: events made earlier only stand in front.
  function Behind(l: seq<Event>, o: Outcome): Outcome {
    match o
    case Go(p) => Go(p.(log := l + p.log))
    case Halt(core, log) => Halt(core, l + log)
  }

  lemma {:induction false} EmitShift(p: Progress, e: Event, next: State, l: seq<Event>)
    ensures Emit(Willing(), p.(log := l + p.log), e, next) == Behind(l, Emit(Willing(), p, e, next))
  {
    assert l + (p.log + [e]) == l + p.log + [e];
  }

  lemma {:induction false} DataByteShift(p: Progress, c: char, l: seq<Event>)
    ensures DataByte(Willing(), p.(log := l + p.log), c) == Behind(l, DataByte(Willing(), p, c))
  {
    hide Emit;
    EmitShift(p, Data(p.pend), PartDataAlmostBoundary, l);
  }

  lemma {:induction false} MismatchShift(b: string, p: Progress, c: char, l: seq<Event>)
    requires Fits(b, p.core)
    ensures Mismatch(b, Willing(), p.(log := l + p.log), c) == Behind(l, Mismatch(b, Willing(), p, c))
  {
    hide Emit, DataByte, Held, Fits;
    EmitShift(p, Data(Held(b, p.core)), PartData, l);
    var o := Emit(Willing(), p, Data(Held(b, p.core)), PartData);
    if o.Go? {
      DataByteShift(o.p, c, l);
    }
  }

  lemma {:induction false} ReadShift(b: string, p: Progress, c: char, l: seq<Event>)
    requires Fits(b, p.core)
    ensures Read(b, Willing(), p.(log := l + p.log), c) == Behind(l, Read(b, Willing(), p, c))
  {
    hide Emit, DataByte, Mismatch;
    var i := p.core.index;
    MismatchShift(b, p, c, l);
    DataByteShift(p, c, l);
    EmitShift(p.(core := Core(StartBoundary, 0)), PartBegin, HeaderFieldStart, l);
    EmitShift(p, Field(p.pend), HeaderValueStart, l);
    EmitShift(p, Value(p.pend), HeaderValueAlmostDone, l);
    EmitShift(p.(core := Core(PartDataBoundary, i + 1)), PartEnd, PartDataAlmostEnd, l);
    EmitShift(p, BodyEnd, End, l);
    EmitShift(p.To(HeaderFieldStart), PartBegin, HeaderFieldStart, l);
  }

  lemma {:induction false} StepShift(b: string, p: Progress, c: char, l: seq<Event>)
    requires Delimiter(b) && Fits(b, p.core)
    ensures Step(b, Willing(), p.(log := l + p.log), c) == Behind(l, Step(b, Willing(), p, c))
  {
    hide Read;
    EmitShift(p, HeadersComplete, PartData, l);
    assert Entered(Willing(), p.(log := l + p.log), c) == Behind(l, Entered(Willing(), p, c));
    if Entered(Willing(), p, c).Go? {
      ReadShift(b, Entered(Willing(), p, c).p, c, l);
    }
  }

  // With nothing pending, a step is the reference's step behind the events so far.
  lemma {:induction false} StepFresh(b: string, p: Progress, c: char)
    requires Delimiter(b) && Fits(b, p.core) && p.pend == ""
    ensures var o, m := Step(b, Willing(), p, c), Delta(b, p.core, c);
            && (o.Go? <==> m.Move?)
            && (o.Go? ==> o.p.core == m.core && Tidy(o.p) && Flushed(o.p) == Flushed(p) + m.es)
  {
    var q := Progress(p.core, "", []);
    StepShift(b, q, c, p.log);
    StepTidy(b, q, c);
    hide Step, Fits, Handover;
    assert p.log + [] == p.log;
    var o := Step(b, Willing(), q, c);
    if o.Go? {
      assert forall e :: p.log + (o.p.log + [e]) == p.log + o.p.log + [e];
    }
  }

  lemma {:induction false} StepTidy(b: string, p: Progress, c: char)
    requires Delimiter(b) && Fits(b, p.core) && Tidy(p)
    ensures Step(b, Willing(), p, c).Go? ==> Tidy(Step(b, Willing(), p, c).p)
  {}

  // With text pending, a step adds to it or hands it over.
  lemma {:induction false} StepPending(b: string, p: Progress, c: char)
    requires Delimiter(b) && Fits(b, p.core) && p.pend != "" && Tidy(p)
    requires !(p.core.state == HeaderField && c == CR)
    ensures var o, m := Step(b, Willing(), p, c), Delta(b, p.core, c);
            && (o.Go? <==> m.Move?)
            && (o.Go? ==>
                  var t := if o.p.pend == "" then "" else [c];
                  && o.p.core == m.core && Tidy(o.p) && m.es == [WithText(Handover(p), t)]
                  && Flushed(o.p) == p.log + [WithText(Handover(p), p.pend + t)])
  {
    assert "" + [c] == [c] && p.pend + "" == p.pend;
  }

  lemma {:induction false} StepDelta(b: string, p: Progress, c: char)
    requires Delimiter(b) && Fits(b, p.core) && Tidy(p)
    requires !(p.core.state == HeaderField && c == CR && p.pend != "")
    ensures var o, m := Step(b, Willing(), p, c), Delta(b, p.core, c);
            && (o.Go? <==> m.Move?)
            && (o.Go? ==> o.p.core == m.core && Tidy(o.p) && Norm(Flushed(o.p)) == Norm(Flushed(p) + m.es))
  {
    hide Norm, Push, Step, Delta, Fits;
    if p.pend == "" {
      StepFresh(b, p, c);
    } else {
      StepPending(b, p, c);
      var o := Step(b, Willing(), p, c);
      if o.Go? {
        NormJoin(p.log, Handover(p), p.pend, if o.p.pend == "" then "" else [c]);
        assert Handover(p) == WithText(Handover(p), p.pend);
      }
    }
  }

  // A call with willing callbacks does what the reference does: it stops at the same byte, and when it does not stop,
  // ends in the same state with the same events.
  lemma {:induction false} ExecBytes(b: string, p: Progress, a: string, s: string, core0: Core)
    requires Delimiter(b) && Fits(b, p.core) && Tidy(p) && Fits(b, core0)
    requires Bytes(b, core0, a).Move? && Bytes(b, core0, a).core == p.core && (a == "" ==> p.pend == "")
    requires NamesEndInColon(b, core0, a + s)
    ensures var r, m := Exec(b, Willing(), p, s), Bytes(b, p.core, s);
            && r.left == (if m.Stuck? then |s| - m.at else 0)
            && (m.Move? ==> r.core == m.core && (s == "" || Norm(r.log) == Norm(Flushed(p) + m.es)))
    decreases |s|
  {
    hide Norm, Push, Step, Delta, Fits;
    if s != "" {
      var c := s[0];
      assert s == [c] + s[1..] && a + s == a + [c] + s[1..] && (a + s)[..|a|] == a;
      assert !BareName(b, core0, a + s, |a|);
      StepDelta(b, p, c);
      BytesCat(b, p.core, [c], s[1..]);
      BytesOne(b, p.core, c);
      var o := Step(b, Willing(), p, c);
      if o.Go? {
        BytesCat(b, core0, a, [c]);
        if |s| == 1 {
          assert s == [c] && s[1..] == "" && o.p.log + [] == o.p.log;
          assert Exec(b, Willing(), o.p, "") == Result(o.p.core, o.p.log, 0);
          return;
        }
        ExecBytes(b, o.p, a + [c], s[1..], core0);
        var es, m := Delta(b, p.core, c).es, Bytes(b, o.p.core, s[1..]);
        if m.Move? {
          NormAfter(Flushed(o.p), Flushed(p) + es, m.es);
          assert Flushed(p) + es + m.es == Flushed(p) + (es + m.es);
        }
      }
    }
  }

  // --- Any cutting ---

  function Concat(pieces: seq<string>): string {
    if pieces == [] then "" else pieces[0] + Concat(pieces[1..])
  }

  // The pieces fed one after the other, up to the first that is not consumed; `left` counts the bytes not consumed.
  function Feed(b: string, ok: Callbacks, core: Core, log: seq<Event>, pieces: seq<string>): (r: Result)
    requires Delimiter(b) && Fits(b, core)
    ensures r.left == 0 ==> Fits(b, r.core)
    decreases |pieces|
  {
    if pieces == [] then Result(core, log, 0)
    else
      var r := Exec(b, ok, Progress(core, "", log), pieces[0]);
      if r.left > 0 then r.(left := r.left + |Concat(pieces[1..])|)
      else Feed(b, ok, r.core, r.log, pieces[1..])
  }

  lemma {:induction false} BareNameLater(b: string, core: Core, a: string, s: string, k: nat)
    requires Delimiter(b) && Fits(b, core) && Bytes(b, core, a).Move? && BareName(b, Bytes(b, core, a).core, s, k)
    ensures BareName(b, core, a + s, |a| + k)
  {
    BytesCat(b, core, a, s[..k]);
    assert (a + s)[..|a| + k] == a + s[..k];
  }

  lemma {:induction false} BareNameEarlier(b: string, core: Core, a: string, s: string, k: nat)
    requires Delimiter(b) && Fits(b, core) && BareName(b, core, a, k)
    ensures BareName(b, core, a + s, k)
  {
    assert (a + s)[..k] == a[..k];
  }

  lemma {:induction false} NamesInParts(b: string, core: Core, a: string, s: string)
    requires Delimiter(b) && Fits(b, core) && NamesEndInColon(b, core, a + s)
    ensures NamesEndInColon(b, core, a)
    ensures Bytes(b, core, a).Move? ==> NamesEndInColon(b, Bytes(b, core, a).core, s)
  {
    forall k ensures !BareName(b, core, a, k) {
      if BareName(b, core, a, k) { BareNameEarlier(b, core, a, s, k); }
    }
    if Bytes(b, core, a).Move? {
      var c := Bytes(b, core, a).core;
      forall k ensures !BareName(b, c, s, k) {
        if BareName(b, c, s, k) { BareNameLater(b, core, a, s, k); }
      }
    }
  }

  // However the input is cut, the parser stops at the same byte of it as the reference does; when it does not stop, it
  // ends in the same state with the same events.
  lemma {:induction false} FeedBytes(b: string, core: Core, log: seq<Event>, pieces: seq<string>)
    requires Delimiter(b) && Fits(b, core) && NamesEndInColon(b, core, Concat(pieces))
    ensures var s := Concat(pieces);
            var r, m := Feed(b, Willing(), core, log, pieces), Bytes(b, core, s);
            && r.left == (if m.Stuck? then |s| - m.at else 0)
            && (m.Move? ==> r.core == m.core && Norm(r.log) == Norm(log + m.es))
    decreases |pieces|
  {
    hide Norm, Push, Exec, Delta, Fits, NamesEndInColon;
    if pieces == [] {
      assert log + [] == log;
    } else {
      var p, rest, x := pieces[0], Concat(pieces[1..]), Progress(core, "", log);
      NamesInParts(b, core, p, rest);
      assert "" + p == p && log + [] == log;
      ExecBytes(b, x, "", p, core);
      BytesCat(b, core, p, rest);
      var r, m := Exec(b, Willing(), x, p), Bytes(b, core, p);
      if m.Move? {
        ExecNothing(b, Willing(), x);
        assert Norm(r.log) == Norm(log + m.es);
        FeedBytes(b, r.core, r.log, pieces[1..]);
        var m' := Bytes(b, m.core, rest);
        if m'.Move? {
          NormAfter(r.log, log + m.es, m'.es);
          assert log + m.es + m'.es == log + (m.es + m'.es);
        }
      }
    }
  }

  // Chunk independence: two ways to cut the same input are consumed up to the same byte and, when all is consumed, end
  // in the same state, with the same bytes held back and the same events.
  lemma {:induction false} ChunkIndependence(b: string, core: Core, log: seq<Event>, xs: seq<string>, ys: seq<string>)
    requires Delimiter(b) && Fits(b, core) && Concat(xs) == Concat(ys) && NamesEndInColon(b, core, Concat(xs))
    ensures var x, y := Feed(b, Willing(), core, log, xs), Feed(b, Willing(), core, log, ys);
            && x.left == y.left
            && (x.left == 0 ==> x.core == y.core && Held(b, x.core) == Held(b, y.core) && Norm(x.log) == Norm(y.log))
  {
    hide Norm, Push, Feed, Fits, NamesEndInColon, Held;
    FeedBytes(b, core, log, xs);
    FeedBytes(b, core, log, ys);
  }

  // --- When the colon is missing ---

  // The number of header name bytes handed over.
  function NameBytes(es: seq<Event>): nat {
    if es == [] then 0 else
      NameBytes(es[..|es| - 1]) + match es[|es| - 1] case Field(t) => |t| case _ => 0
  }

  lemma {:induction false} NameBytesCat(x: seq<Event>, y: seq<Event>)
    ensures NameBytes(x + y) == NameBytes(x) + NameBytes(y)
  {
    if y == [] {
      assert x + y == x;
    } else {
      assert (x + y)[..|x| + |y| - 1] == x + y[..|y| - 1];
      NameBytesCat(x, y[..|y| - 1]);
    }
  }

  lemma {:induction false} NameBytesOne(e: Event)
    ensures NameBytes([e]) == match e case Field(t) => |t| case _ => 0
  {
    assert [e][..0] == [];
  }

  lemma {:induction false} NameBytesNorm(es: seq<Event>)
    ensures NameBytes(Norm(es)) == NameBytes(es)
  {
    hide Push;
    if es != [] {
      var n := |es| - 1;
      hide Norm, NameBytes;
      var m, e := Norm(es[..n]), es[n];
      NameBytesNorm(es[..n]);
      PushCases(m, e);
      NormPush(es[..n], e);
      assert es[..n] + [e] == es;
      NameBytesCat(m, [e]);
      NameBytesOne(e);
    }
  }

  lemma {:induction false} ExecShift(b: string, p: Progress, s: string, l: seq<Event>)
    requires Delimiter(b) && Fits(b, p.core)
    ensures var r, r' := Exec(b, Willing(), p, s), Exec(b, Willing(), p.(log := l + p.log), s);
            r' == r.(log := l + r.log)
    decreases |s|
  {
    if s != "" {
      hide Step, Fits, Handover;
      StepShift(b, p, s[0], l);
      var o := Step(b, Willing(), p, s[0]);
      if o.Go? {
        if |s| == 1 && o.p.pend != "" {
          assert l + (o.p.log + [Handover(o.p)]) == l + o.p.log + [Handover(o.p)];
        } else {
          ExecShift(b, o.p, s[1..], l);
        }
      }
    }
  }

  // The call in progress after the bytes of a, more being to come.
  function After(b: string, p: Progress, a: string): (o: Outcome)
    requires Delimiter(b) && Fits(b, p.core)
    ensures o.Go? ==> Fits(b, o.p.core)
    decreases |a|
  {
    if a == "" then Go(p) else
      var o := Step(b, Willing(), p, a[0]);
      if o.Go? then After(b, o.p, a[1..]) else o
  }

  lemma {:induction false} ExecAfter(b: string, p: Progress, a: string, s: string)
    requires Delimiter(b) && Fits(b, p.core) && After(b, p, a).Go?
    ensures s != "" ==> Exec(b, Willing(), p, a + s) == Exec(b, Willing(), After(b, p, a).p, s)
    ensures a != "" ==> Exec(b, Willing(), p, a) == Result(After(b, p, a).p.core, Flushed(After(b, p, a).p), 0)
    decreases |a|
  {
    hide Step, Fits, Handover;
    if a == "" {
      assert a + s == s;
    } else {
      var q := Step(b, Willing(), p, a[0]).p;
      assert (a + s)[1..] == a[1..] + s;
      ExecAfter(b, q, a[1..], s);
      assert q.log + [] == q.log;
      if |a| == 1 {
        assert a[1..] == "" && After(b, q, "") == Go(q);
        ExecNothing(b, Willing(), q);
      }
    }
  }

  // Where the parser goes does not depend on the text it has not passed on.
  lemma {:induction false} StepCore(b: string, p: Progress, c: char)
    requires Delimiter(b) && Fits(b, p.core)
    ensures var o, m := Step(b, Willing(), p, c), Delta(b, p.core, c);
            && (o.Go? <==> m.Move?)
            && (o.Go? ==> o.p.core == m.core && (o.p.core.state == HeaderField ==> o.p.pend != ""))
  {}

  lemma {:induction false} AfterCore(b: string, p: Progress, a: string)
    requires Delimiter(b) && Fits(b, p.core) && Bytes(b, p.core, a).Move?
    ensures After(b, p, a).Go? && After(b, p, a).p.core == Bytes(b, p.core, a).core
    ensures a != "" && After(b, p, a).p.core.state == HeaderField ==> After(b, p, a).p.pend != ""
    decreases |a|
  {
    hide Step, Fits, Delta;
    if a != "" {
      var c := a[0];
      StepCore(b, p, c);
      BytesOne(b, p.core, c);
      BytesCat(b, p.core, [c], a[1..]);
      assert a == [c] + a[1..];
      AfterCore(b, Step(b, Willing(), p, c).p, a[1..]);
    }
  }

  ghost predicate CutAgrees(b: string, core: Core, log: seq<Event>, s: string, k: nat)
    requires Delimiter(b) && Fits(b, core) && k <= |s|
  {
    var x, y := Feed(b, Willing(), core, log, [s]), Feed(b, Willing(), core, log, [s[..k], s[k..]]);
    x.left == y.left && x.core == y.core && Norm(x.log) == Norm(y.log)
  }

  lemma {:induction false} FeedOne(b: string, core: Core, log: seq<Event>, s: string)
    requires Delimiter(b) && Fits(b, core)
    ensures Feed(b, Willing(), core, log, [s]) == Exec(b, Willing(), Progress(core, "", log), s)
  {
    hide Exec;
    assert [s][1..] == [] && Concat([]) == "";
  }

  lemma {:induction false} FeedTwo(b: string, core: Core, log: seq<Event>, s: string, t: string)
    requires Delimiter(b) && Fits(b, core)
    ensures var r := Exec(b, Willing(), Progress(core, "", log), s);
            r.left == 0 ==> Feed(b, Willing(), core, log, [s, t]) == Exec(b, Willing(), Progress(r.core, "", r.log), t)
  {
    hide Exec;
    var r := Exec(b, Willing(), Progress(core, "", log), s);
    if r.left == 0 {
      assert [s, t][1..] == [t];
      FeedOne(b, r.core, r.log, t);
    }
  }

  // In the whole the line break drops the name; in pieces its first part has been handed over by then.
  lemma {:induction false} BareNameDropped(b: string, q: Progress, s: string)
    requires Delimiter(b) && Fits(b, q.core) && q.core.state == HeaderField && s != "" && s[0] == CR
    ensures Exec(b, Willing(), q, s) == Exec(b, Willing(), q.(pend := ""), s)
  {}

  lemma {:induction false} BareNameDisagrees(b: string, core: Core, log: seq<Event>, s: string, k: nat)
    requires Delimiter(b) && Fits(b, core) && BareName(b, core, s, k)
    ensures !CutAgrees(b, core, log, s, k)
  {
    hide Norm, Exec, Feed, After, Bytes, Step, Fits;
    var p, a, t := Progress(core, "", log), s[..k], s[k..];
    assert s == a + t;
    AfterCore(b, p, a);
    var q := After(b, p, a).p;
    ExecAfter(b, p, a, t);
    BareNameDropped(b, q, t);
    FeedOne(b, core, log, s);
    FeedTwo(b, core, log, a, t);
    var x := Exec(b, Willing(), Progress(q.core, "", []), t);
    ExecShift(b, Progress(q.core, "", []), t, q.log);
    ExecShift(b, Progress(q.core, "", []), t, q.log + [Field(q.pend)]);
    assert q.log + [] == q.log && q.log + [Field(q.pend)] + [] == q.log + [Field(q.pend)];
    NameBytesCat(q.log, x.log);
    NameBytesCat(q.log + [Field(q.pend)], x.log);
    NameBytesCat(q.log, [Field(q.pend)]);
    NameBytesOne(Field(q.pend));
    NameBytesNorm(q.log + x.log);
    NameBytesNorm(q.log + [Field(q.pend)] + x.log);
  }

  lemma {:induction false} ConcatOneTwo(s: string, t: string)
    ensures Concat([s]) == s && Concat([s, t]) == s + t
  {
    assert [s][1..] == [] && [s, t][1..] == [t] && [t][1..] == [];
    assert s + "" == s && t + "" == t;
  }

  // Cutting an input that the parser accepts in two changes nothing, wherever it is cut, exactly when no header name in
  // it lacks its colon.
  lemma {:induction false} WhenCutsAgree(b: string, core: Core, log: seq<Event>, s: string)
    requires Delimiter(b) && Fits(b, core) && Bytes(b, core, s).Move?
    ensures (forall k :: 0 < k < |s| ==> CutAgrees(b, core, log, s, k)) <==> NamesEndInColon(b, core, s)
  {
    hide Norm, Feed, Bytes, Fits;
    if NamesEndInColon(b, core, s) {
      forall k | 0 < k < |s| ensures CutAgrees(b, core, log, s, k) {
        ConcatOneTwo(s, "");
        ConcatOneTwo(s[..k], s[k..]);
        assert s[..k] + s[k..] == s;
        FeedBytes(b, core, log, [s]);
        ChunkIndependence(b, core, log, [s], [s[..k], s[k..]]);
      }
    }
    if k :| BareName(b, core, s, k) {
      BareNameDisagrees(b, core, log, s, k);
    }
  }

  // One such input: a name that the parser hands over when the input is cut behind it and drops when it is not.
  lemma {:induction false} BareNameExample()
    ensures var b, start := "x", Core(Start, 0);
            && Feed(b, Willing(), start, [], ["x\r\na\r"]) == Result(Core(HeadersAlmostDone, 0), [PartBegin], 0)
            && Feed(b, Willing(), start, [], ["x\r\na", "\r"]) == Result(Core(HeadersAlmostDone, 0), [PartBegin, Field("a")], 0)
  {
    var b, p := "x", Progress(Core(Start, 0), "", []);
    assert Step(b, Willing(), p, 'x') == Go(Progress(Core(StartBoundary, 1), "", []));
    var q := Progress(Core(HeaderField, 0), "a", [PartBegin]);
    assert After(b, p, "x\r\na") == Go(q) by {
      assert "x\r\na"[1..] == "\r\na" && "\r\na"[1..] == "\na" && "\na"[1..] == "a" && "a"[1..] == "";
      var p2 := Progress(Core(StartBoundary, 2), "", []);
      assert After(b, p2, "\na") == After(b, Progress(Core(HeaderFieldStart, 0), "", [PartBegin]), "a") == Go(q);
    }
    ExecAfter(b, p, "x\r\na", "\r");
    assert "x\r\na" + "\r" == "x\r\na\r";
    FeedOne(b, p.core, [], "x\r\na\r");
    FeedTwo(b, p.core, [], "x\r\na", "\r");
  }
}
