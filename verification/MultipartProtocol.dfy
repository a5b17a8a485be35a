// The order in which the multipart parser makes its callbacks, whatever they return.
module MultipartProtocol {
  import opened Multipart
  import opened MultipartChunks

  // Where a sequence of callbacks stands in
  //   (part_data_begin, (header_field+ header_value+)*, headers_complete, part_data+, part_data_end)+ body_end
  datatype Phase = Outside | Headers | Name | Contents | Body | Filled | Between | Over | Broken

  function Next(phase: Phase, e: Event): Phase {
    match (phase, e)
    case (Outside, PartBegin) => Headers
    case (Headers, Field(_)) => Name
    case (Headers, HeadersComplete) => Body
    case (Name, Field(_)) => Name
    case (Name, Value(_)) => Contents
    case (Contents, Value(_)) => Contents
    case (Contents, Field(_)) => Name
    case (Contents, HeadersComplete) => Body
    case (Body, Data(_)) => Filled
    case (Filled, Data(_)) => Filled
    case (Filled, PartEnd) => Between
    case (Between, PartBegin) => Headers
    case (Between, BodyEnd) => Over
    case _ => Broken
  }

  function PhaseOf(es: seq<Event>): Phase {
    if es == [] then Outside else Next(PhaseOf(es[..|es| - 1]), es[|es| - 1])
  }

  lemma {:induction false} PhasePlus(es: seq<Event>, e: Event)
    ensures PhaseOf(es + [e]) == Next(PhaseOf(es), e)
  {
    assert (es + [e])[..|es|] == es;
  }

  // Once out of order, always out of order.
  lemma {:induction false} BrokenStays(es: seq<Event>, k: nat)
    requires k <= |es| && PhaseOf(es) != Broken
    ensures PhaseOf(es[..k]) != Broken
  {
    if k == |es| {
      assert es[..k] == es;
    } else {
      BrokenStays(es[..|es| - 1], k);
      assert es[..|es| - 1][..k] == es[..k];
    }
  }

  // The phases in which the parser can be in a given state.
  predicate Agrees(state: State, phase: Phase) {
    match state
    case Start => phase == Outside
    case StartBoundary => phase == Outside
    case HeaderFieldStart => phase in {Headers, Contents}
    case HeaderField => phase in {Headers, Name, Contents}
    case HeadersAlmostDone => phase in {Headers, Contents}
    case HeaderValueStart => phase == Name
    case HeaderValue => phase in {Name, Contents}
    case HeaderValueAlmostDone => phase == Contents
    case PartDataStart => phase in {Headers, Contents}
    case PartData => phase in {Body, Filled}
    case PartDataAlmostBoundary => phase == Filled
    case PartDataBoundary => phase == Filled
    case PartDataAlmostEnd => phase == Between
    case PartDataEnd => phase == Between
    case PartDataFinalHyphen => phase == Between
    case End => phase == Over
  }

  predicate InOrder(o: Outcome) {
    match o
    case Go(p) => Agrees(p.core.state, PhaseOf(p.log)) && Tidy(p)
    case Halt(_, log) => PhaseOf(log) != Broken
  }

  lemma {:induction false} EmitInOrder(ok: Callbacks, p: Progress, e: Event, next: State)
    requires Agrees(next, Next(PhaseOf(p.log), e)) && Next(PhaseOf(p.log), e) != Broken
    ensures InOrder(Emit(ok, p, e, next))
  {
    PhasePlus(p.log, e);
  }

  lemma {:induction false} DataInOrder(ok: Callbacks, p: Progress, c: char)
    requires p.core.state == PartData && PhaseOf(p.log) in {Body, Filled}
    ensures InOrder(DataByte(ok, p, c))
  {
    hide PhaseOf, Emit;
    if c == CR {
      EmitInOrder(ok, p, Data(p.pend), PartDataAlmostBoundary);
    }
  }

  lemma {:induction false} MismatchInOrder(b: string, ok: Callbacks, p: Progress, c: char)
    requires Fits(b, p.core) && PhaseOf(p.log) == Filled
    ensures InOrder(Mismatch(b, ok, p, c))
  {
    hide PhaseOf, DataByte, Held, Fits;
    EmitInOrder(ok, p, Data(Held(b, p.core)), PartData);
    var o := Emit(ok, p, Data(Held(b, p.core)), PartData);
    if o.Go? {
      DataInOrder(ok, o.p, c);
    }
  }

  // A line break in a header name is the one byte that would get the callbacks out of order.
  lemma {:induction false} ReadInOrder(b: string, ok: Callbacks, p: Progress, c: char)
    requires Fits(b, p.core) && p.core.state !in {Start, HeaderFieldStart, PartDataStart}
    requires Agrees(p.core.state, PhaseOf(p.log)) && Tidy(p)
    requires !(p.core.state == HeaderField && PhaseOf(p.log) == Name && c == CR)
    ensures InOrder(Read(b, ok, p, c))
  {
    hide PhaseOf, Emit, DataByte, Mismatch;
    var i := p.core.index;
    match p.core.state
    case StartBoundary => EmitInOrder(ok, p.(core := Core(StartBoundary, 0)), PartBegin, HeaderFieldStart);
    case HeaderField => EmitInOrder(ok, p, Field(p.pend), HeaderValueStart);
    case HeaderValue => EmitInOrder(ok, p, Value(p.pend), HeaderValueAlmostDone);
    case PartData => DataInOrder(ok, p, c);
    case PartDataAlmostBoundary => MismatchInOrder(b, ok, p, c);
    case PartDataBoundary =>
      MismatchInOrder(b, ok, p, c);
      EmitInOrder(ok, p.(core := Core(PartDataBoundary, i + 1)), PartEnd, PartDataAlmostEnd);
    case PartDataFinalHyphen => EmitInOrder(ok, p, BodyEnd, End);
    case PartDataEnd => EmitInOrder(ok, p.To(HeaderFieldStart), PartBegin, HeaderFieldStart);
    case _ =>
  }

  lemma {:induction false} StepInOrder(b: string, ok: Callbacks, p: Progress, c: char)
    requires Delimiter(b) && Fits(b, p.core) && Agrees(p.core.state, PhaseOf(p.log)) && Tidy(p)
    requires !(p.core.state == HeaderField && c == CR)
    ensures InOrder(Step(b, ok, p, c))
  {
    hide PhaseOf, Read;
    if p.core.state == PartDataStart {
      EmitInOrder(ok, p, HeadersComplete, PartData);
    }
    var o := Entered(ok, p, c);
    if o.Go? {
      ReadInOrder(b, ok, o.p, c);
    }
  }

  // Whatever the callbacks return, a step that goes on goes where the reference goes.
  lemma {:induction false} StepWhere(b: string, ok: Callbacks, p: Progress, c: char)
    requires Delimiter(b) && Fits(b, p.core) && Step(b, ok, p, c).Go?
    ensures Delta(b, p.core, c).Move? && Delta(b, p.core, c).core == Step(b, ok, p, c).p.core
  {}

  lemma {:induction false} HandoverInOrder(p: Progress)
    requires Agrees(p.core.state, PhaseOf(p.log)) && Tidy(p) && p.pend != ""
    ensures Agrees(p.core.state, PhaseOf(p.log + [Handover(p)])) && PhaseOf(p.log + [Handover(p)]) != Broken
  {
    PhasePlus(p.log, Handover(p));
  }

  // The parser's whole state after the bytes a, with the callbacks made so far in order.
  predicate Reached(b: string, a: string, p: Progress)
    requires Delimiter(b)
  {
    && Bytes(b, Core(Start, 0), a).Move? && Bytes(b, Core(Start, 0), a).core == p.core
    && Agrees(p.core.state, PhaseOf(p.log)) && Tidy(p)
  }

  lemma {:induction false} ReachedStep(b: string, ok: Callbacks, p: Progress, a: string, s: string)
    requires Delimiter(b) && Fits(b, p.core) && Reached(b, a, p) && s != ""
    requires NamesEndInColon(b, Core(Start, 0), a + s)
    ensures InOrder(Step(b, ok, p, s[0]))
    ensures Step(b, ok, p, s[0]).Go? ==> Reached(b, a + [s[0]], Step(b, ok, p, s[0]).p)
  {
    hide PhaseOf, Step, Agrees, Tidy, Delta;
    var c, start := s[0], Core(Start, 0);
    assert (a + s)[..|a|] == a && !BareName(b, start, a + s, |a|);
    StepInOrder(b, ok, p, c);
    if Step(b, ok, p, c).Go? {
      StepWhere(b, ok, p, c);
      BytesCat(b, start, a, [c]);
      BytesOne(b, p.core, c);
    }
  }

  // A call that starts after the bytes a keeps to the order.
  lemma {:induction false} ExecInOrder(b: string, ok: Callbacks, p: Progress, a: string, s: string)
    requires Delimiter(b) && Fits(b, p.core) && Reached(b, a, p) && NamesEndInColon(b, Core(Start, 0), a + s)
    ensures var r := Exec(b, ok, p, s);
            && PhaseOf(r.log) != Broken
            && (r.left == 0 ==> Reached(b, a + s, Progress(r.core, "", r.log)))
    decreases |s|
  {
    hide Step, Fits, Handover, PhaseOf, NamesEndInColon, Delta, Bytes;
    if s == "" {
      assert a + s == a;
    } else {
      var c := s[0];
      ReachedStep(b, ok, p, a, s);
      var o := Step(b, ok, p, c);
      if o.Go? {
        if |s| == 1 && o.p.pend != "" {
          HandoverInOrder(o.p);
          assert a + s == a + [c];
        } else {
          assert a + [c] + s[1..] == a + s;
          ExecInOrder(b, ok, o.p, a + [c], s[1..]);
        }
      }
    }
  }

  lemma {:induction false} FeedInOrder(b: string, ok: Callbacks, core: Core, log: seq<Event>, a: string, pieces: seq<string>)
    requires Delimiter(b) && Fits(b, core) && Reached(b, a, Progress(core, "", log))
    requires NamesEndInColon(b, Core(Start, 0), a + Concat(pieces))
    ensures PhaseOf(Feed(b, ok, core, log, pieces).log) != Broken
    decreases |pieces|
  {
    if pieces != [] {
      hide Exec, Fits, PhaseOf, NamesEndInColon, Bytes;
      var s, rest := pieces[0], Concat(pieces[1..]);
      assert a + Concat(pieces) == a + s + rest;
      NamesInParts(b, Core(Start, 0), a + s, rest);
      ExecInOrder(b, ok, Progress(core, "", log), a, s);
      var r := Exec(b, ok, Progress(core, "", log), s);
      if r.left == 0 {
        FeedInOrder(b, ok, r.core, r.log, a + s, pieces[1..]);
      }
    }
  }

  // The callbacks of every run, accepted or stopped, are a beginning of the documented order: for any input whose header
  // names end in a colon, cut in any way, and whatever the callbacks return.
  lemma {:induction false} CallbackProtocol(b: string, ok: Callbacks, pieces: seq<string>)
    requires Delimiter(b) && NamesEndInColon(b, Core(Start, 0), Concat(pieces))
    ensures PhaseOf(Feed(b, ok, Core(Start, 0), [], pieces).log) != Broken
  {
    assert "" + Concat(pieces) == Concat(pieces);
    FeedInOrder(b, ok, Core(Start, 0), [], "", pieces);
  }

  // --- A run that is stopped is the beginning of the run with willing callbacks ---

  function LogOf(o: Outcome): seq<Event> {
    match o case Go(p) => p.log case Halt(_, log) => log
  }

  // These are the callbacks of a run that ok stops beyond the first n, where willing ones would have made all of these.
  predicate Stopped(ok: Callbacks, n: nat, log: seq<Event>, all: seq<Event>) {
    n < |log| && log <= all && !ok(log)
  }

  lemma {:induction false} ExecGrows(b: string, p: Progress, s: string)
    requires Delimiter(b) && Fits(b, p.core)
    ensures p.log <= Exec(b, Willing(), p, s).log
  {
    ExecShift(b, p.(log := []), s, p.log);
    assert p.log + [] == p.log;
  }

  lemma {:induction false} FeedGrows(b: string, core: Core, log: seq<Event>, pieces: seq<string>)
    requires Delimiter(b) && Fits(b, core)
    ensures log <= Feed(b, Willing(), core, log, pieces).log
    decreases |pieces|
  {
    if pieces != [] {
      hide Exec, Fits;
      ExecGrows(b, Progress(core, "", log), pieces[0]);
      var r := Exec(b, Willing(), Progress(core, "", log), pieces[0]);
      if r.left == 0 {
        FeedGrows(b, r.core, r.log, pieces[1..]);
      }
    }
  }

  lemma {:induction false} MismatchStops(b: string, ok: Callbacks, p: Progress, c: char)
    requires Fits(b, p.core)
    ensures var o, w := Mismatch(b, ok, p, c), Mismatch(b, Willing(), p, c);
            p.log <= LogOf(w) && (o == w || (o.Halt? && Stopped(ok, |p.log|, o.log, LogOf(w))))
  {
    hide Held;
  }

  lemma {:induction false} ReadStops(b: string, ok: Callbacks, p: Progress, c: char)
    requires Fits(b, p.core)
    ensures var o, w := Read(b, ok, p, c), Read(b, Willing(), p, c);
            p.log <= LogOf(w) && (o == w || (o.Halt? && Stopped(ok, |p.log|, o.log, LogOf(w))))
  {
    hide Mismatch;
    if p.core.state in {PartDataAlmostBoundary, PartDataBoundary} {
      MismatchStops(b, ok, p, c);
    }
  }

  lemma {:induction false} StepStops(b: string, ok: Callbacks, p: Progress, c: char)
    requires Delimiter(b) && Fits(b, p.core)
    ensures var o, w := Step(b, ok, p, c), Step(b, Willing(), p, c);
            p.log <= LogOf(w) && (o == w || (o.Halt? && Stopped(ok, |p.log|, o.log, LogOf(w))))
  {
    hide Read;
    var o := Entered(Willing(), p, c);
    if o.Go? {
      ReadStops(b, ok, o.p, c);
    }
  }

  lemma {:induction false} ExecStops(b: string, ok: Callbacks, p: Progress, s: string)
    requires Delimiter(b) && Fits(b, p.core)
    ensures var r, w := Exec(b, ok, p, s), Exec(b, Willing(), p, s);
            r == w || (r.left > 0 && Stopped(ok, |p.log|, r.log, w.log))
    decreases |s|
  {
    if s != "" {
      hide Step, Fits, Handover;
      StepStops(b, ok, p, s[0]);
      var w := Step(b, Willing(), p, s[0]);
      if w.Go? && !(|s| == 1 && w.p.pend != "") {
        ExecGrows(b, w.p, s[1..]);
        ExecStops(b, ok, w.p, s[1..]);
      }
    }
  }

  // Whatever the callbacks return, the run is the one with willing callbacks, or its beginning up to the first callback
  // that does not return 0.
  lemma {:induction false} FeedStops(b: string, ok: Callbacks, core: Core, log: seq<Event>, pieces: seq<string>)
    requires Delimiter(b) && Fits(b, core)
    ensures var r, w := Feed(b, ok, core, log, pieces), Feed(b, Willing(), core, log, pieces);
            r == w || (r.left > 0 && Stopped(ok, |log|, r.log, w.log))
    decreases |pieces|
  {
    if pieces != [] {
      hide Exec, Fits;
      var x := Progress(core, "", log);
      ExecStops(b, ok, x, pieces[0]);
      ExecGrows(b, x, pieces[0]);
      var w := Exec(b, Willing(), x, pieces[0]);
      if w.left == 0 {
        FeedGrows(b, w.core, w.log, pieces[1..]);
        FeedStops(b, ok, w.core, w.log, pieces[1..]);
      }
    }
  }

  // A step only adds callbacks, and goes on only if they are all accepted.
  lemma {:induction false} StepLog(b: string, ok: Callbacks, p: Progress, c: char)
    requires Delimiter(b) && Fits(b, p.core)
    ensures p.log <= LogOf(Step(b, ok, p, c))
    ensures Step(b, ok, p, c).Go? && ok(p.log) ==> ok(Step(b, ok, p, c).p.log)
  {}

  lemma {:induction false} ExecLog(b: string, ok: Callbacks, p: Progress, s: string)
    requires Delimiter(b) && Fits(b, p.core)
    ensures p.log <= Exec(b, ok, p, s).log
    ensures Exec(b, ok, p, s).left == 0 && ok(p.log) ==> ok(Exec(b, ok, p, s).log)
    decreases |s|
  {
    if s != "" {
      hide Step, Fits, Handover;
      StepLog(b, ok, p, s[0]);
      var o := Step(b, ok, p, s[0]);
      if o.Go? && !(|s| == 1 && o.p.pend != "") {
        ExecLog(b, ok, o.p, s[1..]);
      }
    }
  }
}
