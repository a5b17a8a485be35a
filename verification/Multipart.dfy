// multipart-parser.c: the streaming parser for multipart bodies (section 5.1.1 of RFC 2046).
module Multipart {
  const CR: char := '\r'
  const LF: char := '\n'

  datatype State =
    | Start | StartBoundary | HeaderFieldStart | HeaderField | HeadersAlmostDone
    | HeaderValueStart | HeaderValue | HeaderValueAlmostDone
    | PartDataStart | PartData | PartDataAlmostBoundary | PartDataBoundary
    | PartDataAlmostEnd | PartDataEnd | PartDataFinalHyphen | End

  // One callback, with the bytes handed to it.
  datatype Event = PartBegin | Field(text: string) | Value(text: string) | HeadersComplete
                 | Data(text: string) | PartEnd | BodyEnd

  // Whether the last of these callbacks returns 0; it may depend on all that were made before it.
  type Callbacks = seq<Event> -> bool

  datatype Core = Core(state: State, index: nat) {
    function To(next: State): Core {
      this.(state := next)
    }
  }

  // The delimiter text, dashes included.
  predicate Delimiter(b: string) {
    b != "" && CR !in b
  }

  predicate Fits(b: string, core: Core) {
    && (core.state == StartBoundary ==> core.index <= |b| + 1)
    && (core.state == PartDataBoundary ==> core.index < |b|)
  }

  // What ends a part: the line break belongs to the delimiter.
  function Closing(b: string): string {
    [CR, LF] + b
  }

  // How many bytes of the closing delimiter have been seen and held back.
  function Matched(core: Core): nat {
    match core.state
    case PartDataAlmostBoundary => 1
    case PartDataBoundary => 2 + core.index
    case _ => 0
  }

  function Held(b: string, core: Core): string
    requires Fits(b, core)
  {
    Closing(b)[..Matched(core)]
  }

  predicate NameChar(c: char) {
    c == '-' || 'a' <= c <= 'z' || 'A' <= c <= 'Z'
  }

  // A call in progress: `pend` is the text of a header name, a header value or part data that this call has
  // read and not yet passed on, `log` all callbacks made since the parser was set up.
  datatype Progress = Progress(core: Core, pend: string, log: seq<Event>) {
    function To(next: State): Progress {
      this.(core := core.To(next), pend := "")
    }

    function Keep(c: char): Progress {
      this.(pend := pend + [c])
    }
  }

  datatype Outcome = Go(p: Progress) | Halt(core: Core, log: seq<Event>)

  function Emit(ok: Callbacks, p: Progress, e: Event, next: State): Outcome {
    var log := p.log + [e];
    if ok(log) then Go(p.(log := log).To(next)) else Halt(p.core, log)
  }

  function Refuse(p: Progress): Outcome {
    Halt(p.core, p.log)
  }

  // The state that reads a byte: four states only set the scene for another one.
  function Entered(ok: Callbacks, p: Progress, c: char): Outcome {
    match p.core.state
    case Start => Go(p.(core := Core(StartBoundary, 0)))
    case HeaderFieldStart => Go(p.To(HeaderField))
    case HeaderValueStart => Go(if c == ' ' then p else p.To(HeaderValue))
    case PartDataStart => Emit(ok, p, HeadersComplete, PartData)
    case _ => Go(p)
  }

  function DataByte(ok: Callbacks, p: Progress, c: char): Outcome {
    if c == CR then Emit(ok, p, Data(p.pend), PartDataAlmostBoundary) else Go(p.Keep(c))
  }

  // A byte breaks the match of the closing delimiter: what was held back is data, and the byte is looked at afresh.
  function Mismatch(b: string, ok: Callbacks, p: Progress, c: char): Outcome
    requires Fits(b, p.core)
  {
    var o := Emit(ok, p, Data(Held(b, p.core)), PartData);
    if o.Go? then DataByte(ok, o.p, c) else o
  }

  function Read(b: string, ok: Callbacks, p: Progress, c: char): Outcome
    requires Fits(b, p.core)
  {
    var i := p.core.index;
    match p.core.state
    case StartBoundary =>
      if i == |b| + 1 then
        if c == LF then Emit(ok, p.(core := Core(StartBoundary, 0)), PartBegin, HeaderFieldStart) else Refuse(p)
      else if c == (if i == |b| then CR else b[i]) then Go(p.(core := Core(StartBoundary, i + 1)))
      else Refuse(p)
    case HeaderField =>
      if c == CR then Go(p.To(HeadersAlmostDone))
      else if c == ':' then Emit(ok, p, Field(p.pend), HeaderValueStart)
      else if NameChar(c) then Go(p.Keep(c))
      else Refuse(p)
    case HeadersAlmostDone => if c == LF then Go(p.To(PartDataStart)) else Refuse(p)
    case HeaderValue =>
      if c == CR then Emit(ok, p, Value(p.pend), HeaderValueAlmostDone) else Go(p.Keep(c))
    case HeaderValueAlmostDone => if c == LF then Go(p.To(HeaderFieldStart)) else Refuse(p)
    case PartData => DataByte(ok, p, c)
    case PartDataAlmostBoundary =>
      if c == LF then Go(p.(core := Core(PartDataBoundary, 0))) else Mismatch(b, ok, p, c)
    case PartDataBoundary =>
      if c != b[i] then Mismatch(b, ok, p, c)
      else
        var q := p.(core := Core(PartDataBoundary, i + 1));
        if i + 1 == |b| then Emit(ok, q, PartEnd, PartDataAlmostEnd) else Go(q)
    case PartDataAlmostEnd =>
      if c == '-' then Go(p.To(PartDataFinalHyphen)) else if c == CR then Go(p.To(PartDataEnd)) else Refuse(p)
    case PartDataFinalHyphen => if c == '-' then Emit(ok, p, BodyEnd, End) else Refuse(p)
    case PartDataEnd => if c == LF then Emit(ok, p.To(HeaderFieldStart), PartBegin, HeaderFieldStart) else Refuse(p)
    case _ => Go(p)
  }

  function Step(b: string, ok: Callbacks, p: Progress, c: char): (o: Outcome)
    requires Delimiter(b) && Fits(b, p.core)
    ensures o.Go? ==> Fits(b, o.p.core)
  {
    var o := Entered(ok, p, c);
    if o.Go? then Read(b, ok, o.p, c) else o
  }

  // The event that hands over the pending text.
  function Handover(p: Progress): Event {
    match p.core.state
    case HeaderField => Field(p.pend)
    case HeaderValue => Value(p.pend)
    case _ => Data(p.pend)
  }

  // What a call does with the bytes s still to be read; `left` is how many of them it does not consume.
  datatype Result = Result(core: Core, log: seq<Event>, left: nat)

  function Exec(b: string, ok: Callbacks, p: Progress, s: string): (r: Result)
    requires Delimiter(b) && Fits(b, p.core)
    ensures r.left <= |s| && (r.left == 0 ==> Fits(b, r.core))
    decreases |s|
  {
    if s == "" then Result(p.core, p.log, 0)
    else
      match Step(b, ok, p, s[0])
      case Halt(core, log) => Result(core, log, |s|)
      case Go(q) =>
        if |s| == 1 && q.pend != "" then
          var log := q.log + [Handover(q)];
          Result(q.core, log, if ok(log) then 0 else 1)
        else Exec(b, ok, q, s[1..])
  }

  // How Exec goes on at byte i of the buffer.
  lemma Unfold(b: string, ok: Callbacks, p: Progress, buf: string, i: nat)
    requires Delimiter(b) && Fits(b, p.core) && i < |buf|
    ensures var o := Step(b, ok, p, buf[i]);
            Exec(b, ok, p, buf[i..]) ==
              if o.Halt? then Result(o.core, o.log, |buf| - i)
              else if i == |buf| - 1 && o.p.pend != "" then
                var log := o.p.log + [Handover(o.p)];
                Result(o.p.core, log, if ok(log) then 0 else 1)
              else
                Exec(b, ok, o.p, buf[i + 1..])
  {
    assert buf[i..][1..] == buf[i + 1..];
  }

  // What one turn of the parser's loop at byte i leaves behind: it takes the step, handing over the pending text
  // behind the last byte, or it only gets to a state that takes the same step and asks for the byte again.
  predicate Turned(b: string, ok: Callbacks, p: Progress, buf: string, i: nat, q: Progress, stop: bool, again: bool)
    requires Delimiter(b) && Fits(b, p.core) && i < |buf|
  {
    var o := Step(b, ok, p, buf[i]);
    if again then !stop && q.core.state == PartData && p.core.state != PartData && Step(b, ok, q, buf[i]) == o
    else if o.Halt? then stop && q.core == o.core && q.log == o.log
    else if i == |buf| - 1 && o.p.pend != "" then
      q.core == o.p.core && q.log == o.p.log + [Handover(o.p)] && stop == !ok(q.log)
    else !stop && q == o.p
  }

  lemma TurnedExec(b: string, ok: Callbacks, p: Progress, buf: string, i: nat, q: Progress, stop: bool, again: bool)
    requires Delimiter(b) && Fits(b, p.core) && i < |buf| && Turned(b, ok, p, buf, i, q, stop, again)
    ensures stop ==> Exec(b, ok, p, buf[i..]) == Result(q.core, q.log, |buf| - i)
    ensures !stop ==> Fits(b, q.core) && Exec(b, ok, p, buf[i..]) == Exec(b, ok, q, buf[if again then i else i + 1..])
  {
    Unfold(b, ok, p, buf, i);
    if again {
      Unfold(b, ok, q, buf, i);
    } else if !stop && i == |buf| - 1 {
      ExecNothing(b, ok, q);
    }
  }

  lemma ExecNothing(b: string, ok: Callbacks, p: Progress)
    requires Delimiter(b) && Fits(b, p.core)
    ensures Exec(b, ok, p, "") == Result(p.core, p.log, 0)
  {}

  // Only these three states collect text.
  function Pending(state: State, text: string): string {
    if state in {HeaderField, HeaderValue, PartData} then text else ""
  }

  class Parser {
    const boundary: string
    const accepts: Callbacks
    const lookbehind: array<char>
    var state: State
    var index: nat
    // The callbacks made so far.
    var log: seq<Event>

    // multipart_parser_init.
    constructor (boundary: string, accepts: Callbacks)
      requires Delimiter(boundary)
      ensures Valid() && fresh(lookbehind)
      ensures this.boundary == boundary && this.accepts == accepts && Now() == Progress(Core(Start, 0), "", [])
    {
      this.boundary := boundary;
      this.accepts := accepts;
      lookbehind := new char[|boundary| + 9];
      state, index, log := Start, 0, [];
    }

    // The parser between two calls: what it holds back stands in the lookbehind buffer.
    ghost predicate Valid()
      reads this, lookbehind
    {
      && Delimiter(boundary) && Fits(boundary, Core(state, index))
      && lookbehind.Length == |boundary| + 9
      && lookbehind[..Matched(Core(state, index))] == Held(boundary, Core(state, index))
    }

    ghost function Now(): Progress
      reads this
    {
      Progress(Core(state, index), "", log)
    }

    method Notify(e: Event) returns (ok: bool)
      modifies this`log
      ensures log == old(log) + [e] && ok == accepts(log)
    {
      log := log + [e];
      ok := accepts(log);
    }

    // The state between two turns of the loop, with the text from mark to i still to be passed on.
    ghost function At(buf: string, mark: nat, i: nat): Progress
      requires mark <= i <= |buf|
      reads this
    {
      Progress(Core(state, index), Pending(state, buf[mark..i]), log)
    }

    // multipart_parser_execute: n is the number of bytes consumed, turns how often the loop ran.
    method Execute(buf: string) returns (n: nat, ghost turns: nat)
      requires Valid()
      modifies this`state, this`index, this`log, lookbehind
      ensures n <= |buf| && Exec(boundary, accepts, old(Now()), buf) == Result(Core(state, index), log, |buf| - n)
      ensures n == |buf| ==> Valid()
      ensures lookbehind[|boundary| + 2..] == old(lookbehind[|boundary| + 2..])
      ensures turns <= 2 * |buf|
    {
      hide Exec, Turned;
      var i, mark := 0, 0;
      var again := false;
      turns := 0;
      while i < |buf|
        invariant 0 <= mark <= i <= |buf| && Valid()
        invariant lookbehind[|boundary| + 2..] == old(lookbehind[|boundary| + 2..])
        invariant turns <= 2 * i + (if again then 1 else 0) && (again ==> state == PartData && i < |buf|)
        invariant Exec(boundary, accepts, old(Now()), buf) == Exec(boundary, accepts, At(buf, mark, i), buf[i..])
        decreases |buf| - i, !again
      {
        turns := turns + 1;
        ghost var before := At(buf, mark, i);
        var stop;
        if state in {Start, StartBoundary} {
          stop := OpeningTurn(buf, i, mark);
          again := false;
        } else if state in {PartDataStart, PartData} {
          stop, mark := DataTurn(buf, i, mark);
          again := false;
        } else if state in {PartDataAlmostBoundary, PartDataBoundary} {
          stop, again, mark := MatchTurn(buf, i, mark);
        } else if state in {PartDataAlmostEnd, PartDataFinalHyphen, PartDataEnd, End} {
          stop := EndingTurn(buf, i, mark);
          again := false;
        } else {
          stop, mark := HeaderTurn(buf, i, mark);
          again := false;
        }
        TurnedExec(boundary, accepts, before, buf, i, At(buf, mark, if again then i else i + 1), stop, again);
        if stop { return i, turns; }
        if !again { i := i + 1; }
      }
      ExecNothing(boundary, accepts, At(buf, mark, i));
      return |buf|, turns;
    }

    // The switch of the parser's loop, case by case: the opening delimiter, ...
    method OpeningTurn(buf: string, i: nat, ghost mark: nat) returns (stop: bool)
      requires Valid() && mark <= i < |buf| && state in {Start, StartBoundary}
      modifies this`state, this`index, this`log
      ensures Turned(boundary, accepts, old(At(buf, mark, i)), buf, i, At(buf, mark, i + 1), stop, false)
      ensures !stop ==> Valid()
    {
      var c := buf[i];
      if state == Start {
        index, state := 0, StartBoundary;
      }
      if index == |boundary| {
        if c != CR { return true; }
        index := index + 1;
        return false;
      } else if index == |boundary| + 1 {
        if c != LF { return true; }
        index := 0;
        var ok := Notify(PartBegin);
        if !ok { return true; }
        state := HeaderFieldStart;
        return false;
      }
      if c != boundary[index] { return true; }
      index := index + 1;
      return false;
    }

    // ... the headers, ...
    method HeaderTurn(buf: string, i: nat, mark0: nat) returns (stop: bool, mark: nat)
      requires Valid() && mark0 <= i < |buf|
      requires state in {HeaderFieldStart, HeaderField, HeadersAlmostDone, HeaderValueStart, HeaderValue, HeaderValueAlmostDone}
      modifies this`state, this`log
      ensures mark <= i
      ensures Turned(boundary, accepts, old(At(buf, mark0, i)), buf, i, At(buf, mark, i + 1), stop, false)
      ensures !stop ==> Valid()
    {
      mark := mark0;
      var c, isLast := buf[i], i == |buf| - 1;
      if state == HeaderFieldStart {
        mark, state := i, HeaderField;
      } else if state == HeaderValueStart {
        if c == ' ' { return false, mark; }
        mark, state := i, HeaderValue;
      }
      assert buf[mark..i] + [c] == buf[mark..i + 1];
      match state {
      case HeaderField =>
        if c == CR {
          state := HeadersAlmostDone;
          return false, mark;
        }
        if c == ':' {
          var ok := Notify(Field(buf[mark..i]));
          if !ok { return true, mark; }
          state := HeaderValueStart;
          return false, mark;
        }
        if !NameChar(c) { return true, mark; }
        if isLast {
          var ok := Notify(Field(buf[mark..i + 1]));
          if !ok { return true, mark; }
        }
      case HeadersAlmostDone =>
        if c != LF { return true, mark; }
        state := PartDataStart;
      case HeaderValue =>
        if c == CR {
          var ok := Notify(Value(buf[mark..i]));
          if !ok { return true, mark; }
          state := HeaderValueAlmostDone;
          return false, mark;
        }
        if isLast {
          var ok := Notify(Value(buf[mark..i + 1]));
          if !ok { return true, mark; }
        }
      case HeaderValueAlmostDone =>
        if c != LF { return true, mark; }
        state := HeaderFieldStart;
      }
      return false, mark;
    }

    // ... the part data, ...
    method DataTurn(buf: string, i: nat, mark0: nat) returns (stop: bool, mark: nat)
      requires Valid() && mark0 <= i < |buf| && state in {PartDataStart, PartData}
      modifies this`state, this`log, lookbehind
      ensures mark <= i
      ensures Turned(boundary, accepts, old(At(buf, mark0, i)), buf, i, At(buf, mark, i + 1), stop, false)
      ensures !stop ==> Valid()
      ensures lookbehind[|boundary| + 2..] == old(lookbehind[|boundary| + 2..])
    {
      mark := mark0;
      var c, isLast := buf[i], i == |buf| - 1;
      if state == PartDataStart {
        var ok := Notify(HeadersComplete);
        if !ok { return true, mark; }
        mark, state := i, PartData;
      }
      assert buf[mark..i] + [c] == buf[mark..i + 1];
      if c == CR {
        var ok := Notify(Data(buf[mark..i]));
        if !ok { return true, mark; }
        mark, state := i, PartDataAlmostBoundary;
        lookbehind[0] := CR;
        return false, mark;
      }
      if isLast {
        var ok := Notify(Data(buf[mark..i + 1]));
        if !ok { return true, mark; }
      }
      return false, mark;
    }

    // ... the closing delimiter, where `again` stands for `mark = i --`, ...
    method MatchTurn(buf: string, i: nat, mark0: nat) returns (stop: bool, again: bool, mark: nat)
      requires Valid() && mark0 <= i < |buf| && state in {PartDataAlmostBoundary, PartDataBoundary}
      modifies this`state, this`index, this`log, lookbehind
      ensures mark <= i
      ensures Turned(boundary, accepts, old(At(buf, mark0, i)), buf, i, At(buf, mark, if again then i else i + 1), stop, again)
      ensures !stop ==> Valid()
      ensures lookbehind[|boundary| + 2..] == old(lookbehind[|boundary| + 2..])
    {
      var c := buf[i];
      assert buf[i..i] == "" && lookbehind[..Matched(Core(state, index))] == Held(boundary, Core(state, index));
      if state == PartDataAlmostBoundary {
        if c == LF {
          state, index := PartDataBoundary, 0;
          lookbehind[1] := LF;
          return false, false, mark0;
        }
        var ok := Notify(Data(lookbehind[..1]));
        if !ok { return true, false, mark0; }
        state := PartData;
        return false, true, i;
      }
      if boundary[index] != c {
        var ok := Notify(Data(lookbehind[..2 + index]));
        if !ok { return true, false, mark0; }
        state := PartData;
        return false, true, i;
      }
      lookbehind[2 + index] := c;
      index := index + 1;
      if index == |boundary| {
        var ok := Notify(PartEnd);
        if !ok { return true, false, mark0; }
        state := PartDataAlmostEnd;
      }
      return false, false, mark0;
    }

    // ... and what follows a delimiter.
    method EndingTurn(buf: string, i: nat, ghost mark: nat) returns (stop: bool)
      requires Valid() && mark <= i < |buf|
      requires state in {PartDataAlmostEnd, PartDataFinalHyphen, PartDataEnd, End}
      modifies this`state, this`log
      ensures Turned(boundary, accepts, old(At(buf, mark, i)), buf, i, At(buf, mark, i + 1), stop, false)
      ensures !stop ==> Valid()
    {
      var c := buf[i];
      match state {
      case PartDataAlmostEnd =>
        if c == '-' {
          state := PartDataFinalHyphen;
        } else if c == CR {
          state := PartDataEnd;
        } else {
          return true;
        }
      case PartDataFinalHyphen =>
        if c != '-' { return true; }
        var ok := Notify(BodyEnd);
        if !ok { return true; }
        state := End;
      case PartDataEnd =>
        if c != LF { return true; }
        state := HeaderFieldStart;
        var ok := Notify(PartBegin);
        if !ok { return true; }
      case End =>
      }
      return false;
    }
  }
}
