// mpart-body-processor.c: the callbacks as they change the processor, and the loop that reads the body.
module BodyProcessors {
  import opened Basics
  import opened AvlNodes
  import opened Avl
  import opened KvLists
  import opened Multipart
  import opened MultipartChunks
  import MultipartPrint
  import opened MultipartProtocol
  import opened FormData

  // How a callback ends.  Crash: an assertion fails or a null pointer is followed.  File: the part is an uploaded file.
  datatype Return = Zero | MinusOne | Crash | File

  function Ended(rc: Return, p: Proc): Handled {
    match rc
    case Zero => Done(p)
    case MinusOne => Refused(p)
    case Crash => Fault
    case File => Upload
  }

  // attrs_map_parse; ok is false when it follows a null pointer.
  method AttrsMapParse(list: KvList, str: string) returns (ok: bool)
    requires list.Valid()
    modifies list.avl, list.avl.listHead, Elems(list.avl.nodes)
    ensures list.Valid() && fresh(Elems(list.avl.nodes) - old(Elems(list.avl.nodes)))
    ensures AttrsFrom(old(list.Contents()), Some(TrimLeft(IsSpace, str))) == if ok then Some(list.Contents()) else None
  {
    hide KvList.Valid, KvList.Contents, TrimLeft, StrSep, Strip;
    var rest := SkipSpaces(str);
    ghost var wanted := AttrsFrom(list.Contents(), rest);
    while rest.Some?
      invariant list.Valid() && fresh(Elems(list.avl.nodes) - old(Elems(list.avl.nodes)))
      invariant AttrsFrom(list.Contents(), rest) == wanted
      decreases if rest.None? then 0 else 1 + |rest.value|
    {
      StrSepRest(rest.value, ';');
      var (pair, more) := StrSep(rest.value, ';');
      var (name, valuePart) := StrSep(pair, '=');
      if valuePart.None? {
        return false;
      }
      var value := StripInPlace(IsQuote, StrSep(valuePart.value, '=').0);
      value := StripInPlace(IsSpace, value);
      name := StripInPlace(IsSpace, name);
      list.Set(name, value);
      rest := more;
    }
    return true;
  }

  method SkipSpaces(str: string) returns (rest: Option<string>)
    ensures rest == Some(TrimLeft(IsSpace, str))
  {
    var start := 0;
    while start < |str| && IsSpace(str[start])
      invariant start <= |str| && TrimLeft(IsSpace, str[start..]) == TrimLeft(IsSpace, str)
    {
      start := start + 1;
      assert str[start - 1..][1..] == str[start..];
    }
    return Some(str[start..]);
  }

  // The part of headers_complete_cb that looks into the attributes.
  method FieldName(str: string) returns (rc: Return, name: string)
    ensures Attrs(str).None? ==> rc == Crash
    ensures Attrs(str).Some? ==>
              var attrs := Attrs(str).value;
              && rc == (if "name" !in attrs then MinusOne else if "filename" in attrs then File else Zero)
              && (rc == Zero ==> name == attrs["name"])
  {
    hide AvlTree.Valid, MapOf, AttrsFrom, TrimLeft;
    var attrs := new KvList();
    name := "";
    var ok := AttrsMapParse(attrs, str);
    if !ok {
      return Crash, "";
    }
    var data := attrs.Get("name");
    if data.None? {
      return MinusOne, "";
    }
    name := data.value;
    data := attrs.Get("filename");
    if data.Some? {
      return File, name;
    }
    return Zero, name;
  }

  class Processor {
    var headers: KvList?
    var lastHeaderName: Option<string>
    var lastHeaderValue: Option<string>
    var name: Option<string>
    var data: Option<string>
    var post: map<string, PostValue>

    constructor ()
      ensures Valid() && State() == INITIAL && Footprint() == {}
    {
      headers, lastHeaderName, lastHeaderValue, name, data, post := null, None, None, None, None, map[];
    }

    ghost function Footprint(): set<object>
      reads this, if headers == null then {} else {headers.avl}
    {
      if headers == null then {} else {headers.avl, headers.avl.listHead} + Elems(headers.avl.nodes)
    }

    ghost predicate Valid()
      reads this, if headers == null then {} else {headers.avl}
      reads Footprint()
    {
      headers != null ==> headers.Valid()
    }

    ghost function State(): Proc
      reads this, if headers == null then {} else {headers.avl}
    {
      Proc(if headers == null then None else Some(headers.Contents()),
           lastHeaderName, lastHeaderValue, name, data, post)
    }

    // add_new_header, where both of its callers call it.
    method AddNewHeader() returns (rc: Return)
      requires Valid()
      modifies this, Footprint()
      ensures Valid() && fresh(Footprint() - old(Footprint()))
      ensures WithHeader(old(State())) == Ended(rc, State())
    {
      hide AvlTree.Valid, MapOf;
      if lastHeaderName.Some? && lastHeaderValue.Some? {
        if headers == null {
          return Crash;
        }
        headers.Set(lastHeaderName.value, lastHeaderValue.value);
        lastHeaderName, lastHeaderValue := None, None;
      }
      return Zero;
    }

    // header_field_cb.
    method HeaderFieldCb(buf: string) returns (rc: Return)
      requires Valid()
      modifies this, Footprint()
      ensures Valid() && fresh(Footprint() - old(Footprint()))
      ensures Handle(old(State()), Field(buf)) == Ended(rc, State())
    {
      hide AvlTree.Valid, MapOf;
      rc := AddNewHeader();
      if rc == Zero {
        lastHeaderName := Append(lastHeaderName, buf);
      }
    }

    // header_value_cb.
    method HeaderValueCb(buf: string) returns (rc: Return)
      requires Valid()
      modifies this
      ensures Valid() && Footprint() == old(Footprint())
      ensures Handle(old(State()), Value(buf)) == Ended(rc, State())
    {
      if lastHeaderName.None? {
        return MinusOne;
      }
      lastHeaderValue := Append(lastHeaderValue, buf);
      return Zero;
    }

    // headers_complete_cb.
    method HeadersCompleteCb() returns (rc: Return)
      requires Valid()
      modifies this, Footprint()
      ensures Valid() && fresh(Footprint() - old(Footprint()))
      ensures Handle(old(State()), HeadersComplete) == Ended(rc, State())
    {
      hide AvlTree.Valid, MapOf, Attrs;
      rc := AddNewHeader();
      if rc != Zero {
        return;
      }
      if headers == null {
        return Crash;
      }
      var disposition := headers.Get("Content-Disposition");
      if disposition.None? || !("form-data;" <= disposition.value) {
        return MinusOne;
      }
      var fieldName;
      rc, fieldName := FieldName(disposition.value[10..]);
      if rc != Zero {
        return;
      }
      post := post[fieldName := Null];
      name := Some(fieldName);
      headers := null;
      return Zero;
    }

    // part_data_cb.
    method PartDataCb(buf: string) returns (rc: Return)
      requires Valid()
      modifies this
      ensures Valid() && Footprint() == old(Footprint())
      ensures Handle(old(State()), Data(buf)) == Ended(rc, State())
    {
      hide MapOf;
      if name.None? {
        return Crash;
      }
      data := Append(data, buf);
      return Zero;
    }

    // part_data_begin_cb.
    method PartDataBeginCb() returns (rc: Return)
      requires Valid()
      modifies this
      ensures Valid() && fresh(Footprint() - old(Footprint()))
      ensures Handle(old(State()), PartBegin) == Ended(rc, State())
    {
      hide AvlTree.Valid, MapOf;
      if headers != null {
        return Crash;
      }
      headers := new KvList();
      return Zero;
    }

    // part_data_end_cb.
    method PartDataEndCb() returns (rc: Return)
      requires Valid()
      modifies this
      ensures Valid() && Footprint() == old(Footprint())
      ensures Handle(old(State()), PartEnd) == Ended(rc, State())
    {
      hide MapOf;
      if name.None? {
        return Crash;
      }
      if data.None? {
        name := None;
        return Zero;
      }
      post := post[name.value := Text(data.value)];
      data, name := None, None;
      return Zero;
    }

    // The callback that the parser's settings name for an event.
    method Callback(e: Event) returns (rc: Return)
      requires Valid()
      modifies this, Footprint()
      ensures Valid() && fresh(Footprint() - old(Footprint()))
      ensures Handle(old(State()), e) == Ended(rc, State())
    {
      hide Handle, Valid, State;
      match e
      case PartBegin => rc := PartDataBeginCb();
      case Field(buf) => rc := HeaderFieldCb(buf);
      case Value(buf) => rc := HeaderValueCb(buf);
      case HeadersComplete => rc := HeadersCompleteCb();
      case Data(buf) => rc := PartDataCb(buf);
      case PartEnd => rc := PartDataEndCb();
      case BodyEnd => rc := BodyEndCb();
    }

    // body_end_cb.
    method BodyEndCb() returns (rc: Return)
      requires Valid()
      ensures rc == Zero && Handle(State(), BodyEnd) == Done(State())
    {
      return Zero;
    }

    // A run of callbacks, up to the first that does not return 0.
    method Deliver(es: seq<Event>) returns (rc: Return)
      requires Valid()
      modifies this, Footprint()
      ensures Valid() && fresh(Footprint() - old(Footprint()))
      ensures HandleFrom(Done(old(State())), es) == Ended(rc, State())
    {
      hide Handle, Valid, State, HandleFrom;
      ghost var h := Done(State());
      rc := Zero;
      var i := 0;
      HandleNothing(h);
      while i < |es| && rc == Zero
        invariant i <= |es| && Valid() && fresh(Footprint() - old(Footprint()))
        invariant HandleFrom(h, es[..i]) == Ended(rc, State())
      {
        HandlePlus(h, es[..i], es[i]);
        assert es[..i] + [es[i]] == es[..i + 1];
        rc := Callback(es[i]);
        i := i + 1;
      }
      HandleCat(h, es[..i], es[i..]);
      assert es[..i] + es[i..] == es;
      if i < |es| {
        HandleStopped(HandleFrom(h, es[..i]), es[i..]);
      } else {
        HandleNothing(HandleFrom(h, es[..i]));
        assert es[i..] == [];
      }
    }
  }

  const BLOCK: nat := 256

  // What fread hands over, block by block: the last one is short, and empty if the body's length is a multiple of 256.
  function Blocks(s: string): (blocks: seq<string>)
    ensures Concat(blocks) == s
    decreases |s|
  {
    if |s| < BLOCK then
      assert Concat([s]) == s by { ConcatOneTwo(s, ""); }
      [s]
    else
      assert [s[..BLOCK]] + Blocks(s[BLOCK..]) != [] && ([s[..BLOCK]] + Blocks(s[BLOCK..]))[1..] == Blocks(s[BLOCK..]);
      [s[..BLOCK]] + Blocks(s[BLOCK..])
  }

  // One call of the parser, and the callbacks it makes.  The parser asks FormCallbacks what they will return; they are
  // delivered behind the call.
  method ParseBlock(parser: Parser, processor: Processor, buf: string) returns (consumed: nat, rc: Return)
    requires parser.Valid() && parser.accepts == FormCallbacks() && processor.Valid()
    requires HandleAll(parser.log) == Done(processor.State())
    modifies parser, parser.lookbehind, processor, processor.Footprint()
    ensures consumed <= |buf|
    ensures Exec(parser.boundary, FormCallbacks(), old(parser.Now()), buf)
         == Result(Core(parser.state, parser.index), parser.log, |buf| - consumed)
    ensures HandleAll(parser.log) == Ended(rc, processor.State())
    ensures processor.Valid() && fresh(processor.Footprint() - old(processor.Footprint()))
    ensures consumed == |buf| ==> parser.Valid() && rc == Zero
  {
    hide HandleFrom, Exec, Parser.Valid, Processor.Valid, Handle, Fits;
    var made := |parser.log|;
    ghost var before := parser.Now();
    ParserFits(parser);
    ExecLog(parser.boundary, FormCallbacks(), before, buf);
    ghost var turns;
    consumed, turns := parser.Execute(buf);
    rc := processor.Deliver(parser.log[made..]);
    HandleCat(Done(INITIAL), before.log, parser.log[made..]);
    assert before.log + parser.log[made..] == parser.log;
  }

  lemma ParserFits(parser: Parser)
    requires parser.Valid()
    ensures Delimiter(parser.boundary) && Fits(parser.boundary, Core(parser.state, parser.index))
  {}

  ghost predicate Answers(h: Handled, rc: Return, post: map<string, PostValue>) {
    match rc
    case Zero => h.Done? && h.p.post == post
    case MinusOne => h.Refused? && h.p.post == post
    case Crash => h == Fault
    case File => h == Upload
  }

  // parse_content_as_multipart_form_data: the fields, if the code gets to its end, and whether all bytes were consumed.
  method ParseContent(boundary: string, input: string) returns (rc: Return, post: map<string, PostValue>, whole: bool)
    requires Delimiter(boundary)
    ensures var r := Feed(boundary, FormCallbacks(), Core(Start, 0), [], Blocks(input));
            whole == (r.left == 0) && Answers(HandleAll(r.log), rc, post)
  {
    hide Feed, HandleFrom, Exec, Parser.Valid, Processor.Valid, Blocks, Handle, Fits, MapOf;
    var parser := new Parser(boundary, FormCallbacks());
    var processor := new Processor();
    HandleNothing(Done(INITIAL));
    var pos := 0;
    ParserFits(parser);
    ghost var all := Feed(boundary, FormCallbacks(), Core(Start, 0), [], Blocks(input));
    while true
      invariant pos <= |input| && parser.Valid() && processor.Valid()
      invariant fresh(parser) && fresh(parser.lookbehind) && fresh(processor) && fresh(processor.Footprint())
      invariant parser.boundary == boundary && parser.accepts == FormCallbacks()
      invariant HandleAll(parser.log) == Done(processor.State())
      invariant Fits(boundary, Core(parser.state, parser.index))
      invariant all == Feed(boundary, FormCallbacks(), Core(parser.state, parser.index), parser.log, Blocks(input[pos..]))
      decreases |input| - pos
    {
      var n := if |input| - pos < BLOCK then |input| - pos else BLOCK;
      var buf := input[pos..pos + n];
      assert input[pos..][..n] == buf && input[pos..][n..] == input[pos + n..];
      FeedBlock(boundary, FormCallbacks(), Core(parser.state, parser.index), parser.log, input[pos..]);
      var consumed;
      consumed, rc := ParseBlock(parser, processor, buf);
      post, whole := processor.post, consumed == n && n < BLOCK;
      if consumed < n {
        return;
      }
      ParserFits(parser);
      pos := pos + n;
      if n < BLOCK {
        return;
      }
    }
  }

  // One block of the rest of the body.
  lemma {:induction false} FeedBlock(b: string, ok: Callbacks, core: Core, log: seq<Event>, s: string)
    requires Delimiter(b) && Fits(b, core)
    ensures var n := if |s| < BLOCK then |s| else BLOCK;
            var r, f := Exec(b, ok, Progress(core, "", log), s[..n]), Feed(b, ok, core, log, Blocks(s));
            && (r.left > 0 ==> f.left > 0 && f.core == r.core && f.log == r.log)
            && (r.left == 0 && n < BLOCK ==> f == r)
            && (r.left == 0 && n == BLOCK ==> f == Feed(b, ok, r.core, r.log, Blocks(s[n..])))
  {
    hide Exec, Fits;
    if |s| < BLOCK {
      assert s[..|s|] == s && [s][1..] == [];
    } else {
      assert ([s[..BLOCK]] + Blocks(s[BLOCK..]))[1..] == Blocks(s[BLOCK..]);
    }
  }

  // So the code reads a printed form completely, in its own blocks, and returns every name with its last value.
  lemma {:induction false} FormReadInBlocks(b: string, fields: seq<FormField>, epilogue: string)
    requires Delimiter(b) && fields != [] && forall k :: 0 <= k < |fields| ==> Sendable(b, fields[k])
    ensures var r := Feed(b, FormCallbacks(), Core(Start, 0), [], Blocks(MultipartPrint.Print(b, FormParts(fields)) + epilogue));
            r.left == 0 && forall rc, post :: Answers(HandleAll(r.log), rc, post) ==> rc == Zero && post == PostFrom(map[], fields)
  {
    hide Feed, Sendable, HandleFrom, Blocks;
    FormDecoding(b, fields, epilogue, Blocks(MultipartPrint.Print(b, FormParts(fields)) + epilogue));
  }
}
