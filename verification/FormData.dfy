// mpart-body-processor.c: the callbacks that turn a multipart body into form fields (section 4 of RFC 7578).
module FormData {
  import opened Basics
  import opened AvlNodes
  import opened KvLists
  import opened Multipart
  import opened MultipartChunks
  import opened MultipartProtocol
  import opened MultipartData
  import opened MultipartPrint

  const NUL: char := '\0'

  // --- C strings ---

  // What strndup and strncat take from a buffer.
  function CString(s: string): string {
    if s == "" || s[0] == NUL then "" else [s[0]] + CString(s[1..])
  }

  lemma {:induction false} CStringWhole(s: string)
    requires NUL !in s
    ensures CString(s) == s
  {
    if s != "" {
      CStringWhole(s[1..]);
    }
  }

  // It ends at the first NUL.
  lemma {:induction false} CStringEnds(a: string, b: string)
    requires NUL !in a
    ensures CString(a + [NUL] + b) == a
  {
    var s := a + [NUL] + b;
    if a != "" {
      CStringEnds(a[1..], b);
      assert s[0] == a[0] && s[1..] == a[1..] + [NUL] + b;
    }
  }

  predicate IsSpace(c: char) {
    c in {' ', '\t', '\n', '\r', '\U{000B}', '\U{000C}'}
  }

  predicate IsQuote(c: char) {
    c == '"' || c == '\''
  }

  function TrimLeft(drop: char -> bool, s: string): string {
    if s != "" && drop(s[0]) then TrimLeft(drop, s[1..]) else s
  }

  function TrimRight(drop: char -> bool, s: string): string {
    if s != "" && drop(s[|s| - 1]) then TrimRight(drop, s[..|s| - 1]) else s
  }

  function Strip(drop: char -> bool, s: string): string {
    TrimRight(drop, TrimLeft(drop, s))
  }

  // str_trim and str_strip_quotes: two loops that move the ends of the string inwards.
  method StripInPlace(drop: char -> bool, str: string) returns (r: string)
    ensures r == Strip(drop, str)
  {
    var start := 0;
    while start < |str| && drop(str[start])
      invariant start <= |str| && TrimLeft(drop, str[start..]) == TrimLeft(drop, str)
    {
      start := start + 1;
      assert str[start - 1..][1..] == str[start..];
    }
    if start == |str| {
      return "";
    }
    var end := |str| - 1;
    assert str[start..end + 1] == str[start..];
    while end > start && drop(str[end])
      invariant start <= end < |str| && TrimRight(drop, str[start..end + 1]) == TrimRight(drop, str[start..])
    {
      SliceInit(str, start, end + 1);
      end := end - 1;
    }
    return str[start..end + 1];
  }

  lemma SliceInit(s: string, i: nat, j: nat)
    requires i < j <= |s|
    ensures s[i..j][..j - i - 1] == s[i..j - 1]
  {}

  // strsep with one separator: the first token, and what follows it, if a separator was found.
  function StrSep(s: string, sep: char): (string, Option<string>) {
    if s == "" then ("", None)
    else if s[0] == sep then ("", Some(s[1..]))
    else var (token, rest) := StrSep(s[1..], sep); ([s[0]] + token, rest)
  }

  lemma {:induction false} StrSepRest(s: string, sep: char)
    ensures sep !in StrSep(s, sep).0
    ensures StrSep(s, sep).1 == None ==> s == StrSep(s, sep).0
    ensures StrSep(s, sep).1 != None ==> s == StrSep(s, sep).0 + [sep] + StrSep(s, sep).1.value
    ensures StrSep(s, sep).1 != None ==> |StrSep(s, sep).1.value| < |s|
  {
    if s != "" && s[0] != sep {
      StrSepRest(s[1..], sep);
    }
  }

  lemma {:induction false} StrSepAt(token: string, sep: char, rest: string)
    requires sep !in token
    ensures StrSep(token, sep) == (token, None)
    ensures StrSep(token + [sep] + rest, sep) == (token, Some(rest))
  {
    if token == "" {
      assert token + [sep] + rest == [sep] + rest;
    } else {
      StrSepAt(token[1..], sep, rest);
      assert [token[0]] + token[1..] == token;
      assert (token + [sep] + rest)[1..] == token[1..] + [sep] + rest;
    }
  }

  // --- Attributes of a header value ---

  // One attribute: the text before the first '=' and the text up to the second, if any.  None stands for a pair without
  // '=', for which the code follows a null pointer.
  function Attr(pair: string): Option<(string, string)> {
    var (name, rest) := StrSep(pair, '=');
    match rest
    case None => None
    case Some(r) => Some((Strip(IsSpace, name), Strip(IsSpace, Strip(IsQuote, StrSep(r, '=').0))))
  }

  function AttrsFrom(attrs: map<string, string>, s: Option<string>): Option<map<string, string>>
    decreases if s.None? then 0 else 1 + |s.value|
  {
    match s
    case None => Some(attrs)
    case Some(str) =>
      StrSepRest(str, ';');
      var (pair, rest) := StrSep(str, ';');
      match Attr(pair)
      case None => None
      case Some((name, value)) => AttrsFrom(attrs[name := value], rest)
  }

  function Attrs(str: string): Option<map<string, string>> {
    AttrsFrom(map[], Some(TrimLeft(IsSpace, str)))
  }

  // The pairs of a string: what stands between its semicolons.
  function Pairs(str: string): seq<string>
    decreases |str|
  {
    StrSepRest(str, ';');
    var (pair, rest) := StrSep(str, ';');
    [pair] + if rest.None? then [] else Pairs(rest.value)
  }

  // The attributes can be read exactly when every pair has its '='.
  lemma {:induction false} AttrsFromSome(attrs: map<string, string>, str: string)
    ensures AttrsFrom(attrs, Some(str)).Some? <==> forall k :: 0 <= k < |Pairs(str)| ==> '=' in Pairs(str)[k]
    decreases |str|
  {
    StrSepRest(str, ';');
    var (pair, rest) := StrSep(str, ';');
    StrSepRest(pair, '=');
    assert Attr(pair).Some? <==> '=' in pair;
    assert Pairs(str)[0] == pair;
    if Attr(pair).Some? && rest.Some? {
      var (name, value) := Attr(pair).value;
      AttrsFromSome(attrs[name := value], rest.value);
      assert forall k :: 0 <= k < |Pairs(rest.value)| ==> Pairs(str)[k + 1] == Pairs(rest.value)[k];
      assert forall k :: 1 <= k < |Pairs(str)| ==> Pairs(str)[k] == Pairs(rest.value)[k - 1];
    }
  }

  lemma {:induction false} AttrsSome(str: string)
    ensures Attrs(str).Some? <==> forall pair :: pair in Pairs(TrimLeft(IsSpace, str)) ==> '=' in pair
  {
    AttrsFromSome(map[], TrimLeft(IsSpace, str));
  }

  // --- What attributes say ---

  lemma SpaceCodes(c: char)
    ensures IsSpace(c) <==> c as int == 32 || 9 <= c as int <= 13
    ensures IsQuote(c) <==> c as int == 34 || c as int == 39
  {}

  predicate All(drop: char -> bool, s: string) {
    forall i :: 0 <= i < |s| ==> drop(s[i])
  }

  // Nothing to drop at the ends.
  predicate Bare(drop: char -> bool, s: string) {
    s != "" ==> !drop(s[0]) && !drop(s[|s| - 1])
  }

  lemma {:induction false} LeftAround(drop: char -> bool, a: string, s: string)
    requires All(drop, a) && (s != "" ==> !drop(s[0]))
    ensures TrimLeft(drop, a + s) == s
  {
    if a == "" {
      assert a + s == s;
    } else {
      assert (a + s)[1..] == a[1..] + s;
      LeftAround(drop, a[1..], s);
    }
  }

  lemma {:induction false} RightAround(drop: char -> bool, s: string, a: string)
    requires All(drop, a) && (s != "" ==> !drop(s[|s| - 1]))
    ensures TrimRight(drop, s + a) == s
  {
    if a == "" {
      assert s + a == s;
    } else {
      assert (s + a)[..|s + a| - 1] == s + a[..|a| - 1];
      RightAround(drop, s, a[..|a| - 1]);
    }
  }

  // Trimming takes off what is to be dropped around a string, and nothing else.
  lemma {:induction false} StripAround(drop: char -> bool, a: string, s: string, c: string)
    requires All(drop, a) && All(drop, c) && Bare(drop, s)
    ensures Strip(drop, a + s + c) == s
  {
    if s == "" {
      LeftAround(drop, a + c, "");
      assert a + s + c == a + c + "";
    } else {
      LeftAround(drop, a, s + c);
      RightAround(drop, s, c);
      assert a + s + c == a + (s + c);
    }
  }

  // An attribute with all that may stand around its name and its value; the rest is what follows a second '='.
  datatype Item = Item(before: string, name: string, after: string,
                       lead: string, open: string, pad: string, value: string, pad2: string, close: string, trail: string,
                       rest: string)

  function Around(it: Item): string {
    it.lead + it.open + it.pad + it.value + it.pad2 + it.close + it.trail
  }

  function ItemText(it: Item): string {
    it.before + it.name + it.after + "=" + (Around(it) + it.rest)
  }

  predicate Proper(it: Item) {
    && All(IsSpace, it.before) && All(IsSpace, it.after) && All(IsSpace, it.lead) && All(IsSpace, it.pad)
    && All(IsSpace, it.pad2) && All(IsSpace, it.trail) && All(IsQuote, it.open) && All(IsQuote, it.close)
    && Bare(IsSpace, it.name) && Bare(IsSpace, it.value) && Bare(IsQuote, it.value)
    && (it.value == "" ==> it.lead == "" && it.trail == "")
    && '=' !in it.name && '=' !in it.value && ';' !in it.name && ';' !in it.value && ';' !in it.rest
    && (it.rest == "" || it.rest[0] == '=')
  }

  // The quotes that are kept, with the blanks inside them.
  function KeptLeft(it: Item): string {
    if it.lead != "" && it.open != "" then it.open + it.pad else ""
  }

  function KeptRight(it: Item): string {
    if it.trail != "" && it.close != "" then it.pad2 + it.close else ""
  }

  // Quotes around the value are taken off, and then blanks; quotes that have blanks outside are kept.
  function ValueOf(it: Item): string {
    KeptLeft(it) + it.value + KeptRight(it)
  }

  // An attribute reads as its name without the blanks around it and that value, up to a second '='.
  lemma {:induction false} AttrSays(it: Item)
    requires Proper(it)
    ensures Attr(ItemText(it)) == Some((it.name, ValueOf(it)))
  {
    hide StrSep, Strip, TrimLeft, TrimRight;
    var name, value := it.before + it.name + it.after, Around(it);
    NoSigns(it);
    StrSepAt(name, '=', value + it.rest);
    assert ItemText(it) == name + ['='] + (value + it.rest);
    StripAround(IsSpace, it.before, it.name, it.after);
    if it.rest == "" {
      StrSepAt(value, '=', "");
      assert value + it.rest == value;
    } else {
      StrSepAt(value, '=', it.rest[1..]);
      assert value + it.rest == value + ['='] + it.rest[1..];
    }
    ValueStripped(it);
  }

  lemma {:induction false} NoSigns(it: Item)
    requires Proper(it)
    ensures '=' !in it.before + it.name + it.after && '=' !in Around(it) && ';' !in ItemText(it)
  {}

  // What is left of the value, and right of it, when the quotes have been taken off.
  function LeftOf(it: Item): string {
    if it.lead == "" then it.pad else it.lead + it.open + it.pad
  }

  function RightOf(it: Item): string {
    if it.trail == "" then it.pad2 else it.pad2 + it.close + it.trail
  }

  lemma {:induction false} QuotesOff(it: Item)
    requires Proper(it) && it.value != ""
    ensures Strip(IsQuote, Around(it)) == LeftOf(it) + it.value + RightOf(it)
  {
    var a, c := if it.lead == "" then it.open else "", if it.trail == "" then it.close else "";
    var s := LeftOf(it) + it.value + RightOf(it);
    assert Around(it) == a + s + c by {
      hide Strip, Proper;
      var l, r := it.lead + it.open + it.pad, it.pad2 + it.close + it.trail;
      assert Around(it) == l + it.value + r;
      assert l == a + LeftOf(it) && r == RightOf(it) + c;
      hide Around, LeftOf, RightOf;
      assert (a + LeftOf(it)) + it.value + (RightOf(it) + c) == a + s + c;
    }
    EndsOf(it);
    assert Bare(IsQuote, s) by { hide Proper, LeftOf, RightOf, IsQuote, Strip, Around; }
    hide Strip, Around, LeftOf, RightOf, Proper, IsQuote;
    StripAround(IsQuote, a, s, c);
  }

  lemma EndsOf(it: Item)
    requires Proper(it) && it.value != ""
    ensures var s := LeftOf(it) + it.value + RightOf(it); s != "" && !IsQuote(s[0]) && !IsQuote(s[|s| - 1])
  {
    hide Strip;
    assert it.lead != "" ==> !IsQuote(it.lead[0]);
    assert it.pad != "" ==> !IsQuote(it.pad[0]);
    assert it.trail != "" ==> !IsQuote(it.trail[|it.trail| - 1]);
    assert it.pad2 != "" ==> !IsQuote(it.pad2[|it.pad2| - 1]);
  }

  lemma AllPlus(drop: char -> bool, a: string, c: string)
    requires All(drop, a) && All(drop, c)
    ensures All(drop, a + c)
  {}

  lemma {:induction false} BlanksAround(it: Item) returns (a: string, c: string)
    requires Proper(it)
    ensures LeftOf(it) == a + KeptLeft(it) && RightOf(it) == KeptRight(it) + c && All(IsSpace, a) && All(IsSpace, c)
  {
    AllPlus(IsSpace, it.lead, it.pad);
    AllPlus(IsSpace, it.pad2, it.trail);
    hide All, Bare, IsSpace, IsQuote, Proper;
    a := if it.lead != "" && it.open != "" then it.lead else it.lead + it.pad;
    c := if it.trail != "" && it.close != "" then it.trail else it.pad2 + it.trail;
  }

  lemma KeptEnds(it: Item)
    requires Proper(it) && it.value != ""
    ensures Bare(IsSpace, KeptLeft(it) + it.value + KeptRight(it))
  {
    assert KeptLeft(it) != "" ==> !IsSpace(KeptLeft(it)[0]);
    assert KeptRight(it) != "" ==> !IsSpace(KeptRight(it)[|KeptRight(it)| - 1]);
  }

  lemma {:induction false} SpacesOff(it: Item)
    requires Proper(it) && it.value != ""
    ensures Strip(IsSpace, LeftOf(it) + it.value + RightOf(it)) == ValueOf(it)
  {
    var a, c := BlanksAround(it);
    KeptEnds(it);
    hide Strip, LeftOf, RightOf, KeptLeft, KeptRight, Proper;
    var l, r := KeptLeft(it), KeptRight(it);
    assert a + l + it.value + (r + c) == a + (l + it.value + r) + c;
    StripAround(IsSpace, a, l + it.value + r, c);
  }

  lemma {:induction false} NoValue(it: Item)
    requires Proper(it) && it.value == ""
    ensures Strip(IsSpace, Strip(IsQuote, Around(it))) == "" == ValueOf(it)
  {
    hide Strip;
    var pads := it.pad + it.pad2;
    assert Around(it) == it.open + pads + it.close;
    if pads == "" {
      StripAround(IsQuote, it.open, "", it.close);
    } else {
      StripAround(IsQuote, it.open, pads, it.close);
    }
    StripAround(IsSpace, pads, "", "");
    assert pads + "" + "" == pads;
  }

  lemma {:induction false} ValueStripped(it: Item)
    requires Proper(it)
    ensures Strip(IsSpace, Strip(IsQuote, Around(it))) == ValueOf(it)
  {
    hide Strip, Around, ValueOf, LeftOf, RightOf, Proper;
    if it.value == "" {
      NoValue(it);
    } else {
      QuotesOff(it);
      SpacesOff(it);
    }
  }

  function ItemsText(items: seq<Item>): string {
    if items == [] then "" else if |items| == 1 then ItemText(items[0]) else ItemText(items[0]) + ";" + ItemsText(items[1..])
  }

  // The map of a list of attributes, later ones in place of earlier ones of the same name.
  function ItemMap(attrs: map<string, string>, items: seq<Item>): map<string, string>
    decreases |items|
  {
    if items == [] then attrs else ItemMap(attrs[items[0].name := ValueOf(items[0])], items[1..])
  }

  predicate AllProper(items: seq<Item>) {
    forall i :: 0 <= i < |items| ==> Proper(items[i])
  }

  lemma {:induction false} ItemsRead(attrs: map<string, string>, items: seq<Item>)
    requires items != [] && AllProper(items)
    ensures AttrsFrom(attrs, Some(ItemsText(items))) == Some(ItemMap(attrs, items))
    decreases |items|
  {
    hide Attr, StrSep, Proper, ItemText, ValueOf;
    var it, text := items[0], ItemText(items[0]);
    NoSigns(it);
    AttrSays(it);
    if |items| == 1 {
      StrSepAt(text, ';', "");
    } else {
      StrSepAt(text, ';', ItemsText(items[1..]));
      assert ItemsText(items) == text + [';'] + ItemsText(items[1..]);
      ItemsRead(attrs[it.name := ValueOf(it)], items[1..]);
    }
  }

  // The item without what stands in front of its first character that is no blank.
  function Begun(it: Item): Item {
    it.(before := "", after := if it.name == "" then "" else it.after)
  }

  lemma TextBegun(it: Item, more: string)
    requires Proper(it)
    ensures TrimLeft(IsSpace, ItemText(it) + more) == ItemText(Begun(it)) + more
    ensures Proper(Begun(it)) && Begun(it).name == it.name && ValueOf(Begun(it)) == ValueOf(it)
  {
    var blanks, tail := it.before + (if it.name == "" then it.after else ""), ItemText(Begun(it)) + more;
    assert ItemText(it) + more == blanks + tail;
    assert tail != "" && !IsSpace(tail[0]);
    LeftAround(IsSpace, blanks, tail);
  }

  // Blanks at the very beginning are gone before the attributes are looked at, which makes no difference.
  lemma {:induction false} FirstTrimmed(items: seq<Item>)
    requires items != [] && AllProper(items)
    ensures var items' := [Begun(items[0])] + items[1..];
            && AllProper(items') && ItemsText(items') == TrimLeft(IsSpace, ItemsText(items))
            && ItemMap(map[], items') == ItemMap(map[], items)
  {
    hide ItemText, Proper, ValueOf, TrimLeft, Begun;
    var it, more := items[0], if |items| == 1 then "" else ";" + ItemsText(items[1..]);
    TextBegun(it, more);
    var items' := [Begun(it)] + items[1..];
    assert items'[1..] == items[1..];
    assert ItemsText(items) == ItemText(it) + more && ItemsText(items') == ItemText(Begun(it)) + more;
  }

  // So a list of attributes in any layout reads as exactly its map.
  lemma {:induction false} AttrsSay(items: seq<Item>)
    requires items != [] && AllProper(items)
    ensures Attrs(ItemsText(items)) == Some(ItemMap(map[], items))
  {
    hide AllProper, ItemMap, ItemsText, TrimLeft;
    FirstTrimmed(items);
    ItemsRead(map[], [Begun(items[0])] + items[1..]);
  }

  // The last attribute of a name.
  predicate LastItem(items: seq<Item>, n: string, k: int) {
    0 <= k < |items| && items[k].name == n && forall l :: k < l < |items| ==> items[l].name != n
  }

  lemma {:induction false} ItemMapSays(attrs: map<string, string>, items: seq<Item>, n: string)
    ensures n in ItemMap(attrs, items) <==> n in attrs || exists k :: 0 <= k < |items| && items[k].name == n
    ensures forall k :: LastItem(items, n, k) ==> n in ItemMap(attrs, items) && ItemMap(attrs, items)[n] == ValueOf(items[k])
    ensures n in attrs && (forall k :: 0 <= k < |items| ==> items[k].name != n) ==> ItemMap(attrs, items)[n] == attrs[n]
    decreases |items|
  {
    hide ValueOf;
    if items != [] {
      var rest := items[1..];
      ItemMapSays(attrs[items[0].name := ValueOf(items[0])], rest, n);
      assert forall l :: 1 <= l < |items| ==> items[l] == rest[l - 1];
      forall k | LastItem(items, n, k)
        ensures n in ItemMap(attrs, items) && ItemMap(attrs, items)[n] == ValueOf(items[k])
      {
        if k > 0 { assert LastItem(rest, n, k - 1); }
      }
      if k :| 0 <= k < |items| && items[k].name == n { assert k == 0 || rest[k - 1].name == n; }
      if k :| 0 <= k < |rest| && rest[k].name == n { assert items[k + 1].name == n; }
    }
  }

  // --- The processor ---

  // What the object `post` holds for a field: null until the part's data has come.
  datatype PostValue = Null | Text(text: string)

  datatype Proc = Proc(
    headers: Option<map<string, string>>,
    headerName: Option<string>,
    headerValue: Option<string>,
    name: Option<string>,
    data: Option<string>,
    post: map<string, PostValue>)

  // Done and Refused: the callback returns 0 or -1.  Fault: an assertion fails or a null pointer is followed.
  // Upload: the part is a file, which is not part of this model.
  datatype Handled = Done(p: Proc) | Refused(p: Proc) | Fault | Upload

  const INITIAL := Proc(None, None, None, None, None, map[])

  // add_new_header, if a header is complete.
  function WithHeader(p: Proc): Handled {
    if p.headerName.Some? && p.headerValue.Some? then
      if p.headers.None? then Fault
      else Done(p.(headers := Some(p.headers.value[p.headerName.value := p.headerValue.value]),
                   headerName := None, headerValue := None))
    else Done(p)
  }

  function Append(had: Option<string>, buf: string): Option<string> {
    Some(if had.None? then CString(buf) else had.value + CString(buf))
  }

  function HeadersDone(p: Proc): Handled {
    if p.headers.None? then Fault
    else if "Content-Disposition" !in p.headers.value then Refused(p)
    else
      var disposition := p.headers.value["Content-Disposition"];
      if !("form-data;" <= disposition) then Refused(p)
      else
        match Attrs(disposition[10..])
        case None => Fault
        case Some(attrs) =>
          if "name" !in attrs then Refused(p)
          else if "filename" in attrs then Upload
          else Done(p.(post := p.post[attrs["name"] := Null], name := Some(attrs["name"]), headers := None))
  }

  function Handle(p: Proc, e: Event): Handled {
    match e
    case PartBegin => if p.headers.Some? then Fault else Done(p.(headers := Some(map[])))
    case Field(buf) =>
      var h := WithHeader(p);
      if h.Done? then Done(h.p.(headerName := Append(h.p.headerName, buf))) else h
    case Value(buf) =>
      if p.headerName.None? then Refused(p) else Done(p.(headerValue := Append(p.headerValue, buf)))
    case HeadersComplete =>
      var h := WithHeader(p);
      if h.Done? then HeadersDone(h.p) else h
    case Data(buf) => if p.name.None? then Fault else Done(p.(data := Append(p.data, buf)))
    case PartEnd =>
      if p.name.None? then Fault
      else if p.data.None? then Done(p.(name := None))
      else Done(p.(post := p.post[p.name.value := Text(p.data.value)], data := None, name := None))
    case BodyEnd => Done(p)
  }

  // What a sequence of callbacks comes to, up to the first that does not return 0.
  function HandleFrom(h: Handled, es: seq<Event>): Handled {
    if es == [] then h else
      var before := HandleFrom(h, es[..|es| - 1]);
      if before.Done? then Handle(before.p, es[|es| - 1]) else before
  }

  function HandleAll(es: seq<Event>): Handled {
    HandleFrom(Done(INITIAL), es)
  }

  function FormCallbacks(): Callbacks {
    (log: seq<Event>) => HandleAll(log).Done?
  }

  // --- The processor does not see where the texts are cut ---

  function Then(h: Handled, e: Event): Handled {
    if h.Done? then Handle(h.p, e) else h
  }

  // A header value never stands without its name.
  predicate Sound(h: Handled) {
    h.Done? && h.p.headerValue.Some? ==> h.p.headerName.Some?
  }

  lemma {:induction false} HandleSound(h: Handled, es: seq<Event>)
    requires Sound(h)
    ensures Sound(HandleFrom(h, es))
  {
    if es != [] {
      HandleSound(h, es[..|es| - 1]);
    }
  }

  predicate NulFree(es: seq<Event>) {
    forall i :: 0 <= i < |es| && Carries(es[i]) ==> NUL !in es[i].text
  }

  lemma {:induction false} AppendJoin(had: Option<string>, t: string, u: string)
    requires NUL !in t && NUL !in u
    ensures Append(Append(had, t), u) == Append(had, t + u)
  {
    CStringWhole(t);
    CStringWhole(u);
    CStringWhole(t + u);
    if had.Some? {
      assert had.value + t + u == had.value + (t + u);
    }
  }

  lemma {:induction false} HandleJoin(h: Handled, e: Event, t: string, u: string)
    requires Sound(h) && Carries(e) && NUL !in t && NUL !in u
    ensures Then(Then(h, WithText(e, t)), WithText(e, u)) == Then(h, WithText(e, t + u))
  {
    hide Append;
    if h.Done? {
      var p := h.p;
      AppendJoin(p.headerName, t, u);
      AppendJoin(None, t, u);
      AppendJoin(p.headerValue, t, u);
      AppendJoin(p.data, t, u);
      assert forall o, s :: Append(o, s).Some? by { AppendSome(); }
    }
  }

  lemma AppendSome()
    ensures forall o, s :: Append(o, s).Some?
  {}

  lemma {:induction false} HandlePlus(h: Handled, es: seq<Event>, e: Event)
    ensures HandleFrom(h, es + [e]) == Then(HandleFrom(h, es), e)
  {
    assert (es + [e])[..|es|] == es;
  }

  lemma {:induction false} NulFreePush(m: seq<Event>, e: Event)
    requires NulFree(Push(m, e))
    ensures NulFree(m) && (Carries(e) ==> NUL !in e.text)
  {
    PushCases(m, e);
    var w := Push(m, e);
    assert w[|w| - 1] in w;
    if m != [] && Carries(e) && Like(m[|m| - 1], e) {
      forall i | 0 <= i < |m| && Carries(m[i]) ensures NUL !in m[i].text {
        if i == |m| - 1 {
          assert NUL !in m[i].text + e.text;
        } else {
          assert w[i] == m[i];
        }
      }
    } else {
      assert forall i :: 0 <= i < |m| ==> w[i] == m[i];
    }
  }

  lemma {:induction false} HandlePush(h: Handled, m: seq<Event>, e: Event)
    requires Sound(h) && NulFree(m) && (Carries(e) ==> NUL !in e.text)
    ensures HandleFrom(h, Push(m, e)) == Then(HandleFrom(h, m), e)
  {
    hide HandleFrom, Handle, Then, Sound;
    PushCases(m, e);
    HandlePlus(h, m, e);
    if m != [] && Carries(e) && Like(m[|m| - 1], e) {
      var y, x := m[..|m| - 1], m[|m| - 1];
      HandlePlus(h, y, x);
      HandlePlus(h, y, WithText(e, x.text + e.text));
      HandleSound(h, y);
      HandleJoin(HandleFrom(h, y), e, x.text, e.text);
      assert y + [x] == m;
    }
  }

  lemma {:induction false} HandleNorm(h: Handled, es: seq<Event>)
    requires Sound(h) && NulFree(Norm(es))
    ensures HandleFrom(h, es) == HandleFrom(h, Norm(es))
  {
    if es != [] {
      var n := |es| - 1;
      hide Push, Then, NulFree, Sound;
      NulFreePush(Norm(es[..n]), es[n]);
      HandleNorm(h, es[..n]);
      HandlePush(h, Norm(es[..n]), es[n]);
      assert es[..n] + [es[n]] == es;
      HandlePlus(h, es[..n], es[n]);
    }
  }

  lemma {:induction false} HandleCat(h: Handled, x: seq<Event>, y: seq<Event>)
    ensures HandleFrom(h, x + y) == HandleFrom(HandleFrom(h, x), y)
  {
    if y == [] {
      assert x + y == x;
    } else {
      var n := |y| - 1;
      HandleCat(h, x, y[..n]);
      assert (x + y)[..|x| + n] == x + y[..n];
    }
  }

  lemma HandleNothing(h: Handled)
    ensures HandleFrom(h, []) == h
  {}

  // Nothing is called behind a callback that has not returned 0.
  lemma {:induction false} HandleStopped(h: Handled, es: seq<Event>)
    requires !h.Done?
    ensures HandleFrom(h, es) == h
  {
    if es != [] {
      HandleStopped(h, es[..|es| - 1]);
    }
  }

  // What the processor makes of a run that it stops itself is what it makes of all callbacks of the input.
  lemma {:induction false} HandleRun(b: string, pieces: seq<string>)
    requires Delimiter(b)
    ensures var r, w := Feed(b, FormCallbacks(), Core(Start, 0), [], pieces), Feed(b, Willing(), Core(Start, 0), [], pieces);
            HandleAll(r.log) == HandleAll(w.log) && (HandleAll(r.log).Done? ==> r == w)
  {
    hide Feed, HandleFrom;
    FeedStops(b, FormCallbacks(), Core(Start, 0), [], pieces);
    var r, w := Feed(b, FormCallbacks(), Core(Start, 0), [], pieces), Feed(b, Willing(), Core(Start, 0), [], pieces);
    if r != w {
      var rest := w.log[|r.log|..];
      assert w.log == r.log + rest;
      HandleCat(Done(INITIAL), r.log, rest);
      HandleStopped(HandleAll(r.log), rest);
    }
  }

  // --- Parts ---

  // The headers of a part, a later one of the same name in place of an earlier one.
  function HeaderMap(hs: seq<Header>): map<string, string> {
    if hs == [] then map[] else HeaderMap(hs[..|hs| - 1])[hs[|hs| - 1].name := hs[|hs| - 1].value]
  }

  // What becomes of a part: a field of this name, or headers_complete_cb returns -1, follows a null pointer, or opens an
  // upload.
  datatype Fate = Posts(name: string) | Refuses | Crashes | Uploads

  function FateOf(p: Part): Fate {
    var headers := HeaderMap(p.headers);
    if "Content-Disposition" !in headers then Refuses
    else
      var disposition := headers["Content-Disposition"];
      if !("form-data;" <= disposition) then Refuses
      else
        match Attrs(disposition[10..])
        case None => Crashes
        case Some(attrs) =>
          if "name" !in attrs then Refuses else if "filename" in attrs then Uploads else Posts(attrs["name"])
  }

  predicate Has(items: seq<Item>, n: string) {
    exists k :: 0 <= k < |items| && items[k].name == n
  }

  // The last header of a name.
  predicate LastHeader(hs: seq<Header>, n: string, k: int) {
    0 <= k < |hs| && hs[k].name == n && forall l :: k < l < |hs| ==> hs[l].name != n
  }

  lemma {:induction false} HeaderMapSays(hs: seq<Header>, n: string)
    ensures n in HeaderMap(hs) <==> exists k :: 0 <= k < |hs| && hs[k].name == n
    ensures forall k :: LastHeader(hs, n, k) ==> n in HeaderMap(hs) && HeaderMap(hs)[n] == hs[k].value
  {
    if hs != [] {
      var before := hs[..|hs| - 1];
      HeaderMapSays(before, n);
      assert forall l :: 0 <= l < |before| ==> hs[l] == before[l];
      forall k | LastHeader(hs, n, k)
        ensures n in HeaderMap(hs) && HeaderMap(hs)[n] == hs[k].value
      {
        if k < |before| { assert LastHeader(before, n, k); }
      }
      if k :| 0 <= k < |before| && before[k].name == n { assert hs[k].name == n; }
    }
  }

  // The fate of a part without a disposition, or whose last one is not of form data.
  lemma {:induction false} OtherFate(p: Part)
    requires forall k :: LastHeader(p.headers, "Content-Disposition", k) ==> !("form-data;" <= p.headers[k].value)
    ensures FateOf(p) == Refuses
  {
    var hs, n := p.headers, "Content-Disposition";
    HeaderMapSays(hs, n);
    if n in HeaderMap(hs) {
      var k := LastOf(hs, n);
    }
  }

  lemma {:induction false} LastOf(hs: seq<Header>, n: string) returns (k: int)
    requires exists l :: 0 <= l < |hs| && hs[l].name == n
    ensures LastHeader(hs, n, k)
  {
    k := |hs| - 1;
    while hs[k].name != n
      invariant 0 <= k < |hs| && forall l :: k < l < |hs| ==> hs[l].name != n
      decreases k
    {
      k := k - 1;
    }
  }

  // The fate of any other part by the attributes of its last disposition, in any order and layout: a name is needed, a
  // filename makes it an upload, and otherwise the value of the last name is posted.
  lemma {:induction false} DispositionFate(p: Part, at: int, items: seq<Item>)
    requires items != [] && AllProper(items)
    requires LastHeader(p.headers, "Content-Disposition", at) && p.headers[at].value == "form-data;" + ItemsText(items)
    ensures !Has(items, "name") ==> FateOf(p) == Refuses
    ensures Has(items, "name") && Has(items, "filename") ==> FateOf(p) == Uploads
    ensures Has(items, "name") && !Has(items, "filename") ==>
              forall k :: LastItem(items, "name", k) ==> FateOf(p) == Posts(ValueOf(items[k]))
  {
    hide Attrs, ItemMap, ItemsText, AllProper, HeaderMap, ValueOf;
    HeaderMapSays(p.headers, "Content-Disposition");
    AttrsSay(items);
    ItemMapSays(map[], items, "name");
    ItemMapSays(map[], items, "filename");
    var d := "form-data;" + ItemsText(items);
    assert d[10..] == ItemsText(items) && d[..10] == "form-data;";
  }

  // A part can be printed, and has no NUL in it.
  ghost predicate Clean(b: string, p: Part) {
    Printable(b, p) && NUL !in p.body && forall i :: 0 <= i < |p.headers| ==> NUL !in p.headers[i].value
  }

  function Idle(post: map<string, PostValue>): Proc {
    INITIAL.(post := post)
  }

  // The processor behind some headers of a part: the last one is not in the map yet.
  function Heading(post: map<string, PostValue>, hs: seq<Header>): Proc {
    if hs == [] then Idle(post).(headers := Some(map[]))
    else Idle(post).(headers := Some(HeaderMap(hs[..|hs| - 1])), headerName := Some(hs[|hs| - 1].name),
                     headerValue := Some(hs[|hs| - 1].value))
  }

  lemma {:induction false} HeadersHandled(post: map<string, PostValue>, hs: seq<Header>)
    requires forall i :: 0 <= i < |hs| ==> NUL !in hs[i].name && NUL !in hs[i].value
    ensures HandleFrom(Done(Heading(post, [])), HeaderEvents(hs)) == Done(Heading(post, hs))
  {
    hide HandleFrom, CString;
    var h := Done(Heading(post, []));
    if hs == [] {
      HandleNothing(h);
    } else {
      var before, x := hs[..|hs| - 1], hs[|hs| - 1];
      HeadersHandled(post, before);
      CStringWhole(x.name);
      CStringWhole(x.value);
      HandlePlus(h, HeaderEvents(before), Field(x.name));
      HandlePlus(h, HeaderEvents(before) + [Field(x.name)], Value(x.value));
      assert HeaderEvents(hs) == HeaderEvents(before) + [Field(x.name)] + [Value(x.value)];
    }
  }

  lemma {:induction false} BodyHandled(post: map<string, PostValue>, n: string, v: string)
    requires NUL !in v
    ensures Then(Then(Done(Idle(post[n := Null]).(name := Some(n))), Data(v)), PartEnd) == Done(Idle(post[n := Text(v)]))
  {
    hide CString;
    CStringWhole(v);
    assert post[n := Null][n := Text(v)] == post[n := Text(v)];
  }

  // What a part's fate means for the processor.
  predicate Meets(h: Handled, fate: Fate) {
    match fate
    case Posts(_) => h.Done?
    case Refuses => h.Refused?
    case Crashes => h == Fault
    case Uploads => h == Upload
  }

  lemma {:induction false} HeadersMeet(post: map<string, PostValue>, p: Part)
    ensures var h := Handle(Heading(post, p.headers), HeadersComplete);
            && Meets(h, FateOf(p))
            && (FateOf(p).Posts? ==> h == Done(Idle(post[FateOf(p).name := Null]).(name := Some(FateOf(p).name))))
  {
    hide Attrs;
  }

  // One part from its begin to its end.
  lemma {:induction false} PartHandled(b: string, post: map<string, PostValue>, p: Part)
    requires Clean(b, p)
    ensures var h := HandleFrom(Done(Idle(post)), [PartBegin] + InnerEvents(p));
            && Meets(h, FateOf(p))
            && (FateOf(p).Posts? ==> h == Done(Idle(post[FateOf(p).name := Text(p.body)])))
  {
    hide HandleFrom, FateOf, Open, Heading, Handle;
    var h, es := Done(Idle(post)), HeaderEvents(p.headers);
    var first: seq<Event> := [];
    NamesClean(b, p);
    HandleNothing(h);
    HandlePlus(h, first, PartBegin);
    assert Then(h, PartBegin) == Done(Heading(post, [])) by { BeginMet(post); }
    HandleCat(h, [PartBegin], es);
    assert first + [PartBegin] == [PartBegin];
    HeadersHandled(post, p.headers);
    HeadersMeet(post, p);
    HandlePlus(h, [PartBegin] + es, HeadersComplete);
    HandlePlus(h, [PartBegin] + es + [HeadersComplete], Data(p.body));
    HandlePlus(h, [PartBegin] + es + [HeadersComplete] + [Data(p.body)], PartEnd);
    assert [PartBegin] + InnerEvents(p) == [PartBegin] + es + [HeadersComplete] + [Data(p.body)] + [PartEnd];
    if FateOf(p).Posts? {
      BodyHandled(post, FateOf(p).name, p.body);
    }
  }

  lemma BeginMet(post: map<string, PostValue>)
    ensures Handle(Idle(post), PartBegin) == Done(Heading(post, []))
  {}

  lemma {:induction false} NamesClean(b: string, p: Part)
    requires Clean(b, p)
    ensures forall i :: 0 <= i < |p.headers| ==> NUL !in p.headers[i].name && NUL !in p.headers[i].value
  {
    forall i | 0 <= i < |p.headers| ensures NUL !in p.headers[i].name {
      assert NameText(p.headers[i].name);
    }
  }

  // All parts before the k-th are fields, and that one is not.
  predicate FirstOther(parts: seq<Part>, k: int) {
    0 <= k < |parts| && !FateOf(parts[k]).Posts? && forall j :: 0 <= j < k ==> FateOf(parts[j]).Posts?
  }

  // What the parts post, up to the first that is no field.
  function Posted(post: map<string, PostValue>, parts: seq<Part>): map<string, PostValue>
    decreases |parts|
  {
    if parts == [] || !FateOf(parts[0]).Posts? then post
    else Posted(post[FateOf(parts[0]).name := Text(parts[0].body)], parts[1..])
  }

  lemma {:induction false} PartsHandled(b: string, post: map<string, PostValue>, parts: seq<Part>)
    requires forall k :: 0 <= k < |parts| ==> Clean(b, parts[k])
    ensures var h := HandleFrom(Done(Idle(post)), PartEvents(parts));
            if forall k :: 0 <= k < |parts| ==> FateOf(parts[k]).Posts? then h == Done(Idle(Posted(post, parts)))
            else exists k :: FirstOther(parts, k) && Meets(h, FateOf(parts[k]))
    decreases |parts|
  {
    hide HandleFrom, InnerEvents, Clean, FateOf, Meets;
    var h := Done(Idle(post));
    if parts == [] {
      HandlePlus(h, [], BodyEnd);
      HandleNothing(h);
      assert [] + [BodyEnd] == [BodyEnd];
    } else {
      var p, rest := parts[0], parts[1..];
      var x, y := [PartBegin] + InnerEvents(p), PartEvents(rest);
      PartHandled(b, post, p);
      assert PartEvents(parts) == x + y;
      HandleCat(h, x, y);
      if FateOf(p).Posts? {
        var post' := post[FateOf(p).name := Text(p.body)];
        PartsHandled(b, post', rest);
        assert forall k :: 1 <= k < |parts| ==> parts[k] == rest[k - 1];
        if !(forall k :: 0 <= k < |rest| ==> FateOf(rest[k]).Posts?) {
          var k :| FirstOther(rest, k) && Meets(HandleFrom(Done(Idle(post')), y), FateOf(rest[k]));
          assert FirstOther(parts, k + 1);
        }
      } else {
        OtherStops(HandleFrom(h, x), FateOf(p), y);
        assert FirstOther(parts, 0);
      }
    }
  }

  lemma OtherStops(h: Handled, fate: Fate, es: seq<Event>)
    requires Meets(h, fate) && !fate.Posts?
    ensures HandleFrom(h, es) == h
  {
    HandleStopped(h, es);
  }

  lemma {:induction false} NulFreeCat(x: seq<Event>, y: seq<Event>)
    requires NulFree(x) && NulFree(y)
    ensures NulFree(x + y)
  {}

  lemma {:induction false} HeadersNulFree(hs: seq<Header>)
    requires forall i :: 0 <= i < |hs| ==> NUL !in hs[i].name && NUL !in hs[i].value
    ensures NulFree(HeaderEvents(hs))
  {
    if hs != [] {
      HeadersNulFree(hs[..|hs| - 1]);
    }
  }

  lemma {:induction false} PartsNulFree(b: string, parts: seq<Part>)
    requires forall k :: 0 <= k < |parts| ==> Clean(b, parts[k])
    ensures NulFree(PartEvents(parts))
    decreases |parts|
  {
    if parts != [] {
      var p, rest := parts[0], parts[1..];
      NamesClean(b, p);
      assert NUL !in p.body;
      hide Clean;
      PartsNulFree(b, rest);
      HeadersNulFree(p.headers);
      assert NulFree([PartBegin]) && NulFree([HeadersComplete, Data(p.body), PartEnd]);
      hide NulFree;
      NulFreeCat(HeaderEvents(p.headers), [HeadersComplete, Data(p.body), PartEnd]);
      NulFreeCat(InnerEvents(p), PartEvents(rest));
      NulFreeCat([PartBegin], InnerEvents(p) + PartEvents(rest));
    }
  }

  // Decoding: any list of parts without NULs, printed and read in pieces of any sizes.  What comes of it is what comes of
  // the first part that is no field, and if all are fields, the object `post` has what they post.
  lemma {:induction false} PartsDecoding(b: string, parts: seq<Part>, epilogue: string, pieces: seq<string>)
    requires Delimiter(b) && parts != [] && forall k :: 0 <= k < |parts| ==> Clean(b, parts[k])
    requires Concat(pieces) == Print(b, parts) + epilogue
    ensures var r := Feed(b, FormCallbacks(), Core(Start, 0), [], pieces);
            var h := HandleAll(r.log);
            if forall k :: 0 <= k < |parts| ==> FateOf(parts[k]).Posts? then
              r.left == 0 && r.core.state == End && h == Done(INITIAL.(post := Posted(map[], parts)))
            else exists k :: FirstOther(parts, k) && Meets(h, FateOf(parts[k]))
  {
    hide Norm, Feed, Printable, HandleFrom, PartEvents, NulFree, Print, FateOf, Meets;
    RoundTrip(b, parts, epilogue, pieces);
    PartsNulFree(b, parts);
    HandleNorm(Done(INITIAL), Feed(b, Willing(), Core(Start, 0), [], pieces).log);
    HandleRun(b, pieces);
    PartsHandled(b, map[], parts);
    assert Idle(map[]) == INITIAL;
  }

  // A part whose disposition, by its last header of that name, has an attribute without '='.
  ghost predicate BarePart(p: Part) {
    && "Content-Disposition" in HeaderMap(p.headers)
    && var d := HeaderMap(p.headers)["Content-Disposition"];
       "form-data;" <= d && exists pair :: pair in Pairs(TrimLeft(IsSpace, d[10..])) && '=' !in pair
  }

  lemma {:induction false} BareCrashes(p: Part)
    ensures FateOf(p) == Crashes <==> BarePart(p)
  {
    hide Attrs, Pairs;
    if "Content-Disposition" in HeaderMap(p.headers) && "form-data;" <= HeaderMap(p.headers)["Content-Disposition"] {
      AttrsSome(HeaderMap(p.headers)["Content-Disposition"][10..]);
    }
  }

  // So such a body makes the processor follow a null pointer exactly if a part has a bare attribute and all parts before
  // it are fields.
  lemma {:induction false} PartsCrash(b: string, parts: seq<Part>, epilogue: string, pieces: seq<string>)
    requires Delimiter(b) && parts != [] && forall k :: 0 <= k < |parts| ==> Clean(b, parts[k])
    requires Concat(pieces) == Print(b, parts) + epilogue
    ensures HandleAll(Feed(b, FormCallbacks(), Core(Start, 0), [], pieces).log) == Fault
       <==> exists k :: 0 <= k < |parts| && BarePart(parts[k]) && forall j :: 0 <= j < k ==> FateOf(parts[j]).Posts?
  {
    hide Feed, HandleFrom, Print, FateOf, BarePart, Clean;
    PartsDecoding(b, parts, epilogue, pieces);
    forall k | 0 <= k < |parts| ensures FateOf(parts[k]) == Crashes <==> BarePart(parts[k]) {
      BareCrashes(parts[k]);
    }
    var h := HandleAll(Feed(b, FormCallbacks(), Core(Start, 0), [], pieces).log);
    if !(forall k :: 0 <= k < |parts| ==> FateOf(parts[k]).Posts?) {
      var k :| FirstOther(parts, k) && Meets(h, FateOf(parts[k]));
      if l :| 0 <= l < |parts| && BarePart(parts[l]) && forall j :: 0 <= j < l ==> FateOf(parts[j]).Posts? {
        assert FateOf(parts[l]) == Crashes;
        assert l == k;
      }
    }
  }

  // A body that does: one part, whose disposition ends behind its first semicolon.
  const BARE_BODY: string :=
    "--b" + ([CR, LF] + ("Content-Disposition" + ":" + (" " + "form-data;" + [CR, LF])
                         + ([CR, LF] + ("x" + ([CR, LF] + "--b"))) + "--"))

  lemma DispositionName()
    ensures NameText("Content-Disposition")
  {}

  lemma {:induction false} OneHeaderClean(b: string, h: Header, body: string)
    requires NameText(h.name) && ValueText(h.value) && NUL !in h.value && NUL !in body && Open(b, body)
    ensures Clean(b, Part([h], body))
  {
    hide NameText, ValueText, Open;
  }

  lemma {:induction false} PrintOne(b: string, h: Header, body: string)
    ensures Print(b, [Part([h], body)])
         == b + ([CR, LF] + (h.name + ":" + (" " + h.value + [CR, LF]) + ([CR, LF] + (body + ([CR, LF] + b))) + "--"))
  {
    var p := Part([h], body);
    assert [h][..0] == [] && [p][1..] == [] && PrintParts(b, []) == "--";
    assert PrintHeaders([h]) == "" + PrintHeader(h) == PrintHeader(h);
  }

  lemma {:induction false} BarePartExample() returns (p: Part)
    ensures Clean("--b", p) && BarePart(p) && Print("--b", [p]) == BARE_BODY
  {
    var d := "form-data;";
    p := Part([Header("Content-Disposition", d)], "x");
    var hs := p.headers;
    DispositionName();
    OneHeaderClean("--b", hs[0], "x");
    PrintOne("--b", hs[0], "x");
    hide Clean, NameText, Print;
    assert hs[..0] == [];
    assert HeaderMap(hs) == map["Content-Disposition" := d];
    assert BarePart(p) by {
      hide HeaderMap, Attrs;
      assert d[10..] == "";
      assert TrimLeft(IsSpace, "") == "" && Pairs("") == [""] && Pairs("")[0] == "" && "" in Pairs("") && '=' !in "";
    }
  }

  lemma {:induction false} BareAttrExample(pieces: seq<string>)
    requires Concat(pieces) == BARE_BODY
    ensures HandleAll(Feed("--b", FormCallbacks(), Core(Start, 0), [], pieces).log) == Fault
  {
    var p := BarePartExample();
    hide Print, Feed, BarePart, Clean, HandleFrom;
    assert Print("--b", [p]) + "" == Print("--b", [p]);
    PartsCrash("--b", [p], "", pieces);
    assert BarePart([p][0]);
  }

  // --- Forms ---

  datatype FormField = FormField(name: string, value: string)

  // A name that a form can carry between quotes.
  predicate SafeName(n: string) {
    && CR !in n && NUL !in n && ';' !in n && '=' !in n
    && (n != "" ==> !IsSpace(n[0]) && !IsQuote(n[0]) && !IsSpace(n[|n| - 1]) && !IsQuote(n[|n| - 1]))
  }

  ghost predicate Sendable(b: string, f: FormField) {
    SafeName(f.name) && NUL !in f.value && Open(b, f.value)
  }

  function Disposition(name: string): string {
    "form-data; name=\"" + name + "\""
  }

  function FormPart(f: FormField): Part {
    Part([Header("Content-Disposition", Disposition(f.name))], f.value)
  }

  function FormParts(fields: seq<FormField>): (parts: seq<Part>)
    ensures |parts| == |fields| && forall k :: 0 <= k < |fields| ==> parts[k] == FormPart(fields[k])
  {
    if fields == [] then [] else [FormPart(fields[0])] + FormParts(fields[1..])
  }

  lemma NameItem(it: Item)
    requires SafeName(it.value) && it == Item(" ", "name", "", "", "\"", "", it.value, "", "\"", "", "")
    ensures Proper(it) && ValueOf(it) == it.value
  {}

  lemma {:induction false} NameDisposition(it: Item)
    requires it == Item(" ", "name", "", "", "\"", "", it.value, "", "\"", "", "")
    ensures Disposition(it.value) == "form-data;" + ItemsText([it])
    ensures LastItem([it], "name", 0) && Has([it], "name") && !Has([it], "filename")
  {
    assert ItemText(it) == " name=\"" + it.value + "\"";
    assert [it][0].name == "name";
  }

  // A field's part is a field of its name.
  lemma {:induction false} FieldPosts(f: FormField)
    requires SafeName(f.name)
    ensures FateOf(FormPart(f)) == Posts(f.name)
  {
    var it := Item(" ", "name", "", "", "\"", "", f.name, "", "\"", "", "");
    NameItem(it);
    NameDisposition(it);
    hide SafeName, Proper, FateOf, ValueOf, Disposition, ItemsText, LastItem, Has;
    DispositionFate(FormPart(f), 0, [it]);
  }

  lemma {:induction false} SafeDisposition(n: string)
    requires SafeName(n)
    ensures NUL !in Disposition(n) && ValueText(Disposition(n))
  {}

  // What a form says: every field's value, a later one of the same name in place of an earlier one.
  function PostFrom(post: map<string, PostValue>, fields: seq<FormField>): map<string, PostValue>
    decreases |fields|
  {
    if fields == [] then post else PostFrom(post[fields[0].name := Text(fields[0].value)], fields[1..])
  }

  lemma {:induction false} PostLast(post: map<string, PostValue>, fields: seq<FormField>, n: string)
    ensures n !in PostFrom(post, fields) <==> n !in post && forall k :: 0 <= k < |fields| ==> fields[k].name != n
    ensures forall k :: 0 <= k < |fields| && fields[k].name == n && (forall l :: k < l < |fields| ==> fields[l].name != n) ==>
              n in PostFrom(post, fields) && PostFrom(post, fields)[n] == Text(fields[k].value)
    ensures (forall k :: 0 <= k < |fields| ==> fields[k].name != n) && n in post ==> PostFrom(post, fields)[n] == post[n]
    decreases |fields|
  {
    if fields != [] {
      PostLast(post[fields[0].name := Text(fields[0].value)], fields[1..], n);
      assert forall l :: 1 <= l < |fields| ==> fields[l] == fields[1..][l - 1];
    }
  }

  lemma {:induction false} FormPosts(post: map<string, PostValue>, fields: seq<FormField>)
    requires forall k :: 0 <= k < |fields| ==> SafeName(fields[k].name)
    ensures Posted(post, FormParts(fields)) == PostFrom(post, fields)
    ensures forall k :: 0 <= k < |fields| ==> FateOf(FormParts(fields)[k]).Posts?
    decreases |fields|
  {
    hide SafeName, FateOf;
    forall k | 0 <= k < |fields| ensures FateOf(FormParts(fields)[k]).Posts? {
      FieldPosts(fields[k]);
    }
    if fields != [] {
      FieldPosts(fields[0]);
      assert FormParts(fields)[1..] == FormParts(fields[1..]);
      FormPosts(post[fields[0].name := Text(fields[0].value)], fields[1..]);
    }
  }

  lemma {:induction false} FormClean(b: string, f: FormField)
    requires Sendable(b, f)
    ensures Clean(b, FormPart(f))
  {
    SafeDisposition(f.name);
    DispositionName();
    hide Disposition, SafeName, Open, ValueText, NameText;
    OneHeaderClean(b, Header("Content-Disposition", Disposition(f.name)), f.value);
  }

  // Form decoding: any list of fields with safe names, printed as a form and read in pieces of any sizes, is consumed
  // without a refusal, and the object `post` ends up with exactly the fields' names, each with its last value.
  lemma {:induction false} FormDecoding(b: string, fields: seq<FormField>, epilogue: string, pieces: seq<string>)
    requires Delimiter(b) && fields != [] && forall k :: 0 <= k < |fields| ==> Sendable(b, fields[k])
    requires Concat(pieces) == Print(b, FormParts(fields)) + epilogue
    ensures var r := Feed(b, FormCallbacks(), Core(Start, 0), [], pieces);
            && r.left == 0 && r.core.state == End
            && HandleAll(r.log) == Done(INITIAL.(post := PostFrom(map[], fields)))
  {
    hide Feed, Clean, HandleFrom, Print, FateOf, Open, SafeName;
    forall k | 0 <= k < |fields| ensures Clean(b, FormParts(fields)[k]) && SafeName(fields[k].name) {
      assert Sendable(b, fields[k]);
      FormClean(b, fields[k]);
    }
    FormPosts(map[], fields);
    PartsDecoding(b, FormParts(fields), epilogue, pieces);
  }

  // --- The assertions of the callbacks ---

  // What the processor holds in each phase of the callbacks' order.
  predicate Holds(phase: Phase, p: Proc) {
    && (phase in {Headers, Name, Contents} <==> p.headers.Some?)
    && (phase in {Body, Filled} <==> p.name.Some?)
    && (phase in {Name, Contents} <==> p.headerName.Some?)
    && (phase == Contents <==> p.headerValue.Some?)
    && (phase == Filled <==> p.data.Some?)
  }

  // A disposition of a form field with a pair that has no '='.
  ghost predicate BareAttr(p: Proc) {
    && p.headers.Some? && "Content-Disposition" in p.headers.value
    && var d := p.headers.value["Content-Disposition"];
       "form-data;" <= d && exists pair :: pair in Pairs(TrimLeft(IsSpace, d[10..])) && '=' !in pair
  }

  // A callback made in order fails no assertion and follows no null pointer, but for a disposition with a bare attribute;
  // and only headers_complete_cb ever refuses.
  lemma {:induction false} HandledInOrder(phase: Phase, p: Proc, e: Event)
    requires Holds(phase, p) && Next(phase, e) != Broken
    ensures Handle(p, e) == Fault <==> e == HeadersComplete && WithHeader(p).Done? && BareAttr(WithHeader(p).p)
    ensures Handle(p, e).Done? ==> Holds(Next(phase, e), Handle(p, e).p)
    ensures Handle(p, e).Done? || e == HeadersComplete
  {
    hide Attrs, Pairs, CString;
    if e == HeadersComplete {
      var h := WithHeader(p);
      if h.p.headers.Some? && "Content-Disposition" in h.p.headers.value {
        var d := h.p.headers.value["Content-Disposition"];
        if "form-data;" <= d {
          AttrsSome(d[10..]);
        }
      }
    }
  }

  lemma {:induction false} ProcessorInOrder(es: seq<Event>)
    requires PhaseOf(es) != Broken
    ensures HandleAll(es).Done? ==> Holds(PhaseOf(es), HandleAll(es).p)
  {
    if es != [] {
      hide Handle, Holds;
      var n := |es| - 1;
      ProcessorInOrder(es[..n]);
      if HandleAll(es[..n]).Done? {
        HandledInOrder(PhaseOf(es[..n]), HandleAll(es[..n]).p, es[n]);
      }
    }
  }

  // headers_complete_cb comes to a disposition with a bare attribute as the k-th callback.
  ghost predicate MeetsBareAttr(log: seq<Event>, k: int) {
    && 0 <= k < |log| && log[k] == HeadersComplete
    && var h := HandleAll(log[..k]);
       h.Done? && WithHeader(h.p).Done? && BareAttr(WithHeader(h.p).p)
  }

  // In every run of the parser over an input whose header names end in a colon, the processor crashes exactly on a
  // disposition with a bare attribute.
  lemma {:induction false} CrashOnBareAttr(b: string, pieces: seq<string>)
    requires Delimiter(b) && NamesEndInColon(b, Core(Start, 0), Concat(pieces))
    ensures var log := Feed(b, FormCallbacks(), Core(Start, 0), [], pieces).log;
            HandleAll(log) == Fault <==> exists k :: MeetsBareAttr(log, k)
  {
    hide MeetsBareAttr, HandleFrom;
    CallbackProtocol(b, FormCallbacks(), pieces);
    var log := Feed(b, FormCallbacks(), Core(Start, 0), [], pieces).log;
    if HandleAll(log) == Fault {
      FirstFault(log);
    }
    if k :| MeetsBareAttr(log, k) {
      FaultAt(log, k);
    }
  }

  lemma {:induction false} FaultAt(log: seq<Event>, k: int)
    requires PhaseOf(log) != Broken && MeetsBareAttr(log, k)
    ensures HandleAll(log) == Fault
  {
    hide Handle, Holds, WithHeader, BareAttr, HandleFrom, PhaseOf;
    BrokenStays(log, k);
    BrokenStays(log, k + 1);
    ProcessorInOrder(log[..k]);
    PhasePlus(log[..k], log[k]);
    assert log[..k] + [log[k]] == log[..k + 1] && log[..k + 1] + log[k + 1..] == log;
    HandledInOrder(PhaseOf(log[..k]), HandleAll(log[..k]).p, log[k]);
    HandlePlus(Done(INITIAL), log[..k], log[k]);
    HandleCat(Done(INITIAL), log[..k + 1], log[k + 1..]);
    HandleStopped(HandleAll(log[..k + 1]), log[k + 1..]);
  }

  lemma {:induction false} FirstFault(log: seq<Event>)
    requires PhaseOf(log) != Broken && HandleAll(log) == Fault
    ensures exists k :: MeetsBareAttr(log, k)
  {
    hide Handle, Holds, WithHeader, BareAttr;
    var n := |log| - 1;
    var rest := log[..n];
    var h := HandleAll(rest);
    if h.Done? {
      ProcessorInOrder(rest);
      HandledInOrder(PhaseOf(rest), h.p, log[n]);
      assert MeetsBareAttr(log, n);
    } else {
      FirstFault(rest);
      var k :| MeetsBareAttr(rest, k);
      assert rest[..k] == log[..k];
      assert MeetsBareAttr(log, k);
    }
  }
}
