# hvml-fpm: three protocol layers, modelled and proved in Dafny

hvml-fpm takes requests from a web server over FastCGI, decodes form bodies, and keeps headers and attributes in maps.
This project models the three parts of it that carry the most state, and proves what they are for.

**The threaded AVL tree and the map on top of it** (`util/avl.c`, `util/list.h`, `util/avl.h`, `util/kvlist.c`).
A node is a class with the fields of `struct avl_node`; the list links are its first member, so list head and node are one
object. Beside the heap the tree keeps two ghost values, the tree and the list. `AvlTree.Valid` says what a tree is:
the circle through the nodes is the list; the list is sorted by the comparator; the first node of each group of equal keys
is marked leader; the tree's links, parents and stored balances agree with the ghost tree, which is balanced; its in-order
walk is the list's leaders; and the count is the list's length. Every operation is an imperative method over these links.
A subtree that has just grown or shrunk by one is described by its place (`Path`, the tree around it) and by the height it
had. Proofs about links work on a snapshot of the heap (`Snap`). Where avl.c writes out the same rebalancing steps in
several places they are one method here (`RestoreLeft`, `RestoreRight`).

**The multipart parser and its callbacks** (`multipart-parser.c`, `mpart-body-processor.c`; section 5.1.1 of RFC 2046,
section 4 of RFC 7578). `Parser` has the state, the index and the lookbehind buffer; its loop body is split by groups of
states. `Exec` says what one call does with a piece of input, for any results of the callbacks; `Bytes` is the reference,
the input one byte at a time; and `Judge` reads a whole text by lines and delimiters, without states, and says whether it
is a body, where it stops being the beginning of one, and which parts it has. `mark = i --` followed by `++ i` is modelled
as not advancing. The boundary is the whole delimiter text, dashes included; it is not empty and has no carriage return.
`Processor` has the fields of `mpart_body_processor`, with the maps of headers and attributes kept in the verified `KvList`.

**The FastCGI stream layer** (`libfcgi/fcgiapp.c`; sections 3.3, 3.4, 4.1, 5.1 to 5.3 and 5.5 of the FastCGI Specification
1.0). `Reader` and `Writer` have the fields of `FCGX_Stream` and `FCGX_Stream_Data`, pointers into the buffer being
offsets. `Conn` is the connection: `OS_Read` and `OS_Write` move any positive number of bytes and may fail at any time.
`Settle`, `ReadN` and `Rest` say what a reader makes of its undelivered bytes, whatever they are; `FcgiServe` relates that
to sequences of records. `PutOut`, `FlushOut` and `CloseOut` say which records a writer emits.

Files: `Basics`; `AvlNode`, `AvlShape`, `AvlOrder`, `AvlSearch`, `Avl`, `AvlRuns`, `KvList`; `Multipart`, `MultipartChunks`,
`MultipartProtocol`, `MultipartData`, `MultipartPrint`, `MultipartGrammar`, `FormData`, `BodyProcessor`; `FcgiRecord`, `FcgiParams`,
`FcgiDemux`, `FcgiServe`, `FcgiValues`, `FcgiInput`, `FcgiRequest`, `FcgiReader`, `FcgiFraming`, `FcgiWriter`, `FcgiRun`, `FcgiRoundTrip`.
`dafny verify dfyconfig.toml` checks them all.

## Properties that fail, and exactly when

- A header name that ends in a line break instead of a colon is dropped in one piece of input and handed over in two.
  `WhenCutsAgree` shows that this is the only reason for a cut to matter, `BareNameExample` gives an input.
- An empty record of another request makes the reader swallow the next content of its own stream, and the content of a
  management record other than GET_VALUES reaches the client as stream data, unless it is what is swallowed.
  `ServedExactly` and `ServedBytes` say for exactly which sequences of records the client gets the stream's content;
  `SwallowExample` and `ManagementContent` give inputs.
- Padding of the BEGIN_REQUEST record and of the empty PARAMS record is not skipped but read as what follows. For any
  padding, `PaddingRead` and `RequestRead` say what it is read as; padding that does not begin like a header does harm
  exactly if there is any (`BeginPadding`, `ParamsPadding`), and padding that is records which say nothing to the stream
  does none (`QuietPadding`).
- The reply to GET_VALUES fits its buffer exactly if at most three of the entries name a known variable (`AnswersFit`;
  `AnswersOverflow` gives an input).
- A disposition with an attribute that has no '=' makes the processor follow a null pointer. `CrashOnBareAttr` says that
  this happens exactly there, `PartsCrash` for exactly which bodies, and `BareAttrExample` gives one.
- `FCGX_Accept_r` does not tell the end of the PARAMS stream from an error. A connection that ends before it gives an
  accepted request exactly if the content that has arrived ends between two pairs (`RequestCut`); the shortest one ends
  behind BEGIN_REQUEST (`NothingBehindBegin`). The same goes for a record that breaks the protocol (`RequestBroken`).

## Model

| member | source | states |
|---|---|---|
| `AvlNodes.InitListHead` | `source/hvmlfpm/util/list.h:54-58` | a head set up is the circle of an empty list |
| `AvlNodes.ListAddBetween` | `source/hvmlfpm/util/list.h:94-103` | from the circle of s, with prev and next its neighbours at position k, the circle of s with the node put in at k; no other node's links change |
| `AvlNodes.ListAdd` | `source/hvmlfpm/util/list.h:142-146` | the circle of s with the node put in right behind the given one |
| `AvlNodes.ListAddTail` | `source/hvmlfpm/util/list.h:148-152` | the circle of s with the node put in right before the given one |
| `AvlNodes.ListDel` | `source/hvmlfpm/util/list.h:80-92` | the circle of s without its k-th node, whose own links are null |
| `AvlNodes.RingForward` | `source/hvmlfpm/util/list.h:116-117` | walking next pointers from the head visits s in order and comes back to the head, so the list walks end |
| `AvlShape.HeightBound` | `source/hvmlfpm/util/avl.c:442-488` | a balanced tree of height h has at least Fib(h + 2) - 1 nodes |
| `AvlShape.RightRotationPlaced` | `source/hvmlfpm/util/avl.c:378-408` | the heap after the rotation's assignments holds the rotated tree at the same place of the same surrounding tree: links and parents agree, and the two stored balances are again the height differences |
| `AvlShape.LeftRotationPlaced` | `source/hvmlfpm/util/avl.c:410-440` | the mirror image of RightRotationPlaced |
| `AvlShape.StandInOrder` | `source/hvmlfpm/util/avl.c:704-730` | putting a node's successor in its place, after taking the successor out, gives the old walk without the node |
| `AvlShape.UnhookedOrder` | `source/hvmlfpm/util/avl.c:600-702` | hanging a node's only subtree in its place gives the old walk without the node |
| `Avl.AvlTree.constructor` | `source/hvmlfpm/util/avl.c:91-100` | a valid empty tree |
| `Avl.AvlTree.RotateRight` | `source/hvmlfpm/util/avl.c:378-408` | at any node with a left child, whatever its balance, the rotated tree takes its place, links and balances agreeing up to the root |
| `Avl.AvlTree.RotateLeft` | `source/hvmlfpm/util/avl.c:410-440` | the mirror image of RotateRight |
| `Avl.AvlTree.RestoreLeft` | `source/hvmlfpm/util/avl.c:557-570` | a subtree whose left side is two deeper becomes a balanced one with the same walk, as high as before exactly when the left child was even, one lower otherwise |
| `Avl.AvlTree.RestoreRight` | `source/hvmlfpm/util/avl.c:530-544` | the mirror image of RestoreLeft |
| `Avl.AvlTree.PostInsert` | `source/hvmlfpm/util/avl.c:442-488` | if the subtree at the node has grown by one and nothing else is out of balance, the whole tree ends up valid with the same walk |
| `Avl.AvlTree.PostDelete` | `source/hvmlfpm/util/avl.c:511-571` | if the subtree at the node has shrunk by one and nothing else is out of balance, the whole tree ends up valid with the same walk |
| `Avl.AvlTree.LocalMin` | `source/hvmlfpm/util/avl.c:573-580` | the first node of the subtree's walk |
| `Avl.AvlTree.UnhookLeaf` | `source/hvmlfpm/util/avl.c:600-663` | a leaf leaves the tree: valid, with the old walk without it |
| `Avl.AvlTree.UnhookInner` | `source/hvmlfpm/util/avl.c:665-702` | a node with one child leaves the tree: valid, with the old walk without it |
| `Avl.AvlTree.DeleteInner` | `source/hvmlfpm/util/avl.c:704-730` | a node with two children leaves the tree, its successor in its place: valid, with the old walk without it, though taking the successor out may have rotated above the node |
| `Avl.AvlTree.DeleteWorker` | `source/hvmlfpm/util/avl.c:593-730` | any node leaves the tree: valid, with the old walk without it |
| `Avl.AvlTree.ReplaceChild` | `source/hvmlfpm/util/avl.c:328-337` | the place above a node, or the root, leads to its replacement |
| `Avl.AvlTree.TakePlace` | `source/hvmlfpm/util/avl.c:708-730` | the successor has the node's links, balance and place |
| `Avl.AvlTree.HangLeft` | `source/hvmlfpm/util/avl.c:283-288` | a new leaf left of a childless-on-that-side node gives a valid tree with the leaf right before it in the walk |
| `Avl.AvlTree.HangRight` | `source/hvmlfpm/util/avl.c:294-297` | a new leaf right of a node gives a valid tree with the leaf right behind it in the walk |
| `Avl.AvlTree.FindRec` | `source/hvmlfpm/util/avl.c:353-376` | the result splits the walk around the key, with the sign of its comparison and no child on that side, after at most as many comparisons as the tree is high |
| `Avl.AvlTree.FindPlace` | `source/hvmlfpm/util/avl.c:244-252` | the place of a key in the list and in the tree, found in a number of comparisons whose Fibonacci number of index two more is at most count + 1 |
| `Avl.AvlTree.Insert` | `source/hvmlfpm/util/avl.c:219-299` | the tree stays valid; the list is the old one with the node behind the last key not greater than its own, or it is unchanged and the result is -1, exactly when duplicates are off and the key is there |
| `Avl.AvlTree.InsertLeft` | `source/hvmlfpm/util/avl.c:264-271` | a new leader before its neighbour, through the shortcut for balance 1 or by climbing: a valid tree |
| `Avl.AvlTree.InsertRight` | `source/hvmlfpm/util/avl.c:273-280` | a new leader behind the group of its neighbour, through the shortcut for balance -1 or by climbing: a valid tree |
| `Avl.AvlTree.InsertFollower` | `source/hvmlfpm/util/avl.c:254-262` | a duplicate goes behind its group and not into the tree |
| `Avl.AvlTree.Delete` | `source/hvmlfpm/util/avl.c:306-351` | the tree stays valid and the list is the old one without exactly this node, be it follower, leader with or without followers |
| `Avl.AvlTree.HandOver` | `source/hvmlfpm/util/avl.c:317-343` | the next duplicate takes over the leader's links, balance and place: a valid tree with that node in the leader's stead |
| `Avl.AvlTree.DeleteGroup` | `source/hvmlfpm/util/avl.c:346-350` | a leader without followers leaves tree and list |
| `Avl.AvlTree.DeleteFollower` | `source/hvmlfpm/util/avl.c:313-350` | a follower leaves the list only |
| `Avl.AvlTree.AvlRemove` | `source/hvmlfpm/util/avl.c:504-509` | the node leaves the list and the count goes down by one |
| `Avl.AvlTree.Find` | `source/hvmlfpm/util/avl.c:114-126` | the leader of the nodes with an equal key, null exactly when there are none |
| `Avl.AvlTree.FindLessEqual` | `source/hvmlfpm/util/avl.c:136-168` | the last node of the list whose key is not greater, null exactly when there is none; both walks end |
| `Avl.AvlTree.FindGreaterEqual` | `source/hvmlfpm/util/avl.c:178-210` | the first node of the list whose key is not less, null exactly when there is none; both walks end |
| `Avl.AvlTree.RemoveAll` | `source/hvmlfpm/util/avl.h:553-559` | the clearing loop visits every node once, in list order, and leaves a valid empty tree |
| `AvlOrder.UpperBoundSplits` | `source/hvmlfpm/util/avl.c:240-262` | the place of insertion has the keys not greater than the new one before it and the greater ones behind it |
| `AvlOrder.NewGroup` | `source/hvmlfpm/util/avl.c:282-298` | a node put in between two groups leads a group of its own; all other leaders stay |
| `AvlOrder.NewFollower` | `source/hvmlfpm/util/avl.c:254-262` | a node put in behind its group changes no leader |
| `AvlOrder.LeaderGone` | `source/hvmlfpm/util/avl.c:314-345` | without a leader that had followers, the first of these leads and all other marks stay |
| `AvlSearch.PlaceInList` | `source/hvmlfpm/util/avl.c:240-252` | where the search in the tree ends determines the place in the list |
| `AvlRuns.InsertDelete` | `source/hvmlfpm/util/avl.c:219-351` | deleting what was just inserted restores the list |
| `AvlRuns.RunSorted` | `source/hvmlfpm/util/avl.c:219-351` | after any run of insertions and deletions the list is sorted and holds no node twice |
| `AvlRuns.Contiguous` | `source/hvmlfpm/util/avl.c:240-262` | nodes with equal keys stand together |
| `AvlRuns.RunQueues` | `source/hvmlfpm/util/avl.c:219-351` | after any run the nodes of every key stand in the order in which they were inserted, as in a queue of its own |
| `AvlRuns.Perform` | `source/hvmlfpm/util/avl.c:219-351` | the tree's methods, run one after the other, keep the tree valid and produce exactly the list of the run |
| `KvLists.StrcmpComparator` | `source/hvmlfpm/util/avl-cmp.c:20-25` | comparison by strcmp is a total preorder, as a tree comparator must be |
| `KvLists.StrcmpZero` | `source/hvmlfpm/util/avl-cmp.c:20-25` | strcmp gives 0 only for equal strings |
| `KvLists.StrcmpFirst` | `source/hvmlfpm/util/avl-cmp.c:20-25` | the first difference of two names decides by the characters' codes, and a name comes before its continuations |
| `KvLists.KvList.constructor` | `source/hvmlfpm/util/kvlist.c:32-37` | an empty map |
| `KvLists.KvList.Get` | `source/hvmlfpm/util/kvlist.c:46-55` | the map's value for the name, or none |
| `KvLists.KvList.Set` | `source/hvmlfpm/util/kvlist.c:70-89` | the map updated at this name and nowhere else |
| `KvLists.KvList.Delete` | `source/hvmlfpm/util/kvlist.c:57-68` | the map without the name, and whether it was there |
| `KvLists.KvList.Free` | `source/hvmlfpm/util/kvlist.c:91-97` | the empty map |
| `KvLists.KvList.ForEach` | `source/hvmlfpm/util/kvlist.h:51-56` | every entry of the map once, in strictly ascending order of names |
| `KvLists.MapOfPlus` | `source/hvmlfpm/util/kvlist.c:70-89` | a list with one more node stands for the map with one more entry, wherever the node goes |
| `KvLists.MapOfMinus` | `source/hvmlfpm/util/kvlist.c:57-68` | a list without one node stands for the map without its name |
| `Multipart.Parser.constructor` | `source/hvmlfpm/multipart-parser.c:85-102` | a parser at its start |
| `Multipart.Parser.Execute` | `source/hvmlfpm/multipart-parser.c:116-316` | state, index, callbacks and result are those of Exec for any input and any results of the callbacks; what is held back stands in the lookbehind buffer, which is not written past boundary_length + 2 bytes; the loop runs at most twice per byte |
| `Multipart.Parser.OpeningTurn` | `source/hvmlfpm/multipart-parser.c:126-156` | one turn of the loop in the opening delimiter takes the step that Step describes |
| `Multipart.Parser.HeaderTurn` | `source/hvmlfpm/multipart-parser.c:158-224` | one turn of the loop in the headers takes the step that Step describes |
| `Multipart.Parser.DataTurn` | `source/hvmlfpm/multipart-parser.c:226-244` | one turn of the loop in part data takes the step that Step describes |
| `Multipart.Parser.MatchTurn` | `source/hvmlfpm/multipart-parser.c:246-272` | one turn of the loop in the closing delimiter takes the step, or goes back to part data to take the same step there |
| `Multipart.Parser.EndingTurn` | `source/hvmlfpm/multipart-parser.c:274-306` | one turn of the loop behind a delimiter takes the step that Step describes |
| `MultipartChunks.ExecBytes` | `source/hvmlfpm/multipart-parser.c:116-316` | one call stops where feeding single bytes stops, and otherwise ends in the same state with the same events |
| `MultipartChunks.FeedBytes` | `source/hvmlfpm/multipart-parser.c:116-316` | the same for any sequence of calls |
| `MultipartChunks.ChunkIndependence` | `source/hvmlfpm/multipart-parser.c:116-316` | two ways to cut an input whose header names end in a colon consume the same bytes and give the same state, bytes held back and events, adjacent texts of one kind joined |
| `MultipartChunks.WhenCutsAgree` | `source/hvmlfpm/multipart-parser.c:166-169` | an accepted input gives the same however it is cut in two if and only if no header name in it ends in a carriage return |
| `MultipartChunks.BareNameExample` | `source/hvmlfpm/multipart-parser.c:166-183` | an input for which it does not: the name is dropped in one piece and handed over in two |
| `MultipartChunks.StepDelta` | `source/hvmlfpm/multipart-parser.c:122-313` | a step with text pending does what the same byte does on its own |
| `MultipartChunks.NormInner` | `source/hvmlfpm/multipart-parser.c:38-45` | joining adjacent texts first or last makes no difference |
| `MultipartProtocol.CallbackProtocol` | `source/hvmlfpm/multipart-parser.c:116-316` | the callbacks of every run, whatever they return, are a beginning of (part_data_begin, (field+ value+)*, headers_complete, part_data+, part_data_end)+ body_end |
| `MultipartProtocol.StepInOrder` | `source/hvmlfpm/multipart-parser.c:122-313` | every step keeps the callbacks in order but for a carriage return in a header name |
| `MultipartProtocol.FeedStops` | `source/hvmlfpm/multipart-parser.c:29-45` | whatever the callbacks return, the run is the run with callbacks that never refuse, or its beginning up to the first one refused |
| `MultipartProtocol.ExecLog` | `source/hvmlfpm/multipart-parser.c:29-45` | a call only adds callbacks, and consumes everything only if all are accepted |
| `MultipartData.DataExact` | `source/hvmlfpm/multipart-parser.c:226-272` | inside a part, the data passed on followed by what is held back is what was read; and what is held back is all that could still become the delimiter |
| `MultipartData.PartExact` | `source/hvmlfpm/multipart-parser.c:226-272` | a body comes out exactly, and part_data_end at the first complete delimiter |
| `MultipartData.PartDataPending` | `source/hvmlfpm/multipart-parser.c:226-272` | the exactness of part data for any cutting, while no delimiter is complete |
| `MultipartData.PartDataWhole` | `source/hvmlfpm/multipart-parser.c:226-272` | the exactness of a whole body for any cutting |
| `MultipartData.LongestStep` | `source/hvmlfpm/multipart-parser.c:246-270` | the restart after a mismatch misses no beginning of the delimiter |
| `MultipartPrint.RoundTrip` | `source/hvmlfpm/multipart-parser.c:116-316` | any list of parts, printed by section 5.1.1 of RFC 2046, with anything behind it, and fed in any pieces, is consumed, ends in s_end and gives exactly its headers and bodies |
| `MultipartPrint.PartRun` | `source/hvmlfpm/multipart-parser.c:158-272` | a part is read from its first header to the delimiter behind it |
| `MultipartPrint.HeadersRun` | `source/hvmlfpm/multipart-parser.c:158-224` | the headers of a part come out one by one |
| `MultipartGrammars.NameCodes` | `source/hvmlfpm/multipart-parser.c:163-188` | a header name consists of hyphens (45) and letters (65 to 90, 97 to 122) |
| `MultipartGrammars.JudgeAgrees` | `source/hvmlfpm/multipart-parser.c:116-316` | byte by byte, the parser refuses, still expects more of, or has finished exactly what a reading of the whole text by lines and delimiters says, from any of its places on |
| `MultipartGrammars.Recognized` | `source/hvmlfpm/multipart-parser.c:116-316` | for every text in any pieces: it is consumed if and only if it can be the beginning of a multipart body, the parser is at its end if and only if the text holds a whole body, and any other text is consumed up to the first byte that makes it none |
| `MultipartGrammars.Understood` | `source/hvmlfpm/multipart-parser.c:116-316` | a whole body whose header names end in colons comes out as exactly the parts that this reading gives: names, values without their leading spaces, data up to the first delimiter |
| `MultipartGrammars.OpeningSilent` | `source/hvmlfpm/multipart-parser.c:136-160` | no callback is made before the whole opening line has come, whatever the callbacks return |
| `MultipartGrammars.OpeningRefused` | `source/hvmlfpm/multipart-parser.c:151-153` | a text that does not begin with the delimiter and a line break makes no callback and is consumed up to its first difference from them |
| `FormData.StripInPlace` | `source/hvmlfpm/mpart-body-processor.c:122-162` | both loops leave the string without the characters to drop at its ends |
| `FormData.StrSepRest` | `source/hvmlfpm/mpart-body-processor.c:182-184` | a token holds no separator, and token, separator and rest make up the string |
| `FormData.AttrsSome` | `source/hvmlfpm/mpart-body-processor.c:173-191` | the attributes can be read if and only if every pair has its '=' |
| `FormData.SpaceCodes` | `source/hvmlfpm/mpart-body-processor.c:122-150` | what counts as a blank and as a quote, by codes |
| `FormData.CStringEnds` | `source/hvmlfpm/mpart-body-processor.c:54-101` | a text handed over counts up to its first NUL |
| `FormData.StripAround` | `source/hvmlfpm/mpart-body-processor.c:122-162` | trimming takes off the characters to drop on both sides and nothing else |
| `FormData.AttrSays` | `source/hvmlfpm/mpart-body-processor.c:173-191` | an attribute in any layout reads as its name without the blanks around it, and its value up to a second '=' without the quotes around it and then the blanks; quotes with blanks outside stay |
| `FormData.AttrsSay` | `source/hvmlfpm/mpart-body-processor.c:173-191` | a list of attributes in any layout reads as exactly its map |
| `FormData.ItemMapSays` | `source/hvmlfpm/mpart-body-processor.c:173-191` | that map has exactly the attributes' names, each with its last value |
| `FormData.HeaderMapSays` | `source/hvmlfpm/mpart-body-processor.c:37-52` | the headers' map has exactly the headers' names, each with its last value |
| `FormData.OtherFate` | `source/hvmlfpm/mpart-body-processor.c:302-312` | a part without a Content-Disposition, or whose last one does not begin with form-data; is refused |
| `FormData.DispositionFate` | `source/hvmlfpm/mpart-body-processor.c:312-385` | by the attributes of its last disposition, in any order and layout: without a name a part is refused, with a name and a filename it is an upload, and otherwise the last name's value is posted |
| `FormData.FieldPosts` | `source/hvmlfpm/mpart-body-processor.c:312-385` | a form field's part posts the field's name |
| `FormData.HandleNorm` | `source/hvmlfpm/mpart-body-processor.c:54-101` | the processor's state does not depend on where names, values and data are cut, if they hold no NUL |
| `FormData.HandleJoin` | `source/hvmlfpm/mpart-body-processor.c:394-422` | two callbacks with parts of a text do what one does with all of it |
| `FormData.HandleRun` | `source/hvmlfpm/mpart-body-processor.c:298-464` | what the processor makes of a run that it stops itself is what it makes of all callbacks of the input |
| `FormData.PartHandled` | `source/hvmlfpm/mpart-body-processor.c:37-464` | a part with any headers and data: its last Content-Disposition decides whether the callbacks post its data under its name, return -1, crash, or open an upload |
| `FormData.PartsDecoding` | `source/hvmlfpm/mpart-body-processor.c:298-522` | any list of parts without NULs, printed and read in any pieces: what comes of it is what comes of the first part that is no field; if all are fields, everything is consumed and the post object holds exactly what they post |
| `FormData.BareCrashes` | `source/hvmlfpm/mpart-body-processor.c:173-191` | a part crashes if and only if its disposition is form-data; with a pair that has no '=' |
| `FormData.PartsCrash` | `source/hvmlfpm/mpart-body-processor.c:173-191` | a printed body makes the processor crash if and only if some part has such a disposition and all parts before it are fields, however it is cut |
| `FormData.BareAttrExample` | `source/hvmlfpm/mpart-body-processor.c:173-191` | a body of one part, with the disposition form-data; and nothing behind it, that does |
| `FormData.PostLast` | `source/hvmlfpm/mpart-body-processor.c:451-455` | the fields' map has exactly the fields' names, each with its last value |
| `FormData.FormDecoding` | `source/hvmlfpm/mpart-body-processor.c:482-522` | any list of fields with safe names and values without NUL, printed as a form and read in any pieces, is consumed and ends in exactly that map |
| `FormData.HandledInOrder` | `source/hvmlfpm/mpart-body-processor.c:37-464` | a callback made in order fails no assertion and follows no null pointer, except headers_complete on a disposition with a pair without '='; and only headers_complete refuses |
| `FormData.CrashOnBareAttr` | `source/hvmlfpm/mpart-body-processor.c:173-191` | in every run over an input whose header names end in a colon, the processor crashes if and only if headers_complete comes to such a disposition |
| `BodyProcessors.AttrsMapParse` | `source/hvmlfpm/mpart-body-processor.c:173-191` | the list holds the attributes of the string, or a null pointer was followed, exactly when a pair has no '=' |
| `BodyProcessors.FieldName` | `source/hvmlfpm/mpart-body-processor.c:311-372` | the name attribute; refused without one, a file with a filename |
| `BodyProcessors.Processor.AddNewHeader` | `source/hvmlfpm/mpart-body-processor.c:37-52` | the pending header is in the map and pending no more |
| `BodyProcessors.Processor.HeaderFieldCb` | `source/hvmlfpm/mpart-body-processor.c:54-77` | the processor's new state is that of Handle |
| `BodyProcessors.Processor.HeaderValueCb` | `source/hvmlfpm/mpart-body-processor.c:79-101` | the processor's new state and result are those of Handle |
| `BodyProcessors.Processor.HeadersCompleteCb` | `source/hvmlfpm/mpart-body-processor.c:298-392` | the processor's new state and result are those of Handle, for form fields |
| `BodyProcessors.Processor.PartDataCb` | `source/hvmlfpm/mpart-body-processor.c:394-422` | the processor's new state is that of Handle, for form fields |
| `BodyProcessors.Processor.PartDataBeginCb` | `source/hvmlfpm/mpart-body-processor.c:424-430` | a fresh map of headers |
| `BodyProcessors.Processor.PartDataEndCb` | `source/hvmlfpm/mpart-body-processor.c:432-464` | the field has its value, and the processor is idle |
| `BodyProcessors.Processor.Deliver` | `source/hvmlfpm/mpart-body-processor.c:472-480` | a run of callbacks does what HandleFrom says |
| `BodyProcessors.ParseBlock` | `source/hvmlfpm/mpart-body-processor.c:499-506` | one block's callbacks bring the processor to the state of the whole sequence so far; if all bytes were consumed, none was refused |
| `BodyProcessors.ParseContent` | `source/hvmlfpm/mpart-body-processor.c:482-522` | the fields returned and whether all was consumed are those of feeding the body's blocks of 256 bytes |
| `BodyProcessors.FormReadInBlocks` | `source/hvmlfpm/mpart-body-processor.c:494-512` | so a printed form is read completely and returns every name with its last value |
| `FcgiRecords.Conn.Read` | `source/hvmlfpm/libfcgi/fcgiapp.c:1676-1684` | any positive number of bytes of the input, in order; 0 only at its end |
| `FcgiRecords.Conn.WriteItAll` | `source/hvmlfpm/libfcgi/fcgiapp.c:1397-1409` | everything is written, however little each write takes, or a beginning of it if one fails |
| `FcgiRecords.AlignInt8` | `source/hvmlfpm/libfcgi/fcgiapp.c:1292-1294` | the smallest multiple of eight that is not less |
| `FcgiRecords.EncodeOnWire` | `source/hvmlfpm/libfcgi/fcgiapp.c:1221-1239` | a record's bytes have version 1, type, request, content length and padding length at their places, high byte first, and then content and padding |
| `FcgiRecords.EndRequestEnds` | `source/hvmlfpm/libfcgi/fcgiapp.c:1250-1262` | an END_REQUEST record has type 3, its request, eight bytes of content, the status with the high byte first, and the protocol status |
| `FcgiParams.Params.PutParam` | `source/hvmlfpm/libfcgi/fcgiapp.c:1096-1108` | the vector has one more string and still ends in null; its length doubles exactly when the new string took the last place |
| `FcgiParams.LengthOnWire` | `source/hvmlfpm/libfcgi/fcgiapp.c:1169-1188` | a length is one byte below 128, or four bytes, the first with its highest bit set, high byte first |
| `FcgiParams.PairsBack` | `source/hvmlfpm/libfcgi/fcgiapp.c:1158-1210` | any list of pairs, each length in one or four bytes, reads back as its strings name=value in order |
| `FcgiParams.PairsCut` | `source/hvmlfpm/libfcgi/fcgiapp.c:1169-1205` | pairs cut short strictly inside a pair give the complete ones and an error |
| `FcgiParams.PairCut` | `source/hvmlfpm/libfcgi/fcgiapp.c:1169-1205` | no strict beginning of a pair is a pair |
| `FcgiParams.PairsBegun` | `source/hvmlfpm/libfcgi/fcgiapp.c:1158-1210` | a beginning of some pairs is read without an error if and only if it ends between two of them, and gives the pairs before that |
| `FcgiReaders.BuffLen` | `source/hvmlfpm/libfcgi/fcgiapp.c:1808-1814` | the length asked for, kept between 32 and 65536 and rounded up to a multiple of eight, eight less for a buffer that is not aligned |
| `FcgiReaders.Reader.constructor` | `source/hvmlfpm/libfcgi/fcgiapp.c:1794-1849` | a reader at the beginning of the connection's input |
| `FcgiReaders.Reader.FillBuffProc` | `source/hvmlfpm/libfcgi/fcgiapp.c:1664-1782` | for any slicing of the input into reads, the reader stands where Settle leads from its undelivered bytes, unless a read or write fails; the mutual recursion ends, by the bytes not consumed |
| `FcgiReaders.Reader.PassBody` | `source/hvmlfpm/libfcgi/fcgiapp.c:1685-1715` | content is made ready or skipped and padding skipped without changing what is to come |
| `FcgiReaders.Reader.CopyHeader` | `source/hvmlfpm/libfcgi/fcgiapp.c:1725-1735` | a header may arrive in pieces |
| `FcgiReaders.Reader.Interpret` | `source/hvmlfpm/libfcgi/fcgiapp.c:1741-1780` | the reader goes on or stops as Process says |
| `FcgiReaders.Reader.ProcessHeader` | `source/hvmlfpm/libfcgi/fcgiapp.c:1628-1653` | the status and the new state stand for the outcome of Process |
| `FcgiReaders.Reader.ProcessBeginRecord` | `source/hvmlfpm/libfcgi/fcgiapp.c:1567-1604` | a first BEGIN_REQUEST sets request, role and flag; a second one is answered with FCGI_CANT_MPX_CONN and skipped; it may arrive in pieces |
| `FcgiReaders.Reader.ProcessManagementRecord` | `source/hvmlfpm/libfcgi/fcgiapp.c:1489-1547` | GET_VALUES is read to the end of its record and answered, within the buffer for the reply if and only if at most three variables asked for are known; other types are answered as unknown |
| `FcgiReaders.Reader.AnswerAll` | `source/hvmlfpm/libfcgi/fcgiapp.c:1505-1525` | the answers to the variables asked for, in order; every one of them, with its NUL, is inside the buffer of 64 bytes if and only if at most three are known |
| `FcgiReaders.Reader.GetChar` | `source/hvmlfpm/libfcgi/fcgiapp.c:100-118` | the first byte of what is left to read, and the rest behind it; EOF at the end only |
| `FcgiReaders.Reader.GetStr` | `source/hvmlfpm/libfcgi/fcgiapp.c:135-173` | the next n bytes of what is left to read, or all of them if the stream ends first; a beginning of these even if a read fails |
| `FcgiReaders.Reader.UnGetChar` | `source/hvmlfpm/libfcgi/fcgiapp.c:229-238` | the byte put back is what is read next, and then what was left before; EOF at the place stopUnget, at the end of the stream, and for EOF |
| `FcgiReaders.Reader.SetReaderType` | `source/hvmlfpm/libfcgi/fcgiapp.c:1885-1897` | a stream of the new type at the same place of the input, padding that was left included, also on a reader that has failed, which keeps its error |
| `FcgiReaders.Reader.FClose` | `source/hvmlfpm/libfcgi/fcgiapp.c:932-949` | closed, with what was ready thrown away |
| `FcgiReaders.Reader.ReadEntry` | `source/hvmlfpm/libfcgi/fcgiapp.c:1169-1206` | the next pair as name=value, or the end of the stream inside it |
| `FcgiReaders.Reader.ReadParams` | `source/hvmlfpm/libfcgi/fcgiapp.c:1158-1210` | the vector grows by exactly the pairs of what is left to read; FCGX_PARAMS_ERROR exactly when it ends inside a pair without another error |
| `FcgiReaders.Reader.ReadRequest` | `source/hvmlfpm/libfcgi/fcgiapp.c:2247-2291` | whether the request is accepted, its environment, and the reader of its standard input are those of Accept |
| `FcgiDemux.ReadRest` | `source/hvmlfpm/libfcgi/fcgiapp.c:135-173` | what GetStr returns are the next bytes of what is left, as many as asked for until the stream ends |
| `FcgiDemux.SettleInUse` | `source/hvmlfpm/libfcgi/fcgiapp.c:116` | the assertion that a stream without bytes is closed holds once a request has begun |
| `FcgiDemux.AnswersFit` | `source/hvmlfpm/libfcgi/fcgiapp.c:1494` | the reply to GET_VALUES, and the NUL that sprintf writes behind it, fit 64 bytes if and only if at most three of the entries name a known variable, repeated ones counted |
| `FcgiDemux.AskedOnceFits` | `source/hvmlfpm/libfcgi/fcgiapp.c:1494` | that is so if no known variable is asked for twice |
| `FcgiDemux.AnswersOverflow` | `source/hvmlfpm/libfcgi/fcgiapp.c:1494` | asked for one variable n times, the reply fits if and only if n is at most 3 |
| `FcgiServe.ServeOne` | `source/hvmlfpm/libfcgi/fcgiapp.c:1628-1653` | one record of any kind expected delivers its content if it is the stream's, sends the reply it calls for, and leaves the reader at the next record |
| `FcgiServe.ServeAll` | `source/hvmlfpm/libfcgi/fcgiapp.c:1664-1782` | the same for any sequence of records |
| `FcgiServe.Demultiplexed` | `source/hvmlfpm/libfcgi/fcgiapp.c:1664-1782` | any mix of own, foreign, BEGIN_REQUEST and management records, with or without content, up to the stream's empty record delivers its data, sends the replies in order, and then ends |
| `FcgiServe.FirstUnexpected` | `source/hvmlfpm/libfcgi/fcgiapp.c:1628-1653` | in any sequence of records all are expected, or the first that is not is the end of the stream or breaks the protocol |
| `FcgiServe.WrongStops` | `source/hvmlfpm/libfcgi/fcgiapp.c:1567-1653` | a record that breaks the protocol (a BEGIN_REQUEST without a request or of a wrong length, pairs cut short, another type for the same request) ends the reading with its error, with nothing of it delivered |
| `FcgiServe.StoppedAtWrong` | `source/hvmlfpm/libfcgi/fcgiapp.c:1664-1782` | behind any expected records: everything before it has been delivered and answered |
| `FcgiServe.ServedExactly` | `source/hvmlfpm/libfcgi/fcgiapp.c:1689-1702` | record by record the client gets the stream's content and nothing else if and only if no record of the stream follows an empty record of another request with no content in between, and every management record of another type with content does |
| `FcgiServe.ServedBytes` | `source/hvmlfpm/libfcgi/fcgiapp.c:1689-1702` | the same for the bytes delivered: without intruding content they are the stream's if and only if no record is swallowed, and without swallowed records if and only if no content intrudes |
| `FcgiServe.SwallowExample` | `source/hvmlfpm/libfcgi/fcgiapp.c:1689-1702` | an empty record of another request in front of one of the stream: nothing is delivered |
| `FcgiServe.CoincidenceExample` | `source/hvmlfpm/libfcgi/fcgiapp.c:1532-1546` | with a management record of the same content behind them the right bytes come from the wrong record |
| `FcgiServe.BeginReply` | `source/hvmlfpm/libfcgi/fcgiapp.c:1572-1588` | a second BEGIN_REQUEST is answered with an END_REQUEST record for its request, with status 0 and protocol status 1 |
| `FcgiServe.UnknownReply` | `source/hvmlfpm/libfcgi/fcgiapp.c:1532-1540` | a management record of another type is answered with its type in an UNKNOWN_TYPE record, byte by byte |
| `FcgiValues.NameBefore` | `source/hvmlfpm/libfcgi/fcgiapp.c:1507-1511` | the name in an entry is what stands before its first '=' or NUL |
| `FcgiValues.AnswersSay` | `source/hvmlfpm/libfcgi/fcgiapp.c:1505-1525` | for names without '=' and NUL, the answers read back as one pair for each of the three variables asked for, in order, with the values 1, 1 and 0; and these are the ones counted as known |
| `FcgiValues.ValuesReply` | `source/hvmlfpm/libfcgi/fcgiapp.c:1505-1546` | a GET_VALUES record of pairs is answered with a GET_VALUES_RESULT record whose content reads back as these pairs, padded to a multiple of eight bytes |
| `FcgiServe.ManagementContent` | `source/hvmlfpm/libfcgi/fcgiapp.c:1532-1546` | where nothing is to be skipped, the content of a management record of another type is delivered to the client of the stream |
| `FcgiServe.SkipLeftAfter` | `source/hvmlfpm/libfcgi/fcgiapp.c:1763-1765` | when the flag skip is left set between two records |
| `FcgiInput.CutRecord` | `source/hvmlfpm/libfcgi/fcgiapp.c:1675-1684` | of a record that the input ends in, the client gets the content that has arrived, and then an error |
| `FcgiInput.NoEarlyEnd` | `source/hvmlfpm/libfcgi/fcgiapp.c:1675-1684` | on a connection that ends anywhere before the header of the stream's empty record is complete the client gets exactly the content that has arrived, and then an error, never the end of the stream |
| `FcgiInput.RestExtend` | `source/hvmlfpm/libfcgi/fcgiapp.c:1664-1782` | more input only adds to what is delivered, and nothing once the end of the stream was found |
| `FcgiInput.Slices` | `source/hvmlfpm/libfcgi/fcgiapp.c:135-173` | any run of reads returns consecutive slices, each as long as asked for until the data ends |
| `FcgiRequests.RoleSays` | `source/hvmlfpm/libfcgi/fcgiapp.c:2255-2268` | the first string of the environment, byte by byte, for roles 1, 2 and 3, and none for any other |
| `FcgiRequests.OtherRole` | `source/hvmlfpm/libfcgi/fcgiapp.c:2265-2266` | a request with any other role is not accepted |
| `FcgiRequests.RequestRead` | `source/hvmlfpm/libfcgi/fcgiapp.c:2247-2291` | a request is accepted with its role and exactly the pairs of its PARAMS stream, whatever records come between, if none of it is swallowed and nothing intrudes; its standard input is read from behind the last header, padding included |
| `FcgiRequests.RequestServed` | `source/hvmlfpm/libfcgi/fcgiapp.c:2247-2291` | from the first byte of the connection on: the environment is the pairs, and any run of reads returns consecutive slices of the standard input, each as long as asked for until its end |
| `FcgiRequests.PaddingRead` | `source/hvmlfpm/libfcgi/fcgiapp.c:1885-1897` | padding of BEGIN_REQUEST, whatever it is, is read as if it came behind the record |
| `FcgiRequests.BeginPadding` | `source/hvmlfpm/libfcgi/fcgiapp.c:2271` | if it does not begin with the version byte, the reader has no error if and only if there is no padding, and the environment is right if and only if there is none or there are no pairs |
| `FcgiRequests.ParamsPadding` | `source/hvmlfpm/libfcgi/fcgiapp.c:2291` | padding of the empty PARAMS record that does not begin with the version byte: the environment is right, the standard input is read without an error if and only if there is no padding, and is empty otherwise |
| `FcgiRequests.RecordsAsPadding` | `source/hvmlfpm/libfcgi/fcgiapp.c:1885-1897` | padding that is a sequence of records is read as these records |
| `FcgiRequests.QuietPadding` | `source/hvmlfpm/libfcgi/fcgiapp.c:1885-1897` | if these say nothing to the stream, the request is read as without padding |
| `FcgiRequests.RequestCut` | `source/hvmlfpm/libfcgi/fcgiapp.c:2247-2291` | on a connection that ends before the end of the PARAMS stream, the request is accepted if and only if the content that has arrived ends between two pairs; it has the pairs so far, and an empty standard input that has failed |
| `FcgiRequests.RequestBroken` | `source/hvmlfpm/libfcgi/fcgiapp.c:2247-2291` | a record that breaks the protocol inside the PARAMS stream: the request is accepted if and only if the content before it ends between two pairs, and the reader of its standard input keeps the error |
| `FcgiRequests.NothingBehindBegin` | `source/hvmlfpm/libfcgi/fcgiapp.c:2247-2291` | the shortest such connection ends right behind BEGIN_REQUEST |
| `FcgiRequests.BeginCut` | `source/hvmlfpm/libfcgi/fcgiapp.c:2247-2252` | a connection that ends inside BEGIN_REQUEST is dropped |
| `FcgiRequests.PaddedBegin` | `source/hvmlfpm/libfcgi/fcgiapp.c:1885-1897` | padding of BEGIN_REQUEST that does not begin with the version byte: the request is accepted without its pairs, and the reader of its standard input keeps the error and goes on behind the eight bytes taken for a header |
| `FcgiFraming.DataRecord` | `source/hvmlfpm/libfcgi/fcgiapp.c:1433-1443` | less than eight bytes of padding, to a multiple of eight |
| `FcgiFraming.PutOut` | `source/hvmlfpm/libfcgi/fcgiapp.c:302-333` | the buffer never holds more than a record's worth |
| `FcgiFraming.PutSplit` | `source/hvmlfpm/libfcgi/fcgiapp.c:302-333` | writing in pieces that fit comes to writing at once |
| `FcgiWriters.Writer.constructor` | `source/hvmlfpm/libfcgi/fcgiapp.c:1794-1849` | an empty stream, with room for at least 16 bytes of content and at most 65535 behind the header |
| `FcgiWriters.Writer.Frame` | `source/hvmlfpm/libfcgi/fcgiapp.c:1432-1447` | the buffer holds exactly the record of the data it held, header and padding in place; the padding stays inside the buffer |
| `FcgiWriters.Writer.EmptyBuffProc` | `source/hvmlfpm/libfcgi/fcgiapp.c:1421-1465` | the connection has the record due, or when closing the closing records, and the buffer is empty, unless a write fails |
| `FcgiWriters.Writer.WriteCloseRecords` | `source/hvmlfpm/libfcgi/fcgiapp.c:1361-1393` | the closing records are behind what was in the buffer, even where they spill over it |
| `FcgiWriters.Writer.PutChar` | `source/hvmlfpm/libfcgi/fcgiapp.c:274-285` | as PutStr, for one byte |
| `FcgiWriters.Writer.PutStr` | `source/hvmlfpm/libfcgi/fcgiapp.c:302-333` | the records emitted and the bytes kept back are those of PutOut; raw bytes go out as they are; nothing happens on a closed stream |
| `FcgiWriters.Writer.FFlush` | `source/hvmlfpm/libfcgi/fcgiapp.c:907-913` | what was kept back is on the connection as one record, or nothing if there was nothing |
| `FcgiWriters.Writer.FClose` | `source/hvmlfpm/libfcgi/fcgiapp.c:932-949` | the first call puts the closing records on the connection and counts the writer off, later ones do nothing |
| `FcgiRuns.PutConserves` | `source/hvmlfpm/libfcgi/fcgiapp.c:302-333` | the records emitted are full or fuller than empty and well formed, and with the bytes kept back they carry the bytes given |
| `FcgiRuns.CloseKeeps` | `source/hvmlfpm/libfcgi/fcgiapp.c:1361-1393` | closing a stream completes its data and adds one empty record, none for a standard error stream nothing was written to |
| `FcgiRuns.StepKeeps` | `source/hvmlfpm/libfcgi/fcgiapp.c:274-333` | every operation on either stream keeps both streams' records, the count of writers and the place of END_REQUEST right |
| `FcgiRuns.RequestCompleted` | `source/hvmlfpm/libfcgi/fcgiapp.c:2042-2061` | after any interleaving of writes, flushes and closes and FCGX_Finish_r: exactly the bytes given to each stream, in well-formed records of at most the buffer's size, one empty record at the end of each stream used, and one END_REQUEST, the last record, with the request's id, its status and protocol status 0 |
| `FcgiRuns.ResponseOnWire` | `source/hvmlfpm/libfcgi/fcgiapp.c:1383-1390` | so the last sixteen bytes on the connection are that record, byte by byte |
| `FcgiRuns.FlushDelivers` | `source/hvmlfpm/libfcgi/fcgiapp.c:907-913` | behind a flush the records of an open stream carry all that was given to it |
| `FcgiRuns.Perform` | `source/hvmlfpm/libfcgi/fcgiapp.c:274-333` | a writer's method emits exactly the records of the run's step |
| `FcgiRuns.Respond` | `source/hvmlfpm/libfcgi/fcgiapp.c:2042-2061` | the two writers' methods, in any order, and their closing put exactly the response's records on the connection, if no write fails |
| `FcgiRuns.Finish` | `source/hvmlfpm/libfcgi/fcgiapp.c:2042-2061` | standard error is closed first, then standard output; the connection is to be closed unless it is kept and no stream had an error |
| `FcgiRoundTrip.RoundTrip` | `source/hvmlfpm/libfcgi/fcgiapp.c:1664-1782` | whatever is written to a stream, in any pieces and with any flushes, through a buffer of any size, is what a reader of the same type and request delivers, and then the end of the stream |
| `FcgiRoundTrip.RoundTripSlices` | `source/hvmlfpm/libfcgi/fcgiapp.c:135-173` | so any run of reads returns consecutive slices of the bytes written, and a short one only at their end |
| `FcgiRoundTrip.WriteAll` | `source/hvmlfpm/libfcgi/fcgiapp.c:1942-1954` | a writer made for one stream: any writes and flushes and the closing put exactly the stream's records on the connection, if no write fails |
| `FcgiRoundTrip.ReadAll` | `source/hvmlfpm/libfcgi/fcgiapp.c:135-173` | any reads with a reader return what they return of its undelivered bytes, unless a read fails |
| `FcgiRoundTrip.Transfer` | `source/hvmlfpm/libfcgi/fcgiapp.c:1664-1782` | a writer and a reader with buffers of any size at the two ends: the reads return consecutive slices of the bytes written, short only at their end, if no read or write fails |

## Left out

- Avl.AvlTree.Insert: the count is a natural number, the wrap-around of the source's unsigned int is not modelled; the
  `signed char` balance is an integer whose values are proved to stay between -1 and 1.
- Avl.AvlTree.RemoveAll: freeing the nodes is not modelled; the result is the sequence of nodes visited.
- KvLists.KvList.Set: the payload is a string; its size and the running out of memory are not modelled.
- KvLists.StrcmpComparator: strings have no NUL inside, and only the sign of a comparison counts.
- Multipart.Parser.Execute: the callbacks' results are a function of the callbacks made so far; a parser that a callback
  has stopped may not be fed again, as no caller does.
- MultipartChunks.WhenCutsAgree: for inputs that the parser accepts; where it stops is the same for every cut by
  ChunkIndependence.
- FormData.FormDecoding: fields only. Uploaded files (a `filename` attribute) are outside the model: files and the size
  recorded for them.
- BodyProcessors.ParseContent: the callbacks of a block are delivered right after the call that makes them instead of from
  inside it, which their results cannot tell apart; the comparison with the content length only writes a log line.
- FcgiReaders.Reader.ProcessManagementRecord: what a reply written past the end of its buffer destroys is not modelled,
  only when that happens; the bytes of the reply's padding, which the source leaves as they happen to be, are zero.
- FcgiReaders.Reader.ReadParams: lengths are natural numbers; a name and a value that together exceed an int are not
  modelled.
- FcgiReaders.Reader.FillBuffProc: reading functions on a writer and writing functions on a reader, which the source
  answers at once with EOF, do not exist, as the two kinds of stream are two classes.
- FcgiReaders.Reader.UnGetChar: not at the very beginning of the buffer with another place in stopUnget, where the source
  writes in front of the buffer.
- FcgiReaders.Reader.ReadRequest: one request per connection; the loop that drops a connection and accepts the next, and
  requests behind one another on one connection, are not modelled.
- FcgiWriters.Writer.EmptyBuffProc: once a write has failed nothing is said about the connection's bytes.
- FcgiRuns.Finish: freeing the streams and closing the descriptor.
- FCGX_VFPrintF, FCGX_GetLine, FCGX_GetParam and the wrappers of fcgi_stdio.c: formatting and thin layers.
- os_unix.c, os_win32.c, hvml-fpm.c: sockets, processes and privileges.
- hvml-executor.c: its HVML interpreter is not part of this model.
- list_move, list_splice and the remaining iteration macros of list.h and avl.h: not used by the parts modelled.
- Memory allocation failure and pointer alignment beyond the rounding of buffer lengths.
