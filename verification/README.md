# Models of the msmuduo cores

This project models the parts of msmuduo that carry algorithms rather than system calls, and proves what they promise.

* **The intrusive red-black tree** (`Rb*.dfy`). Nodes are heap objects with parent, left, right and color. `RbLinks.Holds(root, tree)` says that the linked nodes spell out one inductive tree; every pointer step is proved at a focus of that tree, a subtree together with the context above it. `RbInsert` and `RbErase` are the two fix-ups, `RbWalk` the iteration, `RbReplace` the node replacement, `RbIndex` the search and insert cores the header documents, up to whole runs of operations.
* **The memcached session** (`Session*.dfy`). `Sessions` is the object with its mutable fields and its loop over the input buffer. `SessionSpec` gives the meaning of a whole byte stream read in one pass (`Serve`), or by a session in the middle of a request (`Resume`). `SessionTheorems`, `SessionAnswers`, `SessionLines`, `SessionOutcomes` and `SessionStore` prove what that meaning promises: independence of fragmentation, the bytes an update takes up, one answer per command, how written lines are read, what every command does to the store and tells the client, and that a stored value comes back.
* **The HTTP request parser** (`Http.dfy`), **the hub codec and its client** (`Hub.dfy`) and **number printing** (`LogStream.dfy`, `Numerals.dfy`), over an input buffer that is a byte sequence (`Buffer.dfy`).

Characters stand for bytes throughout. Where the source updates an object or an array in place, so does the model; the specification functions beside the methods are what the theorems are about.

What the models show about the code:

* The check for more than 1024 pending bytes (Session.cpp:115) is the only place where the cutting of the stream matters. On a live connection a command line can be cut anywhere without effect exactly when it has at most 1023 bytes, or is `quit` or `shutdown` (`SessionTheorems.LineCut`); the stream theorem asks no more than that of every line.
* `storeItem` stores for `set` and `add` only. For `replace`, `append`, `prepend` and `cas` it stores nothing and still returns true, so these commands are answered with STORED; EXISTS and NOT_FOUND are never sent for a `cas`. `SessionStore.AnswerIsTrue` gives the exact condition: the answer to a whole block is truthful if and only if the command is `set` or `add`.
* ` noreply` does not silence a `get` whose keys are short enough: Session.cpp:273 bypasses `reply`.
* A last word `noreply` is taken for the request for silence (Session.cpp:216-224), also where it is meant as a key. A written line is read as it was written if and only if that is not its last word (`SessionLines.ReadAsWritten`): `get a noreply` fetches `a` alone, and `delete noreply` is a `delete` without a key, which stops the process.
* A `get` rejected for a key that is too long leaves the items of the keys before it in the output buffer, and the next `get` that is answered sends them first. Starting with an empty buffer, one `get` leaves nothing behind if and only if no stored key stands before the first one that is too long (`SessionStore.GetClean`); a run of commands leaves nothing if and only if it is `Clean` (`SessionStore.RunLeaves`). `SessionStore.OldValueComesFirst` is a run that ends with the old value in front of the new one.
* Update and delete commands without a key, and updates with a negative length, are not checked by the session; assertions of the tokenizer and of `Item` stop the process. Two more than the declared length may also be too large for an `int` (Session.cpp:389): no assertion stands there, and the overflow has no defined result. The model ends a session in the state `Dead` (`aborted`) in all these cases. `SessionTheorems.LineStarts` says exactly which lines they are, in terms of the words of the line; theorems about complete commands exclude those lines, and the others include the state.
* `HttpRequest::swap` leaves the version out, so a reset keeps it (`Http.HttpRequest.Swap`, `Http.HttpContext.Reset`). This is never seen, since an accepted request line sets the version (`Http.RequestPrinted`). After a rejected request line parsing may go on without a reset if and only if the line has no space or no method in front of it (`Http.RejectedLeaves`); `GET /` is a line that needs the reset (`Http.NeedsReset`).
* A hub message comes back from the codec exactly when neither its topic nor its content holds a CRLF (`Hub.ReadBackExactly`).
* `__rb_rotate_right` asks whether the node is a right child, `__rb_rotate_left` whether it is a left one; in a consistent tree both are the same choice.

The table cites paths relative to the repository. Some of what is modelled is defined in files that are not plain UTF-8 text (HttpRequest.h, HttpContext.h, MemcacheServer.cpp, Item.cpp, Buffer.h, rbtree_test.cpp). Rows about it cite the code that calls it or that it is proved about, and name the function.

## Model

| member | source | states |
|---|---|---|
| RbSteps.RotateLeft | msmuduo/util/rbtree.cpp:25-43 | exactly which links change and to what; every other field of every node is as before |
| RbSteps.RotateLeftAt | msmuduo/util/rbtree.cpp:25-43 | anywhere inside a consistent tree the rotation gives the consistent rotated tree, with the same nodes in the same order |
| RbSteps.RotateRight | msmuduo/util/rbtree.cpp:45-63 | exactly which links change and to what |
| RbSteps.RotateRightAt | msmuduo/util/rbtree.cpp:45-63 | anywhere inside a consistent tree the rotation gives the consistent rotated tree, with the same nodes in the same order |
| RbSteps.LinkNode | msmuduo/util/rbtree.h:140-148 | linking through the free slot makes the node a red leaf of the consistent tree, in place of the empty subtree |
| RbSteps.SpliceAt | msmuduo/util/rbtree.cpp:276-289 | a node with at most one child leaves the tree; that child hangs where it hung and all links agree |
| RbSteps.TakeOverAt | msmuduo/util/rbtree.cpp:256-272 | the successor takes the place, the children and the color of the erased node, also when it was its direct right child; all links agree |
| RbLinks.Focus | msmuduo/util/rbtree.h:99-114 | a tree is held in memory if and only if the cells inside and around a focus are, whichever focus is chosen |
| RbShape.PlugRedBlack | msmuduo/util/rbtree.cpp:65-220 | a filled context is a red-black tree if and only if the part and the context are balanced for each other |
| RbShape.HeightBound | msmuduo/util/rbtree.cpp:65-294 | two to the height is at most the square of the number of nodes plus one, that is, the height is at most 2 log2(n+1) |
| RbInsert.FixUnderLeft | msmuduo/util/rbtree.cpp:73-98 | one round on the left: still one possibly red-red place, nearer to the root, order kept; either no rotation, or at most two and the loop is over |
| RbInsert.FixUnderRight | msmuduo/util/rbtree.cpp:99-124 | the same on the right |
| RbInsert.RedParent | msmuduo/util/rbtree.cpp:69-71 | a red parent is not the root, so the grandparent read by the loop exists, and it is black |
| RbInsert.InsertColor | msmuduo/util/rbtree.cpp:65-128 | after a red leaf has been linked in any free slot: a red-black tree, the old in-order sequence with the new node in the linked position, at most two rotations |
| RbErase.SiblingExists | msmuduo/util/rbtree.cpp:139-140 | the place that is one black node short has a sibling, so the sibling is never null when it is read |
| RbErase.RoundLeft | msmuduo/util/rbtree.cpp:137-176 | one round on the left: either the deficit is gone and the tree red-black, or it has moved, with the measure smaller and the order kept |
| RbErase.RoundRight | msmuduo/util/rbtree.cpp:177-216 | the same on the right |
| RbErase.EraseColor | msmuduo/util/rbtree.cpp:130-220 | from a tree one black node short at one place to a red-black tree with the same order, in at most three rotations |
| RbErase.DetachInner | msmuduo/util/rbtree.cpp:231-274 | with two children: the in-order sequence loses exactly the erased node, and the tree is red-black or short where the successor's child hangs, with the parent computed for it |
| RbErase.Detach | msmuduo/util/rbtree.cpp:222-290 | the same for all three cases |
| RbErase.Erase | msmuduo/util/rbtree.cpp:222-294 | erasing any node of a red-black tree leaves one, with the in-order sequence minus exactly that node, links consistent, at most three rotations, and no other object written to |
| RbWalk.First | msmuduo/util/rbtree.cpp:299-309 | the first node in order, or null for an empty tree |
| RbWalk.Last | msmuduo/util/rbtree.cpp:311-321 | the last node in order, or null for an empty tree |
| RbWalk.Next | msmuduo/util/rbtree.cpp:323-344 | the node after this one in the in-order sequence, or null at its end |
| RbWalk.Prev | msmuduo/util/rbtree.cpp:346-363 | the node before this one in the in-order sequence, or null at its start |
| RbWalk.Traverse | msmuduo/util/rbtree.cpp:296-344 | `traverse` of rbtree_test.cpp: the walk from the first node visits exactly the in-order sequence and then ends |
| RbWalk.TraverseBack | msmuduo/util/rbtree.cpp:311-363 | the walk from the last node visits its reverse |
| RbWalk.StepAndBack | msmuduo/util/rbtree.cpp:323-363 | next and prev are inverse on adjacent nodes |
| RbReplace.ReplaceNode | msmuduo/util/rbtree.cpp:365-386 | shape and colors kept, red-black kept, the in-order sequence changed in the one position of the victim, also at the root |
| RbReplace.SubstitutedKeeps | msmuduo/util/rbtree.cpp:365-386 | substitution in the tree keeps balance, black height and every other position of the order |
| RbIndex.Search | msmuduo/util/rbtree.h:34-52 | finds a node exactly when its offset is in the map, and then the right one |
| RbIndex.FindSlot | msmuduo/util/rbtree.h:58-73 | the entry in the way, or the free slot with everything smaller before it and everything larger after it |
| RbIndex.Insert | msmuduo/util/rbtree.h:54-90 | a duplicate is returned and nothing changes; otherwise the map gains exactly this entry |
| RbIndex.Delete | msmuduo/util/rbtree.cpp:222-294 | `my_delete` of rbtree_test.cpp, search and then erase: the map loses exactly this key; a missing key changes nothing |
| RbIndex.Run | msmuduo/util/rbtree.h:26-90 | every finite run of additions and removals gives the contents and the answers of the same run on a finite map, touches no node outside, and keeps the height bound |
| RbIndex.Low | msmuduo/util/rbtree.cpp:65-294 | the height bound for every valid index, in terms of its number of entries |
| Sessions.Session.constructor | msexamples/memcached/server/Session.h:28-42 | a new session stands at a command, with nothing read or sent |
| Sessions.Session.NextWord | msexamples/memcached/server/Session.cpp:21-44 | the next word of the tokenizer, as defined by the words of the line |
| Sessions.Session.Tokenize | msexamples/memcached/server/Session.cpp:226-228 | all the words of a line |
| Sessions.Session.ReceiveValue | msexamples/memcached/server/Session.cpp:141-186 | one step in the middle of a data block; the invariant holds, so its assertions do |
| Sessions.Session.DiscardValue | msexamples/memcached/server/Session.cpp:188-204 | one step in the middle of a block that is thrown away |
| Sessions.Session.ProcessRequest | msexamples/memcached/server/Session.cpp:206-311 | the line has its meaning; at entry every request field is reset |
| Sessions.Session.DoUpdate | msexamples/memcached/server/Session.cpp:330-399 | an update is rejected, skipped as too large, or waits for its block, with the fields set for it |
| Sessions.Session.DoDelete | msexamples/memcached/server/Session.cpp:401-428 | the delete command and its four answers |
| Sessions.Session.DoGet | msexamples/memcached/server/Session.cpp:242-274 | the keys are fetched in turn, up to one that is too long |
| Sessions.MemcacheServer.StoreItem | msexamples/memcached/server/Session.cpp:153-157 | `storeItem` of MemcacheServer.cpp: which policies store, which number the item gets, what is returned |
| Sessions.Session.Step | msexamples/memcached/server/Session.cpp:85-137 | one round of the loop keeps the state invariant and is one step of the stream's meaning |
| Sessions.Session.OnMessage | msexamples/memcached/server/Session.cpp:78-139 | the loop ends, the invariant holds, state and unread bytes are those of reading the buffer in one pass, and bytes read plus bytes pending is unchanged |
| Sessions.Session.OnDeliveries | msexamples/memcached/server/Session.cpp:78-139 | over any run of deliveries: the result of delivering them to the specification, and bytes read plus bytes pending equals all bytes delivered |
| SessionTheorems.StepKeepsMeaning | msexamples/memcached/server/Session.cpp:85-137 | a round leaves the meaning of session and unread bytes together as it was, and consumes at least one byte unless it stops |
| SessionTheorems.ResumeValid | msexamples/memcached/server/Session.cpp:141-204 | whatever is read, the state keeps: an arriving item needs at least one more byte, a skipped block has bytes left |
| SessionTheorems.ResumeSplit | msexamples/memcached/server/Session.cpp:78-204 | reading two pieces one after the other equals reading them at once, from any state |
| SessionTheorems.FragmentationFree | msexamples/memcached/server/Session.cpp:78-204 | with command lines of at most 1023 bytes, longer ones only where they close the connection or find it closed, every fragmentation gives the calls, answers, store, state and unread bytes of one pass |
| SessionTheorems.LineCut | msexamples/memcached/server/Session.cpp:113-122 | the exact condition under which a line may be cut anywhere: at most 1023 bytes, or `quit` or `shutdown` |
| SessionTheorems.DeclaredLength | msexamples/memcached/server/Session.cpp:352-398 | an update accepted with a declared length owns exactly two bytes more, and is skipped exactly beyond one megabyte |
| SessionTheorems.LineStarts | msexamples/memcached/server/Session.cpp:330-428 | which lines the session does not check, which wait for a block, which skip one, and how long the block is, each if and only if, from the words of the line |
| SessionTheorems.ClosingLine | msexamples/memcached/server/Session.cpp:295-304 | a command closes the connection if and only if it is `quit` or `shutdown` |
| SessionTheorems.ServeUnit | msexamples/memcached/server/Session.cpp:141-204 | a complete command takes up its line and its block, whatever the block says; the next command begins at the very next byte |
| SessionAnswers.CommandAnswers | msexamples/memcached/server/Session.cpp:206-428 | one answer for every complete command but quit and shutdown, none when it asks for silence |
| SessionAnswers.AnswersInOrder | msexamples/memcached/server/Session.cpp:151-185 | over a run: earlier answers stay where they are, and there is one more for each command that wants one |
| SessionAnswers.ServeAll | msexamples/memcached/server/Session.cpp:78-139 | a stream of complete commands is served by performing them one after the other |
| SessionAnswers.CommandsInPieces | msexamples/memcached/server/Session.cpp:78-204 | the same in any fragmentation, with nothing left unread |
| SessionAnswers.FetchSilently | msexamples/memcached/server/Session.cpp:247-264 | fetching sends nothing, and succeeds exactly when every key is short enough |
| SessionLines.WordsOfJoined | msexamples/memcached/server/Session.cpp:21-44 | words joined by spaces are the words the tokenizer finds |
| SessionLines.NumeralRead | msexamples/memcached/server/Session.cpp:57-70 | the decimal text of any 64-bit number is read back as that number |
| SessionLines.NumbersOnly | msexamples/memcached/server/Session.cpp:57-70 | a word is read as a number if and only if it is white space, at most one sign, and digits to its end |
| SessionLines.SignedRead | msexamples/memcached/server/Session.cpp:57-70 | digits are read as their value up to the largest 64-bit number, and with a minus sign as its complement |
| SessionLines.LineRead | msexamples/memcached/server/Session.cpp:215-235 | how any written line is read: its words and the silence asked for, and a last word `noreply` taken for that request |
| SessionLines.ReadAsWritten | msexamples/memcached/server/Session.cpp:215-235 | a line written without the request is read as its words if and only if the last one is not `noreply`; otherwise that word is lost and silence is on |
| SessionLines.GetLosesNoreply | msexamples/memcached/server/Session.cpp:215-249 | `get a noreply` is read as `get a` |
| SessionLines.DeleteNoreplyStops | msexamples/memcached/server/Session.cpp:401-407 | `delete noreply` is a delete without a key, which the session does not check |
| SessionLines.UpdateStarts | msexamples/memcached/server/Session.cpp:330-399 | a written update, `cas` with its fifth number included, makes the session wait for a block of the declared length plus two, for an item with these fields |
| SessionOutcomes.UpdateOutcome | msexamples/memcached/server/Session.cpp:330-399 | every update, by the text of its verb and the bytes of its block: rejected with nothing changed; too large, with the key removed; bad block, with nothing changed; or a whole block, stored or refused, each with its exact message |
| SessionOutcomes.AcceptedExactly | msexamples/memcached/server/Session.cpp:348-383 | an update is accepted if and only if its key is short enough and all its numbers are there |
| SessionOutcomes.StoresExactly | msexamples/memcached/server/Session.cpp:141-186 | a block is stored if and only if the verb is `set`, or `add` with a new key, the length is not too large and the block ends in CRLF; otherwise only a too large update changes the store, by removing its key |
| SessionOutcomes.WrittenOutcome | msexamples/memcached/server/Session.cpp:330-399 | the same for an update written from its parts, with any block of the declared length |
| SessionOutcomes.DeleteOutcome | msexamples/memcached/server/Session.cpp:401-428 | every `delete`: a short key alone or with `0` behind it is deleted, a long key or another third word changes nothing, each with its exact message |
| SessionOutcomes.DeleteWithThird | msexamples/memcached/server/Session.cpp:412-415 | a written `delete` with a third word deletes if and only if that word is `0` |
| SessionOutcomes.OtherOutcome | msexamples/memcached/server/Session.cpp:275-310 | `version`, `quit`, `shutdown`, the empty line and every unknown command: what is told and called, with the store unchanged |
| SessionStore.AnswerIsTrue | msexamples/memcached/server/Session.cpp:153-182 | STORED is answered if and only if the block is stored, exactly for `set` and `add`; the other verbs store nothing and say so all the same |
| SessionStore.RunKeeps | msexamples/memcached/server/Session.cpp:141-428 | no run of commands on other keys changes what is stored under a key |
| SessionStore.GetSends | msexamples/memcached/server/Session.cpp:242-274 | any written `get` or `gets`: one message with the items present in key order and the end mark; or, for a key too long, a rejection that leaves the items before it behind; a last key `noreply` is lost |
| SessionStore.GetMeaning | msexamples/memcached/server/Session.cpp:242-274 | the loop over the keys does, on a live connection, just that, key by key up to the first that is too long |
| SessionStore.GetClean | msexamples/memcached/server/Session.cpp:247-265 | with nothing left over before, a `get` leaves nothing behind if and only if no stored key stands before one too long |
| SessionStore.RunLeaves | msexamples/memcached/server/Session.cpp:247-273 | after any run of commands nothing is left over if and only if, since the last answered `get` or the start, no rejected `get` has left anything |
| SessionStore.PoliteRun | msexamples/memcached/server/Session.cpp:247-265 | a client that never asks for a key too long leaves nothing behind |
| SessionStore.DeleteForgets | msexamples/memcached/server/Session.cpp:401-428 | after a written `delete` the key is gone, and the answer says whether it was there; the process stops if and only if the key is `noreply` and no silence is asked for |
| SessionStore.ValueComesBack | msexamples/memcached/server/Session.cpp:141-274 | after `set`, or `add` of a new key, and any commands on other keys, the message of `get` ends with exactly the flags, length and bytes stored, that of `gets` with the number given to them too, and holds nothing else if and only if the run before it is clean |
| SessionStore.ValueComesBackAtOnce | msexamples/memcached/server/Session.cpp:141-274 | `set`, or `add` of a new key, followed at once by `get` or `gets`: the message holds the stored value and nothing else if and only if nothing was left over at the start |
| SessionStore.OldValueComesFirst | msexamples/memcached/server/Session.cpp:247-273 | the run that fails: a rejected `get`, a new value, and a `get` that sends the old item before the new one |
| SessionStore.NoreplyIsNotFetched | msexamples/memcached/server/Session.cpp:215-273 | a `get` of the key `noreply` alone fetches nothing |
| SessionStore.ValueComesBackInPieces | msexamples/memcached/server/Session.cpp:78-204 | the same over the wire, in any fragmentation, with the same exact condition |
| Http.ParseSplit | msmuduo/net/http/HttpContext.cpp:53-115 | parsing two pieces one after the other equals parsing them at once |
| Http.FragmentationFree | msmuduo/net/http/HttpContext.cpp:53-115 | request line, headers, state and leftover bytes are the same for every fragmentation |
| Http.AcceptsLine | msmuduo/net/http/HttpContext.cpp:9-50 | a method, a space, a target without spaces, a space and a version are accepted and fill the request |
| Http.OnlyAcceptsLine | msmuduo/net/http/HttpContext.cpp:9-50 | nothing else is |
| Http.AcceptsTarget | msmuduo/net/http/HttpContext.cpp:20-29 | a path without a question mark and a query that begins with one, or is empty, become just those fields; without a query the old one stays |
| Http.TargetCut | msmuduo/net/http/HttpContext.cpp:20-29 | every accepted line is of that form: it is cut at its first question mark |
| Http.FreshTarget | msmuduo/net/http/HttpContext.cpp:20-29 | read into a fresh request, the path has no question mark, and the query is empty or begins with one |
| Http.Reparse | msmuduo/net/http/HttpContext.cpp:9-50 | path and query rebuild the target: an accepted line can be printed from the request and read again with the same result |
| Http.HeadersEnd | msmuduo/net/http/HttpContext.cpp:81-101 | the headers end exactly after the first line without a colon |
| Http.HeadersEndOnlySo | msmuduo/net/http/HttpContext.cpp:81-101 | and in no other way: a complete request consists of lines with a colon, one without, and the bytes left over |
| Http.RequestEnds | msmuduo/net/http/HttpContext.cpp:53-115 | from the request line on: an accepted line, any lines with a colon and one without are read, and parsing stops exactly there |
| Http.RequestEndsOnlySo | msmuduo/net/http/HttpContext.cpp:53-115 | and whenever a request is complete, its bytes have that form |
| Http.RejectedExactly | msmuduo/net/http/HttpContext.cpp:9-50 | a rejected line leaves the method unset if and only if it has no space or no method in front of it |
| Http.RejectedLeaves | msmuduo/net/http/HttpContext.cpp:59-74 | a rejected line stays in the buffer, and parsing may go on without a reset under just that condition |
| Http.NeedsReset | msmuduo/net/http/HttpContext.cpp:59-74 | the line `GET /` is rejected and needs the reset |
| Http.HeaderPrinted | msmuduo/net/http/HttpContext.cpp:86-90 | a field, a colon and a value with any white space around it are stored as field and value |
| Http.Trimmed | msmuduo/net/http/HttpContext.cpp:86-90 | white space is dropped on either side of the value, however much there is, and nothing else |
| Http.RequestPrinted | msmuduo/net/http/HttpContext.cpp:53-115 | a whole printed request is read back field by field, also after a reset; what follows it stays in the buffer |
| Http.HttpRequest.SetMethod | msmuduo/net/http/HttpContext.cpp:14 | `setMethod` of HttpRequest.h: the method a word names |
| Http.HttpRequest.AddHeader | msmuduo/net/http/HttpContext.cpp:89 | `addHeader` of HttpRequest.h: the trimming loops, tied to the meaning of the header line |
| Http.HttpContext.ProcessRequestLine | msmuduo/net/http/HttpContext.cpp:9-50 | answer and request are those the line means, also where it is rejected half-way |
| Http.HttpContext.ParseRequest | msmuduo/net/http/HttpContext.cpp:53-115 | the loop ends, and answer, state, request and buffer are those of the specification |
| Hub.ParseMessage | msexamples/hub/codec.cpp:7-52 | a complete message is taken from the buffer; a bad line or an incomplete message leaves the buffer unchanged |
| Hub.BadExactly | msexamples/hub/codec.cpp:13-45 | a message is refused if and only if its line is complete and has no space |
| Hub.IncompleteExactly | msexamples/hub/codec.cpp:13-50 | more bytes are waited for if and only if the line has no end, or is a publication whose content has none |
| Hub.AnyCommand | msexamples/hub/codec.cpp:36-40 | any other line with a space is a message of its command and topic, with nothing behind it touched |
| Hub.ParseGrows | msexamples/hub/codec.cpp:7-52 | a verdict on the front of a stream stands, whatever follows |
| Hub.DrainSplit | msexamples/hub/pubsub.cpp:73-96 | draining two pieces one after the other gives the messages and leftover of draining them at once |
| Hub.FragmentationFree | msexamples/hub/pubsub.cpp:73-96 | the same for any fragmentation |
| Hub.ReadBackExactly | msexamples/hub/pubsub.cpp:36-54 | a printed message is read back with any bytes after it if and only if topic and content hold no CRLF |
| Hub.RoundTrip | msexamples/hub/pubsub.cpp:36-96 | any list of printed messages, in any fragmentation, is read back as the same list |
| Hub.DrainPrinted | msexamples/hub/pubsub.cpp:73-96 | printed messages are read first, then what follows them as if it stood alone |
| Hub.StopsAtBadLine | msexamples/hub/pubsub.cpp:73-96 | a bad line after printed messages: they arrive, the reading stops in front of it, and it is reported |
| Hub.StopsAtBadLineInPieces | msexamples/hub/pubsub.cpp:73-96 | the same in any fragmentation |
| Hub.PubSubClient.Subscribe | msexamples/hub/pubsub.cpp:36-41 | the printed message goes to the connection if there is one |
| Hub.PubSubClient.Unsubscribe | msexamples/hub/pubsub.cpp:43-47 | the same |
| Hub.PubSubClient.Publish | msexamples/hub/pubsub.cpp:50-54 | the same |
| Hub.PubSubClient.OnMessage | msexamples/hub/pubsub.cpp:73-96 | the drain loop ends with exactly the leftover bytes; the callback gets the publications in order; a bad line shuts the connection down |
| Numerals.ValueOfNumeral | msmuduo/base/LogStream.cpp:29-68 | a numeral has the value it was written for and no superfluous leading zero |
| Numerals.NumeralOfValue | msmuduo/base/LogStream.cpp:29-68 | and is the only digit string of that value without one |
| Numerals.ReadBack | msmuduo/base/LogStream.cpp:29-50 | reading the text of a number back gives the number, for every sign |
| LogStreams.SignedDigit | msmuduo/base/LogStream.cpp:21-40 | truncating division and the symmetric digit table give the digits of the absolute value, without ever negating it |
| LogStreams.ReverseInPlace | msmuduo/base/LogStream.cpp:47 | the stretch is reversed and the rest of the array kept |
| LogStreams.Convert | msmuduo/base/LogStream.cpp:29-50 | the decimal text and a NUL stand at the start position, its length is returned, the rest of the buffer is kept |
| LogStreams.ConvertHex | msmuduo/base/LogStream.cpp:52-68 | the same for hexadecimal text |
| LogStreams.TextLength | msmuduo/base/LogStream.cpp:29-68 | the text of a 64-bit number has at most twenty characters, a hexadecimal one sixteen |
| LogStreams.StaticCheckSuffices | msmuduo/base/LogStream.cpp:95-101 | every size that passes the compile-time check has room for every number with its NUL, and for every pointer |
| LogStreams.LogStream.FormatInteger | msmuduo/base/LogStream.cpp:103-111 | a number is appended whole, or not at all when less than the numeric size is left |
| LogStreams.LogStream.FormatPointer | msmuduo/base/LogStream.cpp:150-164 | the same for a pointer and its prefix |
| Buffers.Buffer.FindCRLF | msexamples/hub/codec.cpp:13-25 | the first CRLF at or after a position, or none |
| Buffers.FindCrlfGrows | msexamples/memcached/server/Session.cpp:102-122 | a CRLF found stays where it is when bytes are added; one found only then ends among the new bytes |

## Left out

- The red-black tree: `rb_entry` and `offsetof` are replaced by a key inside the node; struct packing is not modelled, and erased nodes are not freed.
- RbSteps.RotateLeft: the child that comes up is there, as every caller in the source ensures; a null child is not a case.
- The store of the session is one map; sharding, hashing, locks, statistics and the interleaving of several sessions are left out. The `cas` counter does not wrap at 64 bits.
- Sessions.Session.OnMessage: `protocol_` is set to ASCII by the constructor and never changes (Session.h:32), so it is not a field of the model; the binary branch and automatic detection are left out.
- Sessions.Session.DoUpdate: what a build without assertions does after unchecked input, and what follows the overflow at Session.cpp:389, is not modelled; both are a state that absorbs everything.
- Sessions.Session.ReceiveValue: the item is a value that is replaced as its bytes arrive, not a shared object; that nothing else holds it is the source's assertion at Session.cpp:148.
- Items expire nowhere in the source; the expiry time is computed and kept, and so it is here.
- Logging, `memstat`, the shrinking of the output buffer (Session.cpp:267-271), and the delayed stop of the event loop are left out; `stop` is one event.
- TcpConnection is a flag and what the session and the client hand to it; sockets, event loop and timers are left out.
- Buffer is a byte sequence; indices, prepending and growth are not modelled.
- Http.HttpContext.ParseRequest: requires a state with something to read, since the loop of the source makes no progress in the other two; the receive time is left out.
- Http.HeadersEnd: header lines keep the source's meaning that any line without a colon ends them, not only the empty one that HTTP asks for.
- Hub.PubSubClient.OnMessage: the callback is recorded as the list of publications handed to it; what a callback does is its own affair. The hub server and its topics are left out.
- Floating-point formatting, `Fmt`, timestamps and the append operations of the log stream.
- LogStreams.Convert: integer widths appear as ranges, since the algorithm negates nothing and so never leaves the width it started in.
- The echo, chat, ping-pong and short-URL examples, the thread pool and the socket wrappers.
