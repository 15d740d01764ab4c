# Verified models of Node 0.4.4's core JavaScript and of its documentation highlighter

This project models the parts of the vendored Node 0.4.4 (`node-v0.4.4/`) whose behaviour is hard to
see from any single function, and proves what they promise: HTTP messages that share a connection,
idle timers, the write queue of sockets, the tag merging of the documentation's highlighter, four
codecs and incremental parsers, and path arithmetic.

- `Basics`, `Strings`, `ByteBits` - what several modules share.
- `LinkedList`, `IdleLists`, `TimerBooks`, `TimerLaws`, `Timers` - `lib/_linklist.js` and `lib/timers.js`.  The class
  in `Timers` has the linked lists on the heap, one for each timeout with its native timer; it is proved
  to do, call by call, what the functions of `TimerBooks` say, and the theorems are about those.  There
  are two clocks: the one that `new Date()` reads, which may move while a handler runs, and the time of
  the event loop, from which native timers count.  A handler is a list of calls of `enroll`, `active`
  and `unenroll`, with time passing between them.
- `ChunkedFraming`, `OutgoingMessages`, `Pipelining`, `HttpAgent` - `lib/http.js`: a reader of the
  chunked coding written from RFC 2616, one outgoing message, all responses of a server connection,
  and the client's scheduler.  A `Story` or `Ledger` tells what should be said; the classes are proved
  to say just that.
- `TextEncoding`, `SocketMemory`, `SocketWrites` - `lib/net.js`: what each encoding puts into the pool
  that all sockets share, the pool, and the write queue.  The
  kernel is any function that says how much it takes each time that it is asked, or that it fails.
- `TagMerging`, `Pages`, `TagInsertion` - `doc/sh_main.js`: extraction of tags from a page, the merge with the
  spans of the highlighting, and the tree that is built from it.
- `Base64` - `src/node_buffer.cc`; `Utf8`, `StringDecoding` - RFC 3629 and `lib/string_decoder.js`;
  `Paths`, `PathLaws` - `lib/path.js` (POSIX); `DebuggerProtocol`, `DebuggerLaws` - the `Protocol` of
  `lib/_debugger.js`; `QueryStrings`, `QueryLaws` - `lib/querystring.js`.

Code that updates objects, arrays or lists is modelled by classes, arrays and loops with the same
branches.  Parts of a long function are methods of their own where that keeps a proof short; they
carry the name of what they do.

## Main results

- Pipelining: for every interleaving of requests, writes and ends, the wire is the finished responses
  in request order and then the current one so far (`Pipelining.Run`), and every finished response
  stands there with its header and its data, chunked or as it is (`Pipelining.WireRoundTrip`,
  `Pipelining.PlainOnWire`).
- Timers: whatever handlers do, a callback fires exactly the items that are due, each once, oldest first
  (`TimerBooks.FiresExactly`); in every run an item does not fire before it has been idle for its
  timeout since it was last active (`TimerLaws.NeverEarly`), and if no call strands an item, it does then
  (`TimerLaws.InTime`); the code on the heap does just that (`Timers.TimerSystem.Callback`, `Timers.TimerSystem.Run`).
- The client's scheduler: in every run requests leave in order, and none is lost: each waits, is on
  the one socket that carries it, or has been answered or failed in an event of its own (`HttpAgent.Run`).
- Sockets: for every run, kernel and number of sockets over one pool, each socket accepts what is written
  to it until `end`; what is sent and what is queued make that up, in order (`SocketWrites.Run`); and
  everything is sent in the end if the kernel keeps taking something (`SocketWrites.Socket.Drain`).
- The highlighter: extraction, merge and insertion keep the text and the ancestors of every character
  and put the span innermost; without its spans the result is the page (`TagInsertion.Highlight`).
- Base 64: decoding undoes encoding for all bytes (`Base64.RoundTrip`, `Base64.WriteUndoesSlice`); the
  buffer that is allocated is large enough exactly for strings that are not overfull (`Base64.SizeSuffices`).
- Incremental parsers: every chunking gives what the whole stream gives (`StringDecoding.DecodeStream`,
  `DebuggerProtocol.ReadStream`), and serialized messages arrive once each (`DebuggerProtocol.MessagesDelivered`).
- Paths: `normalize` is idempotent and keeps the destination (`Paths.NormalizedTwice`,
  `Paths.NormalizedTells`); equations take every path to its normal form (`PathLaws`); `resolve` composes
  (`Paths.ResolveInStages`).
- Query strings: parsing undoes printing exactly when every array has two values or more, all
  characters are in the Basic Multilingual Plane and no key is inherited (`QueryStrings.RoundTrip`, and
  `QueryLaws.RoundTripInAnyCase` for triplets in either case).

What turned out not to hold, with the exact condition under which it does (an example stands beside
each):

- the hot path of `end` sends data for a message that must not have a body, where the ordinary path
  drops it (`OutgoingMessages.HotPathAgrees`);
- a trailer field that contains CRLF changes the framing, and `addTrailers` does not look for one
  (`ChunkedFraming.TrailerRoundTrip`; an empty line would do so too, but `addTrailers` prints none);
- `active` on an item that was taken off its list may leave it on a list without a running watcher
  (`TimerBooks.ActiveSteady`);
- an item that is enrolled with timeout 0 is never timed out, because its watcher does not start (`TimerBooks.ArmedExactly`,
  `TimerBooks.ZeroExample`);
- `_writeOut` miscounts text in UCS-2 and base 64 (it throws, or loses or repeats some of it), a
  character above 255 in 'binary' aborts the process, and in UTF-8 a NUL may be dropped
  (`TextEncoding.CountIsRight`, `TextEncoding.Ucs2Throws`, `TextEncoding.Ucs2Loses`);
- `base64_decoded_size` is one too small for certain padded strings (`Base64.SizeSuffices`);
- the handler of a socket error throws when the socket carries no request and none waits, as after a
  response with keep-alive (`HttpAgent.Agent.OnError`, `HttpAgent.IdleSocketFails`);
- `parse(stringify(m))` loses arrays of fewer than two values, characters above U+FFFF, and values
  under names in `Object.prototype` (`QueryStrings.RoundTrip`);
- `join` is not associative when everything before an absolute argument is empty
  (`Paths.JoinInStages`).

## Model

| member | source | states |
|---|---|---|
| `LinkedList.RingUnique` | node-v0.4.4/lib/_linklist.js:22-76 | the pointers determine the sequence a list stands for: two sequences that fit the same sentinel are equal |
| `LinkedList.Remove` | node-v0.4.4/lib/_linklist.js:47-58 | the item is unlinked; its list loses it and nothing else; on an unlinked item it has no effect |
| `LinkedList.Shift` | node-v0.4.4/lib/_linklist.js:38-42 | takes the first item off a non-empty list; on an empty one it takes the sentinel itself apart |
| `LinkedList.Append` | node-v0.4.4/lib/_linklist.js:63-70 | moves an item from wherever it was (this list, another one, none) to the far end; the other list just loses it |
| `IdleLists.OutOfReach` | node-v0.4.4/lib/_linklist.js:47-58 | the nodes that removing an item writes to are all known, and belong to no other list |
| `IdleLists.Detach` | node-v0.4.4/lib/_linklist.js:47-58 | `remove` on the whole table of lists: every other list is unchanged and all lists stay well formed |
| `IdleLists.Attach` | node-v0.4.4/lib/_linklist.js:63-69 | `append` on the whole table of lists: the item is on list m only, at the least idle end |
| `TimerBooks.PerformedKeeps` | node-v0.4.4/lib/timers.js:50-140 | whatever call is made: every list stays in the order of last activity, no item is on two lists, and no list changes but by the item that is named leaving it or going to its end |
| `TimerBooks.FiresExactly` | node-v0.4.4/lib/timers.js:66-90 | for m >= 2, whatever handlers do: exactly the items fire that are due when the callback looks at its clock, each once, oldest first, save those that are named before their turn, by the handler of an item that stood before them; the others stay on the list, as idle as they were; nothing due is left |
| `TimerBooks.FiresOrStays` | node-v0.4.4/lib/timers.js:66-90 | with any timeout: an item fires if it is due, unless it is named before its turn; if it does not fire and is not named, it stays on its list, as idle as it was |
| `TimerBooks.FiresFront` | node-v0.4.4/lib/timers.js:66-90 | without handlers the fired items and what is left make up the old list, and no other list changes |
| `TimerBooks.AfterSpares` | node-v0.4.4/lib/timers.js:74-85 | on every list, the items that neither fire nor are named stand as they stood |
| `TimerBooks.ArmedForOldest` | node-v0.4.4/lib/timers.js:75-91 | the callback leaves its watcher set for the deadline of the most idle survivor, earlier only by what the loop is behind the clock, or at rest |
| `TimerBooks.Progresses` | node-v0.4.4/lib/timers.js:74-85 | why the loop of the callback ends: each turn brings the time closer at which an item that is put back is not due at once, or else leaves strictly fewer items due |
| `TimerBooks.Restless` | node-v0.4.4/lib/timers.js:70-85 | with a timeout below 2 ms that rests on the clock: while it does not move, a handler that re-inserts its item can be called again after any number of turns |
| `TimerBooks.UnenrolledInStep` | node-v0.4.4/lib/timers.js:103-113 | every watcher stays in step when an item is taken off, by `unenroll` or, if others remain, by firing |
| `TimerBooks.ActiveSteady` | node-v0.4.4/lib/timers.js:129-140 | `active` keeps every watcher in step if and only if the item does not go, from no list, to an empty list that has been made before |
| `TimerBooks.StrandedExample` | node-v0.4.4/lib/timers.js:129-140 | an item that is enrolled, active, unenrolled and active again is on its list, and the watcher is at rest |
| `TimerBooks.ZeroExample` | node-v0.4.4/src/node_timer.cc:173-184 | an item with timeout 0 is on its list, and the watcher is at rest |
| `TimerBooks.ArmedExactly` | node-v0.4.4/lib/timers.js:94-113 | when all watchers are in step, one runs exactly while something is on its list, if and only if the timeout is not 0 or the list is empty |
| `TimerBooks.ServedSteady` | node-v0.4.4/lib/timers.js:66-90 | a callback keeps every watcher in step, unless a handler strands an item of another list |
| `TimerBooks.RunOrderly` | node-v0.4.4/lib/timers.js:50-140 | every list is in order after every step of every run |
| `TimerBooks.RunSteady` | node-v0.4.4/lib/timers.js:50-140 | every watcher is in step with its list after every step of every run in which no call strands an item and no handler throws |
| `TimerBooks.OnTime` | node-v0.4.4/lib/timers.js:66-90 | an item that has been idle for its timeout fires when its watcher next may come round, unless the handler of an item that stood before it names it |
| `TimerLaws.ActiveResets` | node-v0.4.4/lib/timers.js:129-140 | `active` stamps the item with the time and moves it to the far end of its list, wherever it was; it throws if and only if the item is on no list afterwards; no other list changes |
| `TimerLaws.ActiveStarts` | node-v0.4.4/lib/timers.js:94-97 | the watcher is started for the whole timeout exactly for an enrolled item on an empty list, and no other watcher is touched |
| `TimerLaws.UnenrollTakesOff` | node-v0.4.4/lib/timers.js:103-113 | the item is on no list, and nothing else has changed but that the watcher of its list rests if that is empty |
| `TimerLaws.EnrollSets` | node-v0.4.4/lib/timers.js:117-124 | the item has its new timeout, is on no list and linked to itself; it is not stamped, and no other item moves |
| `TimerLaws.CallsInTurn` | node-v0.4.4/lib/timers.js:83-83 | a handler makes its calls one after the other |
| `TimerLaws.ThrowEnds` | node-v0.4.4/lib/timers.js:83-83 | nothing that a handler would do after a call that throws is done |
| `TimerLaws.StartIsLastActive` | node-v0.4.4/lib/timers.js:50-140 | in every run, the start of an item is the time of the latest call of `active` on it, whoever made it |
| `TimerLaws.NeverEarly` | node-v0.4.4/lib/timers.js:66-90 | in every run, no item fires before it has been idle for its timeout, less a millisecond, since it was last active |
| `TimerLaws.InTime` | node-v0.4.4/lib/timers.js:66-90 | in every run in which nothing is stranded and no handler throws, an item idle for its timeout since it was last active fires when its watcher next may come round, unless it is named before its turn |
| `Timers.TimerSystem.ShapedIsSane` | node-v0.4.4/lib/timers.js:43-100 | linked lists that share no item: no item is on two lists, on one twice, or on one and linked to itself |
| `Timers.TimerSystem.Leave` | node-v0.4.4/lib/_linklist.js:47-58 | `remove` on the heap takes the item off its list, whichever that is, and nothing else |
| `Timers.TimerSystem.Enroll` | node-v0.4.4/lib/timers.js:117-124 | on the heap: the item leaves its list, whose watcher rests if that is now empty, and is linked to itself |
| `Timers.TimerSystem.Insert` | node-v0.4.4/lib/timers.js:50-100 | on the heap: lists are made on demand; the watcher is started if nothing was on the list; the item is last on it and active now |
| `Timers.TimerSystem.Active` | node-v0.4.4/lib/timers.js:129-140 | on the heap: both branches, and the throw when the list was never made |
| `Timers.TimerSystem.RunHandler` | node-v0.4.4/lib/timers.js:83-83 | a handler is any list of calls, run in order up to one that throws, while time passes |
| `Timers.TimerSystem.Callback` | node-v0.4.4/lib/timers.js:66-90 | the loop over the linked list takes exactly the turns that `Served` allows (the theorems above are about those), settles the watcher, and ends with any handlers if m >= 2 or handlers take time |
| `Timers.TimerSystem.Run` | node-v0.4.4/lib/timers.js:50-140 | every run of calls and callbacks goes from state to state as `Followed` says, with what was fired |
| `ChunkedFraming.HexRoundTrip` | node-v0.4.4/lib/http.js:608-609 | the chunk size that is printed in base 16 reads back as the same number |
| `ChunkedFraming.TrailerRoundTrip` | node-v0.4.4/lib/http.js:628-645 | a trailer reads back if and only if no line is empty or contains CRLF |
| `ChunkedFraming.TrailerExample` | node-v0.4.4/lib/http.js:628-645 | a trailer field whose value contains CRLF does not read back |
| `ChunkedFraming.ReadChunk` | node-v0.4.4/lib/http.js:606-618 | the reader of section 3.6.1 of RFC 2616 takes a chunk off the front and goes on behind it |
| `ChunkedFraming.ChunkedRoundTrip` | node-v0.4.4/lib/http.js:605-618 | any sequence of chunks and a trailer read back as the joined data, if and only if the trailer lines are proper; empty data never ends the body early |
| `OutgoingMessages.HotPathAgrees` | node-v0.4.4/lib/http.js:655-690 | the hot path of `end` sends what the ordinary path sends, if and only if it is not taken for a message without a body |
| `OutgoingMessages.HotPathExample` | node-v0.4.4/lib/http.js:655-690 | a message without a body for which the two paths send different bytes |
| `OutgoingMessages.TellsOn` | node-v0.4.4/lib/http.js:587-625 | each `write` adds exactly its data behind the header, in a chunk if the message is chunked; an empty one adds nothing |
| `OutgoingMessages.Told` | node-v0.4.4/lib/http.js:587-625 | after any writes: header once, then the data, as it is or in chunks; nothing at all before the first data |
| `OutgoingMessages.MessageBytes` | node-v0.4.4/lib/http.js:587-702 | by whichever path, a message with a body is its header and its data as it is, or its header, its chunks and the last chunk |
| `OutgoingMessages.BodilessBytes` | node-v0.4.4/lib/http.js:587-702 | a message without a body is its header, and the last chunk if it is chunked, but for a string that goes out by the hot path |
| `ChunkedFraming.ChunkExample` | node-v0.4.4/lib/http.js:606-618 | what a chunk, a number and a last chunk look like |
| `OutgoingMessages.MessageRoundTrip` | node-v0.4.4/lib/http.js:587-702 | a reader gets the written data and the trailer back, and stops where the message stops |
| `OutgoingMessages.OutgoingMessage.Send` | node-v0.4.4/lib/http.js:357-371 | the header precedes the first bytes, once, on the wire or in the buffer |
| `OutgoingMessages.OutgoingMessage.Write` | node-v0.4.4/lib/http.js:587-625 | says what `AfterWrite` tells; a message that does not own the connection leaves the wire alone |
| `OutgoingMessages.OutgoingMessage.End` | node-v0.4.4/lib/http.js:648-702 | says what `AfterEnd` tells; it finishes at once exactly when the message owns the connection |
| `OutgoingMessages.OutgoingMessage.Flush` | node-v0.4.4/lib/http.js:717-758 | everything kept back reaches the wire in order; reports whether the message had ended |
| `OutgoingMessages.OutgoingMessage.AssignSocket` | node-v0.4.4/lib/http.js:335-341 | the message takes over a free socket, and all it has said so far is on the wire |
| `Pipelining.DoneIsDone` | node-v0.4.4/lib/http.js:1074-1089 | how many responses are finished is determined by which have ended and which is last |
| `Pipelining.WriteOn` | node-v0.4.4/lib/http.js:587-625 | a write to any response keeps the line |
| `Pipelining.EndOn` | node-v0.4.4/lib/http.js:692-699 | ending any response keeps the line, and finishes it exactly on its turn |
| `Pipelining.LetGo` | node-v0.4.4/lib/http.js:1078-1078 | the finished response and the socket have let go of each other, with the complete bytes on the wire |
| `Pipelining.TakeOver` | node-v0.4.4/lib/http.js:1086-1086 | the next response takes over and catches up; it may have ended already |
| `Pipelining.QueuesArrive` | node-v0.4.4/lib/http.js:1058-1070 | `incoming` stays the current request and those of `outgoing` when a request arrives |
| `Pipelining.QueuesFinish` | node-v0.4.4/lib/http.js:1074-1088 | `incoming[0]` is the finished request, and the head of `outgoing` is next in line |
| `Pipelining.Connection.InOrder` | node-v0.4.4/lib/http.js:1057-1089 | in every valid state the wire is exactly what the ledger says it must be |
| `Pipelining.Connection.OnIncoming` | node-v0.4.4/lib/http.js:1057-1070 | keeps the invariant and adds the response to the end of the ledger |
| `Pipelining.Connection.OnFinish` | node-v0.4.4/lib/http.js:1074-1089 | hands the socket on, through responses that have ended already; `assert(incoming[0] === req)` holds |
| `Pipelining.Connection.Write` | node-v0.4.4/lib/http.js:587-625 | a handler may write to any open response at any time |
| `Pipelining.Connection.End` | node-v0.4.4/lib/http.js:648-702 | a handler may end any open response at any time |
| `Pipelining.Run` | node-v0.4.4/lib/http.js:1057-1089 | for every interleaving, the wire is the finished responses in request order and then the current one so far |
| `Pipelining.OwnStory` | node-v0.4.4/lib/http.js:587-702 | what a response has said depends on its own writes and end only, not on the interleaving |
| `Pipelining.ResponseRoundTrip` | node-v0.4.4/lib/http.js:587-702 | from what an ended chunked response has said, a reader gets back the data that was written to it, whatever the interleaving |
| `Pipelining.WireRoundTrip` | node-v0.4.4/lib/http.js:587-1089 | on the wire of a run, behind the finished responses before it, stand the header of a finished chunked response and a body that reads back as the data written to it; then the next response begins |
| `Pipelining.PlainOnWire` | node-v0.4.4/lib/http.js:587-1089 | on the wire of a run, a finished response that is not chunked is its header and the data written to it, and stands between its neighbours |
| `Pipelining.BodilessOnWire` | node-v0.4.4/lib/http.js:587-1089 | the same for a response without a body |
| `Pipelining.PromptOnTurn` | node-v0.4.4/lib/http.js:374-395 | what has been written to the response whose turn it is, is on the wire already |
| `HttpAgent.Agent.Cycle` | node-v0.4.4/lib/http.js:1349-1388 | FIFO dispatch to the first usable socket; each request that leaves the queue is on a listed socket that works or is being connected, and carries it; at the end a waiting request means that no socket is usable and one is connecting or the limit is reached; the mutual recursion ends |
| `HttpAgent.Agent.GiveFirst` | node-v0.4.4/lib/http.js:1368-1375 | the oldest request is now on this socket, and dispatching has gone on to the end, with each request that left the queue on a socket |
| `HttpAgent.Agent.EstablishNewConnection` | node-v0.4.4/lib/http.js:1151-1173 | a new socket is listed and carries the oldest request, as the source asserts |
| `HttpAgent.Agent.AppendMessage` | node-v0.4.4/lib/http.js:1126-1142 | the new request is last; every older one has left before it, and none has parted from its socket |
| `HttpAgent.Agent.OnConnect` | node-v0.4.4/lib/http.js:1157-1162 | a socket that is connected stays listed, and the dispatch goes on |
| `HttpAgent.Agent.OnResponseEnd` | node-v0.4.4/lib/http.js:1306-1326 | request and socket let go of each other, which no other request does; without keep-alive the socket is not used again |
| `HttpAgent.Agent.OnLoss` | node-v0.4.4/lib/http.js:1242-1246 | a broken socket is usable only while it is marked as connecting, and the agent stays settled |
| `HttpAgent.Agent.OnClose` | node-v0.4.4/lib/http.js:1249-1275 | the socket leaves the list, which keeps its order; only the request it still carried parts from it; the dispatch goes on |
| `HttpAgent.Agent.OnError` | node-v0.4.4/lib/http.js:1181-1203 | the request of the socket fails, or the next in line if it has none, and no other; the order of the others is kept; it throws if and only if there is neither, and the socket then stays listed |
| `HttpAgent.IdleSocketFails` | node-v0.4.4/lib/http.js:1181-1193 | a socket that was kept alive fails while nobody waits, and the handler throws |
| `HttpAgent.Run` | node-v0.4.4/lib/http.js:1126-1388 | over every run of events requests leave in the order in which they were made, and each is in the queue, on the listed socket that carries it, or has parted from it; the history shows, event by event, exactly which request parts and what becomes of the socket; the limit, the one connecting socket and the settled queue hold throughout |
| `TextEncoding.CountIsRight` | node-v0.4.4/lib/net.js:412-446 | the number of characters taken to be written is right, and the bytes are theirs, if and only if the encoding is ASCII; or binary and no character that is reached is above 255; or UTF-8 and no NUL is dropped for want of room behind it; or the text is empty |
| `TextEncoding.IsUtf8` | node-v0.4.4/src/node_buffer.cc:437-474 | the bytes of a text without surrogates are its UTF-8 (RFC 3629), and decode to it |
| `TextEncoding.SurrogateBytes` | node-v0.4.4/src/node_buffer.cc:437-474 | a surrogate is written by itself, in three bytes that hold its number |
| `TextEncoding.ByteForByte` | node-v0.4.4/src/node_buffer.cc:512-543 | in ASCII and binary each byte is its character |
| `TextEncoding.TwoForEach` | node-v0.4.4/src/node_buffer.cc:478-509 | in UCS-2 each character has two bytes, the lower half first |
| `TextEncoding.NothingLost` | node-v0.4.4/lib/net.js:412-446 | if the count is right, the bytes and the text that is queued make up the text; and only then, base 64 apart, when the assertion holds |
| `TextEncoding.RightInEveryPool` | node-v0.4.4/lib/net.js:407-446 | the same for all pools at once, by a condition on the text alone |
| `TextEncoding.PlainIsRight` | node-v0.4.4/lib/net.js:407-446 | a text without NUL in UTF-8, or of bytes in binary, or in ASCII is always written right, and as a whole if and only if it fits |
| `TextEncoding.NulExample` | node-v0.4.4/src/node_buffer.cc:437-474 | a NUL that takes the last byte of the pool is counted and not written |
| `TextEncoding.Ucs2Loses` | node-v0.4.4/src/node_buffer.cc:496-509 | the room in bytes is taken for a number of characters: more is written than there is room for if and only if twice the text is more; what is counted too much and not caught by the assertion is lost |
| `TextEncoding.Base64Example` | node-v0.4.4/src/node_buffer.cc:545-628 | of eight characters that are all written five are counted, and the rest stands for one more byte |
| `TextEncoding.Ucs2Throws` | node-v0.4.4/lib/net.js:412-438 | UCS-2 text is counted as longer than it is, which the assertion does not allow, if and only if it is not empty and shorter than twice the room |
| `TextEncoding.Ucs2Example` | node-v0.4.4/lib/net.js:412-446 | with 128 bytes left, half of a text of 256 characters is written, all of it is counted, nothing is queued, and the other half is lost |
| `SocketMemory.Memory.GiveBack` | node-v0.4.4/lib/net.js:462-468 | space may be given back when no slice in use reaches into it |
| `SocketMemory.Memory.WriteText` | node-v0.4.4/lib/net.js:407-430 | as many whole characters of the text as there is room for, at least one, are in the pool behind everything in use |
| `SocketMemory.Memory.Read` | node-v0.4.4/lib/net.js:617-680 | what is read goes behind everything in use, and the reader's slice keeps its contents |
| `SocketWrites.AddedPending` | node-v0.4.4/lib/net.js:337-363 | the queue after a `write` stands for the old bytes and the new; joining strings does not matter |
| `SocketWrites.Socket.Undisturbed` | node-v0.4.4/lib/net.js:407-502 | no other socket can break this one |
| `SocketWrites.Socket.Offer` | node-v0.4.4/lib/net.js:449-502 | the kernel is asked once; the bytes are with it or at the front of the queue; the space of the pool is given back only when nobody else can have got hold of it |
| `SocketWrites.Socket.WriteOut` | node-v0.4.4/lib/net.js:389-502 | throws exactly when not writable; otherwise the kernel is asked once and nothing is lost; true if and only if the text fits and the kernel takes it all |
| `SocketWrites.Socket.Write` | node-v0.4.4/lib/net.js:294-378 | takes all of the data or throws, which it does exactly after `end`; with nothing queued the kernel is asked at once; true means that everything ever taken is sent |
| `SocketWrites.Socket.Flush` | node-v0.4.4/lib/net.js:513-534 | true if and only if every queued text fits and the kernel takes all that it is offered, and then everything accepted is sent and the end is shut down; otherwise the kernel has been asked, and more is sent if it takes anything; an open socket stays open |
| `SocketWrites.Socket.Drain` | node-v0.4.4/lib/net.js:604-612 | called whenever the kernel is ready, `_onWritable` has sent everything in the end if the kernel takes at least a byte each time |
| `SocketWrites.Socket.OnReadable` | node-v0.4.4/lib/net.js:617-680 | reading does not disturb what is queued, and the slice handed out stays as it is |
| `SocketWrites.Socket.End` | node-v0.4.4/lib/net.js:857-868 | the last data is accepted; the end is queued once, and stays queued while data is pending or the socket connects; a flushed end leaves everything sent |
| `SocketWrites.Happen` | node-v0.4.4/lib/net.js:294-681 | one event on one socket: an open one takes exactly what it is offered (or, for an echo, what was read at once), a closed one nothing; only `end` and a failing kernel close it; all other sockets stay as they are |
| `SocketWrites.Run` | node-v0.4.4/lib/net.js:294-681 | for every run of any number of sockets over one pool and every behaviour of their kernels: what a socket has accepted is what the events before its `end` have written to it, up to the event in which its kernel failed if it did; sent bytes and queue make that up, in order; in each event that is an occasion the kernel is asked, and sends more if it takes anything and something is left; no slice in use has changed |
| `TagMerging.MergedKeepsOriginal` | node-v0.4.4/doc/sh_main.js:342-393 | taking the spans out of the merge gives the original tags, in order |
| `TagMerging.MergedNested` | node-v0.4.4/doc/sh_main.js:342-393 | the merge is well nested if and only if the original tags are |
| `TagMerging.MergedSorted` | node-v0.4.4/doc/sh_main.js:342-393 | the merge of sorted tags is sorted |
| `TagMerging.MergedFilled` | node-v0.4.4/doc/sh_main.js:342-393 | no empty span comes of the splitting |
| `TagMerging.MergedOpen` | node-v0.4.4/doc/sh_main.js:342-393 | at every position the merge has open the original elements and innermost the span: spans never cross an original tag |
| `TagMerging.MergedStyle` | node-v0.4.4/doc/sh_main.js:342-393 | every position keeps its style, however spans are split |
| `TagMerging.MergeTags` | node-v0.4.4/doc/sh_main.js:342-393 | the loop, which cuts spans in place, computes the merge, turn by turn, and ends |
| `TagInsertion.InsertTags` | node-v0.4.4/doc/sh_main.js:401-445 | the tree flattens to exactly the text, each character inside what the tags have open at its position; if the tags are in order and well nested, its tags are just those, elements without text among them |
| `Pages.Extraction.FromNodeList` | node-v0.4.4/doc/sh_main.js:286-316 | the extraction gives the text and the tags of the page, for a page of any depth |
| `Pages.ExtractedOpen` | node-v0.4.4/doc/sh_main.js:286-316 | at every position the extracted tags have open exactly the ancestors of its character |
| `Pages.ExtractedNested` | node-v0.4.4/doc/sh_main.js:286-316 | the extracted tags are well nested |
| `Pages.ExtractedSorted` | node-v0.4.4/doc/sh_main.js:286-316 | the extracted tags are in order and lie within the text |
| `Pages.PageIsWoven` | node-v0.4.4/doc/sh_main.js:286-316 | the extracted tags, put into the extracted text at their positions, are the page from its beginning to its end: nothing of it is lost |
| `TagInsertion.Highlight` | node-v0.4.4/doc/sh_main.js:453-459 | end to end: same text, same ancestors, and innermost the span of the highlighting; without its spans the result, read from its beginning to its end, is the page |
| `Base64.NoiseIsPassedOver` | node-v0.4.4/src/node_buffer.cc:592-625 | characters outside the alphabet can be put in anywhere without changing the result |
| `Base64.EncoderBits` | node-v0.4.4/src/node_buffer.cc:341-367 | the shifts and masks of the encoder, on machine bytes, make the four digits of a 24-bit group |
| `Base64.DecoderBits` | node-v0.4.4/src/node_buffer.cc:600-624 | the shifts and masks of the decoder, on machine bytes, make the three bytes of a 24-bit group |
| `Base64.RoundTrip` | node-v0.4.4/src/node_buffer.cc:305-627 | decoding an encoding gives every byte sequence back (section 4 of RFC 4648) |
| `Base64.Alphabet` | node-v0.4.4/src/node_buffer.cc:281-283 | the table is that of section 4 of RFC 4648 |
| `Base64.Vectors` | node-v0.4.4/src/node_buffer.cc:305-374 | test vectors of section 10 of RFC 4648, with every kind of padding |
| `Base64.SizeIsExact` | node-v0.4.4/src/node_buffer.cc:75-97 | `base64_decoded_size` of an encoding of n bytes is n, and the encoding is 4 * ceil(n / 3) long |
| `Base64.SizeSuffices` | node-v0.4.4/src/node_buffer.cc:75-97 | at most `base64_decoded_size` bytes are decoded, if and only if the string is not of the overfull kind |
| `Base64.OverfullExample` | node-v0.4.4/src/node_buffer.cc:75-97 | a string for which it is one byte too few |
| `Base64.Base64Slice` | node-v0.4.4/src/node_buffer.cc:305-374 | the encoding of the slice for just the ranges within the buffer, and the array is filled exactly; otherwise the error that is right |
| `Base64.RangesAccepted` | node-v0.4.4/src/node_buffer.cc:45-64 | which ranges are accepted, and what is said of the others |
| `Base64.Base64Write` | node-v0.4.4/src/node_buffer.cc:545-628 | all error returns; otherwise stores the decoding from the offset on, and stays inside the buffer unless the string is overfull |
| `Base64.WriteUndoesSlice` | node-v0.4.4/src/node_buffer.cc:305-628 | writing an encoding into a buffer of the original size succeeds and restores it |
| `Utf8.ScalarRoundTrip` | node-v0.4.4/lib/string_decoder.js:77-93 | every character's encoding is generated by the grammar of section 4 of RFC 3629, and decodes to it |
| `Utf8.Examples` | node-v0.4.4/lib/string_decoder.js:77-93 | examples of section 7 of RFC 3629 |
| `Utf8.CharacterRoundTrip` | node-v0.4.4/lib/string_decoder.js:77-93 | the grammar generates nothing but encodings, and the first byte tells the length |
| `Utf8.EncodeIsValid` | node-v0.4.4/lib/querystring.js:105-107 | every text encodes to valid UTF-8 that decodes to it |
| `Utf8.ValidIsEncoded` | node-v0.4.4/lib/string_decoder.js:96-112 | valid UTF-8 is the encoding of what it decodes to |
| `StringDecoding.Announced` | node-v0.4.4/lib/string_decoder.js:72-94 | the three tests of the loop ask whether the first byte announces more than is there |
| `StringDecoding.KeptIsRight` | node-v0.4.4/lib/string_decoder.js:67-112 | cutting off what is held back leaves whole characters |
| `StringDecoding.StringDecoder.Complete` | node-v0.4.4/lib/string_decoder.js:39-65 | adds to the character of the last write; nothing is lost |
| `StringDecoding.StringDecoder.Write` | node-v0.4.4/lib/string_decoder.js:32-112 | segments and held back bytes are the input, whatever the bytes; valid input is never split inside a character; other encodings pass through |
| `StringDecoding.Piecewise` | node-v0.4.4/lib/string_decoder.js:96-112 | decoding the segments one by one is decoding them joined |
| `StringDecoding.CompleteAtEnd` | node-v0.4.4/lib/string_decoder.js:96-112 | at the end of a valid stream nothing is held back |
| `StringDecoding.DecodeStream` | node-v0.4.4/test/simple/test-string-decoder.js:52-80 | for every chunking the result is that of decoding all at once, and never more than three bytes are held back |
| `Paths.SummaryIsWalk` | node-v0.4.4/lib/path.js:30-45 | the backward scan with its counter agrees with the forward walk, wherever that begins |
| `Paths.NormalizeArray` | node-v0.4.4/lib/path.js:30-54 | computes the way to where the forward walk leads, for every array |
| `Paths.ArrayShape` | node-v0.4.4/lib/path.js:30-54 | no '.' is left, and '..' only in front and only where allowed |
| `Paths.WalkTheWay` | node-v0.4.4/lib/path.js:30-54 | the way to a place leads there: normalizing twice changes nothing |
| `Paths.Normalize` | node-v0.4.4/lib/path.js:229-246 | the text of where the path leads |
| `Paths.NormalizedTells` | node-v0.4.4/lib/path.js:229-246 | normalizing keeps the destination and whether the path is absolute |
| `Paths.NormalizedTwice` | node-v0.4.4/lib/path.js:229-246 | `normalize` is idempotent on every string |
| `Paths.NormalizedFirst` | node-v0.4.4/lib/path.js:250-255 | normalizing the first of two joined paths beforehand makes no difference |
| `Paths.JoinInStages` | node-v0.4.4/lib/path.js:250-255 | `join` is associative, if and only if not everything before an absolute argument is empty |
| `Paths.JoinExample` | node-v0.4.4/lib/path.js:250-255 | three arguments for which grouping matters |
| `PathLaws.NameAndUpDropped` | node-v0.4.4/lib/path.js:30-54 | "a/name/../b" is normalized like "a/b", for any texts a and b |
| `PathLaws.DotDropped` | node-v0.4.4/lib/path.js:30-54 | so are "a/./b" and "a//b" |
| `PathLaws.AboveRootDropped` | node-v0.4.4/lib/path.js:30-54 | "/../b" is normalized like "/b" |
| `PathLaws.CleanStays` | node-v0.4.4/lib/path.js:229-246 | a path with ".." in front only (and not behind a root), and otherwise names, is left as it is |
| `PathLaws.JoinedTwo` | node-v0.4.4/lib/path.js:250-255 | `join` leaves empty arguments out and puts slashes between the others; without any it gives "." |
| `Paths.Resolve` | node-v0.4.4/lib/path.js:198-225 | the backward loop ends up where changing directory step by step does |
| `Paths.ResolvedIsAbsolute` | node-v0.4.4/lib/path.js:198-225 | from an absolute directory the result is absolute, without empty, '.' or '..' segments |
| `Paths.ResolveInStages` | node-v0.4.4/lib/path.js:198-225 | resolve(a, b, c) is resolve(resolve(a, b), c), for any grouping |
| `PathLaws.ResolvedOne` | node-v0.4.4/lib/path.js:198-225 | `resolve` of one path is that path, normalized, from the working directory unless it begins at the root, without a slash at its end |
| `PathLaws.ResolvedAnew` | node-v0.4.4/lib/path.js:198-216 | a path from the root makes no use of what stands before it, and an empty one is skipped |
| `DebuggerProtocol.DrainInStages` | node-v0.4.4/lib/_debugger.js:84-120 | it does not matter where a stream is cut |
| `DebuggerProtocol.SerializedFirst` | node-v0.4.4/lib/_debugger.js:129-134 | what `serialize` makes of a message is delivered as that message, and leaves what follows it |
| `DebuggerLaws.BlockIsRead` | node-v0.4.4/lib/_debugger.js:94-98 | a header block of any number of fields yields each of them |
| `DebuggerLaws.MessageIsRead` | node-v0.4.4/lib/_debugger.js:84-120 | a message with any header fields that give the length of its body is delivered with all of them and just that body |
| `DebuggerLaws.OddLines` | node-v0.4.4/lib/_debugger.js:96-97 | spaces before a value are skipped, what follows a second ": " is dropped, and a line without one is a key without a value |
| `DebuggerLaws.NoLength` | node-v0.4.4/lib/_debugger.js:100-111 | a message whose header has no length is never delivered |
| `DebuggerLaws.DecimalDigits` | node-v0.4.4/lib/_debugger.js:133-133 | the length is printed in decimal |
| `DebuggerProtocol.MessagesDelivered` | node-v0.4.4/lib/_debugger.js:84-134 | any concatenation of serialized messages is delivered once each, in order, with nothing left |
| `DebuggerProtocol.Protocol.NewRes` | node-v0.4.4/lib/_debugger.js:76-81 | starts over with what is left and delivers all that is complete; request numbers start again at 1 |
| `DebuggerProtocol.Protocol.Execute` | node-v0.4.4/lib/_debugger.js:84-126 | delivers exactly the messages that are complete now; the mutual recursion with `_newRes` ends |
| `DebuggerProtocol.ReadStream` | node-v0.4.4/lib/_debugger.js:84-126 | for every chunking, the same as if the stream had come at once |
| `QueryStrings.UnescapeEscape` | node-v0.4.4/lib/querystring.js:34-107 | unescaping gives the UTF-8 encoding of what was escaped |
| `QueryLaws.HexValues` | node-v0.4.4/lib/querystring.js:62-84 | a hexadecimal digit of either case has the value of its place in the list, and nothing else has one |
| `QueryLaws.EscapedCharacter` | node-v0.4.4/lib/querystring.js:105-107 | just the unreserved characters are left alone; of the others each byte of UTF-8 is printed with capital digits |
| `QueryLaws.PieceIsRead` | node-v0.4.4/lib/querystring.js:43-92 | a triplet in either case is its byte; a plus sign is a space if spaces are decoded; anything else is itself |
| `QueryLaws.SmallDigitsExample` | node-v0.4.4/lib/querystring.js:43-92 | "%c3%a9" is the bytes C3 A9 |
| `QueryLaws.PlusExample` | node-v0.4.4/lib/querystring.js:43-92 | "+%" is a space and a percent sign |
| `QueryLaws.IncompleteStays` | node-v0.4.4/lib/querystring.js:66-90 | a text without a complete triplet stands for itself |
| `QueryLaws.PairIsRead` | node-v0.4.4/lib/querystring.js:163-165 | the first separator ends the key; the value may contain others, and is empty without one |
| `QueryStrings.StepIsRight` | node-v0.4.4/lib/querystring.js:43-92 | one step of the state machine does its part of the unescaping |
| `QueryStrings.Feed` | node-v0.4.4/lib/querystring.js:43-92 | one step stores the bytes that are settled; the step past the end always ends in state CHAR |
| `QueryStrings.UnescapeBuffer` | node-v0.4.4/lib/querystring.js:34-97 | the buffer without the last byte stored is the unescaped text; every byte of it was stored inside the buffer |
| `QueryStrings.CollectFills` | node-v0.4.4/lib/querystring.js:168-176 | `parse` never gives an array of fewer than two values |
| `QueryStrings.Parse` | node-v0.4.4/lib/querystring.js:155-179 | the loop collects the fields of the string |
| `QueryStrings.RoundTrip` | node-v0.4.4/lib/querystring.js:126-179 | parse(stringify(m)) is m, if and only if every array in m has two elements or more, every character is in the Basic Multilingual Plane, and no key is a name that every object inherits |
| `QueryLaws.RoundTripInAnyCase` | node-v0.4.4/lib/querystring.js:126-179 | the same for query strings whose triplets are printed in another case |
| `QueryLaws.StringifyExample` | node-v0.4.4/lib/querystring.js:126-152 | what an array looks like |
| `QueryLaws.TwoEntries` | node-v0.4.4/lib/querystring.js:126-152 | the entries of two keys stand one behind the other, in the order of the keys |
| `QueryStrings.RoundTripExample` | node-v0.4.4/lib/querystring.js:126-179 | an array of one value does not come back as an array |
| `QueryStrings.BeyondExample` | node-v0.4.4/deps/v8/src/heap.cc:3346-3375 | a character above U+FFFF comes back as U+FFFD |
| `QueryStrings.InheritedExample` | node-v0.4.4/lib/querystring.js:168-176 | the value of a key "toString" comes back in an array behind the inherited method |

## Left out

- Pipelining: after a response marked `_last` has finished nothing is claimed, because the source then hands the socket to the next request at once while it waits for `destroySoon` to drain; that `onend` sets `_last` later is modelled by a mark that is there from the start.
- Pipelining.Run: writes after `end` and a second `end` of the same response are not legal steps of a run.
- OutgoingMessages: one encoding for all strings, so that `_buffer` joins any two of them; the socket does not become unwritable between two writes of one `_writeRaw` or `_flush`; the header that `_storeHeader` computes is a parameter; a second `writeHead`, `writeContinue`, arrays as chunks, and 'drain' and 'finish' listeners other than the connection's own are not modelled.
- HttpAgent: parsing, upgrades, aborts, 'continue' and the events for the user are left out; the limit is fixed; `destroySoon` without a pending queue closes for writing at once, as the source asserts; handlers do not call back into the agent from inside `_cycle`; in a run the events are those of listed sockets.
- Timers: `setTimeout` and `setInterval` beyond the calls of `enroll` and `active` that they come to, timeouts that are not whole numbers, and clocks that go backwards; what libev does to a watcher before its callback (it is set to come round after the same period again) shows only if a handler throws.
- TimerBooks.FiresExactly: needs a timeout of 2 ms or more, because below that an item that is put back at once may fire again in the same callback (`TimerBooks.Restless`); what holds with every timeout is `TimerBooks.FiresOrStays`.
- Timers.TimerSystem.Callback: with a timeout below 2 ms the handlers are taken to last a millisecond or more, which the loop relies on in order to end.
- SocketMemory, SocketWrites: connecting, name look-up, file descriptors, write callbacks and watchers; a Buffer argument that is the pool object itself; what is written behind the bytes that are counted; unknown encodings, for which `pool.write` throws.
- SocketWrites.Socket.Write: texts that `_writeOut` cannot be relied on to count right are excluded here and in the other members that pass text on (UCS-2, base 64, characters above 255 in 'binary', U+0000 in UTF-8); what the source makes of them is told by `TextEncoding.CountIsRight` and the members after it. In base 64 the joining of queued strings would not keep the bytes either.
- SocketWrites.Socket.Write: is not called on a socket that has been destroyed; in a run such events are passed over. A failing `shutdown` call is left out.
- TagMerging.MergeTags: spans that overlap, are empty or are not closed are excluded, as the source's comment on the argument does.
- TagInsertion: the tree is a value, with a stack for the parent pointers; identity and attributes of nodes, comment nodes, and the '\r' that one browser needs for a line break are not modelled; neither is `sh_highlightString`, which finds the spans.
- Base64: `size_t` has 64 bits; characters are the low bytes that `AsciiValue` yields; a store behind the end of the array has no effect in the model.
- StringDecoding: names of encodings; what `Buffer.toString` makes of bytes that are not UTF-8. For a character above U+FFFF the engine puts U+FFFD, in a segment as in the whole stream, so that cutting the stream still makes no difference.
- Paths: the Windows versions, `dirname`, `basename` and arguments that are not strings.
- Paths.ResolveInStages: needs an absolute working directory, as `process.cwd()` gives it.
- DebuggerProtocol: `JSON.parse`, and thereby bodies that it rejects; lengths that are negative, fractional or infinite; listeners that call `execute`.
- QueryStrings: numbers, booleans and nested objects as values, lone surrogates, separators of more than one character, and the key `__proto__`; what `Buffer.toString` makes of bytes that are not UTF-8 is a parameter.
