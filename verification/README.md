# Verified models of an operating-systems course repository

Ten components of the repository, each modelled in Dafny as the C code does its work, with proofs of what it is for:

* the incremental chunked decoder and the request parser of the HTTP proxy (`2-term/3.3/picohttpparser.c`);
* the proxy's hash map, its priority queue, and the cache that ties them together (`2-term/3.3`);
* the hand-over-hand locked list with concurrent swappers and readers (`2-term/2.3`);
* the user-level round-robin scheduler (`2-term/1.7`);
* the futex mutex with its clients (`2-term/2.4`);
* the queue with a condition variable, the linked queue, and the two-semaphore exchange (`2-term/2.2`).

`dafny verify dfyconfig.toml` verifies everything. No file includes another; modules import each other by name.

## How the models are built

Code that changes things in place is imperative here as well: `ChunkedDecoder.PhrChunkedDecoder`, `HashMap.Map`,
`PQueue.PriorityQueue`, `Cache.ProxyCache`, `LinkedQueue.Queue` and `UThread.Scheduler` are classes with the source's
fields, and the scanning loops of the parser are loops. Each of these methods is proved against a function of the old
state, and the properties are proved about those functions. Programs of several threads are step relations on values
(`LockedList*`, `FutexMutex`, `CondQueue`, `PingPong`, `CacheSpec`): one step is one access that other threads can see,
and the theorems are about every reachable state of any number of threads.

| files | what they hold |
|---|---|
| `Abnf`, `Bytes` | the alphabets of the grammars, by the numbers of their bytes; the bytes as the parsers name them |
| `ChunkedAutomaton`, `ChunkedDecoder`, `ChunkedGrammar`, `ChunkedRejection` | a byte automaton; the decoder that rewrites its buffer, proved to compute it; the message grammar, and that the decoder completes on exactly its messages and rejects exactly what no message starts with, under every fragmentation |
| `RequestSpec`, `RequestParser`, `RequestStability`, `RequestGrammar`, `RequestHope`, `RequestLastLen` | the parsing steps as functions; the loops, both the 16-byte and the 8-byte build, proved to compute them; verdicts on growing prefixes; the grammar, and that the parser succeeds on exactly its requests; which inputs can still become requests; `last_len` |
| `LockedList`, `LockedListProof`, `LockedListTheorems`, `LockedListProgress` | the steps and the invariant; its preservation; conservation of the list, sliding windows, complete reader passes; freedom from deadlock, and that every pass can be brought to its end |
| `UThreadSpec`, `UThread` | the scheduler as a machine with its invariant and measures; the global arrays and the whole run |
| `Wrappers`, `Bits`, `HashMap` | optional values; masks and remainders; the table with its chains |
| `PQueueSpec`, `PQueue` | the heap with its index macros as written, and what holds in spite of them; the array |
| `CacheSpec`, `Cache` | the cache under any interleaving; the same on the map and queue classes |
| `Sums`, `FutexMutex`, `CondQueue`, `LinkedQueue`, `PingPong` | the synchronisation protocols |

## What turned out different from what one would expect

* **The priority queue is right only up to a capacity of five.** Elements are sifted up against `i/2`, but the children of
  `i` are `2i+1` and `2i+2` (`2-term/3.3/pqueue.c:7-9`). `PQueueSpec.RightExactlyUpToFive` says that every dequeue of
  every run hands out a maximum if and only if the capacity is at most five; `DequeueKeepsTopIff` says, for any contents,
  exactly when a dequeue leaves a maximum in slot 0.
* **A full cache turns over two of its thirty places.** A hit counts the use in the table's copy of the page
  (`2-term/3.3/http-proxy.c:214`), not in the queued page, so all priorities in the queue stay equal and nothing ever
  moves in it. `CacheSpec.FullCacheTurnsOverTwoSlots` shows that slots 1 to 28 then never change again. The agreement of
  table and queue, and that a hit sends what that host once answered, hold all the same.
* **`last_len` keeps every success but not every failure, in either direction.** With a `last_len` for which the first
  call said "incomplete", the second call succeeds exactly when it would without it
  (`RequestLastLen.LastLenIsTransparent`). A rejected input may be reported as incomplete, and an incomplete one as
  rejected (`RejectedReadsAsIncomplete`, `IncompleteReadsAsRejected`), against `2-term/3.3/picohttpparser.h:49-50`.
  `LastLenKeepsVerdictIff` says for every input when the verdict is kept, in terms of the bytes the scan looks at. A
  rejection by the shortcut itself is right all the same: no continuation begins with a request
  (`ShortcutRejectsForGood`).
* **The request parser asks for more of some inputs that are beyond hope.** It looks at an empty method only behind the
  path, and at the version only nine bytes at a time. `RequestHope.HopefulExactly` says that these are the only two cases:
  any other input that is not rejected can be continued to a request.
* **The returning threads of the scheduler leave the index where it was.** A thread's end goes on with the context of slot
  0 without moving `uthread_curr` (`2-term/1.7/uthread_create.c:96`), so main is saved into slots of finished threads. The
  invariant says which slot holds what, and the program still ends with every thread done.

## Model

| member | source | states |
|---|---|---|
| ChunkedAutomaton.FragmentationInvariance | 2-term/3.3/picohttpparser.c:543-656 | Decoding `a + b` is decoding `a` and, if that is incomplete, resuming with `b`; a finished or failed verdict stays and `b` only lengthens the leftover. From every decoder state. |
| ChunkedAutomaton.AnyFragmentation | 2-term/3.3/picohttpparser.h:69-77 | Any number of calls on any cutting of the stream give the output, state, leftover and verdict of one call on the whole. |
| ChunkedAutomaton.DecodeSizes | 2-term/3.3/picohttpparser.c:649-655 | The leftover is the end of the input, nothing is left over while input is wanted, and output and leftover never exceed the input. |
| ChunkedAutomaton.DigitFits | 2-term/3.3/picohttpparser.c:562-567 | A digit is only taken when the new size is below 16 to the number of digits, so the multiplication never wraps in 64 bits. |
| ChunkedAutomaton.WellSizedStep | 2-term/3.3/picohttpparser.c:550-606 | Every byte keeps the size bounds, and a new size line starts with no digits and no bytes left. |
| ChunkedAutomaton.SizeNeverWraps | 2-term/3.3/picohttpparser.c:550-606 | The size bounds hold after every run over every fragmentation. |
| ChunkedAutomaton.DecodeBulk | 2-term/3.3/picohttpparser.c:591-607 | Copying a run of bytes that fits the chunk is the same as reading its bytes one by one. |
| ChunkedAutomaton.SizeByte | 2-term/3.3/picohttpparser.c:550-570 | What one byte does in the size state: another digit, the end of the digits, or a rejection that leaves the byte over. |
| ChunkedGrammar.DecodeHexIsValue | 2-term/3.3/picohttpparser.c:530-541 | `decode_hex` is the place of the digit among `0123456789abcdef` or `0123456789ABCDEF`, for all 22 digits, and -1 for every other byte. |
| ChunkedDecoder.MoveDown | 2-term/3.3/picohttpparser.c:594-602 | The overlapping move puts the bytes at the destination and touches nothing behind the source. |
| ChunkedDecoder.PhrChunkedDecoder.constructor | 2-term/3.3/picohttpparser.h:60-66 | A zero-filled decoder is a fresh automaton. |
| ChunkedDecoder.PhrChunkedDecoder.ScanSize | 2-term/3.3/picohttpparser.c:550-570 | The loop over size digits stays in step with the automaton, or stops with it. |
| ChunkedDecoder.PhrChunkedDecoder.ScanExt | 2-term/3.3/picohttpparser.c:572-589 | So does the loop over the extension, and a data state is entered only with bytes to read. |
| ChunkedDecoder.PhrChunkedDecoder.CopyData | 2-term/3.3/picohttpparser.c:591-607 | Moving chunk data to the front keeps the decoded data in front of `dst` and the unread input from `src` on. |
| ChunkedDecoder.PhrChunkedDecoder.ScanCrlf | 2-term/3.3/picohttpparser.c:609-622 | The loop over the line end behind a chunk stays in step or stops. |
| ChunkedDecoder.PhrChunkedDecoder.ScanTrailerHead | 2-term/3.3/picohttpparser.c:623-632 | The start of a trailer line, or the empty line that completes the message. |
| ChunkedDecoder.PhrChunkedDecoder.ScanTrailerMiddle | 2-term/3.3/picohttpparser.c:634-643 | The rest of a trailer line. |
| ChunkedDecoder.PhrChunkedDecoder.Dispatch | 2-term/3.3/picohttpparser.c:549-646 | One round of the switch, with its falls-through: `dst <= src <= bufsz`, decoded data in front, unread input behind, and `src` advances unless it stops. |
| ChunkedDecoder.PhrChunkedDecoder.Decode | 2-term/3.3/picohttpparser.c:543-656 | The whole call: the buffer then holds the decoded data and directly behind it the leftover, the size and return value report them, bytes outside the buffer are untouched, and the fields are the automaton's. |
| ChunkedGrammar.DecoderTracks | 2-term/3.3/picohttpparser.c:543-656 | A decoder that still wants input has read a prefix of a message and has output exactly that prefix's data. |
| ChunkedGrammar.CompleteIsMessage | 2-term/3.3/picohttpparser.c:574-587 | What it completes on is a message followed by the leftover. |
| ChunkedGrammar.MessageCompletes | 2-term/3.3/picohttpparser.c:649-655 | Decode undoes encode: for every list of chunks, hex spelling, extension and trailer, with and without `consume_trailer`. |
| ChunkedGrammar.CompletesExactlyOnMessages | 2-term/3.3/picohttpparser.h:69-77 | Under every fragmentation, the decoder completes with some output and leftover if and only if the stream is a message with that payload followed by that leftover. |
| ChunkedRejection.NoDeadEnd | 2-term/3.3/picohttpparser.c:549-646 | From every state in which the decoder wants more, some input completes it. |
| ChunkedRejection.RejectsExactlyTheHopeless | 2-term/3.3/picohttpparser.h:69-77 | Under every fragmentation, the decoder rejects if and only if no continuation of what it has read starts with a message: never too early and never too late. |
| ChunkedRejection.RejectsAtTheByte | 2-term/3.3/picohttpparser.c:555-565 | A rejection comes at the first byte that leaves no hope: it and all behind it are left over, and the output is all the data in front of it. |
| ChunkedRejection.RejectionRepeats | 2-term/3.3/picohttpparser.c:616-619 | A decoder that has rejected its leftover rejects it again, and stays as it is. |
| ChunkedRejection.CompletionRepeats | 2-term/3.3/picohttpparser.c:630-631 | A decoder that has completed is where its last line feed found it. |
| RequestGrammar.TokenTableIsTchar | 2-term/3.3/picohttpparser.c:96-103 | The 256-entry table is the token alphabet of section 3.2.6 of RFC 7230. |
| RequestGrammar.ClassesAgree | 2-term/3.3/picohttpparser.c:84-88 | The parser's blanks, controls, digits and delimiters are those of appendix B.1 of RFC 5234, in which the grammar is written. |
| RequestParser.TokenRangesExact | 2-term/3.3/picohttpparser.c:248-257 | The skip ranges of names hold every byte that ends or spoils a token, and all others but two. |
| RequestParser.TextRangesExact | 2-term/3.3/picohttpparser.c:139-141 | The skip ranges of values are the controls without HT. |
| RequestParser.PathRangesExact | 2-term/3.3/picohttpparser.c:74 | The skip ranges of paths are the controls and SP. |
| RequestParser.FindCharFast | 2-term/3.3/picohttpparser.c:105-132 | The 16-byte skip passes over no byte of the ranges and stops at one, or with fewer than 16 bytes left. |
| RequestParser.ParseTokenLoop | 2-term/3.3/picohttpparser.c:245-277 | Both builds give the token and verdict of the one-byte-at-a-time scan. |
| RequestParser.AdvanceToken | 2-term/3.3/picohttpparser.c:71-94 | The same for paths. |
| RequestParser.FindControl | 2-term/3.3/picohttpparser.c:138-179 | The 16-byte and the 8-byte unrolled scans find the control that a one-byte-at-a-time scan finds. |
| RequestParser.GetTokenToEol | 2-term/3.3/picohttpparser.c:134-195 | The value up to the line end, or the verdict, in both builds. |
| RequestParser.IsCompleteLoop | 2-term/3.3/picohttpparser.c:197-223 | The scan for two line ends from three bytes before `last_len`. |
| RequestParser.TrimRightLoop | 2-term/3.3/picohttpparser.c:341-350 | Drops trailing blanks of a value. |
| RequestParser.ParseHeaderLoop | 2-term/3.3/picohttpparser.c:315-350 | One header line: name and colon, or the continuation of the line before. |
| RequestParser.ParseHeadersLoop | 2-term/3.3/picohttpparser.c:298-353 | All header lines up to the empty one, and at most the given number. |
| RequestParser.SkipSpaces | 2-term/3.3/picohttpparser.c:372-380 | Past the spaces between the parts of the request line. |
| RequestParser.ParseRequestLineLoop | 2-term/3.3/picohttpparser.c:368-396 | The request line. |
| RequestParser.ParseRequestLoop | 2-term/3.3/picohttpparser.c:355-399 | The request, behind at most one empty line. |
| RequestParser.PhrParse | 2-term/3.3/picohttpparser.c:401-427 | The consumed length, -1 or -2, the same in both builds, and the slices on success. |
| RequestStability.VerdictStability | 2-term/3.3/picohttpparser.c:298-427 | Any verdict but "incomplete" is the verdict on every extension, with the same slices and headers. |
| RequestStability.SuccessExactlyFrom | 2-term/3.3/picohttpparser.c:401-427 | Of the prefixes of an accepted buffer, exactly those that hold the whole request are accepted; the shorter ones are incomplete, never rejected. |
| RequestGrammar.TokenEndExact | 2-term/3.3/picohttpparser.c:264-273 | The token scan ends at a position exactly if token characters lead up to the delimiter there. |
| RequestGrammar.ValueExact | 2-term/3.3/picohttpparser.c:336-350 | A value is read exactly if it runs without controls to a line end, and ends in no SP or HT. |
| RequestGrammar.HeaderLineExact | 2-term/3.3/picohttpparser.c:315-350 | A header line is read exactly if it is one of the grammar. |
| RequestGrammar.HeadersExact | 2-term/3.3/picohttpparser.c:298-353 | So are the header lines up to the empty line. |
| RequestGrammar.VersionExact | 2-term/3.3/picohttpparser.c:280-296 | `HTTP/1.` and a digit, with one more byte behind it. |
| RequestGrammar.RequestLineExact | 2-term/3.3/picohttpparser.c:368-396 | The request line is read exactly if it is one of the grammar. |
| RequestGrammar.ParsesExactlyRequests | 2-term/3.3/picohttpparser.c:355-427 | The parser succeeds with a length and slices if and only if that prefix is a request of the grammar with those slices. |
| RequestGrammar.SlicesLieInside | 2-term/3.3/picohttpparser.c:298-427 | On success method, path, names and values all end inside the consumed prefix; method and names are tokens, the path has no controls or spaces, and values end in no SP or HTAB. |
| RequestGrammar.RejectedForGood | 2-term/3.3/picohttpparser.c:401-427 | What the parser rejects is the beginning of no request, whatever follows. |
| RequestHope.LineFinishes | 2-term/3.3/picohttpparser.c:368-396 | A request line that stops anywhere, but for the two exceptions, can be completed. |
| RequestHope.HeadersFinish | 2-term/3.3/picohttpparser.c:301-351 | So can header lines that stop anywhere. |
| RequestHope.DoomedStays | 2-term/3.3/picohttpparser.c:381-384 | With an empty method, or with bytes that no version begins with, no continuation is accepted. |
| RequestHope.HopefulExactly | 2-term/3.3/picohttpparser.c:355-399 | Some continuation begins with a request if and only if the input is not rejected, its method is not empty, and fewer than nine bytes in the place of the version, if any, begin `HTTP/1.` and a digit. |
| RequestHope.EmptyMethodReadsAsIncomplete | 2-term/3.3/picohttpparser.c:369-384 | A space alone: incomplete, although nothing can follow. |
| RequestHope.WrongVersionReadsAsIncomplete | 2-term/3.3/picohttpparser.c:283-286 | `G / X`: incomplete, although nothing can follow. |
| RequestLastLen.ScanExact | 2-term/3.3/picohttpparser.c:197-223 | The scan succeeds at the end of the first blank line if no lone carriage return is before it, fails if one is before any blank line, and otherwise wants more: each verdict if and only if. |
| RequestLastLen.FindsEmptyLine | 2-term/3.3/picohttpparser.c:202-219 | The scan, from anywhere before the last line feed of the headers, finds the empty line. |
| RequestLastLen.LastLenIsTransparent | 2-term/3.3/picohttpparser.c:415-426 | If the first `last_len` bytes were incomplete, the call with `last_len` succeeds exactly if the call without it does, and with the same result. |
| RequestLastLen.LastLenKeepsVerdictIff | 2-term/3.3/picohttpparser.c:415-426 | The whole verdict is kept if and only if `last_len` is 0, or the input is accepted, or it is rejected and a blank line or a lone carriage return is in the scanned bytes, or it is incomplete and no lone carriage return comes first there. |
| RequestLastLen.ShortcutRejectsForGood | 2-term/3.3/picohttpparser.c:417-419 | A rejection with `last_len` means that no continuation begins with a request. |
| RequestLastLen.RejectedReadsAsIncomplete | 2-term/3.3/picohttpparser.c:415-419 | An input that is rejected without `last_len` and incomplete with it. |
| RequestLastLen.IncompleteReadsAsRejected | 2-term/3.3/picohttpparser.c:415-419 | An input that is incomplete without `last_len` and rejected with it. |
| LockedListTheorems.ListAddLinks | 2-term/2.3/list.c:117-120 | Adding at position 0 puts the node in front of the chain, be it empty or not. |
| LockedListTheorems.MainBuildsList | 2-term/2.3/concurrent_list.c:217-228 | From the empty list, the loop of main builds a chain of the nodes it allocates, the last one first. |
| LockedListProof.SwapElementsRelinks | 2-term/2.3/list.c:235-244 | Rewiring three pointers exchanges two neighbours of the chain and nothing else. |
| LockedListTheorems.StepKeeps | 2-term/2.3/concurrent_list.c:53-82 | Every step of every reader or swapper keeps the invariant, and the list the same up to one exchange. |
| LockedListTheorems.ReachableInv | 2-term/2.3/concurrent_list.c:177-205 | The invariant holds in every reachable state of any number of threads. |
| LockedListTheorems.ListIsConserved | 2-term/2.3/list.c:224-246 | The list stays an acyclic chain of the same nodes from the same head. |
| LockedListTheorems.WindowsSlide | 2-term/2.3/concurrent_list.c:61-79 | The locks each thread holds are one contiguous stretch of at most three nodes, stretches of different threads are apart, and the node a thread waits for is the one behind its stretch. |
| LockedListTheorems.RightmostCanStep | 2-term/2.3/concurrent_list.c:69-70 | The thread with the rightmost window never waits for a lock that is taken. |
| LockedListProgress.StepGetsOn | 2-term/2.3/concurrent_list.c:61-81 | Every step that a thread can take changes the state, and within a pass it lowers a bound on what is left of the pass; readers stay readers. |
| LockedListProgress.NoDeadlock | 2-term/2.3/concurrent_list.c:178-205 | In every reachable state some thread can take a step that gets it on, although swaps change the order of the locks. |
| LockedListProgress.AllPassesCanEnd | 2-term/2.3/concurrent_list.c:203-204 | From every state, with always the rightmost thread going on, all passes end and all locks are given up. |
| LockedListProgress.EveryPassCanBeMade | 2-term/2.3/concurrent_list.c:53-82 | From every reachable state a continuation brings any given thread through a whole pass; a reader has then seen every node. |
| LockedListTheorems.ReaderMissesNothing | 2-term/2.3/concurrent_list.c:53-82 | At the end of a pass a reader has visited every node exactly once and has done n-1 comparisons. |
| LockedListTheorems.ReaderComparesNeighbours | 2-term/2.3/list.c:206-222 | What a reader compares are neighbours of the list as it then is. |
| LockedListTheorems.WritesOnlyHeld | 2-term/2.3/list.c:235-244 | A step writes `next` only of nodes its thread has locked. |
| LockedListTheorems.ReadsOnlyHeld | 2-term/2.3/concurrent_list.c:178-201 | A step depends on `next` only of nodes its thread has locked. |
| UThread.Scheduler.constructor | 2-term/1.7/uthread_create.c:143-151 | main registers itself in slot 0. |
| UThread.Scheduler.Create | 2-term/1.7/uthread_create.c:81-109 | A new thread gets the next slot. |
| UThread.Scheduler.Shedule | 2-term/1.7/uthread_create.c:66-79 | Saves the caller in the current slot and goes on with the next one, round. |
| UThread.Scheduler.ReturnFrom | 2-term/1.7/uthread_create.c:96-117 | A thread's end counts it and goes on with slot 0, leaving the index. |
| UThread.Scheduler.GoOn | 2-term/1.7/uthread_create.c:111-118 | What main or a thread does next is a tick of the machine. |
| UThread.Scheduler.RunToEnd | 2-term/1.7/uthread_create.c:159-163 | The program ends, in main, with every thread returned. |
| UThread.Program | 2-term/1.7/uthread_create.c:138-166 | The whole program, for any number of threads with any numbers of calls: at the end each thread has made exactly its calls and has returned once. |
| UThreadSpec.TickKeepsInv | 2-term/1.7/uthread_create.c:66-79 | Every switch keeps: an unfinished thread's slot holds it, slot 0 and finished threads' slots hold main. |
| UThreadSpec.EveryState | 2-term/1.7/uthread_create.c:66-136 | In every state of every run, for any number of threads with any number of calls, no finished thread runs and each slot holds what it should. |
| UThreadSpec.StartWork | 2-term/1.7/uthread_create.c:113-117 | At the start each thread has all its calls and its return before it. |
| UThreadSpec.StartTotal | 2-term/1.7/uthread_create.c:155-157 | The work of all threads is the sum of their calls and one return each. |
| UThreadSpec.TurnsAreTaken | 2-term/1.7/uthread_create.c:111-136 | In every state of every run, a thread that has returned has made exactly its calls, and another has made all but those it has still to make. |
| UThreadSpec.OverMeansAllDone | 2-term/1.7/uthread_create.c:159 | The count reaches the number of threads exactly when all have returned. |
| UThreadSpec.ThreadProgresses | 2-term/1.7/uthread_create.c:111-118 | Every step of a thread uses up one unit of the threads' work. |
| UThreadSpec.MainProgresses | 2-term/1.7/uthread_create.c:159-161 | Every step of main leaves the work alone and comes one slot nearer to every unfinished thread. |
| UThreadSpec.TurnComes | 2-term/1.7/uthread_create.c:69-72 | Every unfinished thread is resumed, with the context it was saved with, within as many calls as there are slots. |
| UThread.Progress | 2-term/1.7/uthread_create.c:159-161 | The lexicographic measure by which the program ends. |
| Bits.AndBits | 2-term/3.3/map.c:47 | A bit of the mask's result is set exactly if it is set in both. |
| Bits.XorBits | 2-term/3.3/map.c:24 | A bit of an exclusive or is set exactly if it is set in one of the two. |
| HashMap.HashOfLonger | 2-term/3.3/map.c:21-27 | The hash of the empty string is 5381, and one more character takes 33 times the hash, in 32 bits, and flips the bits of the sign-extended character. |
| HashMap.MapHash | 2-term/3.3/map.c:21-27 | The loop computes that hash, a 32-bit word. |
| HashMap.BucketIsRemainder | 2-term/3.3/map.c:44-48 | For a power of two of buckets, the mask is the remainder. |
| HashMap.Map.constructor | 2-term/3.3/map.h:33-34 | A zero-filled map is empty. |
| HashMap.Map.AddNode | 2-term/3.3/map.c:51-55 | Puts a node at the head of its own bucket. |
| HashMap.Map.GetRef | 2-term/3.3/map.c:95-108 | Finds a node exactly for the keys of the map, and what is in front of it. |
| HashMap.Map.Get | 2-term/3.3/map.c:127-130 | The value of the plain map. |
| HashMap.Map.ChainAll | 2-term/3.3/map.c:62-73 | Relinks all nodes of all buckets into one list, none lost and no key twice. |
| HashMap.Map.ReAdd | 2-term/3.3/map.c:82-88 | Spreads the list over the new buckets. |
| HashMap.Map.Resize | 2-term/3.3/map.c:58-92 | Whether or not the buckets can be had, the table then holds what it held. |
| HashMap.Map.Overwrite | 2-term/3.3/map.c:137-141 | A key that is there gets the new value, in its node. |
| HashMap.Map.Set | 2-term/3.3/map.c:133-156 | Sets the key in the plain map, or fails, exactly when memory that it needs is not to be had, and changes nothing; the buckets double exactly when a new key finds as many nodes as buckets. |
| HashMap.Map.Remove | 2-term/3.3/map.c:159-168 | Removes the key from the plain map, and nothing else. |
| HashMap.Iter.constructor | 2-term/3.3/map.c:171-176 | An iterator starts in front of bucket 0, at the largest unsigned. |
| HashMap.Map.Next | 2-term/3.3/map.c:179-193 | Visits the next node in bucket order, or says that there is none. |
| HashMap.Map.VisitsEachKeyOnce | 2-term/3.3/map.c:171-193 | In that order every key of the map comes exactly once. |
| HashMap.Map.Keys | 2-term/3.3/map.c:171-193 | A whole iteration yields every key, each of them once. |
| PQueue.PriorityQueue.Enqueue | 2-term/3.3/pqueue.c:51-71 | The loop in the array gives the sifted sequence; a full queue is left as it is. |
| PQueue.PriorityQueue.Dequeue | 2-term/3.3/pqueue.c:76-90 | Hands out slot 0 and leaves the heapified rest; an empty queue is left as it is. |
| PQueue.PriorityQueue.HeapifyInPlace | 2-term/3.3/pqueue.c:95-125 | The recursion in the array gives the heapified sequence. |
| PQueueSpec.EnqueueContents | 2-term/3.3/pqueue.c:51-71 | A queue that is not full gains exactly the new element. |
| PQueueSpec.RestContents | 2-term/3.3/pqueue.c:76-90 | Dequeuing takes out exactly the element it hands out. |
| PQueueSpec.EnqueueKeepsHalvingOrder | 2-term/3.3/pqueue.c:65-70 | Enqueueing keeps every element at most the one at half its index. |
| PQueueSpec.HeapifyRestores | 2-term/3.3/pqueue.c:92-125 | Heapify repairs a heap in the order of `2i+1` and `2i+2` with one element out of place. |
| PQueueSpec.RestKeepsHeapOrder | 2-term/3.3/pqueue.c:84-89 | From a heap in that order, dequeuing leaves one. |
| PQueueSpec.EnqueueKeepsTop | 2-term/3.3/pqueue.c:65-70 | Enqueueing keeps slot 0 a maximum, whatever the order of the rest. |
| PQueueSpec.FirstDequeueIsRight | 2-term/3.3/pqueue.c:51-90 | The first dequeue after any enqueues hands out a maximum. |
| PQueueSpec.DequeueKeepsTopIff | 2-term/3.3/pqueue.c:84-89 | A dequeue leaves a maximum in slot 0 if and only if one of the largest of the rest is in slot 1, 2 or the last. |
| PQueueSpec.MixedRunGoesWrong | 2-term/3.3/pqueue.c:7-9 | From capacity six on, a concrete run leaves no maximum in slot 0. |
| PQueueSpec.RightExactlyUpToFive | 2-term/3.3/pqueue.c:7-9 | Every dequeue of every run hands out a maximum if and only if the capacity is at most five. |
| CacheSpec.EqualPriorities | 2-term/3.3/http-proxy.c:423-425 | Among equal priorities, enqueueing appends and dequeuing moves the last page to slot 0. |
| CacheSpec.EvictKeeps | 2-term/3.3/http-proxy.c:315-328 | Giving up a page keeps table and queue in agreement. |
| CacheSpec.CommitKeeps | 2-term/3.3/http-proxy.c:313-339 | So does the whole insertion, and the page always gets into the queue. |
| CacheSpec.StoredIsServed | 2-term/3.3/http-proxy.c:313-339 | Right after the insertion, a lookup of the host gives the new answer; no other entry changes, and of the other hosts exactly the evicted page's loses its entry, whichever page put it there. |
| CacheSpec.HitsAreCounted | 2-term/3.3/http-proxy.c:206-214 | Until something is stored, the table's copy counts exactly the hits that were sent, and keeps its message. |
| CacheSpec.ServeKeeps | 2-term/3.3/http-proxy.c:202-216 | So does a lookup. |
| CacheSpec.PrepareKeeps | 2-term/3.3/http-proxy.c:306-311 | So does a connection that prepares a page at any free address. |
| CacheSpec.TableFits | 2-term/3.3/http-proxy.c:330-338 | The table never has more hosts than the queue has pages. |
| CacheSpec.AlwaysAgrees | 2-term/3.3/http-proxy.c:201-339 | In every run of any connections: size counter, queue length and bound agree, queued pages own distinct live messages, no message leaks, and every table entry's message belongs to a queued page of that host. |
| CacheSpec.HitsAreGenuine | 2-term/3.3/http-proxy.c:202-216 | A hit never reads a freed message: it sends what that very host once answered. |
| CacheSpec.FullCacheTurnsOverTwoSlots | 2-term/3.3/http-proxy.c:313-339 | Once the cache is full, 28 of its 30 pages stay for good. |
| Cache.ProxyCache.constructor | 2-term/3.3/http-proxy.c:67-69 | The cache starts empty. |
| Cache.ProxyCache.Lookup | 2-term/3.3/http-proxy.c:202-216 | On the map class: a hit sends the whole message and counts the use in the table's copy if it was sent. |
| Cache.ProxyCache.Answered | 2-term/3.3/http-proxy.c:306-311 | A new page with its message. |
| Cache.ProxyCache.EvictPage | 2-term/3.3/http-proxy.c:315-328 | On the map and queue classes: dequeue, free the message, remove the host, free the page, count down. |
| Cache.ProxyCache.InsertPage | 2-term/3.3/http-proxy.c:330-338 | Set the host, enqueue the page, count up. |
| Cache.ProxyCache.Store | 2-term/3.3/http-proxy.c:313-339 | The whole insertion keeps agreement and is the function of `CacheSpec`. |
| FutexMutex.StepKeeps | 2-term/2.4/my_mutex.h:21-47 | Every step keeps: at most one holder, the word is 1 exactly without one, no thread sleeps while the lock is free unless another is about to lock or wake, and the increments add up. |
| FutexMutex.NeverStuck | 2-term/2.4/my_mutex.h:21-47 | While a worker is not done, some thread can step, spurious wake-ups aside. |
| FutexMutex.MutualExclusion | 2-term/2.4/my_mutex.h:24-40 | In every run two workers are never inside at once, and the word is 0 while one is. |
| FutexMutex.StepCosts | 2-term/2.4/my_mutex.h:24-33 | Every step lowers a bound on the steps still possible. |
| FutexMutex.WakeCosts | 2-term/2.4/my_mutex.h:28 | A spurious wake-up raises the bound by at most two. |
| FutexMutex.AllIncrementsCount | 2-term/2.4/test.c:30-53 | In every run of n workers with k rounds, spurious wake-ups among its steps, `val` is n times k whenever all are done. |
| FutexMutex.RunsEndDone | 2-term/2.4/test.c:30-53 | Without any fairness, every run is bounded, with three more steps for each spurious wake-up, and when it cannot go on without one all are done and `val` is n times k. |
| FutexMutex.QuietRunsAreBounded | 2-term/2.4/test.c:30-53 | Without spurious wake-ups the bound is known from the start. |
| CondQueue.StepKeeps | 2-term/2.2/condVar/queue.c:79-161 | Every lock, wait, signal, unlock and queue access keeps the invariant. |
| CondQueue.FirstInFirstOut | 2-term/2.2/condVar/queue.c:107-155 | Values come out in the order they went in, none lost and none twice, and `add_count - get_count` is the length. |
| CondQueue.AddAddsUnlessFull | 2-term/2.2/condVar/queue.c:88-121 | An add puts the value at the end of a queue with room and counts it, a full queue refuses it, and either way the thread goes on to signal. |
| CondQueue.GetTakesTheFront | 2-term/2.2/condVar/queue.c:148-155 | A get takes the value at the front and counts it. |
| CondQueue.OtherStepsLeaveTheQueue | 2-term/2.2/condVar/queue.c:128-139 | No other step changes the queue or its counts. |
| CondQueue.RefusedOnlyWhenFull | 2-term/2.2/condVar/queue.c:88-96 | In every run an add is refused only while the queue is full. |
| CondQueue.AttemptsAreAccountedFor | 2-term/2.2/condVar/queue.c:84-155 | The attempts to get that have no value yet are exactly the readers still inside `queue_get`; an attempt to add has added, was refused by a full queue, or is before its test. |
| CondQueue.NoLostWakeup | 2-term/2.2/condVar/queue.c:119-139 | A value that is there while a reader waits has a signalled reader coming for it, or the thread with the mutex is about to take, signal or look. |
| CondQueue.StepKeepsCover | 2-term/2.2/condVar/queue.c:88-139 | As long as a reader waits, the length is at most the number of signalled readers that have not run yet, and one for the thread with the mutex. |
| CondQueue.StuckOnlyWhenEmpty | 2-term/2.2/condVar/queue.c:137-139 | Some thread can always step, unless all are readers that wait for an empty queue. |
| CondQueue.StepGetsOn | 2-term/2.2/condVar/queue.c:79-161 | Every step moves its thread, and brings one with the mutex nearer to its unlock. |
| CondQueue.ValuesCanBeHad | 2-term/2.2/condVar/queue.c:128-161 | From every reachable state with a value in the queue and a reader somewhere, some continuation without spurious wake-ups hands a value out. |
| LinkedQueue.Queue.constructor | 2-term/2.2/semaphore/queue.c:39-45 | An empty queue with its bound. |
| LinkedQueue.Queue.Add | 2-term/2.2/semaphore/queue.c:56-86 | Appends the value unless the queue is full; counters as the statistics promise. |
| LinkedQueue.Queue.Link | 2-term/2.2/semaphore/queue.c:70-78 | The linking alone: `last` of a queue that is not empty is not freed, and of an empty one nothing is written but `first` and `last` themselves. |
| LinkedQueue.Queue.Get | 2-term/2.2/semaphore/queue.c:88-106 | Takes the first value unless the queue is empty; counters as the statistics promise. |
| LinkedQueue.Queue.Unlink | 2-term/2.2/semaphore/queue.c:96-101 | The unlinking alone: exactly the first node is freed, no linked node is, and a queue that is then empty has a freed `last`. |
| LinkedQueue.LastMayDangle | 2-term/2.2/semaphore/queue.c:96-101 | A run after which `last` points to a freed node. |
| PingPong.Fill | 2-term/2.2/semaphore/queue-threads.c:76-80 | The writer's loop fills the queue with consecutive numbers behind what was there. |
| PingPong.Drain | 2-term/2.2/semaphore/queue-threads.c:51-58 | The reader's loop empties the queue, and counts exactly the values it did not expect. |
| PingPong.NoSurprises | 2-term/2.2/semaphore/queue-threads.c:54-57 | It reports nothing if and only if it reads consecutive numbers from the one it expects. |
| PingPong.WriterTurnIsFill | 2-term/2.2/semaphore/queue-threads.c:73-82 | The writer's steps inside, from its loop test to its post, do to the sequence what its loop ensures of the linked queue. |
| PingPong.ReaderTurnIsDrain | 2-term/2.2/semaphore/queue-threads.c:48-60 | So do the reader's, with what it reports. |
| PingPong.WriterKeeps | 2-term/2.2/semaphore/queue-threads.c:73-85 | The writer's steps keep: both semaphores and the threads inside add up to one. |
| PingPong.ReaderKeeps | 2-term/2.2/semaphore/queue-threads.c:48-61 | So do the reader's. |
| PingPong.TurnsAlternate | 2-term/2.2/semaphore/queue-threads.c:41-86 | The threads are never inside together; the writer comes in to an empty queue, the reader to a full one. |
| PingPong.ReadsInOrder | 2-term/2.2/semaphore/queue-threads.c:41-61 | In every run the reader reads 0, 1, 2 and so on, and reports no error. |
| PingPong.ExactlyOneCanStep | 2-term/2.2/semaphore/queue-threads.c:48-85 | In every reachable state exactly one of the two can go on. |
| PingPong.StepAdvances | 2-term/2.2/semaphore/queue-threads.c:48-85 | Every step brings the round one step further, or ends it with all its values read. |
| PingPong.RunsOnSchedule | 2-term/2.2/semaphore/queue-threads.c:41-86 | The number of steps alone says where the system is; after each round of 2(max_count + 3) steps the reader has read max_count values more. |

## Left out

- RequestParser.PhrParse: the output variables of a call that fails are not modelled, and the buffer is a sequence, since the parser only reads it.
- RequestParser.PhrParse: the consumed length is a natural number; the cast to int of a request longer than an int is not modelled.
- ChunkedDecoder.PhrChunkedDecoder.Decode: sizes and the return value are natural numbers; a buffer longer than ssize_t holds is not modelled. The chunk size is modelled in 64 bits, and never wraps.
- UThread.Scheduler.RunToEnd: a context is main at its loop or a thread with some calls left; stacks, registers and the messages it prints are left out, and the four slots and three threads of the source are any number.
- HashMap.Map.Next: nothing is said of an iterator after 2^32 calls at the end of the map, when its index has wrapped around.
- Cache.ProxyCache.InsertPage: the table and the queue get the memory they ask for; the return without unlocking when they do not (2-term/3.3/http-proxy.c:331-336) is left out, and so is the branch for an empty queue that is never taken.
- Cache.ProxyCache.EvictPage: the message and the page are freed in one go behind the removal from the table, which reads neither.
- Cache.ProxyCache.Lookup: whether the client could be written to is a parameter; the connection is left out.
- PQueueSpec.RightExactlyUpToFive: priorities are integers without a bound; that pqueue_cmp returns the difference of two longs as an int is left out, and makes no difference to pages used once.
- PingPong.Fill: the counter of the writer is an integer without a bound; its overflow after 2^31 values is left out.
- LinkedQueue.Queue.constructor: a freed node is a node in a ghost set; that its memory may be given out again is not modelled, and the bound is not negative, which the assertion of queue_add demands.
- CondQueue.NoLostWakeup: what one thread does with the mutex between two steps is one step; the queue it works on is a sequence, whose linked form is LinkedQueue.
- LockedListTheorems.StepKeeps: a swap and a comparison are one step each, which WritesOnlyHeld and ReadsOnlyHeld justify; locks are exclusive, as the configured spin locks are, and the list has at least two nodes.
- Values of list nodes are not modelled: list_compare_values measures strings that have no terminator.
- list_add behind position 0, list_erase, list_destroy and the `last` field of the list: unused by the threads, or off by one.
- Reader-writer locks of the list: another configuration.
- phr_parse_response and phr_parse_headers: easier than the request, and the shortcut fails for an empty header block.
- Sockets, name resolution, signals, logging and thread creation: input and output.
- Which page a cache ought to evict: the copies count the uses, so no claim about frequency holds.
- Memory order: an atomic operation or a system call is one step.
- map_deinit_ and queue_destroy: they free everything and nothing follows.
- The spin lock of 2-term/2.4 and the mutex copies of the queue: easier than what is here.
- The joins of 2-term/1.6 and the heap of 1-term/lab4: they do not keep what they promise.
