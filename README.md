# Key server, concurrent list sorters and spider parser: a Dafny model

This project models three small Java programs and proves properties of them.

**Key server (Task_J1).** An NIO key server hands out RSA keys and X.509 certificates by name. A client sends a name ended by a zero byte. The server's reactor scans the bytes of each connection until that terminator. A name longer than 4096 bytes, or end of stream, closes the connection.

The server coalesces requests for the same name:
- `nameTable` holds one future per name, and a generation job is submitted only when the name has no entry;
- every requester joins `waitingClients[name]`;
- a name whose future is already done is served at once, or the connection is closed if the future failed.

When a job finishes, its result is framed as `len(key) | key | len(cert) | cert`, with 4-byte big-endian lengths. One copy of the frame per waiter is queued on `pendingDeliveries`. The frame's length is computed as a Java `int`: when the two PEM texts together exceed 2^31-9 bytes it overflows, building the frame throws, and the waiters already removed from the list get nothing. At the top of each select round the reactor drains that queue. It drops deliveries whose connection is gone and, for the rest, sets the write buffer and adds `OP_WRITE` to the interest set. `write` sends what the socket accepts and closes the connection once the buffer is drained.

The client scans its command line (`--delay v`, `--exit-after-send`, then name, host and port), sends the request, and reads the frame back with four `readNBytes` calls.

**Sorters (Task_J2).**
- `ConcurrentLinkedList` is a sentinel-headed singly linked list with `addFirst`, `size`, an iterator, and `trySwapIfOutOfOrder`, which relinks two adjacent nodes in place.
- Two bubble sorters run passes over a list of strings ordered by `String.compareTo`. One works on an array-backed list, the other walks the linked list with `prev`/`a`/`b`.
- `ConsoleUtil.split80` cuts a line into chunks of 80 chars.

**Spider (Task_J3).** `parseNode` pulls a node's `message` and `successors` out of a JSON body with three regular expressions and `unescape`.

Module layout:
- `Wrappers`, `Bytes` (big-endian ints, US-ASCII) and `JavaString` (`compareTo`) are shared helpers.
- `KeyProtocol` holds the response frame and the name scanner.
- `KeyRegistry` holds the coalescing registry as pure transitions over one state value.
- `KeyServer` holds the reactor-side classes `ClientAttachment` and `KeyServer`. Their methods are proved equal to the `KeyRegistry` transitions and to the per-connection effects.
- `KeyClient` holds the client.
- `LinkedList`, `BubblePass` (the specification of one pass), `BubbleSorterArray`, `BubbleSorterLinked` and `ConsoleUtil` cover the sorters.
- `AsyncSpider` holds the parser. Each regex is written as an explicit scanner, and a reference predicate describes what the regex accepts.

## Model

| member | source | states |
|---|---|---|
| Bytes.GetInt | Task_J1/src/main/java/org/example/KeyClient.java:61 | `getInt` reads four bytes as a signed 32-bit int; it is non-negative exactly when the first byte is below 0x80 |
| Bytes.BigEndianRoundTrip | Task_J1/src/main/java/org/example/KeyClient.java:61 | reading back a k-byte big-endian encoding gives the encoded number |
| Bytes.FromBigEndianInjective | Task_J1/src/main/java/org/example/KeyClient.java:61 | two byte strings of the same length with the same big-endian value are equal |
| Bytes.GetIntPutInt | Task_J1/src/main/java/org/example/KeyClient.java:61 | `getInt` returns exactly the length `putInt` wrote, for every non-negative Java int |
| Bytes.AsciiBytes | Task_J1/src/main/java/org/example/KeyServer.java:168-169 | `getBytes(US_ASCII)` gives one byte per char: the char's code if it is US-ASCII, `?` otherwise |
| Bytes.DecodeAscii | Task_J1/src/main/java/org/example/KeyServer.java:99 | `new String(bytes, US_ASCII)` gives one char per byte: the byte if below 0x80, U+FFFD otherwise |
| Bytes.DecodeAsciiBytes | Task_J1/src/main/java/org/example/KeyServer.java:99 | decoding the US-ASCII bytes of a US-ASCII text gives the text back |
| JavaString.CompareTo | Task_J2/src/main/java/org/example/sort/BubbleSorterArray.java:42 | `compareTo` is zero exactly for equal strings |
| JavaString.CompareToAntisymmetric | Task_J2/src/main/java/org/example/sort/BubbleSorterArray.java:42 | swapping the operands of `compareTo` negates the result |
| JavaString.CompareToTransitive | Task_J2/src/main/java/org/example/sort/BubbleSorterArray.java:42 | `compareTo(a,b) <= 0` and `compareTo(b,c) <= 0` imply `compareTo(a,c) <= 0` |
| KeyProtocol.ResponseFrameLayout | Task_J1/src/main/java/org/example/KeyServer.java:168-176 | the frame is the big-endian key length, the key, the big-endian cert length, the cert, and 8+\|key\|+\|cert\| bytes in all |
| KeyProtocol.Put | Task_J1/src/main/java/org/example/KeyServer.java:172-175 | a `put` writes the bytes at the position, keeps what was written before it, and advances the position by their count |
| KeyProtocol.Int32 | Task_J1/src/main/java/org/example/KeyServer.java:170 | Java `int` addition: the value wrapped into -2^31..2^31-1, congruent to the exact sum modulo 2^32, and unchanged when it is in range |
| KeyProtocol.FrameTotalOverflow | Task_J1/src/main/java/org/example/KeyServer.java:170-175 | the int `total` equals the frame length exactly when \|key\|+\|cert\| <= 2^31-9; otherwise it is negative, so `allocate` throws, or smaller than 4+\|key\|, so the put of the key overflows |
| KeyProtocol.BuildFrame | Task_J1/src/main/java/org/example/KeyServer.java:168-176 | the frame is built exactly when \|key\|+\|cert\| <= 2^31-9, and it is then the response frame of the result's PEM texts; otherwise `allocate` or a `put` throws |
| KeyProtocol.FirstZero | Task_J1/src/main/java/org/example/KeyServer.java:94-97 | the index of the first zero byte: every byte before it is non-zero and, inside the read, it is a zero |
| KeyProtocol.ScanNameBounds | Task_J1/src/main/java/org/example/KeyServer.java:94-109 | a completed name extends the buffered bytes, has no zero byte and at most 4096 bytes; an unfinished one keeps every byte read; an overflow holds 4097 bytes |
| KeyProtocol.ScanNameSegments | Task_J1/src/main/java/org/example/KeyServer.java:94-112 | scanning two reads in turn ends as scanning them as one read |
| KeyProtocol.ScanNameIgnoresTrailing | Task_J1/src/main/java/org/example/KeyServer.java:94-112 | bytes after the terminator in the same read change nothing |
| KeyProtocol.ScanNameStep | Task_J1/src/main/java/org/example/KeyServer.java:95-109 | one more byte: a zero completes the name, a byte that takes the buffer past 4096 overflows, any other is appended |
| KeyProtocol.ScanNameSettled | Task_J1/src/main/java/org/example/KeyServer.java:94-112 | once a prefix of a read has completed or overflowed the name, the rest of the read is ignored |
| KeyProtocol.NameLengthCap | Task_J1/src/main/java/org/example/KeyServer.java:103-109 | a name of up to 4096 bytes is accepted whole; a longer one overflows at its 4097th byte |
| KeyRegistry.Deliveries | Task_J1/src/main/java/org/example/KeyServer.java:179-184 | one delivery per waiting client, in list order, each carrying its own client and the one shared frame |
| KeyRegistry.OneJobPerName | Task_J1/src/main/java/org/example/KeyServer.java:117-135 | under the invariant, a name had exactly one generation job if it has a table entry and none otherwise |
| KeyRegistry.JoinSchedulesOnlyAbsent | Task_J1/src/main/java/org/example/KeyServer.java:117-135 | a request submits a job and adds a pending entry only for an absent name; an existing entry is never replaced |
| KeyRegistry.JoinPreservesInv | Task_J1/src/main/java/org/example/KeyServer.java:115-157 | a request keeps the invariant: one job per name, table entries exactly for names with a job, nobody waiting on a done name |
| KeyRegistry.CompletePreservesInv | Task_J1/src/main/java/org/example/KeyServer.java:121-132 | a pending job that ends, successfully or not, keeps the invariant |
| KeyRegistry.JoinAppendsWaiter | Task_J1/src/main/java/org/example/KeyServer.java:139-143 | a request for a name that is not done appends the client to the end of the name's list, creating it if absent, and keeps earlier waiters; the connection is closed exactly when the name failed; nothing is queued |
| KeyRegistry.JoinServesDone | Task_J1/src/main/java/org/example/KeyServer.java:145-156 | a request for a done name leaves no one waiting and queues exactly one delivery of the result's frame, for this client; when the frame does not fit, nothing is queued and the `catch` closes the connection |
| KeyRegistry.DeliverFacts | Task_J1/src/main/java/org/example/KeyServer.java:161-185 | delivery removes the name's list and appends one delivery per removed waiter, or nothing when the frame does not fit; table and jobs are unchanged |
| KeyRegistry.DeliverFansOut | Task_J1/src/main/java/org/example/KeyServer.java:161-185 | delivery removes the whole list, leaves other lists alone, and appends one delivery per waiter in list order, all with the same frame; no waiters, or a frame that does not fit, means nothing is queued |
| KeyRegistry.OversizedResultDropsWaiters | Task_J1/src/main/java/org/example/KeyServer.java:121-175 | a result whose frame does not fit completes the future, drops the waiting list with nothing queued, and every later request for the name is closed |
| KeyRegistry.FailureLeavesWaiters | Task_J1/src/main/java/org/example/KeyServer.java:129-131 | a failed job only completes the future exceptionally: waiters stay and nothing is queued |
| KeyRegistry.WaiterStrandedByFailure | Task_J1/src/main/java/org/example/KeyServer.java:117-143 | as written, a client that asks for a new name whose job then fails keeps its connection open, stays the name's only waiter, and has nothing queued for it |
| KeyRegistry.FailureClosesEveryWaiter | Task_J1/src/main/java/org/example/KeyServer.java:129-131 | with the intended completion, a failed job closes exactly the clients waiting on the name, in order, leaves nobody waiting on it, keeps other names' waiters and queues nothing |
| KeyRegistry.CompleteClosingWaitersPreservesInv | Task_J1/src/main/java/org/example/KeyServer.java:121-132 | the intended completion keeps the registry invariant |
| KeyRegistry.FailureClosesStrandedWaiter | Task_J1/src/main/java/org/example/KeyServer.java:117-143 | with the intended completion, the client stranded above is the one connection closed and nobody is left waiting |
| KeyRegistry.TwoRequestsWait | Task_J1/src/main/java/org/example/KeyServer.java:115-143 | two requests for a new name leave one pending entry, one job, both clients waiting in order, and nothing queued |
| KeyRegistry.ConcurrentRequestsShareOneJob | Task_J1/src/main/java/org/example/KeyServer.java:115-185 | two requests for a new name share one job, whose result reaches both clients in request order with the same frame, or neither when the frame does not fit |
| KeyServer.ClientAttachment.constructor | Task_J1/src/main/java/org/example/KeyServer.java:74-79 | an accepted connection has empty buffers, no name, and is registered for `OP_READ` only |
| KeyServer.ArmedTwice | Task_J1/src/main/java/org/example/KeyServer.java:236-250 | arming a connection twice leaves the later buffer |
| KeyServer.LastBufferStep | Task_J1/src/main/java/org/example/KeyServer.java:236-250 | draining one more delivery changes only the last buffer of that delivery's client |
| KeyServer.ArmedInterest | Task_J1/src/main/java/org/example/KeyServer.java:246-248 | arming sets the write buffer and ORs `OP_WRITE` into the interest set, keeping every other interest |
| KeyServer.IdleWriteClearsOnlyWriteInterest | Task_J1/src/main/java/org/example/KeyServer.java:202-204 | `write` with no buffer removes `OP_WRITE` and keeps every other interest |
| KeyServer.WriteConservesBytes | Task_J1/src/main/java/org/example/KeyServer.java:206-208 | a write moves bytes from the buffer to the socket without losing or repeating any |
| KeyServer.FullWriteSendsFrameAndCloses | Task_J1/src/main/java/org/example/KeyServer.java:207-212 | a write the socket takes whole sends the entire buffer and closes the connection |
| KeyServer.ReadSegments | Task_J1/src/main/java/org/example/KeyServer.java:94-112 | how a name is split across reads does not change the outcome |
| KeyServer.RequestHandledOnce | Task_J1/src/main/java/org/example/KeyServer.java:96-101 | the read that completes the name joins the registry under the decoded name, and every later read changes nothing, so a connection makes at most one request |
| KeyServer.KeyServer.constructor | Task_J1/src/main/java/org/example/KeyServer.java:58-60 | the server starts with empty maps, no pending deliveries and no jobs |
| KeyServer.KeyServer.CloseChannel | Task_J1/src/main/java/org/example/KeyServer.java:215-221 | closing deregisters the connection and changes nothing else about it |
| KeyServer.KeyServer.DeliverResultToWaitingClients | Task_J1/src/main/java/org/example/KeyServer.java:161-187 | the new server state is the registry's delivery transition of the old one, and the method reports a throw exactly when there were waiters and the frame does not fit |
| KeyServer.KeyServer.HandleNameRequest | Task_J1/src/main/java/org/example/KeyServer.java:115-157 | the new state is the registry's request transition, and the connection is closed exactly when that transition says so; the invariant is kept |
| KeyServer.KeyServer.RunGenerationJob | Task_J1/src/main/java/org/example/KeyServer.java:121-133 | a pending job that ends gives the registry's completion transition and keeps the invariant |
| KeyServer.KeyServer.Read | Task_J1/src/main/java/org/example/KeyServer.java:83-113 | the byte loop has the effect of one read on registry and connection: end of stream closes, a complete name joins the registry once, an overflow closes |
| KeyServer.KeyServer.ScanByte | Task_J1/src/main/java/org/example/KeyServer.java:95-110 | one byte of the loop follows the name scanner: append, overflow and close, or hand over the completed name |
| KeyServer.KeyServer.DrainPendingDeliveries | Task_J1/src/main/java/org/example/KeyServer.java:236-251 | the drain empties the queue, keeps the registry, and arms each still-registered queued client with the last buffer queued for it; a closed client is left unchanged |
| KeyServer.KeyServer.Arm | Task_J1/src/main/java/org/example/KeyServer.java:246-248 | one drained delivery arms its client |
| KeyServer.KeyServer.Write | Task_J1/src/main/java/org/example/KeyServer.java:199-213 | a writable event with a given accepted count has the write effect on the connection |
| KeyClient.ParseCommandLine | Task_J1/src/main/java/org/example/KeyClient.java:20-34 | the `idx` loop gives the same result as the command-line grammar |
| KeyClient.ScanOptionArgs | Task_J1/src/main/java/org/example/KeyClient.java:21-30 | scanning well-formed options applies them in order (the last `--delay` wins) and goes on with what follows |
| KeyClient.ParseArgsAccepts | Task_J1/src/main/java/org/example/KeyClient.java:20-34 | options followed by a non-option name, a host and a port are accepted, and the three positionals are taken in order |
| KeyClient.UnknownOptionRejected | Task_J1/src/main/java/org/example/KeyClient.java:21-29 | an unknown `--` argument is a usage error |
| KeyClient.MissingDelayValueRejected | Task_J1/src/main/java/org/example/KeyClient.java:22-24 | a `--delay` with no value after it is a usage error |
| KeyClient.TooFewPositionalsRejected | Task_J1/src/main/java/org/example/KeyClient.java:20-31 | fewer than three arguments after the options is a usage error |
| KeyClient.RequestBytes | Task_J1/src/main/java/org/example/KeyClient.java:42-43 | the request is one byte per name char followed by exactly one zero byte |
| KeyClient.RequestRoundTrip | Task_J1/src/main/java/org/example/KeyClient.java:42-43 | the server's scanner reads back exactly the name the client sent, for a US-ASCII name without NUL of at most 4096 chars |
| KeyClient.DecodeBlobOf | Task_J1/src/main/java/org/example/KeyClient.java:59-63 | a length-prefixed blob decodes to its bytes and leaves the rest of the stream |
| KeyClient.DecodeResponseFrame | Task_J1/src/main/java/org/example/KeyClient.java:59-69 | decoding the server's frame gives back the key and cert bytes it was built from, whatever follows |
| KeyClient.ClientReceivesResult | Task_J1/src/main/java/org/example/KeyClient.java:59-69 | the client's key and cert bytes decode to the server's PEM texts |
| KeyClient.TruncatedFrameIsEof | Task_J1/src/main/java/org/example/KeyClient.java:59-69 | a frame cut short fails with the EOF error of the read it ends in |
| KeyClient.InputStream.constructor | Task_J1/src/main/java/org/example/KeyClient.java:39 | a fresh input stream has all its bytes still to come |
| KeyClient.InputStream.ReadNBytes | Task_J1/src/main/java/org/example/KeyClient.java:59 | `readNBytes(n)` returns the next n bytes, fewer only at end of stream, and consumes them |
| KeyClient.ReadBlob | Task_J1/src/main/java/org/example/KeyClient.java:59-63 | two reads follow the blob decoder: its error, or its bytes with the rest left in the stream |
| KeyClient.ReadResponse | Task_J1/src/main/java/org/example/KeyClient.java:59-69 | the four reads give exactly the frame decoder's result on the stream's bytes |
| LinkedList.Node.constructor | Task_J2/src/main/java/org/example/list/Node.java:11-13 | a new node holds the value and no successor |
| LinkedList.ConcurrentLinkedList.constructor | Task_J2/src/main/java/org/example/list/ConcurrentLinkedList.java:10-12 | a new list is a lone sentinel with no values |
| LinkedList.ConcurrentLinkedList.AddFirst | Task_J2/src/main/java/org/example/list/ConcurrentLinkedList.java:14-24 | the value becomes the first, the rest is unchanged, and `size` grows by one |
| LinkedList.ConcurrentLinkedList.Size | Task_J2/src/main/java/org/example/list/ConcurrentLinkedList.java:26-28 | `size` is the number of values |
| LinkedList.ConcurrentLinkedList.TrySwapIfOutOfOrder | Task_J2/src/main/java/org/example/list/ConcurrentLinkedList.java:30-49 | the call returns true exactly when prev→a→b are linked and `a.value.compareTo(b.value) > 0`; then the links become prev→b→a→(old b.next), the values swap places and the multiset is kept; otherwise nothing changes; `size` never changes |
| LinkedList.ConcurrentLinkedList.Relink | Task_J2/src/main/java/org/example/list/ConcurrentLinkedList.java:38-40 | the three assignments give prev→b→a→(old b.next) and exchange the two values in the list |
| LinkedList.ConcurrentLinkedList.Iterator | Task_J2/src/main/java/org/example/list/ConcurrentLinkedList.java:63-65 | a new iterator starts at the first value after the sentinel |
| LinkedList.SwapAdjacentFacts | Task_J2/src/main/java/org/example/list/ConcurrentLinkedList.java:38-40 | exchanging neighbours keeps the length and the multiset |
| LinkedList.SwapAdjacentDistinct | Task_J2/src/main/java/org/example/list/ConcurrentLinkedList.java:38-40 | exchanging neighbours keeps the cells distinct |
| LinkedList.ListIterator.constructor | Task_J2/src/main/java/org/example/list/ConcurrentLinkedList.java:64-65 | the iterator's cursor is `head.next` |
| LinkedList.ListIterator.HasNext | Task_J2/src/main/java/org/example/list/ConcurrentLinkedList.java:68-70 | `hasNext` holds exactly while values remain |
| LinkedList.ListIterator.Next | Task_J2/src/main/java/org/example/list/ConcurrentLinkedList.java:73-79 | `next` returns the values in link order and advances; past the end it throws `NoSuchElementException` |
| BubblePass.SwapIfOutOfOrder | Task_J2/src/main/java/org/example/sort/BubbleSorterArray.java:40-44 | one comparison keeps the length |
| BubblePass.SwapIfOutOfOrderPermutes | Task_J2/src/main/java/org/example/sort/BubbleSorterArray.java:43 | one comparison keeps the multiset |
| BubblePass.PassFromPermutes | Task_J2/src/main/java/org/example/sort/BubbleSorterArray.java:32-46 | the rest of a pass keeps the length and the multiset |
| BubblePass.PassPermutes | Task_J2/src/main/java/org/example/sort/BubbleSorterArray.java:32-46 | a pass keeps the length and the multiset |
| BubblePass.SwapCarriesMax | Task_J2/src/main/java/org/example/sort/BubbleSorterArray.java:40-44 | a comparison carries the maximum of the prefix one position on |
| BubblePass.PassFromCarriesMax | Task_J2/src/main/java/org/example/sort/BubbleSorterArray.java:32-46 | a maximum picked up by a pass is carried to the last position |
| BubblePass.PassMovesMaxToEnd | Task_J2/src/main/java/org/example/sort/BubbleSorterArray.java:32-46 | after a pass the last value is a maximum |
| BubblePass.PassFromSortedUnchanged | Task_J2/src/main/java/org/example/sort/BubbleSorterArray.java:32-46 | the rest of a pass leaves a sorted list alone |
| BubblePass.PassSortedUnchanged | Task_J2/src/main/java/org/example/sort/BubbleSorterArray.java:32-46 | a pass leaves a sorted list unchanged |
| BubbleSorterArray.BubbleSorterArray.constructor | Task_J2/src/main/java/org/example/sort/BubbleSorterArray.java:18-22 | the sorter keeps its list and step counter |
| BubbleSorterArray.BubbleSorterArray.RunPass | Task_J2/src/main/java/org/example/sort/BubbleSorterArray.java:28-49 | one pass turns the list into the pass of its old contents and adds max(n-1,0) steps |
| BubbleSorterLinked.BubbleSorterLinked.constructor | Task_J2/src/main/java/org/example/sort/BubbleSorterLinked.java:16-20 | the sorter keeps its list and step counter |
| BubbleSorterLinked.BubbleSorterLinked.RunPass | Task_J2/src/main/java/org/example/sort/BubbleSorterLinked.java:26-41 | one pointer-walking pass from the sentinel gives the same values as the array pass, adds max(n-1,0) steps, and keeps the list well formed and its cells the same |
| BubbleSorterLinked.BubbleSorterLinked.Step | Task_J2/src/main/java/org/example/sort/BubbleSorterLinked.java:29-40 | one iteration counts a step, makes one comparison, and keeps the pass invariant one position further on |
| BubbleSorterLinked.BubbleSorterLinked.CompareAt | Task_J2/src/main/java/org/example/sort/BubbleSorterLinked.java:32-40 | the comparison at position i: the values become one step of the pass, and prev/a move so that prev is the cell at position i+1 whether or not a swap took place |
| ConsoleUtil.Split80 | Task_J2/src/main/java/org/example/app/ConsoleUtil.java:10-21 | the chunks concatenate to s; each has at most 80 chars and all but the last exactly 80; "" gives [""]; otherwise there are ceil(\|s\|/80) chunks, none of them empty |
| AsyncSpider.SkipSpaces | Task_J3/src/main/java/org/example/AsyncSpider.java:30 | greedy `\s*` stops at the first non-space character |
| AsyncSpider.CloseFrom | Task_J3/src/main/java/org/example/AsyncSpider.java:30-32 | a lazy group ends at the first close character, and the group holds no line terminator when `.` excludes them |
| AsyncSpider.OpenAt | Task_J3/src/main/java/org/example/AsyncSpider.java:30-31 | the group opens just after the key, the colon and the opening character |
| AsyncSpider.MatchAt | Task_J3/src/main/java/org/example/AsyncSpider.java:30-32 | a match at q starts at q, and its group ends just before its last character |
| AsyncSpider.OpenAtSound | Task_J3/src/main/java/org/example/AsyncSpider.java:30-31 | what the prefix scanner finds is key `\s*` : `\s*` open |
| AsyncSpider.OpenAtComplete | Task_J3/src/main/java/org/example/AsyncSpider.java:30-31 | whenever key `\s*` : `\s*` open spans a text, the prefix scanner finds it |
| AsyncSpider.MatchAtSound | Task_J3/src/main/java/org/example/AsyncSpider.java:30-32 | what the scanner returns is a match of the pattern whose group holds no close character, and no line terminator for the string pattern |
| AsyncSpider.MatchAtComplete | Task_J3/src/main/java/org/example/AsyncSpider.java:30-32 | whenever the pattern can match at a position, the scanner finds a match there with the same group start and a group no longer |
| AsyncSpider.FirstMatchFrom | Task_J3/src/main/java/org/example/AsyncSpider.java:225 | `find` returns a match at the leftmost position where one exists |
| AsyncSpider.StringMatches | Task_J3/src/main/java/org/example/AsyncSpider.java:236-238 | each successive find is a match of the string pattern in the array text |
| AsyncSpider.StringMatchesChain | Task_J3/src/main/java/org/example/AsyncSpider.java:236-238 | the finds chain like repeated `find()`: each is the leftmost match from the previous end, and none follows the last |
| AsyncSpider.ParseNode | Task_J3/src/main/java/org/example/AsyncSpider.java:220-242 | `parseNode` always returns the node that the message and successor extraction define |
| AsyncSpider.CollectStrings | Task_J3/src/main/java/org/example/AsyncSpider.java:236-238 | the find loop appends the unescaped group of each successive string find |
| AsyncSpider.ReplaceAllWithoutChar | Task_J3/src/main/java/org/example/AsyncSpider.java:251 | `replace` leaves a text alone if a char of the pattern never occurs in it |
| AsyncSpider.ReplaceAllNotLonger | Task_J3/src/main/java/org/example/AsyncSpider.java:251 | `replace` with a replacement no longer than the pattern never lengthens the text |
| AsyncSpider.ReplaceAllKeepsCharOut | Task_J3/src/main/java/org/example/AsyncSpider.java:251 | `replace` introduces no char that is in neither the text nor the replacement |
| AsyncSpider.UnescapeWithoutBackslash | Task_J3/src/main/java/org/example/AsyncSpider.java:250-252 | `unescape` returns a string without backslashes unchanged |
| AsyncSpider.UnescapeNotLonger | Task_J3/src/main/java/org/example/AsyncSpider.java:250-252 | `unescape` never lengthens a string |
| AsyncSpider.ReplaceEscapedQuotes | Task_J3/src/main/java/org/example/AsyncSpider.java:251 | on JSON-escaped text the first `replace` turns every `\"` back into `"` and leaves the doubled backslashes |
| AsyncSpider.HalveBackslashes | Task_J3/src/main/java/org/example/AsyncSpider.java:251 | the second `replace` turns the doubled backslashes back into single ones |
| AsyncSpider.UnescapeEscape | Task_J3/src/main/java/org/example/AsyncSpider.java:250-252 | `unescape` undoes JSON escaping of quotes and backslashes |
| AsyncSpider.MessageAbsentIffNoMatch | Task_J3/src/main/java/org/example/AsyncSpider.java:221-226 | the message is null exactly when the message pattern matches nowhere in the body |
| AsyncSpider.MessageFromLeftmostMatch | Task_J3/src/main/java/org/example/AsyncSpider.java:224-226 | the message is the unescaped group of the leftmost match, whose group is the shortest there and holds no quote |
| AsyncSpider.SuccessorsAbsentWithoutArray | Task_J3/src/main/java/org/example/AsyncSpider.java:228-232 | with no match of the successors pattern the list is empty |
| AsyncSpider.StringsFromMatches | Task_J3/src/main/java/org/example/AsyncSpider.java:236-238 | the collected strings are, one for one and in order, the unescaped groups of the finds |
| AsyncSpider.SuccessorsArrayShape | Task_J3/src/main/java/org/example/AsyncSpider.java:231-233 | the array text is the group of a successors match and stops at the first `]` |
| AsyncSpider.SuccessorsAreUnescapedFinds | Task_J3/src/main/java/org/example/AsyncSpider.java:231-239 | the successors are the unescaped groups of the successive string finds in the array text, in order |
| AsyncSpider.ArrayFindsAreStrings | Task_J3/src/main/java/org/example/AsyncSpider.java:236-238 | each find is a quoted string on one line with no quote inside, and the finds do not overlap |
| AsyncSpider.MessageNeverHasQuote | Task_J3/src/main/java/org/example/AsyncSpider.java:30 | as written, an extracted message never contains a quote |
| AsyncSpider.EscapedQuoteFirstMatch | Task_J3/src/main/java/org/example/AsyncSpider.java:224-225 | in `{"message":"a\"b"}` the first match starts at the key and its group is `a\` |
| AsyncSpider.EscapedQuoteCutsMessage | Task_J3/src/main/java/org/example/AsyncSpider.java:224-226 | as written, `{"message":"a\"b"}` yields the message `a\` |
| AsyncSpider.UnescapeBackslashA | Task_J3/src/main/java/org/example/AsyncSpider.java:251 | `unescape` leaves `a\` as it is |
| AsyncSpider.WrittenMessageLosesQuotes | Task_J3/src/main/java/org/example/AsyncSpider.java:30 | as written, a message text containing a quote never comes back whole from a body the server escapes |
| AsyncSpider.IntendedMessageOfBody | Task_J3/src/main/java/org/example/AsyncSpider.java:30 | with the intended pattern, a body that opens with the key and an escaped string yields the original text |
| AsyncSpider.IntendedMessageRoundTrip | Task_J3/src/main/java/org/example/AsyncSpider.java:30 | with the intended pattern, any message text, quotes and backslashes included, comes back whole |
| AsyncSpider.SuccessorsOfBody | Task_J3/src/main/java/org/example/AsyncSpider.java:231-239 | for a body `{"successors":[` arr `]` rest whose array text holds no `]`, the successors are exactly the strings found in arr |
| AsyncSpider.EscapedQuoteArrayStrings | Task_J3/src/main/java/org/example/AsyncSpider.java:236-238 | in the array text `"a\"b"` the string pattern finds one string, `a\`, and nothing after it |
| AsyncSpider.EscapedQuoteCutsSuccessor | Task_J3/src/main/java/org/example/AsyncSpider.java:231-239 | as written, `{"successors":["a\"b"]}` yields the one successor `a\` |
| AsyncSpider.IntendedStringAt | Task_J3/src/main/java/org/example/AsyncSpider.java:32 | the intended string pattern's match starts at a quote, and its group ends just before a quote |
| AsyncSpider.IntendedStringRoundTrip | Task_J3/src/main/java/org/example/AsyncSpider.java:32 | with the intended string pattern, any successor text, quotes and backslashes included, comes back whole from its escaped string |
| AsyncSpider.WrittenSuccessorLosesQuotes | Task_J3/src/main/java/org/example/AsyncSpider.java:32 | as written, a successor text containing a quote never comes back whole as the first string of its escaped array text |
| AsyncSpider.BracketInSuccessorCutsArray | Task_J3/src/main/java/org/example/AsyncSpider.java:231-239 | as written, `{"successors":["a]b"]}` yields no successors, because the array text stops at the `]` inside the string |

## Left out

- Threads, locks and atomicity are not modelled. The generator pool, `synchronized` blocks, the atomicity of `ConcurrentHashMap.compute`/`computeIfAbsent`, `selector.wakeup()`, the per-node `ReentrantLock`s and `lockOrdered` are all left out. Each program is modelled as one sequential state, and an interleaving is a sequence of calls.
- Sockets and the selector are parameters. A read is a `ReadResult` (end of stream, or the bytes read), and a write is the number of bytes the socket accepts. `accept`'s registration is the `ClientAttachment` constructor. Closing a channel clears a `registered` flag. The `select` loop dispatch and its catch-all close are left out.
- KeyServer.KeyServer.Read: the 1024-byte read buffer is not modelled. A read is any byte sequence, which covers every buffer size.
- Key generation is a `GenerationOutcome` parameter, either a `KeyResult` or a failure. The RSA-8192/X.509 work in `generateKeyAndCert`, `loadPrivateKeyFromPem` and the server's `main` are left out, as is all logging.
- The interest set is a set of operations instead of an int bit mask. OR-ing `OP_WRITE` in adds it, and masking it out removes it.
- `ByteBuffer` positions are left out. A pending delivery's buffer and a write buffer are the bytes still to be sent. `asReadOnlyBuffer` copies are identical frames, and `mark` has no effect on what is sent.
- Bytes are the unsigned values 0..255. A Java `byte` compared with `0` is the same test.
- JavaString.CompareTo: compares whole Unicode characters (a Dafny `char`), while Java's `compareTo` compares UTF-16 code units. For strings holding characters above U+FFFF the order can differ: Java puts `"\uFFFF"` after U+1F600 (0xFFFF - 0xD83D > 0), the model before it. Both bubble passes inherit this order.
- ConsoleUtil.Split80: counts lengths in whole characters, while Java's `length` and `substring` count UTF-16 units. A string holding characters above U+FFFF is cut into different chunks (80 copies of U+1F600 is two chunks in Java, one here), and a Java chunk boundary that falls inside a surrogate pair cannot be represented.
- The same applies to the 2^31 bound on a PEM text's length in `KeyProtocol`: it counts characters, not UTF-16 units.
- KeyRegistry.Complete: follows the code. A failed generation completes the future exceptionally, but the clients already waiting are neither answered nor closed (`FailureLeavesWaiters`). Only later requests for that name are closed (lines 151-155). Closing the waiting clients as well, which is evidently intended, is modelled beside it as `CompleteClosingWaiters` (see Findings); the server class uses the code's `Complete`.
- KeyClient: `Integer.parseInt` is not modelled. The delay and the port stay argument text. In Java a malformed number makes `parseInt` (lines 25 and 34) throw `NumberFormatException` out of `main`; the model has no such path and accepts any text there. The connect, `Thread.sleep`, `--exit-after-send`'s early close (lines 47-51) and the two file writes are left out.
- LinkedList.ConcurrentLinkedList.TrySwapIfOutOfOrder: `a` and `b` are non-null. In the source, a null `a` fails in `lockOrdered` and a null `b` fails in the `finally` block's unlock, so the null test at line 33 can never return false normally. The only caller never passes null.
- StepCounter is a plain integer, so its `AtomicLong` has no overflow.
- BubbleSorterArray.BubbleSorterArray.RunPass: the list has a fixed length during the pass, so the `i + 1 < list.size()` re-check of line 39 always holds. Concurrent insertions by other threads are not modelled.
- The bubble sorters' endless outer loops, the sleeps and interruption handling are not modelled. Each sorter is modelled as one pass.
- `ConsoleUtil.printLinked` and `printArray`, the Task_J2 `Main` and `StopFlag` classes, and `KeyClientTest`, which only starts many clients, are not part of this model.
- AsyncSpider.SuccessorsOf: follows the code. `SUCCESSORS_P` (line 31) ends the array text at the first `]`, even one inside a string, so `{"successors":["a]b"]}` has no successors (`BracketInSuccessorCutsArray`). An array pattern that skips strings is not modelled.
- AsyncSpider: `crawl`, `fetchNode` (HTTP client, timeouts, retries), `main`, and the visited set and message queue are not part of this model. Regex matching is modelled only for the three fixed patterns, not as a general engine.

## Findings

| source | as written | input that shows it | evidently intended | confidence | as-written member | corrected member |
|---|---|---|---|---|---|---|
| Task_J3/src/main/java/org/example/AsyncSpider.java:30 | `MESSAGE_P`'s lazy group stops at the first `"`, even an escaped one, so `unescape`'s `\"` replacement can never fire on a message and any message text containing a quote is cut short | `{"message":"a\"b"}` yields the message `a\` instead of `a"b` | the group runs to the first quote no backslash escapes (`((?:[^"\\]\|\\.)*)`), so that `unescape` returns the original text | not executed | AsyncSpider.EscapedQuoteCutsMessage | AsyncSpider.IntendedMessageRoundTrip |
| Task_J3/src/main/java/org/example/AsyncSpider.java:32 | `STRING_IN_ARRAY_P`'s lazy group stops at the first `"`, even an escaped one, so a successor path containing a quote is cut short and the rest of it is dropped | `{"successors":["a\"b"]}` yields the successors `[a\]` instead of `[a"b]` | the group runs to the first quote no backslash escapes, as for the message | not executed | AsyncSpider.EscapedQuoteCutsSuccessor | AsyncSpider.IntendedStringRoundTrip |
| Task_J1/src/main/java/org/example/KeyServer.java:129-131 | a failed generation only completes the future exceptionally; the clients already waiting on the name are neither answered nor closed | a client asks for a new name and the generation job fails: its connection stays open with nothing queued | every client waiting on a failed name is closed, as later requests for it are | not executed | KeyRegistry.WaiterStrandedByFailure | KeyRegistry.FailureClosesStrandedWaiter |
