# Just Weather: a verified model

Just Weather is a small weather server in C. It brings its own MD5, linked list, cache, cooperative
scheduler, HTTP server and HTTP client. This project models those six parts in Dafny, in the form
the C code has (classes with fields that are updated in place, loops, arrays), and proves what each
of them is for.

- `Md5Spec.dfy` is MD5 as RFC 1321 defines it, sections 3.1 to 3.5. `Md5.dfy` is the C code: the
  unrolled rounds, the buffered update with its split 29-bit/32-bit byte counter, and the
  finalisation. The digest of every message is that of RFC 1321, however the message is cut.
  `Md5Vectors.dfy` proves two vectors of the test suite of RFC 1321, section A.5.
- `LinkedList.dfy` is the doubly linked list on the heap. `CacheSpec.dfy` is a bounded,
  insertion-ordered map with expiry, as a sequence of entries, together with the theorems about
  whole runs; `Cache.dfy` is the cache over the list and refines it.
- `Scheduler.dfy` is the task list with `smw_work`, whose callbacks create tasks and destroy their
  own while the list is being walked.
- `Collections.dfy` holds optional values and concatenation, which several modules use.
- `Text.dfy` and `HttpMessages.dfy` hold what both ends of HTTP use: `strstr`, the conversions of
  `sscanf`, decimal numbers, the end of a header. `HttpServer.dfy`, `HttpClient.dfy` and
  `WeatherServer.dfy` are the connection, the client and the request handler. `RoundTrip.dfy` puts
  both ends together.

The framing is the Content-Length subset of sections 6.2 and 6.3 of RFC 9112.

Conventions. A method that changes state is tied to a function of the old state; the theorems are
lemmas about those functions. What a callback, a socket, a clock or an allocation does is a
parameter: a list of actions, a chunk of bytes or a count, a time, a `memory` flag. A `char` stands
for one octet. In the HTTP modules a request method is called `verb`. Inductions are written out;
`{:induction false}` keeps Dafny from adding its own.

Where a promise does not hold for every input, the exact condition is proved:

- A path that contains the text `Host:` or `Content-Length:` is taken for that header field by the
  server, and a path is cut at 255 characters. `RoundTrip.RequestReadsBack` says what the server
  makes of every request of the client, and `RoundTrip.RequestArrivesIff` which requests arrive
  unchanged. `RoundTrip.ClaimedBodyNeverComes` is a path with which the server waits for a body
  that is never sent.
- `body_start + content_len` is a sum of 64-bit sizes and wraps around when the claimed length is
  near 2^64. The whole request of the client is complete for the server if and only if its path
  claims no body or makes that sum wrap (`RoundTrip.RequestIsCompleteIff`); the second case is real
  (`RoundTrip.NegativeLengthWraps`). Requests other than GET then fail for want of a block for the
  body, and the connection goes on waiting.
- The loop condition `i <= read_buffer_size - 4` is computed with unsigned sizes. It keeps the scan
  inside the buffer exactly when the buffer has at least four bytes (`HttpMessages.ScanStaysInside`).
- The homepage says that `POST /echo` echoes the raw body. The code sends back the whole read
  buffer, which is never the body alone (`RoundTrip.EchoIsTheWholeRequest`). The model follows the code.
- With `max_size` 0 the cache still keeps the entry set last. Its real capacity is therefore
  the larger of 1 and `max_size` (`CacheSpec.RunWellFormed`).
- A task created by the callback of the last node of a pass waits for the next pass; every other
  created task runs in the same one (`Scheduler.CreatedRunsUnlessByTail`).
- A pass need not end: with two tasks or more whose callbacks all create one, no pass is complete
  (`Scheduler.EndlessPass`). It ends when, from some visit on, every callback creates no more than a
  weight of its task pays for, and every complete pass is one of such callbacks
  (`Scheduler.EveryCompletePassPays`). Acceptors that create one connection task a call are the
  simplest case, with weight 1 for an acceptor and 0 for a connection.

## Model

| member | source | states |
|---|---|---|
| Md5Spec.PaddingIsLeast | src/server/hash_md5.c:205-221 | the zeros between 0x80 and the length are the least number that leaves exactly eight bytes of a block |
| Md5Spec.LittleEndianRoundTrip | src/server/hash_md5.c:223-231 | the length field read back gives the number modulo 256^k, for every number and every width k |
| Md5Spec.LittleEndianSplit | src/server/hash_md5.c:223-231 | writing a low and a high half one after the other writes the combined number |
| Md5Spec.DecodeEncode | src/server/hash_md5.c:235-250 | a word written out byte by byte is read back unchanged |
| Md5Spec.DecodeValue | src/server/hash_md5.c:47-51 | the shifted and or-ed bytes of a word denote the value of the four bytes, low-order byte first |
| Md5Spec.EncodeValue | src/server/hash_md5.c:235-250 | the four bytes written for a word denote its value |
| Md5Spec.OutputInjective | src/server/hash_md5.c:235-250 | the sixteen output bytes determine all four registers |
| Md5Spec.OutputValue | src/server/hash_md5.c:235-250 | the sixteen bytes denote the four registers, a first and each low-order byte first |
| Md5Spec.ChainAppend | src/server/hash_md5.c:56-160 | hashing the blocks of a concatenation is hashing the two parts one after the other |
| Md5.MacrosAgree | src/server/hash_md5.c:30-34 | the rewritten F and G, and H, H2 and I, are the auxiliary functions of RFC 1321 section 3.4 for all words |
| Md5.RotateAgrees | src/server/hash_md5.c:39 | the shift-or form is a left rotation for every word and each of the 64 shifts |
| Md5.SumsAgree | src/server/hash_md5.c:38 | the compound assignment adds the four words of section 3.4 modulo 2^32 |
| Md5.Step | src/server/hash_md5.c:37-40 | one STEP is operation k of section 3.4, given that its word, constant and shift are those of k; the registers rotate |
| Md5.LoadIsWord | src/server/hash_md5.c:47-52 | SET(n) reads the n-th little-endian word of the 64-byte block |
| Md5.CarryIsExact | src/server/hash_md5.c:176-179 | for every 64-bit size the carry test keeps lo below 2^29 and the byte count exact modulo 2^61 |
| Md5.CounterSum | src/server/hash_md5.c:176-179 | the truncated lo and hi after an update are the low 29 bits and the rest of the true sum |
| Md5.CounterFill | src/server/hash_md5.c:181 | the low six bits of lo are the fill of the buffer |
| Md5.LengthField | src/server/hash_md5.c:223-231 | lo shifted by three and hi, written out, are the bit length modulo 2^64 of section 3.2 |
| Md5.PadInOneBlock | src/server/hash_md5.c:214-231 | with at most 55 bytes in the buffer the padded message ends in the current block |
| Md5.PadInTwoBlocks | src/server/hash_md5.c:214-221 | with 56 bytes or more the padding takes the current block and one more, zero up to the length |
| Md5.Md5Ctx.Set | src/server/hash_md5.c:47-51 | the value is word n of the block, and it is also stored for the later rounds |
| Md5.Md5Ctx.StepSet | src/server/hash_md5.c:75-90 | a step of round 1 is operation k and stores word k, without disturbing those stored before |
| Md5.Md5Ctx.Block | src/server/hash_md5.c:68-149 | the 64 unrolled lines and the four additions are the compression function of section 3.4 |
| Md5.Md5Ctx.Body | src/server/hash_md5.c:56-160 | for every positive multiple of 64 bytes the registers absorb exactly those blocks in order, and the pointer behind them is returned |
| Md5.Md5Ctx.Init | src/server/hash_md5.c:162-170 | the registers of section 3.3, a zero count, nothing seen |
| Md5.Md5Ctx.AbsorbBlocks | src/server/hash_md5.c:197-202 | whole blocks go straight into the registers and the rest into the buffer |
| Md5.Md5Ctx.Absorb | src/server/hash_md5.c:183-202 | for every fill and every size: registers are the fold over the full blocks seen, the buffer holds the tail |
| Md5.Md5Ctx.Update | src/server/hash_md5.c:172-203 | keeps the invariant (counter, registers, tail) and appends the bytes to what has been seen, for every 64-bit size |
| Md5.Md5Ctx.WriteLength | src/server/hash_md5.c:223-231 | the last eight bytes become the bit length of everything seen, the first 56 stay |
| Md5.Md5Ctx.PadBuffer | src/server/hash_md5.c:208-221 | in both branches, what was hashed and what is left in the buffer are the padded message up to its length |
| Md5.Md5Ctx.FinishBlocks | src/server/hash_md5.c:205-233 | what Update and Final feed to body together is exactly the padded message |
| Md5.Md5Ctx.WriteResult | src/server/hash_md5.c:235-250 | the result is the output of section 3.5 |
| Md5.Md5Ctx.Wipe | src/server/hash_md5.c:252 | counter, registers, buffer and block are all zero |
| Md5.Md5Ctx.Final | src/server/hash_md5.c:205-253 | the result is the RFC 1321 digest of everything passed to Update; the context is wiped |
| Md5.HashBinary | src/server/hash_md5.c:259-270 | for every message the output is its RFC 1321 digest; for a null pointer -1 and nothing is written |
| Md5.HashPieces | src/server/hash_md5.c:162-253 | any sequence of updates gives the digest of the concatenation, so the digest does not depend on the cuts |
| Md5.HexRoundTrip | src/server/hash_md5.c:278-281 | the text read back as hexadecimal gives the value of every byte |
| Md5.BinaryToString | src/server/hash_md5.c:272-285 | 32 digits and a NUL, nothing behind them changes; too small an output gives -1 and is left alone |
| Md5Vectors.EmptyDigest | src/server/hash_md5.c:56-253 | the digest of the empty message is d41d8cd98f00b204e9800998ecf8427e |
| Md5Vectors.MessageDigest | src/server/hash_md5.c:56-253 | the digest of the 62 letters and digits, two blocks that use every word, is d174ab98d277d9f5a5611c2c9f419d9f |
| LinkedLists.LinkedList.NeighboursAgree | src/lib/linked_list.c:41-158 | in every valid list front and back are mutually inverse, neighbours are in the list, and only head and tail lack one |
| LinkedLists.LinkedList.GetIndex | src/lib/linked_list.c:16-39 | the node at the index from whichever end, null outside, following at most size/2 links |
| LinkedLists.LinkedList.Append | src/lib/linked_list.c:41-62 | the sequence with the item at its end, invariant kept; on a failed allocation nothing changes |
| LinkedLists.LinkedList.Insert | src/lib/linked_list.c:64-95 | the sequence with the item before the index, or at the end for an index at or past the size; all other nodes stay the same nodes |
| LinkedLists.LinkedList.Remove | src/lib/linked_list.c:97-130 | the sequence without that node, its links cleared, its item freed once; null gives 1 |
| LinkedLists.LinkedList.Pop | src/lib/linked_list.c:132-139 | the sequence without the element at the index, which is freed once; outside the list 1 and no change |
| LinkedLists.LinkedList.Clear | src/lib/linked_list.c:141-158 | the list is empty and every item was freed exactly once, in order |
| LinkedLists.LinkedWithout | src/lib/linked_list.c:97-130 | links that skip one node are the links of the sequence without it |
| LinkedLists.LinkedWith | src/lib/linked_list.c:64-95 | links that pass through a new node are the links of the sequence with it |
| CacheSpec.RemoveKeyUnique | src/lib/cache.c:112-126 | with unique keys, removal takes away exactly that key and at most one entry |
| CacheSpec.StepKeepsWellFormed | src/lib/cache.c:45-132 | every operation keeps the keys unique and the size within the capacity |
| CacheSpec.RunWellFormed | src/lib/cache.c:45-132 | so in every reachable state keys are unique and there are at most max_size entries (one if max_size is 0) |
| CacheSpec.ResetEvictsNobody | src/lib/cache.c:50-60 | setting a present key moves it to the tail and keeps every other key |
| CacheSpec.RunSorted | src/lib/cache.c:76-80 | with a clock that never goes back, timestamps are sorted along the list in every reachable state |
| CacheSpec.EvictsTheOldest | src/lib/cache.c:53-60 | the entry evicted for a new key has the least timestamp of all |
| CacheSpec.MakeRoomSpares | src/lib/cache.c:50-60 | while fewer than max_size other keys were set since, a set of another key does not evict this one |
| CacheSpec.RunSpares | src/lib/cache.c:45-132 | the same over whole runs of all four operations |
| CacheSpec.SetSurvives | src/lib/cache.c:45-126 | after any run, a set, and any run that spares it with fewer than max_size distinct other keys set, the lookup before expiry finds exactly the bytes set |
| CacheSpec.SetSurvivesUntilExpiry | src/lib/cache.c:45-126 | the same with a non-decreasing clock, where lookups in between need no condition |
| CacheSpec.EvictionIsExact | src/lib/cache.c:53-60 | under successful sets alone a key is still present if and only if fewer than max_size distinct other keys were set since |
| CacheSpec.SetStores | src/lib/cache.c:67-80 | the new entry is the last one, with the data, the time of the set, and its expiry at ttl or, without a positive ttl, at the default from then |
| CacheSpec.Expires | src/lib/cache.c:88-98 | after any run, a set, and any events that do not set the key again, a lookup later than the end of the ttl finds nothing and the key is gone |
| CacheSpec.FoundExactlyUntilTheEnd | src/lib/cache.c:77-105 | under the conditions of survival a lookup finds the data if and only if the ttl has not ended |
| CacheSpec.FailedSetForgets | src/lib/cache.c:50-74 | a set that fails has forgotten the key all the same |
| Caches.Cache.constructor | src/lib/cache.c:21-35 | an empty cache with the given bound and default time to live |
| Caches.Cache.Remove | src/lib/cache.c:112-126 | the entries without the first one with that key, over the real list |
| Caches.Cache.EvictIfFull | src/lib/cache.c:53-60 | a full cache loses its head entry, any other nothing |
| Caches.Cache.Set | src/lib/cache.c:45-86 | the entries are those of the specification, for every key, time and allocation outcome; -1 exactly on failure |
| Caches.Cache.Get | src/lib/cache.c:88-110 | the bytes last set if present and not expired; nothing changes unless the entry found is expired, which is then removed |
| Caches.Cache.Clear | src/lib/cache.c:128-132 | no entries are left |
| Caches.PerformAll | src/lib/cache.c:45-132 | a whole run on the real list ends in the entries of the specification's run |
| Caches.SetThenGet | src/lib/cache.c:45-126 | the survival guarantee on the real cache over the real list, up to and including the last moment of the ttl |
| Caches.SetThenExpire | src/lib/cache.c:45-126 | on the real cache a lookup later than the end of the ttl returns nothing, and so does every one after it, whatever the clock says |
| Scheduler.Smw.CreateTask | src/lib/smw.c:19-39 | the task is new and goes to the end of the list; null and no change on a failed allocation |
| Scheduler.Smw.DestroyTask | src/lib/smw.c:41-55 | the list without the one node that holds the task, unchanged if there is none |
| Scheduler.Smw.VisitNode | src/lib/smw.c:63-70 | one round: the successor saved before the callback is the node to visit next, whatever the callback created and even if it destroyed its own task |
| Scheduler.Smw.Work | src/lib/smw.c:57-71 | for callbacks without any bound in advance, as long as from some visit on they pay for what they create: the pass ends, is complete, makes the calls of its visits in order, and leaves the kept nodes and the tasks created last |
| Scheduler.Smw.WorkOfServer | src/lib/tcp_server.c:85-110 | with acceptors that create at most one other task a call, at every visit, a pass ends within as many visits as there are tasks and acceptors at its start |
| Scheduler.VisitActs | src/lib/smw.c:66-68 | the visit of a task with a callback creates one task for each creation of its callback, in order and with that context and callback, and destroys its own task exactly when the callback does |
| Scheduler.VisitWithoutCallback | src/lib/smw.c:66-68 | the visit of a task without a callback does nothing |
| Scheduler.CalledExactly | src/lib/smw.c:66-68 | the calls are one for each visit of a task with a callback, in the order of the visits, and no others |
| Scheduler.NextIsTheSavedSuccessor | src/lib/smw.c:63-70 | the node of every visit is in the list when the visit begins, the next visit goes to its successor in that list, and the pass ends exactly when it has none there |
| Scheduler.ListsFollow | src/lib/smw.c:63-70 | the recorded lists are those of the run: the first is the start, each next one lacks what the visit destroyed and ends in what it created |
| Scheduler.FinalList | src/lib/smw.c:63-70 | the list that a pass leaves is that of its last visit, without what it destroyed and with what it created at the end |
| Scheduler.StartingTasksOnce | src/lib/smw.c:57-71 | every task present at the start is visited exactly once and in order |
| Scheduler.CreatedRunsUnlessByTail | src/lib/smw.c:57-71 | a created task runs in the same pass if and only if its creator was not at the tail of the list when its callback began |
| Scheduler.CreatedBound | src/lib/tcp_server.c:85-110 | tasks that pay for what they create: the budget of everything created and the number of visits together stay within the budget of the visited tasks |
| Scheduler.PassWithinBudget | src/lib/smw.c:57-71 | a complete pass of such callbacks makes no more visits than the budget of its start |
| Scheduler.PassLengthBound | src/lib/http_server/http_server_connection.c:31-32 | when only acceptors create, one task a call and no acceptors, a complete pass makes at most as many visits as there are tasks and acceptors at the start |
| Scheduler.EndlessPass | src/lib/smw.c:62-70 | two tasks or more whose callbacks always create have no complete pass |
| Scheduler.EveryCompletePassPays | src/lib/smw.c:62-70 | every complete pass is the pass of callbacks that pay from some visit on, so the condition of Work excludes none |
| Text.DecRoundTrip | src/server/weather_server_instance.c:90-97 | printing a number in decimal and reading the digits are inverse |
| Text.ScanSizeIs | src/lib/http_client.c:338-344 | a printed 64-bit size behind a space is read back by %zu |
| Text.ScanSizeSigned | src/lib/http_server/http_server_connection.c:154-158 | every printed number behind any white space and any sign: too large ones become the largest size, negative ones count down from 2^64 |
| Text.ScanTokenIs | src/lib/http_server/http_server_connection.c:147-152 | a bounded %s conversion returns the token if it fits, else its first characters |
| Text.ScanTokenCut | src/lib/http_server/http_server_connection.c:147 | the rest of a token that does not fit is left for the next conversion |
| HttpMessages.HeaderEndStable | src/lib/http_server/http_server_connection.c:123-131 | once found, the end of the header and the header do not change when more bytes arrive |
| HttpMessages.FindHeaderEnd | src/lib/http_server/http_server_connection.c:125-138 | the index behind the first CRLFCRLF, 0 if there is none |
| HttpMessages.ScanStaysInside | src/lib/http_server/http_server_connection.c:125 | the unsigned loop condition is the intended bound if and only if at least four bytes are buffered |
| HttpServer.HttpServerConnection.constructor | src/lib/http_server/http_server_connection.c:16-35 | a connection that has received nothing, with its task |
| HttpServer.HttpServerConnection.ParseHeaders | src/lib/http_server/http_server_connection.c:123-171 | with a complete header, the fields are those of a one-shot parse of it; else nothing changes |
| HttpServer.HttpServerConnection.TakeIn | src/lib/http_server/http_server_connection.c:112-171 | the fields are those of a one-shot parse of all bytes so far |
| HttpServer.HttpServerConnection.AnswerIfComplete | src/lib/http_server/http_server_connection.c:173-194 | the handler is called once if the request is complete and not at all otherwise; -1 exactly when the bytes suffice but no block can hold the body |
| HttpServer.HttpServerConnection.ReceiveChunk | src/lib/http_server/http_server_connection.c:96-197 | the whole new state and history: still waiting, or answering with one more call of the handler on a complete request, in 64-bit arithmetic |
| HttpServer.HttpServerConnection.SendSome | src/lib/http_server/http_server_connection.c:67-93 | the whole new state for an accepted count, would-block and an error; the socket is offered the rest of the response and the bytes it takes join those accepted |
| HttpServer.HttpServerConnection.Release | src/lib/http_server/http_server_connection.c:214-252 | the task is gone and every field is reset |
| HttpServer.HttpServerConnection.TaskWork | src/lib/http_server/http_server_connection.c:199-212 | one tick of the object, with the bytes read and accepted and the calls made, is one step of the run; the task is given up exactly in the dispose state |
| HttpServer.StepKeepsInv | src/lib/http_server/http_server_connection.c:67-212 | every tick keeps the invariant that joins the connection to the bytes received, accepted and the calls made |
| HttpServer.RunInv | src/lib/http_server/http_server_connection.c:67-212 | in every run the handler is called at most once and only on a complete request, the bytes accepted are a prefix of its response, and disposal without an error means all of it was sent once in order |
| HttpServer.StatesMoveForward | src/lib/http_server/http_server_connection.c:199-212 | the state only moves from receive to send to dispose, one step a tick, and the handler is called on the first of these moves |
| HttpServer.SocketOutcomes | src/lib/http_server/http_server_connection.c:78-110 | a write error gives the connection up and nothing else counts as a failure; would-block, no data and a read error leave it as it is |
| HttpServer.ChunksDoNotMatter | src/lib/http_server/http_server_connection.c:112-194 | for all ways of cutting a stream, every connection that left receive holds the fields and the body of a one-shot parse of the stream |
| HttpServer.LeavesReceiveWhenComplete | src/lib/http_server/http_server_connection.c:173-194 | receive is left exactly at the first chunk boundary at or behind the 64-bit sum of header end and Content-Length, if the body can have a block |
| HttpServer.SendFinishes | src/lib/http_server/http_server_connection.c:67-93 | in every run, once sending, without a write error and with as many accepting ticks as bytes are left (any number may block in between), the connection reaches dispose and the whole response was accepted once in order |
| HttpServer.Serve | src/lib/http_server/http_server_connection.c:199-212 | the connection object, called once per tick, has the state, the bytes read and accepted and the handler calls of the run that the lemmas are about |
| HttpClient.ParseUrl | src/lib/http_client.c:512-566 | host, port and path as specified by spans, -1 exactly when the host is empty or longer than 255 |
| HttpClient.ParsedWithPort | src/lib/http_client.c:530-563 | the specification in terms of positions in the URL, with a port |
| HttpClient.ParsedWithoutPort | src/lib/http_client.c:530-563 | the same without one |
| HttpClient.RequestFits | src/lib/http_client.c:179-189 | whatever parse_url stores, the request fits its 1024-byte buffer, so it is never cut |
| HttpClient.HttpClient.WorkWriting | src/lib/http_client.c:164-231 | what was sent is always a prefix of the request, growing by the accepted count; reading starts exactly when all of it was sent |
| HttpClient.HttpClient.WorkReading | src/lib/http_client.c:233-408 | after each chunk the fields are those of a one-shot parse of all bytes, and done is reached exactly when they hold a complete response |
| HttpClient.ChunksDoNotMatter | src/lib/http_client.c:274-407 | however the bytes are cut, the reader ends with the status and the body of a one-shot parse |
| HttpClient.ReadResponse | src/lib/http_client.c:233-408 | the client object, called once per chunk, ends as that reader does |
| WeatherServer.SplitRejoins | src/server/weather_server_instance.c:55-67 | path and query rejoin to the request path, the path has no question mark, and both fit their buffers |
| WeatherServer.HeaderFits | src/server/weather_server_instance.c:90-97 | the header of every response fits its 256 bytes |
| WeatherServer.NotFoundBodyFits | src/server/weather_server_instance.c:212-226 | the 404 body fits its 512 bytes for every method and path that the parser can store |
| WeatherServer.RouteIsFromHandler | src/server/weather_server_instance.c:69-249 | whatever the weather lookup returns, every route's reason and content type come from the fixed lists that the header lemmas rely on |
| WeatherServer.RouteAnswers | src/server/weather_server_instance.c:69-249 | by method and path part: GET / the homepage, /echo the request, GET /v1/current the weather or a 500, and every other method or path a 404 that names both |
| WeatherServer.AssembledText | src/server/weather_server_instance.c:90-106 | a response as text: status line, content type, origin, length, blank line, body |
| WeatherServer.OnRequest | src/server/weather_server_instance.c:49-250 | the write buffer is header plus body, whole, of the answer that method and path part call for, and write_size is its length |
| RoundTrip.HeaderEndIs | src/lib/http_client.c:309-316 | the header ends at its own blank line, whatever the bytes behind it are |
| RoundTrip.HeaderReadsBack | src/lib/http_client.c:330-353 | the status code and the length of every response header of the server are read back |
| RoundTrip.ResponseReadsBack | src/lib/http_client.c:367-399 | a response is complete when all of it has arrived and not before, even when its body contains CRLFCRLF; then code and body are the same |
| RoundTrip.ResponseRoundTrip | src/lib/http_client.c:274-399 | every response of the handler, in any chunks, is read back to the same status code and exactly the same body |
| RoundTrip.HostFieldAt | src/lib/http_server/http_server_connection.c:149-152 | where the Host field is found in a request, for every method: in the path if it contains the name, else in its own line |
| RoundTrip.LengthFieldFound | src/lib/http_server/http_server_connection.c:154-158 | a Content-Length field is found in the path or not at all |
| RoundTrip.RequestReadsBack | src/lib/http_server/http_server_connection.c:125-171 | what the server reads from the client's request, for every path and host that a URL can hold |
| RoundTrip.LinesReadBack | src/lib/http_server/http_server_connection.c:141-152 | for every method, path and host: the method is cut at seven characters and its rest then read as the path, the path is cut at 255, and a path that names the Host field is taken for it |
| RoundTrip.BodyRequestReadsBack | src/lib/http_server/http_server_connection.c:141-166 | what the server reads from every printed request that states a length, for every method |
| RoundTrip.BodyRequestIsCompleteIff | src/lib/http_server/http_server_connection.c:173-194 | such a request is complete if and only if the stated number of bytes follows its header, and its body are those bytes, none for GET; if the sum wraps, a GET is complete at once and nothing else ever |
| RoundTrip.BodyRequestRoundTrip | src/lib/http_server/http_server_connection.c:112-194 | no proper part of a request with a body is complete, and the whole is read as exactly the method, path, host, length and body it was printed from |
| RoundTrip.RequestArrivesIff | src/lib/http_client.c:179-190 | the server reads GET, the path and the host unchanged if and only if the path is short enough and not taken for a field with another value |
| RoundTrip.OrdinaryPathArrives | src/lib/http_client.c:179-190 | a path of at most 255 characters without the two field names is one of those |
| RoundTrip.ClaimedBodyNeverComes | src/lib/http_server/http_server_connection.c:154-181 | a concrete path that makes the server expect five bytes of body, so that the whole request is not complete |
| RoundTrip.RequestIsCompleteIff | src/lib/http_server/http_server_connection.c:173-181 | the client's whole request is a complete request for the server if and only if its path claims no body or a length whose 64-bit sum with the header wraps |
| RoundTrip.NegativeLengthWraps | src/lib/http_server/http_server_connection.c:154-181 | a concrete path whose claimed length wraps, so that the request is complete at once |
| RoundTrip.EveryCuttingArrives | src/lib/http_server/http_server_connection.c:112-194 | every way of cutting the client's request into readable chunks is a legal run of the server that takes in every byte |
| RoundTrip.UrlRoundTrip | src/lib/http_client.c:512-566 | every URL put together from scheme, host, port and path is taken apart into the same parts; it fails exactly for an empty or too long host, an unusable port gives way to the default, an empty path becomes the root, and of a path 511 characters are kept |
| RoundTrip.SchemeTakesOver | src/lib/http_client.c:522-528 | the one case left out there is real: a URL without a scheme that begins with http:// |
| RoundTrip.EchoIsTheWholeRequest | src/server/weather_server_instance.c:109-134 | the echo route returns the whole request and never the body alone |
| RoundTrip.ResponseIsRead | src/lib/http_client.c:367-399 | whatever part of a response arrives, in any chunks, the client is done exactly when it is all of it |
| RoundTrip.EndToEnd | src/server/weather_server_instance.c:49-250 | URL to request to route to response, in any chunks and any partial writes: the server sees GET, path and host of the URL; the client, given the bytes the socket accepted, is done exactly when the whole response was accepted, as it was if the server gave up the connection without a failure, and has the status code and body of that path's route |
| RoundTrip.EndToEndAnswers | src/server/weather_server_instance.c:69-245 | what the client has in the end, by the path without its query: 200 and the homepage, 200 and its own request, the weather with its code or 500, else 404 and a body that names the path |

## Left out

- HttpMessages.FindHeaderEnd: the scan uses the intended bound `i + 4 <= size`. With fewer than four bytes in the first chunk the C loop reads past its buffer, which has no meaning to model; `HttpMessages.ScanStaysInside` gives the exact condition. The `int` index is unbounded.
- HttpServer.HttpServerConnection.ReceiveChunk: of the allocations that can fail, only that of a body which cannot have a 64-bit size beside its header is modelled (it always fails), and a zero-size allocation is taken to succeed; errors of the peer leave the connection in the receive state, as in the code, so nothing says that every connection is disposed of.
- HttpServer.HttpServerConnection.TaskWork: a null connection, the TCP client and its socket are not part of this model.
- HttpClient.HttpClient.WorkReading: failing allocations, the callback texts and the debug output are not modelled, except that a body which cannot have a 64-bit size beside its header gets no block; for a length of exactly 2^64 - 1 the code asks for a block of zero bytes instead and then copies out of bounds, which has no meaning to model. A status code is an unbounded integer, and the status text after it is skipped because nothing uses it.
- HttpClient.HttpClient.WorkWriting: the fields that `http_client_init` leaves unset are taken to be zero.
- WeatherServer.OnRequest: failing allocations are not modelled; the weather lookup is a parameter, and its status code is not negative. A body is at most 2^64 - 257 bytes long, so that the 64-bit total of header and body does not wrap.
- Caches.Cache.Set: four allocations that can fail are one flag, since the code treats them alike; time is an unbounded integer; null arguments are not modelled.
- Scheduler.Smw.Work: what a callback does depends on the context of its task and the number of the visit, and is a finite list of actions; it destroys no task but its own, since the code gives no meaning to a callback that destroys the saved successor. A pass that never ends has no result and is covered only by the single round `Scheduler.Smw.VisitNode`. Null tasks in the list are not modelled, and neither is an absent list.
- Md5.Md5Ctx.Set: the portable form of SET and GET is modelled; the form for x86 reads the same words directly.
- Md5.HashBinary: `hash_md5_string`, which only checks its arguments and calls two modelled functions.
- The 64 constants of MD5 are a table; their derivation from the sine function is not modelled.
- Lookup of host names, connecting, timeouts, the dispatch of the client's states, and its done state, which calls the callback a second time.
- Opening and accepting sockets, `errno`, and the wiring of HTTP server, connections and handler instances.
- The Open-Meteo client, its file cache, JSON, wind direction names and weather descriptions: tables and foreign libraries.
- Keys and URLs with a NUL inside: as C strings they end there.
- Creating and disposing of lists and caches beyond what the constructors and `Clear` do: memory leaks are not modelled.
