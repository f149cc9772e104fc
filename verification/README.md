# Verification of the Redis-like server

A Dafny model of the connected parts of the server that carry its logic, with the properties they
are built for proved over every input, every run and every schedule.

* **The request queues** (`Server`, `ServerInvariant`, `ServerTheorems`, `ServerProgress`, `Queue`).
  One acceptor, any number of workers, one timeout manager and one rejecter share two FIFO queues,
  two mutexes and two counting semaphores. Each thread is a program counter; `Server.Next` runs one
  thread up to its next shared access, and a schedule is any sequence of such steps, clock ticks,
  new connections and timer wake-ups. A ghost history records where every request went. The manager
  takes requests from `req_q` without taking a semaphore token, so the token count of `req_q` is an
  equation with a correction for the workers' empty dequeues, while the one of `excd_tm_q` is exact.
  `Queue` is the doubly linked list itself, in the heap.
* **RESP** (`Resp`, `RespRoundTrip`, `Lexer`, `Nodes`, `Leftovers`, `ArrayLexer`, `Echo`). The reading
  functions of `Resp` say what the lexer accepts; `RespRoundTrip` compares them with an independent concrete
  syntax and with the encoder. `Lexer`, `Nodes` and `ArrayLexer` are the C code's own form: a header
  state machine over a receive buffer, sibling nodes linked in place through `next` and `prev`, and
  `delete_array`, which follows `prev` back to the array before it frees. A node is two allocations,
  its base node and its record (with the content buffer of a bulk string counted as part of the
  record); both enter a heap when it is built and each must be allocated to be freed, so what a
  message leaves behind is a statement about that heap. `Leftovers` counts it from the bytes alone.
  `Echo` is the recursive printer with its shared byte counter.
* **SET** (`SetParser`). The bitmask parser is a class with the state byte, the six slots and the
  cursor as fields; the grammar is the predicate `Spells`.
* **The keyspace** (`Memory`, `SimpleMap`, `Ownership`, `Keyspace`, `Commands`, `Wire`, `ConfigGet`). The map
  is a growable pair of arrays of pointers; the nodes behind the pointers live in an explicit memory
  from which a freed node is gone, so that reading or freeing a released node cannot verify.
  `Keyspace` says what the commands mean on a finite map; `Commands.Store` proves the executors
  against it and serves whole runs, up to the bytes the connection is sent. `Wire` reads those bytes
  back with the RESP reader. `ConfigGet` is CONFIG GET with its hand-sized reply.
* **The connection** (`Dialogue`, `Requests`, `Connection`). `Dialogue` says what any server that reads
  messages behind a `*` sends for a byte stream, and proves that every stream is a list of messages
  and a tail, answered one by one. `Requests` finds the command a message names and gives this
  server's replies. `Connection` is the loop of `app_code` itself: it lexes, walks the nodes to the
  command, runs the handlers above on the argument list read off the nodes, sends, and deletes. `Setup`
  fills the configuration.
* **The promises in plain terms** (`Outcomes`, `Exchanges`). What GET, SET, ECHO and CONFIG do, said in
  literal words, bytes and nanoseconds instead of through the definitions the code is compared with:
  `Outcomes` on argument lists and the finite map, `Exchanges` on the messages of a byte stream.

Inputs from outside the model are parameters: the clock readings of each command, the schedule of
the threads, the bytes a connection delivers, the text printed for a NULL string, the glob match of
CONFIG GET, and the rounding of the float arithmetic, which may be any monotone one. `Base`
holds bytes, C strings and decimal numerals.

What the code does differs from its documentation in these points, and the model follows the code:

* The keyspace is an array searched from the front, not the hash map that the repository's
  `README.md` names (line 45).
* PING, which the repository's `README.md` lists (lines 8, 150 and 174), is not a command of the code
  (`Requests.PingUnanswered`), and the SET it shows in RESP (line 162) announces 22 bytes for a value of
  23, so the server cannot read it (`Requests.DocumentedSetFails`).
* EXAT and PXAT are TTLs relative to now, like EX and PX (`src/cmd_handler.c` lines 678-685), and a
  TTL of 0 is no TTL (line 335). KEEPTTL is not an option of the parser.
* SET with NX, XX or GET looks its key up without checking expiry. `Keyspace.LazyIsEager` says
  exactly which runs this makes different from a map that expires eagerly, and
  `Keyspace.LazyIsNotEager` is one of them.
* A TTL is the number of its digits modulo 2^32, so 4294967296 is no TTL
  (`Keyspace.TtlHonoured`, `Keyspace.TtlWrapsToNone`).
* A reply is sent up to the first NUL byte of its buffer, and a NUL (`src/app.c` line 59). A stored
  value may contain NUL bytes, and is read back exactly when it does not (`Wire.ValueReadBack`).
* A SET that combines a TTL with NX, XX or GET is accepted by the parser, has no executor, replies
  nothing and leaves its two new nodes allocated. `Commands.Store` keeps those pairs on record.
* ECHO cuts each part of its text at the counter reached so far. `Echo.Faithful` is the exact class
  of arguments that come back unchanged, and `Echo.UnfaithfulExample` one that does not.
* `delete_array` frees the base node of an array and never its record (`src/protocol.c` lines 312-317;
  `new_array` allocates both, lines 134-135). A message therefore leaves one record for each of its
  arrays, and a message that fails one for each array whose first element had been read.
  `ArrayLexer.ReadMessage` states exactly that, and `Leftovers.WholeMessageLeft` and
  `Leftovers.HalfMessageLeft` are two short streams.
* The arrays entered on the way to the command name are counted in one byte, so a command wrapped in
  256 further arrays is executed (`src/cmd_handler.c` lines 36-45, `Requests.WrappedCommand`).
* A header numeral of more than 32 bits is reduced modulo 2^32 (`RespRoundTrip.WrappedHeader`).
* CONFIG GET prints its item count into eight bytes, so the count is right up to seven digits
  (`ConfigGet.ReplyIsArray`).

## Model

| member | source | states |
|---|---|---|
| ServerTheorems.ExactlyOnePlace | src/server.c:331-476 | In every reachable state a request that was created stands in exactly one of: acceptor's hand, `req_q`, manager's hand, `excd_tm_q`, rejecter's hand, one worker's hands, closed after service, closed after rejection; any other request in none |
| ServerTheorems.ServedXorRejected | src/server.c:385-399 | No request is both served and rejected or handled twice, and none is closed more often than it was served or rejected |
| ServerTheorems.NoLostWakeUp | src/server.c:454-464 | Queued plus moved requests equal semaphore value plus workers holding a token plus the acceptor's pending post plus empty dequeues; empty dequeues never exceed moved ones, so each queued request has a token, a token holder or a pending post |
| ServerTheorems.RejecterExact | src/server.c:387-395 | `excd_tm_q` holds exactly as many requests as semaphore, rejecter's token and manager's pending post account for, so the rejecter never finds the queue empty and its NULL branch is dead |
| ServerTheorems.MutualExclusion | src/server.c:350-372 | At most one thread is in each critical section, and the only thread ever in both is the manager, inside `req_q_mtx` first |
| ServerTheorems.QueuesGuarded | src/server.c:567-577 | A queue changes only in a step of a thread that is inside that queue's critical section |
| ServerTheorems.HolderCanStep | src/server.c:350-372 | While a mutex is held, one of its holders is not blocked |
| ServerTheorems.NoDeadlock | src/server.c:331-402 | The same in every reachable state of every schedule |
| ServerTheorems.QuiescentAtRest | src/server.c:454-475 | When no thread can step, each one waits outside its sections for the outside world or for a semaphore that is zero |
| ServerTheorems.AtRestAllClosed | src/server.c:331-476 | With at least one worker, once all threads have come to rest both queues are empty and each created request was closed exactly once |
| ServerTheorems.SweepExact | src/server.c:350-372 | The schedule has a step in which the manager, inside the `req_q_mtx` section, read the clock; when it leaves the section, the queue of that step is split in order: in front, now on the way to the rejecter, those whose wait in nanoseconds, made a float, was more than 1.0 or more than `max_queue_time`, and behind them all others, still queued |
| ServerTheorems.SweepInNanoseconds | src/server.c:404-414 | Without rounding: a request of that queue was moved if and only if it had waited more than 10^9 nanoseconds or more than `max_queue_time` times 10^9 |
| ServerTheorems.OverdueMonotone | src/server.c:404-423 | A request created earlier is over the limit whenever a later one is, for every monotone rounding |
| ServerTheorems.RejectedWereLate | src/server.c:404-414 | Every rejected request had waited longer than any number of nanoseconds that, made a float, is at most 1.0 and at most `max_queue_time` |
| ServerTheorems.ArrivalOrder | src/server.c:424-432 | Requests leave `req_q` in creation order, creation and queue are sorted by timestamp, and rejections happen in creation order |
| ServerTheorems.RequestsAreConnections | src/server.c:567-576 | Request number i carries the descriptor of the i-th connection that succeeded and the clock of the step that built it, and at most one connection has no request yet |
| ServerProgress.StepsBounded | src/server.c:331-476 | Without new connections and timer wake-ups every schedule is finite: the threads take at most `Work` steps from any reachable state |
| ServerProgress.RestReached | src/server.c:331-476 | From every reachable state the threads can reach a state where none of them can step |
| ServerProgress.EveryRequestGetsClosed | src/server.c:331-476 | From every reachable state, with at least one worker, rest can be reached, and there every created request was closed exactly once |
| ServerInvariant.Reachable | src/server.c:549-577 | The inductive invariant (mutex ownership, both token balances, the sweep's view of the front, arrival order, places, the sweep's partition, lateness of everything moved) holds after every schedule |
| ServerInvariant.InvKept | src/server.c:331-476 | One step of any thread, clock tick, connection or wake-up keeps that invariant |
| ServerInvariant.MutexesKept | src/server.c:350-372 | Every step keeps each mutex field naming exactly the thread inside that mutex's section |
| ServerInvariant.TokenBalanceKept | src/server.c:454-464 | Every step keeps the token equation of `req_q`, the bound on empty dequeues included |
| ServerInvariant.ExcdBalanceKept | src/server.c:363-369 | Every step keeps the token equation of `excd_tm_q` |
| ServerInvariant.SweepKept | src/server.c:353-370 | Every step keeps the request the manager looked at the front of `req_q` until it dequeues it |
| ServerInvariant.PlacesKept | src/server.c:454-475 | Every step keeps, per request, the balance of what left `req_q` against moved, held and closed |
| ServerInvariant.PartitionKept | src/server.c:351-371 | Every step keeps the sweep's split of the sampled queue into moved and remaining requests |
| Queue.Queue.Enqueue | src/queue.c:38-60 | The datum goes behind the old contents in one new node, and the chain stays doubly linked from front to rear |
| Queue.Queue.Dequeue | src/queue.c:73-96 | The first datum comes out and its node leaves the chain; NULL on an empty queue, which stays empty |
| Queue.Queue.GetFront | src/queue.c:11-15 | The first datum, or NULL |
| Queue.Queue.GetRear | src/queue.c:22-26 | The last datum, or NULL |
| Queue.Queue.Delete | src/queue.c:134-149 | Every node is freed once, front to rear; a supplied destructor is called on strictly later and later positions, each time with the datum there, and no non-NULL datum is left out |
| RespRoundTrip.RoundTrip | src/protocol.c:17-77 | For every tree in the domain and every following bytes, reading its encoding gives the tree and leaves exactly those bytes |
| RespRoundTrip.LexerLanguage | src/protocol.c:17-114 | The reader accepts a text as tree t with a given rest if and only if the text is that of some accepted syntax of t followed by the rest |
| RespRoundTrip.ReadBack | src/protocol.c:17-114 | Every accepted syntax, headers padded or wrapped as they may be, is read as its tree, with the following bytes left |
| RespRoundTrip.NodeRead | src/protocol.c:46-60 | Conversely whatever is read was the text of an accepted syntax of the result, followed by the rest |
| RespRoundTrip.UniqueDecoding | src/protocol.c:17-77 | Two trees whose encodings start the same byte string are the same tree |
| RespRoundTrip.PaddedIffNoWrap | src/protocol.c:202-283 | An accepted syntax is the encoding of its tree up to leading zeros in the headers if and only if no header numeral exceeds 32 bits |
| RespRoundTrip.WrappedHeader | src/util.c:13-22 | A header of 2^32 + 1 is read as one element |
| RespRoundTrip.HeaderLimits | src/protocol.c:202-283 | More than 8192 digits are no header; up to that the value is the number modulo 4294967296 as an `int`, except that 4294967294 fails |
| RespRoundTrip.BulkLimit | src/protocol.c:99-113 | A bulk string of up to 512000000 bytes is read whole and a larger size fails |
| RespRoundTrip.OutsideForms | src/protocol.c:26-36 | Nil and empty arrays and nil strings have the third outcome, neither read nor refused |
| RespRoundTrip.CanonFacts | src/cmd_handler.c:376-416 | The encoding of a tree in the domain is an accepted syntax of that very tree |
| Resp.ReadSize | src/protocol.c:202-283 | A header that is read consumes something and lies in the `int` range |
| Resp.LeadingDigits | src/protocol.c:210-238 | The digits of the header are the longest digit prefix |
| Base.DecValDec | src/cmd_handler.c:566-567 | A printed numeral has the value it was printed from |
| Base.DigitsAreDec | src/util.c:13-22 | A digit string is the numeral of its value behind leading zeros |
| Lexer.StringToUint | src/util.c:13-22 | The result is congruent modulo 2^32 to the signed Horner sum of the string, and on digit strings it is their value modulo 2^32 |
| Lexer.GetElSize | src/protocol.c:202-283 | On every stream the state machine returns the header's value and consumes exactly the header, or returns the error value when there is no well-formed header |
| Lexer.SizeRound | src/protocol.c:216-279 | One round keeps the buffer equal to the digits consumed, or rejects a stream that no header starts |
| Lexer.SizeSwitch | src/protocol.c:223-278 | Each state goes on, stops or rejects on exactly the bytes its grammar position allows |
| Lexer.SizeRejected | src/protocol.c:217-277 | A byte no transition takes, or too many digits, means that the whole stream starts with no header |
| Lexer.SizeComplete | src/protocol.c:268-283 | At the final line feed the buffered digits give the header's value, sign included |
| Lexer.HeaderValue | src/protocol.c:280-283 | The NUL-terminated buffer gives the value of the header |
| Lexer.IsValidTerminator | src/protocol.c:172-200 | True if and only if the stream goes on with CR LF, which is then consumed |
| ArrayLexer.LexBody | src/protocol.c:87-113 | A node exactly when the announced bytes and a terminator come next, carrying those bytes; the heap gains both parts of that node or nothing |
| ArrayLexer.LexBulkStr | src/protocol.c:79-114 | Success exactly when the reading function succeeds, with a fresh unlinked node that carries the data and the stream left behind the terminator; the heap gains both parts of that node or nothing |
| ArrayLexer.LexElement | src/protocol.c:47-59 | One element: on success the heap gains exactly both parts of its linked nodes; on failure exactly the records of the arrays inside it whose first element was read |
| ArrayLexer.AppendElement | src/protocol.c:64-73 | The new element is linked behind the last one in both directions, the first one to a new array node, the only one whose parts the heap gains |
| ArrayLexer.LinkNext | src/protocol.c:67-72 | The two pointer assignments extend the chain of siblings, nested chains untouched |
| ArrayLexer.DiscardPartial | src/protocol.c:60-63 | Following `prev` from the last inserted node frees the base node of every node of the array under construction and the record of each bulk string in it, each while allocated; the records of its arrays stay |
| ArrayLexer.LexInto | src/protocol.c:40-75 | One round of the loop either extends the array by what the reading function says, or leaves of it and of the failed element only the records of the arrays begun in them |
| ArrayLexer.ReadOneMore | src/protocol.c:40-76 | Reading one element after those read so far reads one element more from the start; when it fails, so does every longer count |
| ArrayLexer.LexElems | src/protocol.c:40-76 | The loop delivers the elements the reading function returns for that count and the heap gains exactly their array, or it gains exactly the records of the arrays begun, this one included once its first element was read |
| ArrayLexer.LexArray | src/protocol.c:17-77 | On every stream the lexer agrees with the reading function on outcome, tree and rest; on success the heap gains exactly both parts of the linked new nodes that denote the tree, on failure exactly the records of the arrays whose first element was read |
| ArrayLexer.ReadMessage | src/app.c:39-65 | A message read and deleted from its root leaves no base node and no bulk string, but one array record for each array whose first element was read; the heap is as it was if and only if the message fails before its first bulk string is complete |
| ArrayLexer.DeleteMessage | src/protocol.c:298-329 | Deleting a message that was read leaves of its nodes exactly one array record for each `Arr` of its tree |
| Leftovers.BegunIffBulkRead | src/protocol.c:40-76 | For every stream, some array gets as far as its first element if and only if the first bulk string of the message, however deep, is read to its end; a message that is read always does |
| Leftovers.ArrayBegun | src/protocol.c:64-75 | A message that is read has begun exactly the arrays of its tree |
| Leftovers.BegunAtFailure | src/protocol.c:60-63 | When an element fails, the arrays begun are those of the elements before it, the array itself if there are any, and those begun inside the failed element |
| Leftovers.WholeMessageLeft | src/app.c:64-64 | The array of one string `a` is read and leaves one record |
| Leftovers.HalfMessageLeft | src/protocol.c:42-46 | An array of two whose second element is missing fails and leaves one record |
| Nodes.NodeHeap.FreeBase | src/protocol.c:315-320 | Only an allocated base node can be freed, and it alone goes |
| Nodes.NodeHeap.FreeRecord | src/protocol.c:321-322 | The same for the record of a bulk string with its content |
| Nodes.DeleteArray | src/protocol.c:298-329 | From any sibling, the base nodes of the array that holds the siblings and of everything in it are freed, in one fixed order and each while allocated, and with them the records of the bulk strings; array records and everything else stay |
| Nodes.ReleasedOnce | src/protocol.c:308-328 | That order contains each node of the outline exactly once and no other node |
| Nodes.ReleaseFrom | src/protocol.c:308-328 | The loop frees the siblings from a node on, the contents of an array before its base node; the heap loses exactly those base nodes and the records of the bulk strings among them |
| Nodes.Rewind | src/protocol.c:303-307 | Following `prev` from any sibling ends at the array that holds it, or at the first sibling |
| Nodes.LinkedAt | src/protocol.c:64-74 | In a linked array every element's `next` and `prev` are its neighbours, and nested arrays are linked too |
| Echo.SizeAccounting | src/cmd_handler.c:376-416 | For every forest and initial counter the counter ends larger by exactly the length of the encoding |
| Echo.Describe | src/cmd_handler.c:376-416 | The text of a list is never shorter than its encoding nor longer than the counter, and starts with the encoding for a faithful list and, with a recognisable stand-in text, for no other |
| Echo.HandleEcho | src/cmd_handler.c:376-416 | The recursive printer with its shared counter computes the text and the counter that the other rows speak of |
| Echo.HandleEchoCmd | src/cmd_handler.c:366-373 | On any arguments the counter starts at 0; for printable ones the reply is their encoding whenever they are faithful, whatever stands in for a missing tail, and with a text like `(null)` only then |
| Echo.FlatIsFaithful | src/cmd_handler.c:399-411 | Flat argument lists are always echoed unchanged |
| Echo.UnfaithfulText | src/cmd_handler.c:376-416 | With a recognisable stand-in text, what is printed for an unfaithful forest does not start with its encoding |
| Echo.UnfaithfulExample | src/cmd_handler.c:383-398 | Two nested arrays with a string behind them are such a forest: the text printed for them is not their encoding |
| Echo.UnfaithfulBytes | src/cmd_handler.c:383-411 | The 29 bytes printed for such a forest with `(null)` as the stand-in: the second array runs on behind its element, and the string is cut |
| Echo.EchoReadBack | src/cmd_handler.c:376-416 | The encoding of printable arguments lexes back to the arguments |
| SetParser.Parser.ValidateSetCmd | src/cmd_handler.c:960-1004 | Accepts exactly the argument lists the grammar spells, and then leaves the state byte and the six slots of the one command spelled |
| SetParser.SpellsOnce | src/cmd_handler.c:960-1004 | An argument list spells at most one command |
| SetParser.StateInjective | src/cmd_handler.c:960-1004 | Two commands have the same final state exactly when the same options are present |
| SetParser.Continuations | src/cmd_handler.c:975-1002 | A parsed prefix can go on exactly with a condition before GET and TTL, with GET before TTL, or with a final TTL and its digits; otherwise the whole list spells nothing |
| SetParser.Parser.HandleSetOptions | src/cmd_handler.c:1055-1072 | An argument is filed in its slot only while that slot and all later ones are open, and otherwise the parse fails |
| SetParser.IsSetOptionValid | src/cmd_handler.c:1087-1101 | True exactly when the position is legal and no bit from it down is set |
| SetParser.Parser.ValidatePxExContent | src/cmd_handler.c:1017-1040 | A TTL argument passes exactly when it is a non-empty digit string |
| SetParser.Parser.StageA | src/cmd_handler.c:1120-1154 | Key and value are taken exactly when the first two arguments are bulk strings, and fill their slots |
| SetParser.Parser.PlainOption | src/cmd_handler.c:983-991 | NX, XX and GET either extend the command parsed so far or show that the list spells none |
| SetParser.Parser.TtlOption | src/cmd_handler.c:992-1002 | A TTL option with the digits behind it must end the command |
| SetParser.Parser.ParseOption | src/cmd_handler.c:975-1002 | One round of the loop makes progress and keeps the parse right, or the list spells no command |
| Memory.Memory.CreateKeyNode | src/cmd_handler.c:439-459 | A pointer never handed out before, with a node without TTL; NULL for an empty key |
| Memory.Memory.CreateValueNode | src/cmd_handler.c:460-476 | A pointer never handed out before, with the value; NULL for an empty value |
| Memory.Memory.CleanUpKv | src/cmd_handler.c:922-948 | Exactly the given nodes are gone; they must still be allocated |
| SimpleMap.Compare | src/cmd_handler.c:491-507 | True exactly when the two keys have the same bytes |
| SimpleMap.Find | src/simple_map.c:183-201 | The first slot whose key has the content, and not found exactly when none has |
| SimpleMap.SimpleMap.constructor | src/simple_map.c:202-224 | An empty map of capacity one that has copied nothing |
| SimpleMap.SimpleMap.FindSlot | src/simple_map.c:183-201 | The search loop finds what `Find` says |
| SimpleMap.SimpleMap.DoubleArrays | src/simple_map.c:75-99 | Capacity doubles, every slot is kept, and each array costs one copy per old slot |
| SimpleMap.SimpleMap.Append | src/simple_map.c:101-123 | The pair goes behind the last slot; capacity and copies change exactly when the arrays are full, and then the one doubles and the other grows by the old capacity |
| SimpleMap.SimpleMap.Upgrade | src/simple_map.c:124-138 | Only the given slot changes, not the capacity, and its old pair is handed back |
| SimpleMap.SimpleMap.Set | src/simple_map.c:141-163 | An equal key's slot takes the new pair and its old pair comes out, or the pair is appended; slots, capacity and copies are those of the specification of the call |
| SimpleMap.SimpleMap.Get | src/simple_map.c:164-182 | The pair whose key is equal, or none |
| SimpleMap.SimpleMap.RemoveKey | src/simple_map.c:13-49 | The pair whose key is equal leaves and the others keep their order; otherwise nothing changes; the capacity never does |
| SimpleMap.SimpleMap.CloseGap | src/simple_map.c:28-41 | Every slot behind the gap moves up by one in both arrays |
| SimpleMap.GrowthBound | src/simple_map.c:69-123 | Over every run of `set` and `remove_key` from a new map the capacity is a power of two, 1 or at most 2 (peak size of the run - 1), and doubling copied capacity - 1 slots per array, fewer than two for each key the run inserted |
| SimpleMap.Replay | src/simple_map.c:141-163 | The arrays, driven through any run of calls, end in the state that bound speaks of |
| SimpleMap.MapIterator.Next | src/simple_map.c:250-262 | The pairs in slot order, then NULL for ever |
| Ownership.EntriesAreFound | src/simple_map.c:183-201 | With distinct keys the search finds a key exactly when the finite map has it, at the entry of that map |
| Ownership.EntriesAppend | src/simple_map.c:101-123 | Appending a new key's pair is map update |
| Ownership.EntriesReplace | src/simple_map.c:124-138 | Replacing the pair of an equal key is map update, and keys stay distinct |
| Ownership.EntriesRemove | src/simple_map.c:13-49 | Removing a slot is map deletion, and keys stay distinct |
| Ownership.OwnReplace | src/simple_map.c:124-138 | After a replacement the old nodes are the command's to free and no longer in the map |
| Ownership.OwnRemove | src/cmd_handler.c:294-315 | After a removal the removed nodes are the command's to free and no longer in the map |
| Keyspace.LazyIsEager | src/cmd_handler.c:271-352 | For every map, run, non-decreasing clock and monotone rounding, the replies equal those of a map that drops dead entries before each command if and only if no NX, XX or GET option looks up a key that is present and dead |
| Keyspace.LazyIsNotEager | src/cmd_handler.c:745-745 | A run from the empty map where they differ: SET with PX 1, two seconds later SET with XX, answered OK by the code and nil by eager expiry |
| Keyspace.PlainRunsAreSafe | src/cmd_handler.c:666-691 | Runs of GET, plain SET and SET with EX, PX, EXAT or PXAT always meet that condition |
| Keyspace.StepAgrees | src/cmd_handler.c:271-329 | One command gets the same reply from a map and from its live part exactly when it does not look up a dead key, and then leaves maps with the same live part |
| Keyspace.DeadForGood | src/cmd_handler.c:330-352 | An expired entry is expired at every later time |
| Keyspace.BornAlive | src/cmd_handler.c:330-352 | No entry is expired when it is written |
| Keyspace.TtlHonoured | src/cmd_handler.c:666-691 | With a clock and a rounding that have no bound, the entry a SET with a TTL writes dies at some time if and only if the TTL's digits are not a multiple of 2^32 |
| Keyspace.TtlWrapsToNone | src/util.c:13-22 | The entry written with TTL 4294967296 never dies |
| Keyspace.LastWriteDecides | src/cmd_handler.c:330-352 | After a successful SET and any run that does not write the key, GET returns the value written until the rounded difference of the clock readings exceeds the rounded TTL of that write, seconds for EX and EXAT and milliseconds for PX and PXAT, and nil from then on, whatever the key had before |
| Keyspace.EntryStays | src/cmd_handler.c:294-315 | An entry nothing overwrites is unchanged after any run, or it is gone and its TTL is over |
| Wire.ValueReadBack | src/app.c:58-59 | What is sent for a value is read back as the value, with the NUL sent behind it left, if and only if the value has no NUL byte |
| Wire.NulValueLost | src/app.c:58-59 | For a value that starts with a NUL only its header is sent, which is no message |
| Wire.ReadYourWrites | src/app.c:58-59 | After a successful SET and any run that does not write the key, what is sent for a GET is read back as the value written exactly when it has no NUL byte, until the TTL of that write is over; then it starts with the nil header |
| Outcomes.PlainSet | src/cmd_handler.c:885-920 | SET with a key and a value replies `+OK` and writes |
| Outcomes.SetNx | src/cmd_handler.c:736-760 | With NX it writes and replies `+OK` exactly when the key is missing, and otherwise replies nil and leaves the map |
| Outcomes.SetXx | src/cmd_handler.c:760-791 | With XX exactly when the key is present |
| Outcomes.SetGet | src/cmd_handler.c:841-884 | With GET it replies with the value the key had, or nil, and writes |
| Outcomes.SetNxGet | src/cmd_handler.c:613-657 | With NX GET it replies with the value the key had, or nil, and writes exactly a missing key |
| Outcomes.SetXxGet | src/cmd_handler.c:613-657 | With XX GET likewise, and writes exactly a present key |
| Outcomes.SetTtl | src/cmd_handler.c:666-691 | With one of the four TTL words it replies `+OK` and writes the digits modulo 2^32 into the field of seconds or of milliseconds |
| Outcomes.LivesSeconds | src/cmd_handler.c:330-352 | After EX or EXAT, GET replies with the value unless the rounded difference of the readings in seconds is more than the rounded number, and then nil |
| Outcomes.LivesMilliseconds | src/cmd_handler.c:330-352 | After PX or PXAT the same with the difference times 1000 |
| Outcomes.SecondsExactly | src/cmd_handler.c:346-350 | Without rounding: the value until n times 10^9 nanoseconds have passed, and nil later |
| Outcomes.MillisecondsExactly | src/cmd_handler.c:346-350 | Without rounding: the value until n times 10^6 nanoseconds have passed, and nil later |
| Outcomes.StaysUnlessNil | src/cmd_handler.c:294-315 | An entry that no SET touches stays, expired or not, exactly until a GET of its key is answered nil |
| Outcomes.OldValueReplied | src/cmd_handler.c:841-884 | SET with GET, with or without NX or XX, replies with the value of the last SET that was answered `+OK`, unless a GET in between was answered nil, and then nil |
| Outcomes.NoOldValue | src/cmd_handler.c:841-884 | On a key that was never written it replies nil |
| Outcomes.SetForms | src/cmd_handler.c:960-1015 | SET accepts exactly key, value, then NX or XX, then GET, then a TTL word with digits, each of the three optional, by an independent grammar with the literal words |
| Outcomes.ThirdArgument | src/cmd_handler.c:1006-1015 | A third argument alone is accepted exactly when it is NX, XX or GET in capitals |
| Outcomes.FiveArguments | src/cmd_handler.c:532-550 | SET with five or more arguments never writes and has no reply |
| Outcomes.LeakingForms | src/cmd_handler.c:532-550 | The commands that leave their nodes allocated are exactly those accepted with five or more arguments and without an empty key or value |
| Outcomes.EmptyRefused | src/cmd_handler.c:439-476 | An empty key or value writes nothing and has no reply, and so has GET of an empty key |
| Outcomes.GetForms | src/cmd_handler.c:354-364 | GET takes exactly one bulk string and otherwise does nothing |
| Commands.NodeToString | src/cmd_handler.c:552-586 | The hand-sized buffer is filled exactly: the bulk string of the content and a NUL |
| Commands.Store.Put | src/simple_map.c:141-163 | Storing a held pair is map update, and a replaced pair comes out still allocated and owned by the command |
| Commands.Store.ExecuteSetBasic | src/cmd_handler.c:885-920 | OK, map update, and the replaced pair freed exactly once |
| Commands.Store.ExecuteSetGet | src/cmd_handler.c:841-884 | The old value, encoded before its node is freed, and map update |
| Commands.Store.ExecuteSetNxXx | src/cmd_handler.c:719-791 | Writes exactly when the key's presence allows it, and otherwise frees the new pair and replies nil |
| Commands.Store.ExecuteSetNxxxGet | src/cmd_handler.c:613-657 | The old value or nil, read before anything is freed, and a conditional write |
| Commands.Store.ExecuteSetTtl | src/cmd_handler.c:666-691 | The entry is written with the digits modulo 2^32 as its only TTL, in seconds for EX and EXAT and in milliseconds for PX and PXAT |
| Commands.Store.Dispatch | src/cmd_handler.c:532-550 | Each of the eight states gets the reply and the map of the specification, and the three without executor leave the map alone |
| Commands.SpecByShape | src/cmd_handler.c:532-550 | The specification of SET spelled out for each shape of command |
| Commands.StateBits | src/cmd_handler.c:532-550 | Each state the dispatch names stands for exactly one shape of command |
| Commands.ParseSet | src/cmd_handler.c:418-435 | Parsing succeeds exactly for spelled commands and hands the executor their state and texts |
| Commands.Store.HandleSetCmd | src/cmd_handler.c:418-435 | On any arguments SET replies and changes the map as specified for the command they spell, and nothing happens when they spell none |
| Commands.Store.HandleGetCmd | src/cmd_handler.c:271-329 | On any arguments GET replies and changes the map as specified, a dead entry removed with both its nodes |
| Commands.Store.LookUp | src/cmd_handler.c:283-328 | Finds the live value, or removes a dead entry, and frees the temporary key in every case |
| Commands.Store.Expire | src/cmd_handler.c:294-315 | The dead entry leaves the map and its two nodes and the temporary key are freed once each |
| Commands.Store.Serve | src/cmd_handler.c:49-52 | Over every run of GET and SET requests: the bytes sent are those of the specified replies and the final map is the specified one, all other key and value nodes are in the map, and there is one leaked pair, with nodes of its own, for each SET without executor |
| ConfigGet.ListedExactly | src/cmd_handler.c:121-181 | The list holds each key once, only configured pairs, and exactly the configured keys some argument asks for |
| ConfigGet.FirstArgFacts | src/cmd_handler.c:142-170 | The first matching argument of a key matches it and none before does; there is one exactly when the key is asked for |
| ConfigGet.FirstMatchOrder | src/cmd_handler.c:142-170 | Of two listed pairs the one stands first whose key an earlier argument was the first to match or, when it was the same argument, whose slot comes first; each is the pair in its key's first slot |
| ConfigGet.ListFits | src/cmd_handler.c:130-134 | Pigeonhole: the list is never longer than the configuration, so the arrays sized by it suffice |
| ConfigGet.ItemsEncoded | src/cmd_handler.c:184-209 | The texts of the listed pairs one after another are the encoding of their keys and values |
| ConfigGet.CountExact | src/cmd_handler.c:190-192 | The item count printed into eight bytes is the whole numeral exactly when it has at most seven digits |
| ConfigGet.ItemsLength | src/cmd_handler.c:194-194 | The counted bytes of the filed texts are exactly the length of what is printed from them |
| ConfigGet.GenerateResponse | src/cmd_handler.c:184-209 | The buffer sized in advance is filled exactly: header, all texts and a NUL |
| ConfigGet.EncodedEqual | src/cmd_handler.c:242-251 | Comparing encoded keys is comparing keys |
| ConfigGet.Collector.IsNew | src/cmd_handler.c:242-251 | True exactly when the key is not listed yet |
| ConfigGet.Collector.Insert | src/cmd_handler.c:210-241 | A new key's pair is filed at the end with its bytes counted, and a listed key changes nothing |
| ConfigGet.ScanMap | src/cmd_handler.c:147-168 | One pattern against all pairs by the map's cursor lists what the specification says |
| ConfigGet.HandleConfGet | src/cmd_handler.c:121-181 | The reply is the printed list of the pairs asked for, `*0` when there is none, and nothing without arguments or configuration |
| ConfigGet.ReplyIsArray | src/cmd_handler.c:184-209 | A non-empty reply is the array of 2n bulk strings if and only if 2n has at most seven digits |
| ConfigGet.ReplyReadBack | src/cmd_handler.c:184-209 | Such a reply lexes back to the keys and values of the listed pairs in order |
| Connection.AppCode | src/app.c:20-73 | Over every byte stream: the bytes sent, the way the connection ends, the keyspace left, the leaked pairs and the array records left allocated are those of the specified conversation |
| Connection.ServeTurn | src/app.c:28-71 | One turn of the loop sends and changes exactly the next part of that conversation |
| Connection.AnswerMessage | src/app.c:39-66 | A message is lexed, answered in the keyspace as it stands, and deleted down to its array records; a malformed one is answered by the error text and changes no keyspace |
| Connection.ParseCommand | src/cmd_handler.c:27-65 | On the linked nodes of any message: the reply and the keyspace are those specified for the command the tree names |
| Connection.FindLine | src/cmd_handler.c:36-63 | The walk from first element to first element finds the command line of the tree, or none when the byte that counts the arrays is not 1 |
| Connection.FindRedisCmd | src/cmd_handler.c:252-267 | The loop over the table returns the command whose name the text equals up to letter case |
| Connection.HandleConfCmd | src/cmd_handler.c:69-100 | CONFIG GET in any letter case is answered by the pairs asked for, every other subcommand by nothing |
| Dialogue.Answered | src/app.c:28-71 | Messages are answered one by one, whatever bytes stand between them, each in the keyspace that those before it leave, and the rest of the stream goes on from the keyspace of all of them |
| Dialogue.WholeStream | src/app.c:28-71 | Every stream is a list of messages and a tail without one: what is sent is their replies in order and, exactly when the tail is malformed, the error text; keyspace, records and leaked pairs add up likewise |
| Dialogue.ReplyAt | src/app.c:39-66 | The reply to message i depends on the messages before it only through the keyspace they leave |
| Dialogue.Kept | src/app.c:28-71 | What one message brings about in the keyspace, and no later message undoes, holds at the end |
| Requests.LexerReadsByItself | src/protocol.c:17-77 | What the lexer reads as a message it reads as the same message whatever follows, so streams of messages concatenate |
| Requests.SpaceOfRun | src/cmd_handler.c:46-57 | The keyspace after any messages is that of the lazily expiring map after the commands they name, timed by their numbers |
| Requests.RepliesOfRun | src/cmd_handler.c:46-57 | The replies to messages other than ECHO and CONFIG are those of that map over the whole run, so everything proved of its runs holds of the bytes sent |
| Requests.EntryKept | src/cmd_handler.c:885-920 | A value written without a TTL is in the keyspace after every later list of messages that does not write its key |
| Requests.WrittenIsRead | src/app.c:28-71 | In a stream of messages, what is sent for a GET is the value of an earlier SET without a TTL, whatever messages stand between them that do not write the key |
| Requests.CommandNames | src/cmd_handler.c:252-267 | The four names are recognised in any mixture of capitals and small letters, and nothing else is |
| Exchanges.EchoSent | src/cmd_handler.c:366-416 | In any stream, `ECHO` with printable arguments is sent their encoding and a NUL when they are faithful, and with a stand-in text like `(null)` only then |
| Exchanges.EchoRefused | src/cmd_handler.c:376-380 | `ECHO` without arguments is sent the error text |
| Exchanges.SetSent | src/cmd_handler.c:49-50 | In any stream, SET is sent, and leaves, what it replies and leaves on its arguments in the keyspace of that moment |
| Exchanges.GetSent | src/cmd_handler.c:51-52 | The same for GET of a key |
| Exchanges.OldIsSent | src/cmd_handler.c:872-872 | In any stream, SET with GET, NX GET or XX GET is sent the value of an earlier SET without a TTL, byte for byte, whatever stands between them that does not write the key |
| Exchanges.NoOldIsSent | src/cmd_handler.c:841-884 | On a key that no message has written it is sent nil |
| Exchanges.LastWriteIsSent | src/app.c:28-71 | In any stream under a clock that does not pass the reading of the GET, a GET is sent the value of the last SET of its key until that TTL is over, and nil from then on |
| Exchanges.TtlIsSent | src/cmd_handler.c:330-352 | The same in bytes and nanoseconds for the words EX, EXAT, PX and PXAT |
| Exchanges.ConfigSent | src/cmd_handler.c:121-181 | In any stream, `CONFIG GET` with a pattern that matches one configured key is sent that key and its value, and with one that matches none the empty array |
| Exchanges.ConfigListSent | src/cmd_handler.c:121-209 | With any patterns it is sent the listed pairs as one array if and only if the count has at most seven digits |
| Exchanges.ConfigDirSent | src/util.c:156-180 | `CONFIG GET dir` on the configuration of `setup` is sent `dir` and the directory of the command line |
| Exchanges.ErrorSent | src/app.c:51-52 | The error text and the success text, byte for byte |
| Exchanges.GetRefused | src/cmd_handler.c:354-364 | GET without exactly one bulk string is sent the error text and changes nothing |
| Exchanges.SetRefused | src/cmd_handler.c:418-435 | SET whose arguments are not accepted, or are five or more, is sent the error text and changes nothing |
| Exchanges.ConfigRefused | src/cmd_handler.c:69-100 | CONFIG that is not GET with at least one pattern is sent the error text |
| Setup.SetUp | src/util.c:152-182 | The keyspace is empty and the configuration holds `dir` and `dbfilename` with the values of the command line, in this order; without a value there is none |
| Setup.StorePair | src/util.c:168-180 | One round stores the next pair behind the others, and fails exactly for an empty value |
| Requests.PingUnanswered | README.md:148-151 | The documented PING message is read whole, answered by the error text, leaves one array record and ends nothing |
| Requests.DocumentedSetFails | README.md:159-163 | The documented SET with a TTL is no message, whatever follows its value |
| Requests.WrappedCommand | src/cmd_handler.c:36-45 | A command wrapped in further arrays is executed if and only if their number is a multiple of 256 |

## Left out

* Sockets, `accept`, the text sent to a rejected client, `send` and `recv` retries, `msleep`, logging, the command line, the client, and
  exits on failure; a `recv` that fails before the end of the stream is not modelled apart from it.
* Allocation failure, robust-mutex recovery, unlocking errors and the semaphores' maximum value.
* The server threads are steps on one state value instead of running code, with sequence operations
  for the queues; `Queue` proves those operations of the linked list separately. The call of the
  application inside a worker is one step and is taken to return.
* Concurrent commands: the workers share the map without a lock, and the model serves one command
  after another.
* Bit-level floats: the conversions and roundings are arbitrary monotone functions.
* Nil and empty arrays, nil bulk strings and negative bulk sizes: the lexer's outcome on them is only
  marked as outside, since their nodes are not sibling nodes in this code.
* An element tag other than `$` and `*` is a failure of the element here; in C `current` keeps
  whatever value it had.
* The `KeyValuePair` records passed between the map and the executors are out-parameters, not memory;
  the wrappers that `remove_key` takes out of the arrays (`src/simple_map.c` lines 34-46) and the copies
  of old pairs in `old_kvp` and `kvp_old` (`src/cmd_handler.c` lines 745-790 and 623-656), none of which
  the code frees, are not counted as left over.
* The 32-bit `int` of the byte counters of ECHO and CONFIG GET, and of `top` and `capacity`, is not
  bounded. Echo's counter is passed in and out instead of through a pointer.
* CONFIG GET on keys or values with NUL bytes, and the glob matcher itself.
* `print_array`, `delete_map` and the unfinished reader of RDB files.
- Connection.AppCode: stops where a message has a nil or empty part; a reply that cannot be sent makes
  the C loop go on without deleting the message, which is not modelled. The handlers take the
  argument list as a value that `ReadList` reads off the nodes, where the C handlers walk the nodes.
- ArrayLexer.ReadMessage: the command between reading and deleting is left to `Connection.AppCode`.
- ArrayLexer.LexArray: says nothing about the heap when the outcome is marked as outside.
- Lexer.GetElSize: the buffer is one slot longer than the one `get_el_size` allocates, because the C
  loop also stores a byte at the index of the array's size.
- Commands.Store.Serve: only GET and SET requests, already parsed; `Connection.AppCode` starts from bytes.
- Keyspace.TtlHonoured: takes clock and rounding as unbounded, which bit-level floats are not.
- SimpleMap.SimpleMap.Set: no error return for a NULL slot, since no slot up to `top` is NULL in a map
  that this code built.
