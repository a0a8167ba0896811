# ClawGuard capture agent: verified model

ClawGuard attaches uprobes to TLS write functions, cuts each plaintext write into 512-byte records,
rebuilds the writes in user space, and fans the resulting events out to plugin processes. This project
models that path in Dafny and proves what it promises.

* **Capture** (`Probe`, `CallIds`, `Fragments`, `History`). The kernel probe numbers the writes of each
  thread and emits the fragments of each write, in 32-bit arithmetic with its wrap-around; `History` joins
  any history of hooked calls to the events that come out at the other end.
* **Reassembly** (`ChunkPool`, `Reassembler`, `ReassemblySpec`). The read loop over the chunk pool, its
  FIFO free list and the per-write slot tables is a class; it is proved equal, record by record and over
  whole streams, to a specification without any pool. `RecordCases` says what one record does to a table,
  case by case and without that specification's own functions; the theorems about streams
  (`ReassemblyRuns`, `Expiry`, `Completeness`, `SharedIds`) hold for every stream, pool size and clock.
* **Fan-out and reload** (`Pipeline`). Producer, queue workers, the reloading goroutine and the shutdown
  goroutine are steps that interleave in any order; every queue carries its whole history. The code behind
  the steps is a class.
* **Plugin RPC** (`Frames`, `Rpc`, `Serve`). Length-prefixed frames; client and plugin as two processes over
  two bounded byte pipes whose bytes may move in any portions; and their code as programs over the pipes.
* **Attach table** (`AttachTable`) and **websocket hub** (`Hub`). Who owns which uprobe link, and what a
  websocket client is sent.

Three promises hold only under a condition, which is proved exact:

* Writes can get one call id: same thread, buffer address and length within 2 ms. Two such writes are
  never mixed, whatever stream of their fragments arrives, exactly when they differ in at most one fragment
  (`NeverMixedExactly`); a lost tail suffices to mix others, and two calls of one thread can leave that
  stream in the ring (`SharedIdMixes`, `WriteTwice`). Any number of writes are never mixed exactly when
  every mixture of their fragments is one of them (`FamilyExactly`), which it is when no two differ in more
  than one fragment (`CloseIsMixClosed`).
* A reload that waits for its workers has drained every queue when the wait returns (`ReloadDrains`). The
  wait does return, after a bounded number of worker steps, when no plugin name is used twice
  (`ReloadReturns`); with a repeated name, no later wait returns (`DuplicateHangs`) unless the context is
  cancelled, after which the workers can return whatever the names (`ShutdownReturns`).
* Container ids that are the same up to case match when the part behind a lower-case `sha256:` is
  (`MatchExactly` gives the condition for any two ids). Written in upper case the prefix is not taken off,
  and the ids differ (`UpperPrefixDiffers`).

Where comments or names in the code promise more than the code does, the model follows the code: the
`truncated` flag set when a ring slot cannot be reserved is in no record, since the loop stops there; and
`io.EOF` from a frame reader does not mean that the stream ended between frames (`StreamPrefix`).

## Model

| member | source | states |
|---|---|---|
| Probes.EmitCtx.EmitOneFrag | bpf/ssl_write.bpf.c:150-187 | one turn of the fragment loop: no record past the last fragment or without a ring slot (which only sets the context's flag); otherwise the record of that fragment, with an empty chunk when memory cannot be read |
| Probes.RecordIsFragment | bpf/ssl_write.bpf.c:160-184 | a record computed in wrapping 32-bit arithmetic is a fragment of its write: header, index, and exactly the bytes of its range, or an empty chunk exactly when unreadable |
| Probes.Probe.NextCallId | bpf/ssl_write.bpf.c:107-139 | the thread's state after a call is the one the numbering rule gives, and the id returned is the one stored |
| Probes.Probe.EmitFromBuf | bpf/ssl_write.bpf.c:189-245 | for every buffer, length, cap and kernel behaviour: invalid calls leave no trace; otherwise the records are the write's fragments 0, 1, ... in order, up to the first one without a ring slot, under the next call id; each announces the least of the length, 2^29 and a configured cap that is not 0, is marked truncated exactly when that is not all, and carries its 512-byte stretch of user memory |
| Fragments.CapturesMost | bpf/ssl_write.bpf.c:209-228 | the captured length is the greatest that the write, a configured cap and the budget of 2^29 bytes allow |
| Fragments.FragCount | bpf/ssl_write.bpf.c:219-228 | the fragment count is within 1..2^20 and is the least that covers the captured length |
| Fragments.PiecesTile | bpf/ssl_write.bpf.c:157-163 | the fragment ranges, in order, tile the captured prefix without gap or overlap |
| CallIds.IdClosedForm | bpf/ssl_write.bpf.c:107-139 | after any history the id is the number of the write group wrapped into 1..2^32-1, `seq` equals the last id, and the remembered call is the last one |
| CallIds.IdsIdentifyGroups | bpf/ssl_write.bpf.c:124-132 | ids are never 0; two calls of a thread share an id exactly when the number of groups between them is a multiple of 2^32-1; consecutive ones exactly when buffer and length agree and the clock advanced by 0..2 ms |
| ChunkPools.ChunkPool.constructor | cmd/clawguard/chunkpool.go:17-33 | at least 1024 chunks, 64 MiB when misconfigured, and every index free in order |
| ChunkPools.ChunkPool.Alloc | cmd/clawguard/chunkpool.go:50-73 | takes the head of the free list, stores the source bytes followed by zeros there and changes no other chunk; -1 and a counted miss exactly when none is free |
| ChunkPools.ChunkPool.Slice | cmd/clawguard/chunkpool.go:75-86 | the first n bytes of a chunk, with n clamped to 0..512; nothing for an index outside the slab |
| ChunkPools.ChunkPool.Release | cmd/clawguard/chunkpool.go:88-97 | appends a valid index to the free list, refuses it when the list is full, ignores others |
| ChunkPools.PushAllFits | cmd/clawguard/chunkpool.go:88-97 | releases that fit are never refused: the free list grows by exactly the held chunks, in slot order |
| ChunkPools.FragSlots.Put | cmd/clawguard/chunkpool.go:127-140 | fills exactly an empty slot that exists, counts it, and otherwise changes nothing |
| ChunkPools.FragSlots.Complete | cmd/clawguard/chunkpool.go:148-152 | true exactly when there are slots and all of them are filled |
| ChunkPools.FragSlots.ReleaseAll | cmd/clawguard/chunkpool.go:154-164 | hands every held chunk back once, in slot order, and empties all slots |
| ChunkPools.FragSlots.Assemble | cmd/clawguard/chunkpool.go:166-181 | the stored pieces in slot order cut to the total length, nothing exactly when a slot is empty |
| ChunkPools.FragSlots.HaveCount | cmd/clawguard/chunkpool.go:183-187 | the number of filled slots |
| Reassemblers.ConservedGiveBack | cmd/clawguard/chunkpool.go:154-164 | giving back the chunks of one write keeps the free list and the filled slots of all writes a partition of all chunks |
| Reassemblers.Reassembler.Accept | cmd/clawguard/main.go:604-681 | a usable record does to the pool, the slots and the table what the pool-free specification does to its table: same entry, event, drop or deletion |
| Reassemblers.Reassembler.Completed | cmd/clawguard/main.go:647-677 | the event of a complete write is the specified one, and assembling a complete write never fails |
| Reassemblers.Reassembler.MaybeSweep | cmd/clawguard/main.go:688-705 | at most once a second, deletes exactly the entries idle longer than the TTL, returns their chunks and counts each as one timeout |
| Reassemblers.Reassembler.Handle | cmd/clawguard/main.go:570-705 | one pass of the read loop refines one step of the specification and keeps chunk conservation, so no chunk is lost, shared or released twice |
| Reassemblers.Reassembler.ReadLoop | cmd/clawguard/main.go:553-707 | over every stream the loop's table, events, drops and sweeps are the specification's; on cancellation they are too, but for the table, which is empty, and every chunk is free again |
| Reassemblers.Reassembler.Shutdown | cmd/clawguard/main.go:560-566 | after cancellation the free list holds every chunk, each once |
| RecordCases.DiscardedOnly | cmd/clawguard/main.go:582-602 | a record without fragments, with an index outside its write or without bytes is counted and changes nothing else; bytes that are no record are not even counted |
| RecordCases.HeaderOnly | cmd/clawguard/main.go:617-645 | a repeated fragment, or one its write has no slot for, only refreshes the header: greatest lengths seen, truncation mark, time of the latest record |
| RecordCases.ExhaustionForgetsWrite | cmd/clawguard/main.go:633-641 | a missing fragment for which no chunk is free costs the whole write: its entry goes with every piece it held, nothing is emitted and one drop is counted |
| RecordCases.FragmentAdded | cmd/clawguard/main.go:605-646 | a missing fragment that leaves others missing adds exactly its bytes to its write, creating the entry if need be |
| RecordCases.LastFragment | cmd/clawguard/main.go:647-677 | the last missing fragment removes the entry and emits the pieces of all fragments in index order, cut to the greatest announced total, under the write's header and this record's hook |
| RecordCases.DropsAreLosses | cmd/clawguard/main.go:588-641 | on every stream the drop counter is the number of discarded records plus the number of records that found the pool full |
| RecordCases.ExhaustionStartsOver | cmd/clawguard/main.go:633-641 | after a record that found the pool full its write is delivered at most as often as each of its fragments is received again, whatever it held before |
| ReassemblyRuns.InFlightBound | cmd/clawguard/main.go:605-654 | on every stream each live entry holds at least one piece and fewer than its slots, and the chunks in use never exceed the capacity |
| ReassemblyRuns.EntriesWithinPool | cmd/clawguard/main.go:605-654 | live entries <= chunks in use <= capacity on every stream |
| ReassemblyRuns.DeliveryBound | cmd/clawguard/main.go:588-650 | a write is emitted at most as often as each single fragment index was received, and never when it has more fragments than the pool has chunks |
| ReassemblyRuns.EndToEndExactness | cmd/clawguard/main.go:603-681 | when all records of a key are fragments of one write, then under any loss, duplication, reordering, interleaving, pool size and sweeps every event carries exactly the captured prefix, its length, and `Truncated` exactly when bytes were left out |
| Histories.Observe | bpf/ssl_write.bpf.c:107-245 | for any history of hooked calls on any threads, every record the probe emits is a fragment of the write of one of the calls, under the id that call gets |
| Histories.HistoryIsGenuine | bpf/ssl_write.bpf.c:124-132 | when calls that count as one write hold the same bytes and no thread has more groups than there are ids, all records with one key, however selected, repeated or reordered, are fragments of one write |
| Histories.HooksToEvents | cmd/clawguard/main.go:603-681 | under those two conditions every event the reassembler emits from records of the history has the process, thread and length of one hooked call and exactly the first bytes of its buffer, as many as its length, 2^29 and the cap allow |
| Expiry.SweepExact | cmd/clawguard/main.go:617-705 | with a monotone clock a sweep keeps exactly the entries of which some record, duplicates included, is at most a TTL old, unchanged |
| Expiry.ExpiredWasIdle | cmd/clawguard/main.go:617-703 | each sweep of a run ran at some record, more than the TTL after the latest usable record of every key it gave up, duplicates included |
| Expiry.HeardNeverExpires | cmd/clawguard/main.go:617-703 | a write that no record finds held and idle for more than the TTL is given up by no sweep of the run |
| Expiry.SweepSpacing | cmd/clawguard/main.go:688-705 | successive sweeps are at least one second apart |
| Completeness.Complete | cmd/clawguard/main.go:604-681 | when every fragment of every write arrives exactly once, the pool has as many chunks as there are records and nothing idles past the TTL: each write is emitted exactly once, at its last missing fragment, exactly, and the table ends empty |
| Completeness.Confluent | cmd/clawguard/main.go:604-681 | two such streams of the same fragments in different orders emit the same multiset of events, up to the hook that brought the last fragment |
| SharedIds.SharedIdSafe | cmd/clawguard/main.go:628-681 | of any number of writes under one id, of which every fragmentwise mixture is again one of them, every stream gives only events that are exactly one of them |
| SharedIds.CloseIsMixClosed | cmd/clawguard/main.go:628-681 | writes of which no two differ in more than one fragment have no mixtures but themselves |
| SharedIds.FamilyExactly | cmd/clawguard/main.go:628-681 | for any set of writes under one id: every mixture of them is one of them if and only if every stream of their fragments gives only events that are exactly one of them |
| SharedIds.SharedIdMixes | cmd/clawguard/main.go:628-681 | for any two writes under one id that differ in fragments a < b: fragments 0..a of the first followed by all of the second are emitted as one event whose payload is neither write's |
| SharedIds.WriteTwice | bpf/ssl_write.bpf.c:124-186 | two calls of one thread with one buffer, at most 2 ms apart, of which the first is granted no ring slot after fragment a, leave exactly that stream, whatever the buffer held each time |
| SharedIds.NeverMixedExactly | cmd/clawguard/main.go:628-681 | for two writes under one id, a pool that holds one of them and a TTL that is not negative: they differ in at most one fragment if and only if every stream of their fragments gives only events that are exactly one of them |
| SharedIds.CloseExactly | cmd/clawguard/main.go:628-681 | for any set of writes under one id: no two differ in more than one fragment if and only if no two of them are ever mixed with each other |
| Pipelines.Pipeline.constructor | internal/pipeline/pipeline.go:29-43 | queues of the requested size, 256 when that is not positive, and none registered yet |
| Pipelines.Pipeline.TrySend | internal/pipeline/pipeline.go:192-204 | one offer: appended when the queue is open and not full, otherwise a counted drop, a closed queue included |
| Pipelines.Pipeline.Emit | internal/pipeline/pipeline.go:140-190 | undisturbed, the event left by the synchronous processors, each fed what the one before it left, is offered once to every registered queue and to no other |
| Pipelines.ProcessorsInOrder | internal/pipeline/pipeline.go:150-161 | each synchronous processor is fed what the one before it left: its single replacement, or the event itself when it fails or gives none |
| Pipelines.Pipeline.CloseQueues | internal/pipeline/pipeline.go:50-62 | undisturbed, exactly the registered queues are closed, once each and with nothing else of them changed, and none stays registered |
| Pipelines.Pipeline.StartWorkers | internal/pipeline/pipeline.go:66-123 | one new queue per name in order; of two equal names the later keeps the entry |
| Pipelines.LastRegistered | internal/pipeline/pipeline.go:71-74 | the queue registered under a name is that of its last occurrence |
| Pipelines.EmitIsRun | internal/pipeline/pipeline.go:163-189 | the interleavable steps of one event, undisturbed and in any map order, do to the queues what `Emit` does |
| Pipelines.QueueHistories | internal/pipeline/pipeline.go:163-204 | for every queue and interleaving: accepted = handed over ++ in hand ++ waiting, waiting <= queue size, accepted is in emission order, offers = accepted + drops, closed at most once |
| Pipelines.OfferStep | internal/pipeline/pipeline.go:192-204 | in any interleaving, an open queue with room takes the offered event at its end and drops nothing; a closed or full one only counts a drop |
| Pipelines.DropsAreRefusals | internal/pipeline/pipeline.go:174-204 | over every run a queue's drops are exactly the offers that found it closed or full |
| Pipelines.UnrefusedTakesAll | internal/pipeline/pipeline.go:163-204 | a registered queue of which no offer was refused has accepted exactly the events emitted since it was created, in order, up to the one being fanned out |
| Pipelines.ClosedIsFinal | internal/pipeline/pipeline.go:192-204 | from the moment a queue is closed it accepts nothing, and every later offer to it is a counted drop |
| Pipelines.ReloadDrains | internal/pipeline/pipeline.go:50-64 | with no cancellation, when the wait returns every queue ever created was closed exactly once and everything it accepted was handed to its client, once and in order |
| Pipelines.ClosingProceeds | internal/pipeline/pipeline.go:57-62 | while queues it took remain, the stopping goroutine can close the next, and one fewer remains |
| Pipelines.ReloadReturns | internal/pipeline/pipeline.go:63-92 | with distinct names and no cancellation before it, once every queue is closed the wait needs at most a fixed number of worker steps: whatever else happens each worker step leaves fewer, every worker that has not returned can take one, and exactly when none is left the wait returns |
| Pipelines.DuplicateHangs | internal/pipeline/pipeline.go:71-76 | after a start in which a name occurs twice, no wait for the workers returns in any uncancelled run |
| Pipelines.ShutdownReturns | internal/pipeline/pipeline.go:131-137 | once the context is cancelled and the queues taken are closed, every worker can return after at most the client call it is in, repeated names or not, and then the wait returns |
| Frames.WriteMessage | api/plugin/v1/protocol.go:53-65 | puts one frame on the pipe: four-byte big-endian length, cut to 32 bits, then the body; of a failing write, exactly the bytes that were taken, and no body after half a header |
| Frames.HeaderBytes | api/plugin/v1/protocol.go:58-59 | the four header bytes are the length in base 256, most significant first |
| Frames.ReadMessage | api/plugin/v1/protocol.go:68-82 | takes from the pipe what the frame grammar says, with its error and what is left in each failing case |
| Frames.FrameExact | api/plugin/v1/protocol.go:53-82 | a written frame is read back, and the rest left alone, if and only if its body has 1 byte to 256 MiB |
| Frames.WriterUnchecked | api/plugin/v1/protocol.go:53-65 | what a reader gets from any other body, whose length the writer does not check: a refusal, or a shorter body with the remainder left on the pipe |
| Frames.StreamRoundTrip | api/plugin/v1/protocol.go:53-82 | frames written one after another are read back as the same list, whatever follows them |
| Frames.StreamPrefix | api/plugin/v1/protocol.go:68-82 | a stream cut at any byte decodes to a prefix of its list, a proper one unless nothing is cut; `io.EOF` is seen exactly at a frame boundary or right after a header |
| Serving.Client.Begin | internal/pluginhost/client.go:94-105 | every call takes the next 64-bit id; one whose parameters cannot be encoded writes nothing, any other its request frame, cut short exactly when the write fails |
| Serving.Client.End | internal/pluginhost/client.go:106-119 | one reply frame is taken from the pipe and decides between read error, id mismatch, plugin error, error in decoding a non-empty result, and result |
| Serving.Serve | pkg/pluginsdk/sdk.go:46-72 | for whatever arrives, the loop writes what the stream function says, frame by frame, until a read, a decoding or the write of a reply fails or a close request has been answered |
| Serving.ServeAnswersAll | pkg/pluginsdk/sdk.go:46-136 | fed the frames of any requests of which only the last may be a close, a plugin writes exactly the frames of the responses it builds for them in order, and reads nothing after a close request or after bytes that are no request |
| Serving.ServeCutShort | pkg/pluginsdk/sdk.go:60-67 | with a writer that fails after any number of bytes the replies are cut there, and no request is handled after the first one whose reply was cut |
| Rpc.HandleAnswers | pkg/pluginsdk/sdk.go:74-140 | every response carries its request's id; error responses carry no result and others no error; unknown methods and undecodable parameters do not reach the handler |
| Rpc.InfoCalls | pkg/pluginsdk/sdk.go:77-86 | "info" answers with the handler's information, an empty API version sent as "1" |
| Rpc.ConfigureCalls | pkg/pluginsdk/sdk.go:87-98 | "configure" gives the handler the decoded configuration, the empty one without parameters; its error is the reply's, otherwise the status is "ok" |
| Rpc.ProcessCalls | pkg/pluginsdk/sdk.go:99-115 | "process" answers with the handler's replacement, or else the event as the handler left it, or with its error or that of the encoding |
| Rpc.EmitCalls | pkg/pluginsdk/sdk.go:116-125 | "emit" gives the handler the decoded event; its error is the reply's, otherwise the status is "ok" |
| Rpc.CloseCalls | pkg/pluginsdk/sdk.go:126-131 | "close" closes the handler; its error is the reply's, otherwise the status is "closed" |
| Rpc.RefusedCalls | pkg/pluginsdk/sdk.go:87-134 | any other method, and parameters that do not decode, leave the handler alone and are answered with that error |
| Rpc.CallsAreThoseAsked | pkg/pluginsdk/sdk.go:74-136 | over any requests, the handler calls made are exactly those asked for by the requests that can be understood, in order and with the decoded arguments |
| Rpc.CallsMatchReplies | internal/pluginhost/client.go:94-120 | for any calls, plugin and portioning of bytes, with bodies of 1 byte to 256 MiB: the k-th call returns the response built for the k-th request, no id mismatches, no read fails, and both pipes are empty between calls |
| Rpc.OutcomeSays | internal/pluginhost/client.go:113-119 | an ok reply gives its result bytes, or the error of decoding them; any other gives the plugin's own error |
| Rpc.ReplyChecked | internal/pluginhost/client.go:106-112 | a call takes no reply but one that can be read and decoded and carries the call's own id |
| Rpc.NeverStuck | pkg/pluginsdk/sdk.go:47-72 | while a call is open, client or plugin can move, for any pipe capacity of at least one byte |
| Rpc.EveryStepCloser | internal/pluginhost/client.go:94-120 | every step that does not begin a call decreases a well-founded measure, so every call returns |
| Rpc.WantedExact | api/plugin/v1/protocol.go:68-81 | a reader never asks for bytes beyond the frame being sent, and is done exactly when it has all of it |
| Attaching.MatchIsSameClass | cmd/clawguard/k8s.go:308-318 | two ids match exactly when their classes (first twelve characters after normalisation, or a shorter id itself) are equal |
| Attaching.MatchEquivalence | cmd/clawguard/k8s.go:308-318 | matching is reflexive, symmetric and transitive |
| Attaching.MatchExactly | cmd/clawguard/k8s.go:308-318 | ids with or without the digest prefix match exactly when the first twelve characters behind it agree up to case, or, when one is shorter, all of them |
| Attaching.UpperPrefixDiffers | cmd/clawguard/k8s.go:309-310 | the same id does not match itself when its prefix is written in upper case, which is not taken off |
| Attaching.NamedExactly | cmd/clawguard/main.go:1119-1128 | a cgroup path names a container exactly when its id up to case, or the first twelve characters of a longer one, stands somewhere in the path |
| Attaching.HookCounts | cmd/clawguard/main.go:849-871 | an attach ends with one link for Go's hook alone, two for OpenSSL alone, three for both and none otherwise |
| Attaching.AttachTable.AttachOpenSSL | cmd/clawguard/main.go:926-940 | both write functions are hooked and their links open, or neither and every link opened on the way is closed |
| Attaching.AttachTable.RegisterAttach | cmd/clawguard/main.go:943-955 | the links become the container's attach set, or are all closed when it already has one |
| Attaching.AttachTable.AttachUprobes | cmd/clawguard/main.go:839-879 | an attach leaves no link in flight: each one it opened is in the container's new set or closed once; an attached container only gets new metadata |
| Attaching.AttachTable.DetachContainer | cmd/clawguard/main.go:1046-1072 | removes exactly the entries matching the id from both maps, closes exactly their links, and leaves every other entry and link alone |
| Attaching.AttachTable.DetachAll | cmd/clawguard/main.go:1074-1084 | empties the table; if no attach is in progress every link ever opened was then closed exactly once |
| Attaching.AttachTable.AttachByContainerID | cmd/clawguard/k8s.go:222-263 | in Kubernetes mode no two keys ever match: a match only gets new metadata, otherwise a new entry appears under exactly this id if hooks attach |
| Attaching.AttachTable.DetachPodContainers | cmd/clawguard/k8s.go:188-208 | removes exactly the entries named by the pod's container ids or carrying both the pod's name and its namespace |
| Attaching.AttachTable.LookupTarget | cmd/clawguard/main.go:1115-1148 | a container named in the cgroup is preferred; the metadata is always that of the id returned; unknown exactly when nothing is attached; neither fallback loop over `byID` is ever decisive |
| Hubs.Hub.Broadcast | cmd/clawguard-sink-debugws/main.go:151-161 | every registered client with room gets the message, exactly those without are evicted and closed, others are untouched |
| Hubs.Hub.Unregister | cmd/clawguard-sink-debugws/main.go:144-150 | closes the queue of a registered client and does nothing for one already evicted |
| Hubs.Hub.Run | cmd/clawguard-sink-debugws/main.go:135-164 | over every run the hub's state is that of the reference steps; from a new hub, each client was given exactly the messages from its joining to the first that finds its queue full, its leaving, or the end, and its queue was closed exactly then, once |
| Hubs.EveryClientServed | cmd/clawguard-sink-debugws/main.go:135-164 | the reference steps give each client exactly that slice, located by the events of the run alone |
| Hubs.LeftNext | cmd/clawguard-sink-debugws/main.go:144-158 | once a client has left or was evicted, nothing that happens changes what it was given, and its queue is not closed again |
| Hubs.OneMore | cmd/clawguard-sink-debugws/main.go:151-161 | one more broadcast keeps each client's slice gap-free, ended exactly by eviction |

## Left out

- Decoding of a record's raw bytes: a pass of the read loop gets a malformed record or a decoded one.
- Read errors, logging, metrics and the pool gauge; the event's timestamp, container id and pod fields.
- The exits of the read loop on a closed or ended ring buffer, which return without releasing chunks.
- `reassemblyState` is a record held in the table and replaced there, not an object behind a pointer; its slot table is an object, and no two entries share one. The mutexes of `fragSlots` guard a single goroutine and are not modelled, nor are nil receivers.
- Reassemblers.Reassembler.Shutdown: also removes the entries from the table, which the source leaves to be collected with it.
- Eviction from the probe's least-recently-used map: the call-id theorems are about a thread that keeps its entry.
- The probed buffer is taken as fixed during one hook; whether a ring slot is granted and whether memory can be read are inputs.
- ReassemblyRuns.EndToEndExactness: assumes one write per key. HistoryIsGenuine derives that from what the probe does; when writes share a key all the same, SharedIdSafe and SharedIdMixes say what remains true.
- ReassemblyRuns.DeliveryBound: is about keys whose records agree on the fragment count, as those of one write do.
- Expiry after traffic stops: the sweep only runs after a record that was not discarded, so there is no bound to state.
- The theorems about interleavings of goroutines and of processes are about transition systems over values; the classes `Pipeline` and `Client` say what the code does undisturbed. One goroutine emits, one reloads, one shuts down.
- In the interleaving model an event enters as the synchronous processors left it; absent events, which are ignored, and the stamping of version and plugins are left out.
- Pipelines.ReloadReturns: counts the return of a client call as a step a worker can take, so it assumes that such calls do return.
- Pipelines.ReloadDrains: handed to its client means that the client was called, with or without an error; on reload the manager has closed the old clients before the workers are stopped, so those calls may fail.
- Events emitted between the map swap and the restart meet no queue and are counted nowhere; nothing is claimed about them.
- Rpc.CallsMatchReplies: JSON is an abstract encoding that decodes what it encoded; the two pipes do not fail (failing writes are in `Client.Begin` and `Serve`), and no call follows a close request, after which the process is killed.
- Attaching.AttachTable.AttachUprobes: the retries, the discovery of libraries and executables and the context checks are an input saying which hooks attach; attaches run one at a time, as both modes do.
- Attaching.MatchIsSameClass: lower-casing is that of ASCII ids, where length in bytes and in characters agree.
- Parsing of runtime-qualified container ids and the choice of which containers or pods to attach.
- Hubs.Hub.Run: after the hub's context ends no queue is closed and nothing more is sent; HTTP, the websocket itself and the broadcast buffer are not modelled.
- Plugin process start, stop and reload in the manager, configuration, label filters, detection and masking, sinks other than the hub, and the user interface: input, output or third-party behaviour.
