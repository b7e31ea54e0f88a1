# Verified model of the Neon compute side

Dafny proofs about the parts of Neon that run next to a PostgreSQL compute: the prefetch ring through which a
backend reads pages, the tracking of role and database changes, the application of a compute spec, and several
smaller algorithms. `dafny verify dfyconfig.toml` checks the whole project.

**Prefetch ring** (`pgxn/neon/communicator.c`). `PageTypes`, `Ring` and `RingSteps` define the ring as a value,
its invariant and what each elementary step keeps. The invariant orders the four indices, places every slot status,
makes the hash a bijection, ties the counters to the slots, makes every buffered response the answer to its own
request, and makes the queue of every connection exactly the ring's outstanding requests of that shard, in ring order,
followed by a synchronous request. `RingBuffer` and `Bitmap` show that the physical buffer and the dirty-shard bitmap
refine a map and a set. `Comm.Communicator` is the stateful code; its methods are proved against these definitions.
`RingResize`, `RingSync` and `RingDisconnect` hold the arguments for resizing, synchronous requests and lost
connections, and `Runs` the statement about whole runs. The network is a finite script of events consumed at every point
where the code touches a connection: a cancellation, lost connections, a success or failure of the call, how far WAL has
been written, the LSN at which the server reads the page. An exhausted script means cancellation. A ghost record of the
responses received ties every page, reply and error handed to a caller to a server that followed one of the events. A server reads a page
at an LSN not before not_modified_since, not after the request LSN (`pgxn/neon/pagestore_client.h`, lines 243-247) and
not after what has been written. A prefetch claims that the page is not modified between its not_modified_since and its
effective LSN; the caller of a read holds the page's buffer, so its claim lasts until the read returns.

**Wire format** (`nm_pack_request`, `nm_unpack_response`) is in `Protocol`; pages have PostgreSQL's default size of
8192 bytes.

**Role and database tracking** (`pgxn/neon/control_plane_connector.c`) is in `DdlTables` (one table), `DdlStack` (the
stack and event trees), `DdlMerge`, `DdlRename` and `DdlPlain` (committed subtransactions) and `DdlTracker` (the hooks).

**Spec application** (`compute_tools/src/spec_apply.rs`) is in `SpecCatalog` (server, mirror, plan), `SpecRetry`
(crash and retry) and `SpecApply` (the phases).

**Smaller parts**: `Hll` (sliding HyperLogLog), `Quorum` (safekeeper fast path), `Migration`, `Quoting`, `DollarQuote`
and `ConfFile`.

Where a property that the code might be expected to have does not hold on all inputs, the project states exactly when it
does:

- A connection lost while `prefetch_wait_for` handles an interrupt may leave another block's response at the awaited
  index (`RingDisconnect.DisconnectKeepsTags`, `WaitFindsAnother`, `WaitFindsWrongBlock`).
- A cancelled `page_server_request` closes one connection only; the ring stays consistent if and only if no prefetch
  is outstanding on that shard (`RingSync.SyncCancelledKeeps`); otherwise another block's page may be found under a tag
  (`RingSync.SyncCancelledMisroutes`, `WrongPageFound`).
- A committed subtransaction can differ from inline execution: without renames exactly as `DdlStack.PlainCommitIsInline`
  says, with renames exactly as `DdlRename.CommitIsInline`, `AlwaysInlineIff`, `RoleRenameIff` and `DbRenameIff` say;
  `DdlStack.CommitForgetsRename`, `CommittedRenameDiffers`, `DdlRename.ShiftLosesEntry` and `TablesDoNotDecide` are
  inputs.
- A crash between CREATE DATABASE and its GRANT is not repaired by later runs (`SpecRetry.CrashConverges`,
  `CrashesConverge`, `CutAfterCreate`), and an owner whose recorded name is the quoted spelling of the wanted one is not
  corrected (`SpecCatalog.SpecAgrees`, `QuotedOwnerStays`).
- Dollar quoting is read back unless the string ends in a dollar sign and the tag (`DollarQuote.DollarRoundTrip`,
  `EndingInTag`), and the statement around it unless the name clashes with the outer tag (`DollarQuote.RenderedIsRead`,
  `NameIsOuterTag`).
- `escape_conf_value` is read back unless the value has a newline (`ConfFile.ConfValueRoundTrip`).
- A window query that reaches back to time 0 reads every register as full (`Hll.WindowMustStartAfterZero`).

## Model

| member | source | states |
|---|---|---|
| `PageTypes.UsableMeansCurrent` | pgxn/neon/communicator.c:1858-1948 | a response accepted for a newer request, read by the server at any LSN between the older not_modified_since and the clock at delivery, is the page at the newer request's effective LSN and still the current page, given the older claim up to its effective LSN and the newer one until delivery |
| `PageTypes.UsableAtRequestLsn` | pgxn/neon/pagestore_smgr.c:600-633 | where requests name the LSN they want (request = effective, as on a replica) the two claims alone make the accepted page right |
| `PageTypes.ShorterClaimIsNotEnough` | pgxn/neon/pagestore_smgr.c:638-716 | a request for the latest version (request LSN beyond the clock) needs a claim that lasts until delivery: for a claim that ends at any earlier clock there is a page history in which it holds and the server's answer is not the page at the effective LSN |
| `PageTypes.RejectedMayBeStale` | pgxn/neon/communicator.c:1858-1948 | the reuse condition cannot be widened: for every rejected pair whose LSNs did not go backwards there is a page history in which both claims hold and the older answer is wrong |
| `Runs.Run` | pgxn/neon/communicator.c:434-2222 | whole runs, for any operations in any order and any network behaviour: every delivered page was sent by a server for a usable request of the run; it is the page at the caller's effective LSN and the current one when claims hold until each read returns, and at the effective LSN when requests name the LSN they want; every reply was sent by a server for that very request, and every read reported as refused has a block for which a server answered a usable request with an error; without cancellation every synchronous request is answered and every read that was not refused delivers all its blocks; responses, clocks and cancellations all come from the events used up; where no event is a cancellation or an error, every not_modified_since has been written and the script lasts, every read delivers all its blocks and no reply is an error; the invariant holds at the end unless a synchronous request was cancelled while prefetches were outstanding on its shard; every page request goes to a shard that its operation gives for the block |
| `Runs.RunIsCurrent` | pgxn/neon/communicator.c:1858-1948 | when the claims of all operations are true, those of reads until the read returns, a delivered page is the page at its caller's effective LSN and still the current one when the operation ends |
| `Runs.RunAtRequestLsn` | pgxn/neon/pagestore_smgr.c:600-633 | when every request names the LSN it wants and claims hold up to the effective LSN, every delivered page is the page at its caller's effective LSN |
| `Runs.SmoothRun` | pgxn/neon/communicator.c:1346-2222 | when no event is a cancellation or an error and every not_modified_since has been written, no read is refused, no reply is an error and nothing is cancelled before the script is used up |
| `Runs.TimelyAnswer` | pgxn/neon/pagestore_client.h:237-256 | a server that follows events without errors never answers a request with an error whose not_modified_since has been written and is not after its request LSN |
| `Runs.ErrorHeard` | pgxn/neon/communicator.c:2152-2217 | an error that is found for an unmasked block of a read was sent by a server, in answer to a registered request that was usable for the block |
| `Runs.StepPages` | pgxn/neon/communicator.c:977-2222 | page operations keep the invariant and deliver only sound pages; a prefetch that is not cancelled requests every unmasked block that fits the ring, a read delivers every unmasked block unless a server answered a usable request for one with an error or the query is cancelled, a lookup every usable buffered page |
| `Runs.StepRing` | pgxn/neon/communicator.c:434-1418 | pump, early receive, synchronous request, lost connections and resize keep the invariant; a synchronous request that is not cancelled gets a response that a server sent to it, and only a cancelled one that strands prefetches on its shard gives the invariant up |
| `Runs.LogSound` | pgxn/neon/communicator.c:2030-2222 | the deliveries extracted from a multi-block read are sound and none is for a masked block |
| `Comm.Communicator.constructor` | pgxn/neon/communicator.c:1808-1850 | a new ring is the start state, satisfies the whole invariant and has its whole script before it |
| `Comm.Communicator.ReadSlot` | pgxn/neon/communicator.c:274-284 | reading a physical slot gives the slot of that ring index, unused exactly when the index is not live |
| `Comm.Communicator.PutSlot` | pgxn/neon/communicator.c:274-284 | filling a physical slot changes that ring index only |
| `Comm.Communicator.ClearSlot` | pgxn/neon/communicator.c:903-907 | clearing a physical slot frees that ring index only |
| `Comm.Communicator.AdvanceLast` | pgxn/neon/communicator.c:615-631 | moving ring_last past a gap does not change which indices are live |
| `Comm.Communicator.CleanupTrailingUnused` | pgxn/neon/communicator.c:615-631 | ring_last moves to the first used slot before ring_receive, or to ring_receive |
| `Comm.Communicator.FindGap` | pgxn/neon/communicator.c:328-336 | the newest gap below ring_receive is found |
| `Comm.Communicator.MoveSlot` | pgxn/neon/communicator.c:363-396 | a response moves to another index together with its hash entry |
| `Comm.Communicator.Compact` | pgxn/neon/communicator.c:318-413 | the loop computes the compacted ring, reports whether it moved anything, and otherwise changes nothing |
| `Comm.Communicator.SetUnused` | pgxn/neon/communicator.c:873-919 | a slot is released, its counter and hash entry with it, followed by trimming or, when gaps exceed an eighth of the responses, compaction |
| `Comm.Communicator.DropOldest` | pgxn/neon/communicator.c:826-852 | the oldest outstanding request is given up and released |
| `Comm.Communicator.OnDisconnect` | pgxn/neon/communicator.c:821-862 | exactly the outstanding requests are dropped, ring_receive = ring_flush = ring_unused, all buffered responses stay in order, and the full invariant holds although compaction may run inside the loop |
| `Comm.Communicator.PsDisconnect` | pgxn/neon/libpagestore.c:955-995 | losing connections drops the prefetch queue, closes the lost connections and keeps every buffered response findable by tag |
| `Comm.Communicator.Connect` | pgxn/neon/libpagestore.c:997-1035 | lost connections are dropped before a request is written; a broken one takes the prefetch queue with it and no buffered response |
| `Comm.Communicator.Send` | pgxn/neon/libpagestore.c:997-1077 | a request is written behind everything outstanding on its shard, in a consistent state reached after reconnecting |
| `Comm.Communicator.FlushConn` | pgxn/neon/libpagestore.c:1236-1259 | a successful flush empties the output buffer of one shard; a failed one is a disconnect |
| `Comm.Communicator.Receive` | pgxn/neon/libpagestore.c:1079-1154 | the response received is what the server of the next event answers to the oldest request of the connection, which leaves the queue; a broken connection is a disconnect, a cancelled wait changes nothing |
| `Comm.FollowsReceive` | pgxn/neon/libpagestore.c:1079-1154 | receiving keeps the account of the environment: every response was sent by a server that followed a used-up event, and the clock was named by one |
| `Comm.FollowsNext` | pgxn/neon/libpagestore.c:1079-1154 | using up an event keeps that account: cancellations seen are events used up or the script is exhausted |
| `Comm.Communicator.FlushIfDirty` | pgxn/neon/communicator.c:637-645 | one dirty shard is flushed and its bit cleared |
| `Comm.Communicator.FlushRequests` | pgxn/neon/communicator.c:634-648 | after success every request of the ring has left the output buffers |
| `Comm.Communicator.StoreResponse` | pgxn/neon/communicator.c:755-764 | the response goes into the slot at ring_receive and the counters move with it |
| `Comm.Communicator.PrefetchRead` | pgxn/neon/communicator.c:711-792 | never waits for an unsent request; the oldest outstanding slot gets the answer to its own request and nothing else changes |
| `Comm.Communicator.PumpState` | pgxn/neon/communicator.c:434-490 | responses are taken from the first on as long as they have arrived: it stops only at ring_flush or where nothing is ready, unless a connection breaks; no buffered response is lost |
| `Comm.Communicator.FlushUpTo` | pgxn/neon/communicator.c:665-671 | before waiting for a slot its request is flushed |
| `Comm.Communicator.ReceiveNext` | pgxn/neon/communicator.c:675-689 | one more response, then whatever an interrupt pumps |
| `Comm.Communicator.WaitFor` | pgxn/neon/communicator.c:659-698 | on success the slot is received, and only receipts and flushes happened to the ring |
| `Comm.Communicator.ConsumeResponses` | pgxn/neon/communicator.c:608-613 | afterwards nothing is outstanding, unless the wait was cancelled |
| `Comm.Communicator.SendRetrying` | pgxn/neon/communicator.c:947-958 | sending is repeated until the request is written or the query is cancelled |
| `Comm.Communicator.MarkDirty` | pgxn/neon/communicator.c:964-965 | the shard is marked dirty and max_shard_no covers it |
| `Comm.Communicator.FillSlot` | pgxn/neon/communicator.c:958-971 | the slot, the hash, the counters, the dirty bit and max_shard_no are updated together |
| `Comm.Communicator.DoRequest` | pgxn/neon/communicator.c:925-971 | the request occupies the slot that was ring_unused, under its own tag and LSNs, with the invariant kept; its shard is the one given and its request ends that shard's queue |
| `Comm.Communicator.Discard` | pgxn/neon/communicator.c:873-919 | exactly the response of this slot disappears; every other buffered response is found as before |
| `Comm.Communicator.WaitAndDiscard` | pgxn/neon/communicator.c:1165-1172 | waiting for and dropping a slot loses no other buffered response |
| `Comm.Communicator.MakeRoom` | pgxn/neon/communicator.c:1232-1274 | a free slot is made by compaction, then without any loss, whenever gaps are more than an eighth of the responses, and otherwise by giving up the oldest entry; a ring with room is left alone |
| `Comm.Communicator.AddRequest` | pgxn/neon/communicator.c:1232-1305 | makes room and sends: the new slot belongs to the block with exactly its LSNs, and its request is the last one sent to the shard given |
| `Comm.Communicator.Reuse` | pgxn/neon/communicator.c:1140-1198 | returns the slot of a good enough request, or discards one that is not |
| `Comm.Communicator.RegisterBlock` | pgxn/neon/communicator.c:1140-1305 | on success the returned slot belongs to the block, was asked for, and for a read is usable; a new one is the last sent to the shard given, with the caller's LSNs |
| `Comm.Communicator.RegisterPass` | pgxn/neon/communicator.c:1120-1306 | exactly the unmasked blocks get a request that, with that tag, was registered at some time in the life of the ring and, for a read, is usable, and no request is made for a masked block; the last unmasked block still has its slot and the returned index is not after it; for one block the index is its slot; the request of the i-th block is for the block i after the base's, in the same relation and fork |
| `Comm.Communicator.TryRegister` | pgxn/neon/communicator.c:1120-1330 | one attempt: exactly the unmasked blocks get a request registered at some time in the life of the ring, the last one still has its slot, the returned index is not after it, and fewer than flush_every_n_requests requests are left unflushed |
| `Comm.Communicator.RegisterBufferV` | pgxn/neon/communicator.c:1090-1333 | starts over after lost connections; on success every unmasked block up to the ring size has a request that was registered at some time in the life of the ring, the last one still has its slot, the returned index is not after it, and fewer than flush_every_n_requests are unflushed; for a single block the returned index is its slot; every unmasked block below both the number asked for and the ring size has a request, and only these and a first one; all requests go to the shard given |
| `Comm.Communicator.FlushSometimes` | pgxn/neon/communicator.c:1318-1330 | flushes exactly when enough requests have piled up, and changes nothing else in the ring |
| `Comm.Communicator.FindUsable` | pgxn/neon/communicator.c:2086-2122 | finds a usable slot, or leaves no slot for the block |
| `Comm.Communicator.AwaitOnce` | pgxn/neon/communicator.c:2124-2150 | one round of the wait loop: waits for the slot found or for a newly registered one |
| `Comm.Communicator.AwaitBlock` | pgxn/neon/communicator.c:2086-2150 | on success the slot holds a received response for the block, usable for the caller |
| `Comm.Communicator.TakeResponse` | pgxn/neon/communicator.c:2152-2217 | the page handed out is a sound delivery and its slot is released; the response mismatch panics are unreachable; an error response to a usable request stays buffered |
| `Comm.Communicator.ReadBlock` | pgxn/neon/communicator.c:2086-2217 | a block is read, refused by a server error to a usable request that is still buffered, or cancelled |
| `Comm.Communicator.ReadNext` | pgxn/neon/communicator.c:2071-2221 | extends a sound prefix of results by one block; a masked block is skipped and nothing is requested for it, and otherwise a request goes to the shard given |
| `Comm.Communicator.ReadEach` | pgxn/neon/communicator.c:2071-2221 | the loop over the blocks: each gets a sound page, from its own shard where it has to be requested, up to the first that is refused or cancelled |
| `Comm.Communicator.ReadAtLsnV` | pgxn/neon/communicator.c:2030-2222 | every unmasked block gets a sound page, unless the last one attempted was refused by the server or the query was cancelled; masked blocks are untouched; the i-th result is for the block i after the base's, in the same relation and fork; a request goes to the block's own shard, or to that of the first block if the ring can take it together with the others |
| `Comm.Communicator.StoreCopy` | pgxn/neon/communicator.c:549-557 | an entry is copied in front of those already in the new buffer |
| `Comm.Communicator.CopyNewest` | pgxn/neon/communicator.c:531-577 | entries are copied newest first; the unsigned loop stops correctly, also when ring_last is 0 |
| `Comm.Communicator.FreeRest` | pgxn/neon/communicator.c:585-593 | the entries freed are those that were not copied |
| `Comm.Communicator.WaitUntilFits` | pgxn/neon/communicator.c:505-513 | requests that would not fit the new size are waited for |
| `Comm.Communicator.Install` | pgxn/neon/communicator.c:578-598 | the new buffer, hash, indices and counters replace the old ones |
| `Comm.Communicator.Resize` | pgxn/neon/communicator.c:493-598 | exactly the newest min(new size, used) entries survive in order, every outstanding request among them; the rest is freed and the invariant holds at the new size |
| `Comm.Communicator.SendSync` | pgxn/neon/communicator.c:1386-1390 | a synchronous request is written and flushed behind the outstanding prefetches |
| `Comm.Communicator.AwaitSync` | pgxn/neon/communicator.c:1391-1394 | after the prefetch responses the next response is what a server sent to the synchronous request |
| `Comm.Communicator.FlushSync` | pgxn/neon/communicator.c:1386-1390 | the synchronous request leaves the output buffer, or is gone with its connection |
| `Comm.Communicator.CloseAfterCancel` | pgxn/neon/communicator.c:1396-1412 | closing only the shard's connection keeps the invariant if and only if no prefetch is outstanding on that shard |
| `Comm.Communicator.TrySync` | pgxn/neon/communicator.c:1384-1395 | one attempt of a synchronous request returns what a server sent to it or starts over |
| `Comm.Communicator.SyncRequest` | pgxn/neon/communicator.c:1346-1418 | returns what a server sent to the very request sent, loses no buffered response; cancellation keeps the invariant if and only if no prefetch is outstanding on the shard |
| `Comm.Communicator.LookupBlock` | pgxn/neon/communicator.c:993-1050 | a hit exactly when a usable page is buffered; that page is returned and only that response is removed |
| `Comm.Communicator.LookupV` | pgxn/neon/communicator.c:977-1054 | for every block of the range: a hit exactly when a usable page was buffered before the call, with that page; the responses taken disappear and no other is touched; the i-th result is for the block i after the base's, in the same relation and fork; the number of hits is the number of pages read |
| `Comm.Communicator.PrefetchReceive` | pgxn/neon/communicator.c:799-813 | success releases the block's slot; failure means not prefetched, cancelled or connections lost |
| `RingSteps.HeadOfLine` | pgxn/neon/communicator.c:711-743 | the oldest flushed slot waits at the head of a live, flushed connection |
| `RingSteps.ReceiveKeeps` | pgxn/neon/communicator.c:744-778 | storing the head-of-line answer keeps the whole invariant, in particular each shard's queue is the ring's outstanding requests in order |
| `RingSteps.ReleaseKeepsCore` | pgxn/neon/communicator.c:881-907 | releasing a buffered slot keeps counters and hash exact |
| `RingSteps.MoveKeepsCore` | pgxn/neon/communicator.c:363-396 | moving a response keeps counters and hash exact |
| `RingSteps.TrimKeeps` | pgxn/neon/communicator.c:615-631 | trimming keeps contents and leaves ring_last on a used slot or at ring_receive |
| `RingSteps.SweepKeepsContents` | pgxn/neon/communicator.c:349-400 | sweeping moves keep order and contents of the responses and leave outstanding slots alone |
| `RingSteps.GapCount` | pgxn/neon/communicator.c:286-292 | the counters give the number of gaps, which is zero exactly when the window is full |
| `RingSteps.CompactedKeeps` | pgxn/neon/communicator.c:318-413 | compaction keeps order, contents and outstanding slots, keeps the hash exact and ends with no gaps |
| `RingSteps.FreedKeeps` | pgxn/neon/communicator.c:873-919 | releasing a slot keeps all others in order; unless it was the oldest, gaps are afterwards at most an eighth of the responses, and where they are so already nothing moves |
| `RingSteps.FreedInv` | pgxn/neon/communicator.c:873-919 | discarding a response keeps the invariant and removes that response and no other |
| `RingSteps.CompactedInv` | pgxn/neon/communicator.c:318-413 | compaction keeps the invariant and every buffered response findable |
| `RingSteps.FoundByTag` | pgxn/neon/communicator.c:318-413 | equal contents imply that a buffered response is found under its tag, wherever it was moved |
| `RingSteps.FoundSame` | pgxn/neon/communicator.c:318-413 | compaction and disconnects leave the tag-to-response map unchanged |
| `RingSteps.DropAllKeeps` | pgxn/neon/communicator.c:826-852 | dropping all outstanding requests one by one keeps the core invariant and the buffered contents |
| `RingSteps.DisconnectedKeeps` | pgxn/neon/communicator.c:821-862 | the disconnect hook re-establishes the whole invariant and keeps the buffered contents |
| `RingSteps.BufferedKept` | pgxn/neon/communicator.c:821-862 | after a disconnect every buffered response is found under its tag |
| `RingSteps.AppendKeeps` | pgxn/neon/communicator.c:958-971 | appending a sent request keeps the whole invariant |
| `RingSteps.FlushShardKeeps` | pgxn/neon/communicator.c:637-645 | flushing a shard and clearing its bit keeps the invariant |
| `RingSteps.AllFlushed` | pgxn/neon/communicator.c:634-648 | when no bit below max_shard_no is left, every request may be counted as flushed |
| `RingSteps.StartInv` | pgxn/neon/communicator.c:1808-1850 | the initial state satisfies the invariant |
| `RingDisconnect.CountsExact` | pgxn/neon/communicator.c:228-270 | the two counters are the true numbers of received and requested slots |
| `RingDisconnect.DisconnectKeepsTags` | pgxn/neon/communicator.c:659-698 | a disconnect leaves every ring index with its own tag or empty if and only if nothing is buffered, nothing is outstanding, or gaps plus outstanding requests are at most an eighth of the responses |
| `RingDisconnect.WaitFindsAnother` | pgxn/neon/communicator.c:686-697 | whenever that condition fails, some awaited index holds another block's response after the disconnect |
| `RingDisconnect.WaitFindsWrongBlock` | pgxn/neon/communicator.c:686-697 | a two-slot ring, reached from a new one by sending, flushing and receiving, in which another block's response is found at the awaited index |
| `RingSync.TailKeeps` | pgxn/neon/communicator.c:1386-1390 | writing a synchronous request behind the prefetches keeps the invariant |
| `RingSync.TailIsNext` | pgxn/neon/communicator.c:1391-1393 | once prefetch responses are consumed the synchronous request is alone on its connection and flushed |
| `RingSync.SyncCancelledKeeps` | pgxn/neon/communicator.c:1396-1412 | closing one connection keeps the invariant if and only if no prefetch is outstanding on it |
| `RingSync.SyncCancelledMisroutes` | pgxn/neon/communicator.c:1396-1412 | otherwise the answer to the next request on that shard is stored in the slot that still waits, and is found under the tag of that slot's block although it does not answer its request |
| `RingSync.WrongPageFound` | pgxn/neon/communicator.c:1396-1412 | in a ring reached from a new one by sending, flushing and receiving, the page of block 2 is found under the tag of block 1 after a cancellation |
| `RingResize.CopyEntry` | pgxn/neon/communicator.c:546-576 | copying one entry extends an exact copy of the newer part of the ring |
| `RingResize.OutstandingCopied` | pgxn/neon/communicator.c:505-577 | when the copy stops, every outstanding request has been copied |
| `RingResize.CopyIsResized` | pgxn/neon/communicator.c:531-598 | the copy holds exactly the newest min(new size, used) entries in order |
| `RingResize.ResizedInv` | pgxn/neon/communicator.c:493-598 | the copy satisfies the whole invariant at the new size |
| `RingResize.LeftBehind` | pgxn/neon/communicator.c:585-593 | the number of entries not copied is the drop in buffered responses |
| `RingBuffer.LivePut` | pgxn/neon/communicator.c:274-284 | writing index modulo size refines a map update |
| `RingBuffer.LiveClear` | pgxn/neon/communicator.c:274-284 | clearing index modulo size refines a map removal |
| `RingBuffer.LiveAdvance` | pgxn/neon/communicator.c:615-631 | sliding the window past an unused slot changes no live index |
| `RingBuffer.FirstRound` | pgxn/neon/communicator.c:549-553 | a fresh buffer in its first round holds each index at its own position |
| `Bitmap.SetAt` | pgxn/neon/bitmap.h:8-10 | setting a bit sets that bit and no other |
| `Bitmap.ClearAt` | pgxn/neon/bitmap.h:8-10 | clearing a bit clears that bit and no other |
| `Bitmap.Set` | pgxn/neon/bitmap.h:8-10 | in place: the set of bit numbers gains one |
| `Bitmap.Clear` | pgxn/neon/bitmap.h:8-10 | in place: the set of bit numbers loses one |
| `Bitmap.Test` | pgxn/neon/bitmap.h:8-10 | true exactly when the bit number is in the set |
| `Protocol.EchoRoundTrip` | pgxn/neon/communicator.c:1421-1657 | a version 3 answer built from any packed request decodes to that request and payload with all bytes consumed, if and only if fork number and SLRU kind fit the byte they travel in |
| `Protocol.EchoDecodes` | pgxn/neon/communicator.c:1421-1657 | what such an answer decodes to in every case |
| `Protocol.DecodedIsEcho` | pgxn/neon/communicator.c:1506-1657 | conversely, any message that decodes to an answer is that request's packed form followed by bytes denoting the payload |
| `Protocol.ErrorRoundTrip` | pgxn/neon/communicator.c:1601-1617 | error responses are read back |
| `Protocol.DecodedIsError` | pgxn/neon/communicator.c:1601-1617 | any message that decodes to an error is the encoding of that error |
| `Protocol.PlainRoundTrip` | pgxn/neon/communicator.c:1506-1657 | version 2 answers yield their payload under the kind of their tag |
| `Protocol.PlainFields` | pgxn/neon/communicator.c:1506-1657 | whatever a version 2 answer says, its request fields are zero |
| `Protocol.PlainErrorRoundTrip` | pgxn/neon/communicator.c:1601-1617 | a version 2 error is byte 103 and the message up to its zero byte |
| `Protocol.PackInjective` | pgxn/neon/communicator.c:1421-1504 | version 3 packing is injective |
| `Protocol.PackTwoInjective` | pgxn/neon/communicator.c:1421-1504 | version 2 packing is injective up to the request id |
| `Protocol.HeaderLayout` | pgxn/neon/communicator.c:1428-1435 | the byte positions of request id, LSNs and fields in a version 3 request |
| `Protocol.RequestTags` | pgxn/neon/pagestore_client.h:26-33 | the first byte of a request is 0 for exists, 1 for nblocks, 2 for a page, 3 for a database size, 4 for an SLRU segment, and for no other |
| `Protocol.ResponseTags` | pgxn/neon/pagestore_client.h:37-43 | in both versions the first byte of a message that decodes is 100, 101, 102, 104 or 105 exactly for the five answers and 103 exactly for an error |
| `Protocol.HeaderLayoutTwo` | pgxn/neon/communicator.c:1428-1435 | the same positions in a version 2 request, which has no request id |
| `Protocol.BigEndian` | pgxn/neon/communicator.c:1428-1500 | integers travel most significant byte first, in four and in eight bytes |
| `Protocol.ExistsLayout` | pgxn/neon/communicator.c:1440-1450 | the byte positions of the fields of an exists request |
| `Protocol.NblocksLayout` | pgxn/neon/communicator.c:1451-1461 | the byte positions of the fields of an nblocks request |
| `Protocol.PageLayout` | pgxn/neon/communicator.c:1469-1480 | the byte positions of the fields of a page request: three oids, the fork in one byte, the block number |
| `Protocol.DbSizeLayout` | pgxn/neon/communicator.c:1462-1469 | a database size request has the four bytes of the oid |
| `Protocol.SegmentLayout` | pgxn/neon/communicator.c:1483-1491 | the kind in one byte and the segment number in four, a negative one as its two's complement |
| `Protocol.PayloadLayout` | pgxn/neon/communicator.c:1506-1657 | the bytes of the five payloads, with the sign of a database size as two's complement |
| `Protocol.PageSizes` | pgxn/neon/communicator.c:1545-1632 | a page has 8192 bytes and a segment 8192 for each of its pages |
| `Protocol.BodyRoundTrip` | pgxn/neon/communicator.c:1436-1490 | the fields of each of the five request kinds are read back |
| `Protocol.BodyRead` | pgxn/neon/communicator.c:1520-1632 | request fields that were read are exactly the bytes of their encoding |
| `DdlTables.RenamesAreExact` | pgxn/neon/control_plane_connector.c:549-750 | for every catalog-valid sequence of renames and alters the table gives each object's name at transaction start and the payload set last, and together with the initial names determines the catalog |
| `DdlTables.TracksAll` | pgxn/neon/control_plane_connector.c:549-750 | tracking is kept along any such sequence, through chains and swaps |
| `DdlTables.RenameTracks` | pgxn/neon/control_plane_connector.c:576-613 | one rename keeps the table true to the catalog |
| `DdlTables.AlterTracks` | pgxn/neon/control_plane_connector.c:665-709 | one alter keeps the table true to the catalog |
| `DdlTables.RebuiltIsCatalog` | pgxn/neon/control_plane_connector.c:54-89 | a reader of the table can recompute the catalog |
| `DdlStack.RunTrees` | pgxn/neon/control_plane_connector.c:354-487 | running the events of nested subtransactions on the stack is the same as evaluating the tree |
| `DdlStack.SurvivingEffect` | pgxn/neon/control_plane_connector.c:459-487 | erasing aborted subtrees does not change what a tree evaluates to |
| `DdlStack.AbortsLeaveNoTrace` | pgxn/neon/control_plane_connector.c:354-487 | for every well-nested event tree the stack ends as for the tree without its aborted subtransactions |
| `DdlStack.AbortRestores` | pgxn/neon/control_plane_connector.c:354-363 | pushing tables, any nested events and popping them leaves the stack as it was |
| `DdlStack.InlineIsOverlay` | pgxn/neon/control_plane_connector.c:509-774 | statements without renames run inline are the same as their own tables laid over the parent |
| `DdlStack.PlainCommitIsInline` | pgxn/neon/control_plane_connector.c:365-457 | committing a subtransaction without renames equals running it inline if and only if the parent has no rename for what it touches and no owner for a database it leaves ownerless |
| `DdlStack.MergePlain` | pgxn/neon/control_plane_connector.c:418-456 | merging role entries without renames overwrites the parent's entries, in any scan order |
| `DdlStack.MergedDbAt` | pgxn/neon/control_plane_connector.c:372-416 | merging database entries without renames, entry by entry and in any scan order |
| `DdlStack.CommitForgetsRename` | pgxn/neon/control_plane_connector.c:418-456 | a role renamed in the parent and altered in a committed subtransaction loses its old name |
| `DdlStack.CommittedRenameDiffers` | pgxn/neon/control_plane_connector.c:418-456 | an input at which the condition of RoleRenameIff fails: a role altered by the parent and renamed in the subtransaction loses its old name |
| `DdlRename.CommitIsInline` | pgxn/neon/control_plane_connector.c:365-457 | for any statements, renames included, on names the parent does not mention and for each scan order: committing equals running inline if and only if every entry is scanned after all entries that have its name as their old name |
| `DdlRename.CommitWithScan` | pgxn/neon/control_plane_connector.c:365-457 | the same for the merge as the commit hook runs it |
| `DdlRename.AlwaysInlineIff` | pgxn/neon/control_plane_connector.c:365-457 | committing equals running inline for every scan order if and only if no entry's old name is the name of an entry |
| `DdlRename.MergeIff` | pgxn/neon/control_plane_connector.c:380-453 | the same for one table and any merge step that writes an entry and removes its old name |
| `DdlRename.LateIsLost` | pgxn/neon/control_plane_connector.c:442-453 | an entry scanned before the one that has its name as old name is gone after the merge |
| `DdlRename.InlineApart` | pgxn/neon/control_plane_connector.c:509-774 | statements on names the parent does not mention, run inline, put their own tables beside the parent's |
| `DdlRename.ShiftLosesEntry` | pgxn/neon/control_plane_connector.c:442-453 | renaming b to c and then a to b in a subtransaction of an empty parent leaves a single entry |
| `DdlRename.RoleRenameIff` | pgxn/neon/control_plane_connector.c:418-456 | for any parent, a committed role rename equals an inline one if and only if the parent has no entry for the role or one that only records an earlier rename |
| `DdlRename.DbRenameIff` | pgxn/neon/control_plane_connector.c:372-416 | for any parent, a committed database rename equals an inline one if and only if the parent has the same owner, or none, under both names |
| `DdlRename.TablesDoNotDecide` | pgxn/neon/control_plane_connector.c:365-457 | over a parent that mentions the names, two statement lists with the same tables differ inline, so whatever the scan order a commit differs from inline execution for one of them |
| `DdlMerge.RoleAfterMerge` | pgxn/neon/control_plane_connector.c:418-456 | for any parent and scan: a role of the subtransaction is missing after the merge exactly when an entry merged then or later has its name as old name; otherwise it has the subtransaction's password and operation, and the old name of the entry that the table had under its old name, or else its own |
| `DdlMerge.RoleNotTouched` | pgxn/neon/control_plane_connector.c:418-456 | a role without an entry in the subtransaction keeps the parent's entry unless an entry has it as old name |
| `DdlMerge.RenamedFromParent` | pgxn/neon/control_plane_connector.c:443-455 | a role renamed from one that only the parent knows has the parent's old name of that one, which is gone |
| `DdlMerge.DbAfterMerge` | pgxn/neon/control_plane_connector.c:372-416 | for any parent and scan: as for roles, with the subtransaction's owner where it has one and otherwise what the table had under the name, and an old name that is never lost |
| `DdlMerge.DbNotTouched` | pgxn/neon/control_plane_connector.c:372-416 | a database without an entry in the subtransaction keeps the parent's entry unless an entry has it as old name |
| `DdlMerge.DbRenamedFromParent` | pgxn/neon/control_plane_connector.c:394-413 | a database renamed from one that only the parent knows has the parent's old name of that one, or that name, which is gone |
| `DdlMerge.Written` | pgxn/neon/control_plane_connector.c:365-457 | for any merge step that touches an entry's name and old name only: an entry that was merged is there as it was written unless it or a later one took its name |
| `DdlPlain.NestingIsInline` | pgxn/neon/control_plane_connector.c:354-487 | a whole transaction without renames, however nested and whatever is aborted, leaves the tables of its surviving statements run in order, up to the owners of dropped databases |
| `DdlPlain.MergeTidy` | pgxn/neon/control_plane_connector.c:365-457 | one merge of tables without renames is an overlay, up to the owners of dropped databases |
| `DdlStack.ChangesRecorded` | pgxn/neon/control_plane_connector.c:549-750 | renames and alters at one level are recorded table by table as the tracking theorem assumes |
| `DdlTracker.Tracker.constructor` | pgxn/neon/control_plane_connector.c:319-352 | starts with the empty root tables |
| `DdlTracker.Tracker.MergeTable` | pgxn/neon/control_plane_connector.c:365-457 | a commit merges the top tables into the parent's |
| `DdlTracker.Tracker.MergeDbTable` | pgxn/neon/control_plane_connector.c:372-416 | the entry-by-entry loop computes the merge of database tables; every entry of the subtransaction that is still there has its own operation, and its own owner where it has one |
| `DdlTracker.Tracker.MergeRoleTable` | pgxn/neon/control_plane_connector.c:418-456 | the entry-by-entry loop computes the merge of role tables; every entry of the subtransaction that is still there has its own password and operation |
| `DdlTracker.Tracker.HandleCreateRole` | pgxn/neon/control_plane_connector.c:633-663 | the role's entry says set with the new password and keeps the name it had at the start; no other entry and no lower table changes |
| `DdlTracker.Tracker.HandleAlterRole` | pgxn/neon/control_plane_connector.c:665-709 | with a password the role's entry is updated likewise, without one nothing changes |
| `DdlTracker.Tracker.HandleRoleRename` | pgxn/neon/control_plane_connector.c:711-750 | the entry moves to the new name with its origin and password, the old name becomes free, every other entry stays |
| `DdlTracker.Tracker.HandleDropRole` | pgxn/neon/control_plane_connector.c:752-774 | every dropped role is recorded as deleted with its origin kept, and every other entry stays |
| `DdlTracker.Tracker.HandleCreateDb` | pgxn/neon/control_plane_connector.c:509-547 | the database's entry says set with the owner and keeps the name it had at the start; nothing else changes |
| `DdlTracker.Tracker.HandleAlterOwner` | pgxn/neon/control_plane_connector.c:549-574 | the database's entry has the new owner and keeps the name it had at the start; nothing else changes |
| `DdlTracker.Tracker.HandleDbRename` | pgxn/neon/control_plane_connector.c:576-613 | the entry moves to the new name with its origin and owner, the old name becomes free, every other entry stays |
| `DdlTracker.Tracker.HandleDropDb` | pgxn/neon/control_plane_connector.c:615-631 | the database is recorded as deleted with its origin kept, every other entry stays |
| `DdlTracker.Tracker.Handle` | pgxn/neon/control_plane_connector.c:777-858 | the dispatched statement changes the top tables exactly as its specification says |
| `DdlTracker.Tracker.HandleChanges` | pgxn/neon/control_plane_connector.c:549-750 | renames and alters run through the hooks leave role and database tables that give every object's name at the start and what was set last, and that determine the catalogs |
| `DdlTracker.Tracker.Process` | pgxn/neon/control_plane_connector.c:469-487 | a whole nested transaction leaves the tables of the transaction without its aborted subtransactions |
| `SpecCatalog.DeltaAgrees` | compute_tools/src/spec_apply.rs:721-802 | the statements of one rename or delete succeed, on a template too, and the mirror agrees with the catalog afterwards |
| `SpecCatalog.DropsSucceedIff` | compute_tools/src/spec_apply.rs:601-632 | dropping the databases of a list succeeds if and only if none of them is a template |
| `SpecCatalog.DeltasAgree` | compute_tools/src/spec_apply.rs:721-802 | the same for the whole phase |
| `SpecCatalog.SpecAgrees` | compute_tools/src/spec_apply.rs:803-863 | the statements for one database succeed; mirror and owner are right if and only if the recorded owner is not the quoted spelling of the wanted one |
| `SpecCatalog.QuotedOwnerStays` | compute_tools/src/spec_apply.rs:812-835 | an input: owner "bob" recorded with quotes is left as it is while the mirror says bob |
| `SpecRetry.SpecsAgree` | compute_tools/src/spec_apply.rs:803-863 | the same for the whole phase, for distinct names |
| `SpecRetry.SpecsPresent` | compute_tools/src/spec_apply.rs:803-863 | every spec database exists under its owner; an existing one changes in nothing else, a new one is valid and granted |
| `SpecRetry.DeltasResume` | compute_tools/src/spec_apply.rs:721-802 | starting over after any number of renames and deletes gives the same catalog |
| `SpecRetry.CutDeltasResume` | compute_tools/src/spec_apply.rs:735-767 | so does starting over when only the template flag of the next database to be deleted was cleared |
| `SpecRetry.DeltaCut` | compute_tools/src/spec_apply.rs:735-767 | a delete or rename cut short has done nothing, or cleared the template flag |
| `SpecRetry.SpecsResume` | compute_tools/src/spec_apply.rs:803-863 | starting over after any number of databases gives the same catalog |
| `SpecRetry.RunSucceeds` | compute_tools/src/spec_apply.rs:187-205 | where no invalid database is a template, which the server's refusal to drop templates rules out, an undisturbed run succeeds and ends with every spec database under its owner |
| `SpecRetry.PrefixStops` | compute_tools/src/spec_apply.rs:187-205 | what any prefix of the emitted statements has done to the catalog |
| `SpecRetry.PointConverges` | compute_tools/src/spec_apply.rs:187-205 | running again from any such point ends in the same catalog, except after a database was created but not granted |
| `SpecRetry.CrashConverges` | compute_tools/src/spec_apply.rs:187-205 | a run cut after its k-th statement and repeated ends like an undisturbed run if and only if that statement is not CREATE DATABASE |
| `SpecRetry.CrashesConverge` | compute_tools/src/spec_apply.rs:187-205 | after any number of interrupted runs the next one can still succeed and ends in the catalog of a first undisturbed run if and only if none of them ended right after a CREATE DATABASE; otherwise only grants are missing |
| `SpecRetry.CutAfterCreate` | compute_tools/src/spec_apply.rs:836-857 | an input: a run cut after its CREATE DATABASE never gets its grant |
| `SpecRetry.HalfCreatedStays` | compute_tools/src/spec_apply.rs:836-860 | a database created without its grant never gets the grant |
| `SpecRetry.RerunSucceeds` | compute_tools/src/spec_apply.rs:187-205 | from any crash point the repeated run succeeds and every spec database ends under its owner |
| `SpecRetry.InterruptedDelete` | compute_tools/src/spec_apply.rs:601-632 | a database left invalid by an interrupted drop, its template flag cleared, is removed by the next run, with the same final catalog |
| `SpecRetry.SecondRunIsSilent` | compute_tools/src/spec_apply.rs:187-205 | with no deltas a second run emits nothing if and only if no spec owner begins with a double quote |
| `SpecApply.ApplyContext.constructor` | compute_tools/src/pg_helpers.rs:249-285 | the mirror is what is read from the catalog |
| `SpecApply.ApplyContext.DropInvalidDatabases` | compute_tools/src/spec_apply.rs:601-632 | exactly the invalid databases are dropped and leave the mirror |
| `SpecApply.ApplyContext.RenameOrDelete` | compute_tools/src/spec_apply.rs:728-799 | whatever catalog the mirror described, the emitted statements succeed on it and lead to the one it describes afterwards; names not concerned are untouched |
| `SpecApply.ApplyContext.RenameAndDeleteDatabases` | compute_tools/src/spec_apply.rs:721-802 | the phase emits the planned statements and mirrors them |
| `SpecApply.ApplyContext.CreateOrAlter` | compute_tools/src/spec_apply.rs:807-860 | the mirror describes the resulting catalog if and only if the owner was not recorded in the quoted spelling; the database is there under its owner and no other name is touched |
| `SpecApply.ApplyContext.CreateAndAlterDatabases` | compute_tools/src/spec_apply.rs:803-863 | the phase emits the planned statements and mirrors them |
| `SpecApply.ApplyContext.ApplyDatabases` | compute_tools/src/spec_apply.rs:187-205 | on the catalog that was read, the three phases emit statements that all succeed, lead to the final catalog, and leave the mirror describing it |
| `Hll.RankMeaning` | pgxn/neon/hll.c:80-94 | the register index is the number in the high 10 bits and the rank is the number of leading zeros of the low 22 bits |
| `Hll.LastSeenIff` | pgxn/neon/hll.c:114-128 | a stored timestamp is recent exactly when such an element was added since |
| `Hll.QueryIsPlain` | pgxn/neon/hll.c:130-144 | the window query on a register equals the register of a plain sketch of exactly the window's elements |
| `Hll.WindowMustStartAfterZero` | pgxn/neon/hll.c:130-144 | a window reaching back to 0 or before reads every register as full |
| `Hll.WiderIsHigher` | pgxn/neon/hll.c:130-144 | widening the window never lowers a register |
| `Hll.RawRises` | pgxn/neon/hll.c:158-167 | higher registers give a higher raw estimate |
| `Hll.WeightMeaning` | pgxn/neon/hll.c:160-164 | the weight of a register times 2 to the power of its value is 1 |
| `Hll.SumAdds` | pgxn/neon/hll.c:160-164 | the sum is that of the weights of all registers |
| `Hll.RawMeaning` | pgxn/neon/hll.c:61 | the raw estimate times the sum is the constant of the algorithm for 1024 registers |
| `Hll.WiderWindowEstimatesMore` | pgxn/neon/hll.c:150-167 | the raw estimate is monotone in the window |
| `Hll.Sketch.constructor` | pgxn/neon/hll.c:99-103 | an empty sketch |
| `Hll.Sketch.Add` | pgxn/neon/hll.c:114-128 | the registers hold the last time of every register and rank of the history plus the new element |
| `Hll.Sketch.GetMaximum` | pgxn/neon/hll.c:130-144 | the result is the highest recent rank plus one, which for positive ordered timestamps is the plain sketch of the window |
| `Hll.Sketch.Estimate` | pgxn/neon/hll.c:150-167 | the register loop computes the raw estimate of the window's plain sketch |
| `Quorum.CheckIfSyncedIff` | compute_tools/src/sync_sk.rs:53-98 | Some(L) exactly when every response reports flush = commit = L |
| `Quorum.CollectResponses` | compute_tools/src/compute.rs:1096-1113 | each response comes from a different safekeeper; a quorum of answers and a quorum of errors exclude each other |
| `Quorum.CheckSafekeepersSynced` | compute_tools/src/compute.rs:1087-1130 | an LSN is returned only if a strict majority stands exactly at it, and always if a majority answers and no answer differs; no LSN that a majority had flushed before lies beyond it; without a majority of answers, and so for an empty list, nothing is returned |
| `Quorum.MajorityAt` | compute_tools/src/compute.rs:1088-1113 | a quorum of agreeing responses is a majority of safekeepers |
| `Quorum.MajoritiesMeet` | compute_tools/src/compute.rs:1087-1130 | two majorities share a safekeeper |
| `Quorum.FastPathIsSafe` | compute_tools/src/sync_sk.rs:53-98 | an LSN at which a majority stands is not behind any LSN that a majority had flushed before |
| `Migration.RunMigrationsKeeps` | compute_tools/src/migration.rs:122-151 | one start keeps the committed migrations a prefix; a shorter list changes nothing |
| `Migration.ExactlyOnce` | compute_tools/src/migration.rs:91-151 | over any sequence of starts, failures and lost commits, by versions with lists of any length, the committed migrations are exactly the prefix of length migration_id |
| `Migration.UpToDateMeans` | compute_tools/src/migration.rs:91-119 | what being up to date means: only listed migrations, none twice or out of order, and one up to the id is in the log if and only if its text does not begin with the seven characters -- SKIP |
| `Migration.RunMigrationsWent` | compute_tools/src/migration.rs:91-151 | one start appends to the log exactly the migrations it passes whose text does not begin with -- SKIP |
| `Migration.Progress` | compute_tools/src/migration.rs:122-151 | one start gets past every migration whose transaction commits, up to the first that does not |
| `Migration.Runner.Run` | compute_tools/src/migration.rs:122-151 | the loop with its transactions computes that result and succeeds exactly when every due commit was heard of; it gets past every migration whose transaction commits, and of those passed exactly the ones whose text does not begin with -- SKIP are new in the log |
| `Quoting.IdentRoundTrip` | compute_tools/src/pg_helpers.rs:200-202 | every identifier is read back from pg_quote |
| `Quoting.PgQuoteInjective` | compute_tools/src/pg_helpers.rs:200-202 | pg_quote is injective |
| `Quoting.EscapedIsDoubled` | compute_tools/src/pg_helpers.rs:35-43 | the two replacements together double quotes and backslashes |
| `Quoting.LiteralForm` | compute_tools/src/pg_helpers.rs:35-43 | the literal has the E form exactly when the string has a backslash; quotes and backslashes are doubled and nothing else changes |
| `Quoting.LiteralRoundTrip` | compute_tools/src/pg_helpers.rs:35-43 | every string is read back from escape_literal, in the plain and in the E'' form, and the scanner does not stop early |
| `DollarQuote.PgQuoteDollar` | compute_tools/src/pg_helpers.rs:210-225 | the search ends with the first pair of tags that do not occur in the string as delimiters |
| `DollarQuote.OverlapIsDollar` | compute_tools/src/pg_helpers.rs:210-225 | two delimiters overlap in a dollar sign only |
| `DollarQuote.FirstIsClosing` | compute_tools/src/pg_helpers.rs:210-225 | the first delimiter after the opening one is the closing one if and only if the string does not end in a dollar sign and the tag |
| `DollarQuote.DollarRoundTrip` | compute_tools/src/pg_helpers.rs:210-225 | a quoted string is read back if and only if it contains no delimiter and does not end in a dollar sign and the tag |
| `DollarQuote.EndingInTag` | compute_tools/src/pg_helpers.rs:210-225 | an input: for a$x the search returns the tag x and only an a is read back |
| `DollarQuote.OuterOccursIff` | compute_tools/src/pg_helpers.rs:210-225 | the outer delimiter occurs in the quoted string if and only if the string is the outer tag, begins with it and a dollar sign, or ends in a dollar sign and it |
| `DollarQuote.RenderedIsRead` | compute_tools/src/sql/unset_template_for_drop_dbs.sql:1-12 | for every template text that no delimiter crosses, as that of this statement, reading the rendered statement under the outer tag gives its whole body if and only if the name is not of one of these three forms: the outer tag, the outer tag and a dollar sign first, a dollar sign and the outer tag last |
| `DollarQuote.NameIsOuterTag` | compute_tools/src/spec_apply.rs:734-743 | an input: for a database called xx the rendered statement is cut short, whatever the template text |
| `ConfFile.ReplacedIsProtected` | control_plane/src/postgresql_conf.rs:76-83 | the three replacements together escape each character once |
| `ConfFile.ValueRoundTrip` | control_plane/src/postgresql_conf.rs:58-85 | every value is read back from escape_str, quoted or not |
| `ConfFile.UnquotedIsServerWord` | control_plane/src/postgresql_conf.rs:61-72 | what is left unquoted is one word for the server |
| `ConfFile.EscapeStrForm` | control_plane/src/postgresql_conf.rs:58-85 | a value is left as it is exactly when it is an optional sign, digits and letters, or a letter followed by letters and digits; otherwise it is quoted |
| `ConfFile.ConfValueForm` | compute_tools/src/pg_helpers.rs:47-50 | quotes and backslashes are doubled between single quotes |
| `ConfFile.ConfValueRoundTrip` | compute_tools/src/pg_helpers.rs:47-50 | escape_conf_value is read back if and only if the value has no newline |
| `ConfFile.QuotingsAgree` | compute_tools/src/pg_helpers.rs:47-50 | without newlines the two functions agree exactly on the values that need quotes |
| `ConfFile.FileRoundTrip` | control_plane/src/postgresql_conf.rs:35-55 | reading the text of appended settings gives the same map if and only if every option is called what the server takes for an option name |
| `ConfFile.LastWins` | control_plane/src/postgresql_conf.rs:26-39 | the value of an option is the one appended last |
| `ConfFile.PostgresConf.constructor` | control_plane/src/postgresql_conf.rs:21-23 | an empty file |
| `ConfFile.PostgresConf.Append` | control_plane/src/postgresql_conf.rs:35-39 | one line, option = escaped value, is added and the map gets the value |
| `ConfFile.PostgresConf.AppendLine` | control_plane/src/postgresql_conf.rs:42-44 | the raw line is added as it is and the map does not change |
| `ConfFile.PostgresConf.Get` | control_plane/src/postgresql_conf.rs:26-28 | the value appended last, or none |
| `ConfFile.PostgresConf.Display` | control_plane/src/postgresql_conf.rs:47-55 | the text is all lines in order; with settings only, reading it back gives the map if and only if all options have option names |

## Left out

- Comm.Communicator.WaitFor: models interrupts that pump responses but do not disconnect; what a disconnect there does to the awaited index is stated exactly by `RingDisconnect.DisconnectKeepsTags`.
- Comm.Communicator.RegisterBufferV: promises the returned index for a single block, that it is not after the slot of the last block, and for the others that their requests were registered at some time, because registering a later block may evict or move an earlier one.
- Runs.Run: does not bound how many events of the script a run uses up; and it ends at a synchronous request that is cancelled while prefetches are outstanding on its shard, since the invariant is then lost; what happens next is stated by `RingSync.SyncCancelledMisroutes`.
- Comm.Communicator.ReceiveNext: leaves out an interrupt that disconnects, as WaitFor does.
- Comm.Communicator.RegisterPass: a block's request was registered at some time; it may have been evicted again by a later block of the same call.
- Comm.Communicator.TryRegister: the same.
- DdlRename.CommitIsInline: the parent mentions none of the names; over other parents the exact condition is stated for statements without renames (`DdlStack.PlainCommitIsInline`) and for a single rename, because with several the tables no longer determine what runs inline (`DdlRename.TablesDoNotDecide`).
- Hll.Sketch.Estimate: the small- and large-range corrections and floating-point rounding of the sketch are not modelled; sums are over reals.
- Protocol.GetBytes: the fixed capacity of the SLRU segment buffer and overflow of the product of block count and page size are not modelled.
- ConfFile.ReadFile: reads files made of settings only; comments, include directives and octal escapes of the server's grammar are not modelled.
- Shard selection: the shard of a request is an arbitrary number below MAX_SHARDS.
- The counter n_unused, which only feeds a metric, and all performance counters.
- Local file cache reads and writes, timeouts, logging, memory contexts and the libpq protocol below whole messages.
- 64-bit wrap-around of ring indices and 32-bit wrap-around of block numbers, except in the reverse loop of the resize.
- How request LSNs are computed: they are parameters with `not_modified_since <= effective <= request`.
- Errors raised by statement handlers for neon_superuser and reserved names, and sending the collected changes to the control plane.
- Password encryption, and the owner of a fresh merged database entry, which the original leaves unset and the model takes as the invalid oid.
- The role, extension and per-database phases of a spec, role renames, and the text of SQL templates: `DollarQuote.RenderedIsRead` holds for any text in which no delimiter can lie.
- Pinging safekeepers: a ping is its outcome, in the order of arrival.
- SQL inside a migration: a migration is its text and takes effect when its transaction commits.
- Process management, configuration files, monitoring, extension download, TLS and HTTP handlers, which are mostly I/O.
