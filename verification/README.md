# Models and proofs for i3sd

i3sd is a status-bar generator: one process, one event loop, Lua blocks, and native producers that
watch directories, timers, child processes and D-Bus peers. This project models the state machines and
data structures under that plumbing in Dafny and proves what they promise over every input and every
run. `dafny verify dfyconfig.toml` checks all of it.

What the outside world does is left arbitrary. A write is answered by a script of results, a connection
is a pair of FIFO queues, a directory is a finite map, and a Lua callback is any sequence of the calls
it may make. Where the source changes an object in place the model is a class with the same fields, its
methods are proved against functions and predicates on values, and the theorems are lemmas about those.

## The parts

| module | what it models |
|---|---|
| `Bytes`, `Utf8` | byte-wise order of ids; the UTF-8 validator against RFC 3629 and the truncation helper |
| `IdSet`, `IdIndexes`, `Items`, `Reconcile`, `Blocks` | `ctx:set`: reuse of cached items, the lazy id index over an open-addressing set, ownership of allocations |
| `SortedStore`, `Blocks` | the bounded id-sorted item store of native producers |
| `NameLists`, `DirectoryModel`, `DirectoryFeeds` | a block fed from a directory: listing, single events, and runs of changes and events |
| `TimerHeaps`, `TimerLifecycle` | the indexed heap and fixed-rate deadlines; creation, dispatch, cancellation and release of timers |
| `Outputs`, `RenderLimiters`, `StatusLoops` | frames over partial writes, the rate limiter as a token bucket, the render gate of the event loop |
| `Clicks` | framing of click events byte by byte |
| `Signatures`, `Numerals`, `Marshals`, `DbusCalls` | D-Bus signatures, 64-bit numerals, values over messages, the life of a method call |
| `Snapshots` | mirroring a peer's properties while dropping signals during a query |
| `Spawns` | child processes in eight slots |

## Results that differ from what one might expect

- A directory listing keeps names before it knows whether they render. An unreadable regular file takes
  a place and can hide a readable one (`DirectoryModel.UnreadableHidesReadable`); the listing shows the
  first names that render exactly when everything it kept renders or everything that renders was kept
  (`DirectoryModel.ListingIsFirstRendering`).
- A D-Bus call queued for an owner that is faulted already, and not sent, is told nobody and waits
  without a slot (`DbusCalls.FaultedOwnerStrands`). `DbusCalls.CallTable.Start`, `.Reply` and
  `.Disconnect` say exactly when a call that leaves the queue or loses its slot is over.
- A hard link into a watched directory posts no event the feed watches, so the file stays hidden. The
  convergence theorem characterizes the items for every run with such names, and says exactly when they
  are still the first names of the directory (`DirectoryModel.DrainedShowsDirectory`).
- A string such as `5LL` is accepted where a 64-bit integer is wanted, and comes back as that integer
  (`Marshals.WideIsExact`).
- A snapshot request that cannot be sent leaves a stale cache (`Snapshots.FailedSendGoesStale`); the
  convergence theorem names that condition and a refused setup.
- The fixed-rate period count wraps on exactly one input (`TimerHeaps.FixedRate`).
- The click framer's 32-bit depth wraps after 2^32 nested brackets (`Clicks.CounterWraps`). Its underflow
  branch is out of reach all along a stream exactly when nesting stays below that
  (`Clicks.UnderflowIsOverdepth`), however long the stream is.
- The render limiter's virtual time loses a debt only when it wraps at 2^64
  (`RenderLimiters.RecordSpends`).

## Model

| member | source | states |
|---|---|---|
| Bytes.CompareIdsIsOrder | src/main.c:1013-1021 | comparing the common prefix and then the lengths decides exactly dictionary order and equality |
| Utf8.ValidUtf8 | src/utf8.c:5-52 | accepts a byte string exactly when it is a concatenation of encoded scalar values other than U+0000 |
| Utf8.DecodedIsEncoding | src/utf8.c:18-49 | the bytes a decoded code point came from are its RFC 3629 encoding |
| Utf8.CutLosesAtMostThree | src/directory_feed.c:86-93 | cutting well-formed text anywhere leaves at most three bytes of an unfinished character |
| Utf8.Utf8Prefix | src/directory_feed.c:86-93 | the longest well-formed prefix within the last three cuts, at most three bytes shorter for any cut of valid text |
| IdSet.EmptySlotExists | src/id_set.c:11-34 | with at most 256 entries in 512 slots every probe sequence meets an empty slot |
| IdSet.EmptySlotMeansAbsent | src/id_set.c:19-34 | an empty slot on a key's probe path proves the key absent, for any hash function |
| IdSet.IdSet.Probe | src/id_set.c:19-34 | probing terminates at the key's entry or at the empty slot that proves it absent |
| IdSet.IdSet.Insert | src/id_set.c:36-55 | refines map insertion; a duplicate wins over full, and full is answered only for an absent key at 256 entries |
| IdSet.IdSet.Find | src/id_set.c:57-65 | returns the inserted value of every inserted key and nothing else |
| Items.MatchIsEquality | src/main.c:650-670 | the field-by-field comparison is equality of the stored state |
| IdIndexes.MatchItem | src/main.c:918-958 | positional match first and the index later find the same item, and detect a repeated id, as looking at all of them would |
| IdIndexes.ClaimAndFind | src/main.c:926-954 | once built, the index of requested ids refuses exactly a repeated id and the index of cached ids finds exactly the cached item |
| Reconcile.ReuseInjective | src/main.c:918-983 | with distinct requested ids no cached item is reused twice |
| Reconcile.ReusedIsRebuilt | src/main.c:887-890 | a cached item reused at its new position is what serializing it there would give |
| Reconcile.ChangedIsExact | src/main.c:897-970 | the moved flag and the lengths detect a change exactly when ids or states differ |
| Reconcile.CommittedIsRebuilt | src/main.c:977-990 | the committed items are a fresh serialization of every requested view at its position |
| Reconcile.UnchangedItemsAreKept | src/main.c:960-983 | an unchanged item keeps its allocation when it moves |
| Reconcile.NoProblemMeansUnique | src/main.c:945-950 | a request without a problem has pairwise distinct ids |
| Blocks.Block.Materialize | src/main.c:765-802 | fills the slot with the item built for the view, or names the first obstacle and changes nothing |
| Blocks.Block.Set | src/main.c:861-1009 | refines rebuilding from scratch, is all-or-nothing with the first problem named, keeps unchanged allocations, and reports change exactly |
| Blocks.Block.FindItem | src/main.c:1035-1056 | binary search returns the item or the place where the id belongs |
| Blocks.Block.PutItem | src/main.c:1066-1124 | the outcome and the new map: unchanged, changed, refused as full only for the last id, or the last id evicted |
| Blocks.Block.RemoveItem | src/main.c:1126-1139 | removes exactly the named item, if shown |
| SortedStore.InsertKeepsGood | src/main.c:1105-1123 | inserting where an id belongs keeps the list sorted, fresh and in step with the map |
| SortedStore.RemoveKeepsGood | src/main.c:1126-1139 | removing a position keeps the list sorted and removes exactly its id from the map |
| SortedStore.LastFaceIsLast | src/main.c:1110-1116 | the item evicted from a full block has the last id, and the new id keeps its place |
| SortedStore.GapUpShape | src/main.c:1117-1119 | shifting up slot by slot is the block move the source makes |
| SortedStore.GapDownShape | src/main.c:1134-1136 | shifting down slot by slot is the block move the source makes |
| NameLists.FirstOfIsUnique | src/directory_feed.c:245-270 | which names fit is determined by the set of names, not by the order of listing |
| NameLists.AddKeepsFirst | src/directory_feed.c:245-270 | adding a name keeps the list the lexically first of all names so far |
| NameLists.NameList.Add | src/directory_feed.c:245-270 | keeps the first names in order; false exactly when some name no longer fits |
| NameLists.NameList.Contains | src/directory_feed.c:272-291 | binary search decides membership |
| NameLists.FilteredCut | src/directory_feed.c:317-339 | filtering after the cut gives the first of the filtered names exactly when it removes nothing kept or keeps nothing cut |
| DirectoryModel.RescanFits | src/directory_feed.c:296-342 | a listing shows current contents, and hides a rendering name only behind a full list of earlier ones |
| DirectoryModel.ChangeKeepsInv | src/directory_feed.c:20-24 | changes by other programs, with merged, lost or unwatched events, keep the agreement of items and directory |
| DirectoryModel.PutKeepsInv | src/directory_feed.c:196-237 | refreshing one file, including full and eviction, keeps it |
| DirectoryModel.DropKeepsInv | src/directory_feed.c:183-194 | dropping one file, including the listing it may cause, keeps it |
| DirectoryModel.DrainedShowsDirectory | src/directory_feed.c:171-437 | once events are drained and writers done, the items are exactly the first names with their present contents, leaving out names hard-linked in and not looked at since; they are the first of all names exactly when those come after a full list |
| DirectoryModel.ListingIsFirstRendering | src/directory_feed.c:317-339 | exactly when a listing shows the first names that render |
| DirectoryModel.UnreadableHidesReadable | src/directory_feed.c:320-339 | an unreadable file can hide a readable one |
| DirectoryFeeds.RoomDuringScan | src/directory_feed.c:337-339 | during a listing no put evicts or finds the block full |
| DirectoryFeeds.ListNames | src/directory_feed.c:319-328 | listing keeps the first names and knows whether one did not fit |
| DirectoryFeeds.DirectoryFeed.RefreshFile | src/directory_feed.c:171-237 | one file's item after reading it, or after finding it gone, unreadable or not regular |
| DirectoryFeeds.DirectoryFeed.RemoveMissing | src/directory_feed.c:330-336 | removes exactly the items whose names were not kept |
| DirectoryFeeds.DirectoryFeed.Rescan | src/directory_feed.c:296-342 | brings items and the overflow bit into agreement with the listing; a listing that fails changes nothing |
| DirectoryFeeds.DirectoryFeed.HandleEvent | src/directory_feed.c:411-437 | handles one event as the run model's step says |
| TimerHeaps.RootIsFirst | src/timer.c:117-119 | no timer in the heap comes before the root |
| TimerHeaps.SwapUp | src/timer.c:22-31 | one step up moves the only possible disorder to the parent |
| TimerHeaps.SwapDown | src/timer.c:33-52 | one step down with the earliest child moves it to that child |
| TimerHeaps.RefillOrder | src/timer.c:107-114 | the timer filling a freed place is out of order upwards or downwards, as the source tests |
| TimerHeaps.TimerHeap.Add | src/timer.c:62-95 | keeps the heap, its back pointers and its members plus the new timer; refuses an active timer and a wrapped sequence |
| TimerHeaps.TimerHeap.Cancel | src/timer.c:97-115 | removes exactly the timer at whatever index; nothing for an inactive one |
| TimerHeaps.TimerHeap.PopDue | src/timer.c:121-129 | takes a first timer if one is due |
| TimerHeaps.TimerHeap.Drain | src/timer.c:121-129 | repeated popping yields exactly the due timers in order, first added first among equals |
| TimerHeaps.FixedRate | src/timer.c:131-147 | the next deadline is after now except on the one input whose period count wraps |
| TimerHeaps.FixedRateIsLeast | src/timer.c:131-147 | it is the first point of the timer's grid after now, and exists whenever one fits 64 bits |
| TimerHeaps.TimerHeap.RescheduleFixed | src/timer.c:131-147 | starts the timer again at that deadline, or fails and changes nothing |
| TimerHeaps.TimerHeap.DispatchOne | src/main.c:3137-3158 | one due timer is taken, its callback adds and stops timers, and a repeating one that goes on is in the heap again at its next deadline or could not be started |
| TimerHeaps.TimerHeap.Dispatch | src/main.c:3135-3166 | one dispatch takes no timer twice however many periods were missed and whatever its callbacks add and stop |
| TimerLifecycle.TimerSystem.HeapCancel | src/main.c:1208-1214 | a cancel acts on the heap that holds the timer |
| TimerLifecycle.TimerSystem.Release | src/main.c:1213-1235 | releases a live timer that is not running, once, leaving no heap slot, link or handle to it |
| TimerLifecycle.TimerSystem.CancelTimer | src/main.c:1237-1245 | a running timer is marked and kept, any other is released; no other timer or handle changes |
| TimerLifecycle.TimerSystem.CancelByHandle | src/main.c:1247-1253 | a handle whose timer is gone or cancelled does nothing; otherwise its timer alone is stopped or released |
| TimerLifecycle.TimerSystem.CollectHandle | src/main.c:1257-1269 | collecting a handle detaches and cancels its timer alone, without freeing a running one |
| TimerLifecycle.TimerSystem.CreateTimer | src/main.c:1301-1342 | a new timer in the heap of its kind with a handle, a staged one waiting, or nothing |
| TimerLifecycle.TimerSystem.FaultBlock | src/main.c:2557-2572 | stops and cancels exactly the block's timers, leaves every other as it was and releases none |
| TimerLifecycle.TimerSystem.RunCallback | src/main.c:3145-3149 | the timer outlives whatever its callback does |
| TimerLifecycle.TimerSystem.Fire | src/main.c:3137-3165 | a due timer's callback runs once if it still counts; afterwards the timer is released or a repeating one |
| TimerLifecycle.TimerSystem.AfterCallback | src/main.c:3150-3165 | after its callback a timer starts again, is released, or faults its block; no timer of another block changes |
| TimerLifecycle.TimerSystem.FireRealtime | src/realtime.c:136-163 | a realtime timer runs once and is released |
| TimerLifecycle.TimerSystem.Activate | src/main.c:2630-2659 | activation faults exactly the blocks with a timer its heap does not take, puts every other staged timer into the heap of its kind, and changes no other timer |
| TimerLifecycle.TimerSystem.Destroy | src/main.c:2347-2403 | destroying a generation releases exactly its timers, each once, and its handles, and leaves all others as they were |
| TimerLifecycle.Run | src/main.c:3135-3166 | over any run, whatever generations come and go, every timer made is live or released, never both, nothing released is referenced, and the callback of a one-shot or realtime timer runs at most once |
| Outputs.Output.SetFrame | src/output.c:16-39 | replaces no frame under way, drops a frame equal to the last, defers otherwise |
| Outputs.Output.FlushSeparator | src/output.c:45-62 | one separator before every frame but the first |
| Outputs.Output.Flush | src/output.c:41-103 | appends to what is written, completes at most the current frame, and says why it stopped |
| Outputs.WrittenIsPrefix | src/output.c:41-103 | what is written is always a prefix of the frames joined by commas |
| RenderLimiters.DeadlineIsAffordable | src/render_limiter.c:7-14 | a render is due exactly when the bucket holds a credit |
| RenderLimiters.RecordSpends | src/render_limiter.c:16-24 | recording spends one credit exactly when the virtual time does not wrap |
| RenderLimiters.NextWithinRefill | src/render_limiter.c:7-24 | the next render is allowed within 50 ms of a permitted one |
| RenderLimiters.RendersAreSpaced | src/render_limiter.c:7-24 | any n permitted renders span at least n - 8 intervals |
| StatusLoops.RenderFrame | src/main.c:2714-2757 | composes the visible items of unfaulted blocks in order, or fails exactly when the frame is too large |
| StatusLoops.StatusLoop.RenderStatus | src/main.c:2714-2757 | with nothing pending the frame is taken, so clearing the dirty bit loses no update |
| StatusLoops.StatusLoop.FlushPrelude | src/main.c:2782-2808 | the prelude goes out before any frame, across partial writes |
| StatusLoops.StatusLoop.Turn | src/main.c:3428-3442 | a turn renders exactly when a change waits, nothing is pending and the limiter allows it; the frame is offered unless it repeats the last, and the stream only grows |
| StatusLoops.StreamIsPrefix | src/main.c:2782-2808 | the stream is at every moment a prefix of the prelude and the frames joined by commas |
| StatusLoops.Run | src/main.c:3428-3442 | over any run of changes and turns, n renders span at least n - 8 intervals, and the stream is a prefix of the prelude and the rendered frames, each the screen of its time, without repetitions |
| StatusLoops.QuietShowsScreen | src/main.c:3428-3442 | when nothing is dirty or pending, the last frame out is the present screen |
| Clicks.RunAppend | src/click.c:19-115 | the state carries everything from one read to the next |
| Clicks.ClickFramer.Feed | src/click.c:19-115 | consumes up to the next result and returns it |
| Clicks.ClickFramer.ReadChunk | src/main.c:2972-2988 | one read dispatches the results of its bytes |
| Clicks.ChunksDoNotMatter | src/main.c:2956-2990 | how the stream is cut into reads makes no difference |
| Clicks.TreeMoves | src/click.c:64-102 | a balanced stretch keeps the depth, emits nothing, and discards exactly when too long or too deep |
| Clicks.ObjectFrames | src/click.c:48-113 | an object yields itself, or one drop exactly when too long or too deep |
| Clicks.StreamFrames | src/click.c:19-115 | framing inverts printing and ignores chunking |
| Clicks.IdealDepthIsPositive | src/click.c:84-102 | with a depth that never wraps, an event under way has a positive depth in every stream |
| Clicks.CounterSuffices | src/click.c:84-102 | the framer agrees with the one whose depth never wraps, all along a stream, exactly when nesting stays below 2^32 |
| Clicks.UnderflowIsOverdepth | src/click.c:96-99 | no next byte reaches the underflow branch, all along a stream, exactly when nesting stays below 2^32 |
| Clicks.DepthIsPositive | src/click.c:96-99 | in particular the branch is out of reach of every stream shorter than 2^32 bytes |
| Clicks.CounterWraps | src/click.c:84-99 | 2^32 nested objects wrap the counter and break the stream |
| Signatures.ParseIsSound | src/dbus.c:241-279 | what is recognized is a complete type of the supported subset within the depth limit |
| Signatures.ParsePrinted | src/dbus.c:241-279 | every such type is recognized, whatever follows, and gives its tree back |
| Signatures.FirstTypeIsUnique | src/dbus.c:300-309 | the first complete type of a text is unique |
| Signatures.SignatureParser.ReadType | src/dbus.c:241-279 | the recognizer with the shared cursor agrees with the specification |
| Signatures.ValidSignature | src/dbus.c:281-298 | accepts exactly concatenations of complete types within 255 characters and depth 32 |
| Signatures.OneTypeEnd | src/dbus.c:300-309 | returns the end of the first complete type, if there is one |
| Numerals.PrintedReads | src/dbus.c:345-376 | a printed 64-bit integer reads back as itself under its own suffix and is refused under the other |
| Marshals.WideIsExact | src/dbus.c:331-377 | a 64-bit integer, and a string that prints like one, stand for that integer where its signedness is wanted |
| Marshals.BasicTravels | src/dbus.c:429-499 | every valid basic value survives conversion to its C type and back |
| Marshals.ByteItems | src/dbus.c:641-646 | a table of bytes encodes as the byte array it stands for |
| Marshals.ValueTravels | src/dbus.c:419-672 | whatever validates encodes without overrunning the 256-byte buffer and decodes back within the limits |
| Marshals.MessageTravels | src/dbus.c:381-417 | whole argument lists round-trip from an empty count |
| Marshals.NormalIsUnchanged | src/dbus.c:1168-1297 | a valid value comes back unchanged exactly when it holds no byte table, no number or numeral string for a 64-bit integer and no number for text |
| Marshals.DecodeStays | src/dbus.c:1248-1254 | whatever a peer sends, reading it never overruns the 256-byte contents buffer |
| Marshals.EncodeStays | src/dbus.c:635-640 | nor does writing, whatever the value |
| DbusCalls.CallTable.Create | src/dbus.c:891-970 | queues a call, refused exactly at the operation limit or when identifiers run out |
| DbusCalls.CallTable.Start | src/dbus.c:1560-1584 | a call never sent before goes on the wire, and no other; it then holds a slot or is over, except unsent for a faulted owner |
| DbusCalls.CallTable.StartAll | src/dbus.c:1611-1617 | no wanted call of the bus stays unsent |
| DbusCalls.CallTable.Reply | src/dbus.c:1391-1428 | a reply ends the call exactly when its owner's callbacks still run |
| DbusCalls.CallTable.InvokeError | src/dbus.c:1329-1342 | a local failure runs the callback of a waiting call of a live owner, and nothing else |
| DbusCalls.CallTable.Disconnect | src/dbus.c:1495-1506 | a call of a lost connection goes on waiting exactly if it waited for an owner whose callbacks no longer run |
| DbusCalls.CallTable.CloseTransport | src/dbus.c:1481-1520 | no sent call of a lost connection keeps a slot |
| DbusCalls.CallTable.FaultOwner | src/dbus.c:1702-1741 | cancels exactly the owner's calls |
| DbusCalls.CallTable.Reap | src/dbus.c:1457-1479 | releases exactly the calls that are over and hold no slot |
| DbusCalls.Run | src/dbus.c:845-1774 | over any run nothing is sent or answered twice, the count is exact and at most 1024, and a waiting call of a live owner holds a slot |
| DbusCalls.FaultedOwnerStrands | src/dbus.c:1580-1583 | the exception to the slot rule |
| Snapshots.SystemdBus.SnapshotReply | src/systemd.c:76-102 | the cached count after a reply, and a notification exactly when it changes |
| Snapshots.SystemdBus.RequestSnapshot | src/systemd.c:104-116 | one query at a time |
| Snapshots.SystemdBus.SubscribeReply | src/systemd.c:126-142 | a snapshot after Subscribe, unless it was refused |
| Snapshots.SystemdBus.MatchInstalled | src/systemd.c:157-164 | Subscribe only after the match |
| Snapshots.PowerProfiles.ActiveReply | src/power_profiles.c:57-81 | the cached profile after a reply, and a notification exactly when it changes |
| Snapshots.PowerProfiles.ListReply | src/power_profiles.c:83-155 | the cached list after a reply is the first acceptable names of the peer's list, and a notification exactly when it changes |
| Snapshots.PowerProfiles.RequestSnapshots | src/power_profiles.c:157-177 | one query at a time for each property |
| Snapshots.HandleCovers | src/systemd.c:76-164 | handling a message leaves every property up to date, asked for, or owed a question |
| Snapshots.StepKeepsInv | src/systemd.c:76-178 | every step of source, bus and peer keeps that |
| Snapshots.QuiescentMirror | src/systemd.c:76-178 | with quiet queues a valid cache equals what is kept of the peer's value although signals were dropped |
| Snapshots.FailedSendGoesStale | src/systemd.c:113-115 | a request that cannot be sent leaves a stale cache |
| Spawns.SpawnTable.Open | src/spawn.c:92-168 | opens a child in the first free slot under a new serial exactly if there is one and it starts; no other slot changes |
| Spawns.SpawnTable.CancelSerial | src/spawn.c:194-202 | a handle cancels its own child and no later one |
| Spawns.SpawnTable.CancelOwned | src/spawn.c:204-215 | stops exactly the owner's children |
| Spawns.SpawnTable.Finish | src/spawn.c:217-264 | reports a child exactly when its pipe is closed and it is reaped, with the first bytes of its output |
| Spawns.SpawnTable.ReadReady | src/spawn.c:294-329 | what is read is kept in order until the pipe blocks, ends or the budget is used; an end closes the output, and reports the child exactly if it is reaped already |
| Spawns.SpawnTable.CloseOutput | src/spawn.c:279-292 | closes the output and reports the child if it is reaped already |
| Spawns.SpawnTable.Reaped | src/spawn.c:266-277 | reports the reaped child if and only if its pipe is closed |
| Spawns.SpawnTable.ExpireSlot | src/spawn.c:331-354 | completes a failed exec and kills a child out of time |
| Spawns.Captured | src/spawn.c:305-317 | captured output is the first bytes of the whole, however reads are cut; overflow exactly if there was more |
| Spawns.SpawnTable.ReportedOnce | src/spawn.c:217-264 | no child is reported twice, and none that was cancelled |
| Spawns.Run | src/spawn.c:92-354 | over any run no child is reported twice, none that was stopped is reported, every report holds the first bytes of all that was read, and no complete child stays unreported but one whose exec failed |

## Left out

- Out of memory: allocations succeed; the source's retry and refusal paths for failed allocations are not modelled.
- epoll, signals, inotify, timer descriptors, process creation and sockets: only the events and results they deliver.
- inotify queue: assumed to leave an overflow event after the last event it kept whenever it drops one.
- A file's content changing without a writer closing it (truncation by path, shared mappings): not observed by the source either.
- Directory replacement: losing the watched directory and watching a new one under the same path is not modelled.
- A directory changing between its listing and the opening of a listed file: one listing is one step.
- The three-line file format and its options: how a file's text becomes a state is a parameter.
- Item validation and JSON serialization: parameters, the latter failing for what is too large.
- Item allocation: a block's arrays exist from construction; the source allocates them at first use.
- IdSet.IdSet.Insert: the two arrays embedded in the set are sequence fields, so element aliasing is not modelled.
- Lua option tables, metatables and the stack interface; option tables with metamethods could re-enter the operation check.
- Lua finalizers that create timers while their own state is closing.
- TimerLifecycle.TimerSystem.Release: the doubly linked timer list is a set of timers; pointer order is not modelled.
- TimerLifecycle.TimerSystem.CreateTimer: no bound on the number of timers is claimed, since poll timers are linked unchecked.
- TimerHeaps.TimerHeap.Drain: the order among equal deadlines is by sequence number, which restarts after 2^64 additions.
- Marshals.ValueTravels: values and messages are finite trees and token sequences walked along the type tree, not Lua tables and a message changed in place along the text.
- Lua code that replaces tostring, or gives a table a tostring metamethod that prints a 64-bit integer.
- Lua code that changes a queued call's arguments between validation and sending, where the source keeps a reference.
- DbusCalls.CallTable.Create: after 2^64 calls identifiers are refused for good, where the source refuses one call and starts again.
- Message rewinding after a failed read, match rules and connect watches beyond their share of the operation count.
- Snapshots.QuiescentMirror: a peer that loses its subscription without closing the connection is not modelled.
- Utf8.ValidUtf8: the inner of the source's two loops is a method of its own.
- Spawns.SpawnTable.Open: serials are unbounded; the source's wrap after 2^64 spawns is not modelled.
- Spawn argument checks and the refusal for faulted or retired blocks, which precede the slot search.
- Collectors, GPU and audio sampling, configuration reading and the Lua modules: sampling and formatting only.
