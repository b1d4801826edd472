# openSystem: verified models

Dafny models of the stateful cores of openSystem, with proofs about them. `dafny verify dfyconfig.toml`
checks everything.

## What is modelled

**From document to pointer events** (`gui-renderer`). A UIDL document is a tree of widgets. The layout
engine (`Layout`) walks it and pushes one box per widget into a flat list, in pre-order. A stack machine
(`EcsTree`) turns that list, which has lost the nesting, back into a table of nodes with parent and child
links. Pointer events are routed by scanning the table backwards for an interactive box that holds the
point, and the app's patches rewrite texts and labels in the table (`EventBridge`).
`Geometry` proves what boxes the layout hands out, `Rebuild` and `TreeTheorems` that the stack machine
recovers the tree, that the document can be restored from the table, and that the backward scan is exact, `EventTheorems` what that means for events, patches
and whole runs, and `BridgeRefinement` that the bridge's methods are the steps of those runs.

**The host's timers** (`os-agent`). `TimerRegistry` has the registry's critical sections, `TimerProtocol`
the host and one thread per timer as a transition system in which any list of events is a run, with an
inductive invariant, `TimerRefinement` the proof that the registry's methods are its steps, and
`TimerTheorems` the guarantees. A thread can pass the last check of its flag just
before the host clears the timer, and then push a stale id: `TimerTheorems.LatePushHappens` builds such a
run for every interval, and the other theorems show that the stale id never comes out. A registration is
one step of the system: its thread may start before the lock is released, but it writes shared state only
under that lock.

**Text blending** (`Glyphs`), **the document cache** (`UidlCache`), **the guest's callback table**
(`CallbackSlots`), **the resource monitor's rates** (`RateMonitor`), **the memory limit file**
(`MemoryLimit`) and **the stored API key** (`ApiKey`) are self-contained.

The loops and objects of the source are methods and classes here, each proved against a function that the
lemmas are about. Iterator expressions of the source are recursive functions.

## Where code and documentation differ

The models follow the code.

- `apply_patches` is documented to return the count of nodes actually modified. It also counts visibility
  toggles, which modify nothing, a full replacement, and a node once for each patch that alters it.
  `EventTheorems.CountIsModifiedNodes` says exactly when the number is the documented one, and
  `EventTheorems.ToggleCountsWithoutChange` gives a batch for which it is not.
- The cache is documented to hold at most `max_entries` documents. With `max_entries` 0 it holds one
  (`UidlCache.CapacityIsKept`).
- A memory limit of 0 is written as "max" and read back as 2^44 - 1; limits of 2^44 and more wrap at 64
  bits in a build without overflow checks (`MemoryLimit.LimitRoundTrip`). A build with overflow checks
  stops at the multiplication instead.
- The component table has its own defaults for paddings and spacers, different from the layout's.

One thing is as documented but may surprise: the cache evicts whenever it is full, so overwriting a key
can cost a different key its entry although no room is needed (`UidlCache.InsertDropsOther` says exactly
when, `UidlCache.OverwriteCanDropOther` that it happens at every capacity from two on). This is why a
recently touched key is safe from one other key fewer than the capacity suggests
(`UidlCache.RecentKeysAreKept`, `UidlCache.RetentionBoundIsSharp`).

## Model

| member | source | states |
|---|---|---|
| Layout.LayoutEngine.LayoutDocument | gui-renderer/src/widget_system.rs:98-106 | lays a document out on the canvas, giving the pre-order list of widgets with their boxes |
| Layout.LayoutEngine.LayoutWidget | gui-renderer/src/widget_system.rs:108-162 | appends exactly the pre-order list of the subtree, each child at the closed-form position of `ChildBox`, to what was already in the output |
| Layout.LayoutEngine.LayoutColumn | gui-renderer/src/widget_system.rs:115-136 | the running `y` cursor puts every child of a vertical stack at its closed-form offset |
| Layout.LayoutEngine.LayoutRow | gui-renderer/src/widget_system.rs:137-156 | the running `x` cursor puts every child of a horizontal stack at its closed-form offset, all equally wide |
| Layout.MaxHeight | gui-renderer/src/widget_system.rs:190-193 | the height estimate of a horizontal stack is the largest of its children's estimates, or 0 without children |
| Layout.Flatten | gui-renderer/src/uidl.rs:138-145 | the layout list of a tree has exactly as many entries as the tree has widgets |
| Geometry.NaturalHeightFitsColumn | gui-renderer/src/widget_system.rs:115-136 | a vertical stack given exactly its estimated height ends its last child exactly one padding above its bottom |
| Geometry.RowFillsWidth | gui-renderer/src/widget_system.rs:143-155 | the last child of a horizontal stack ends on the right edge exactly when the width covers the gaps |
| Geometry.ColumnFillsWidth | gui-renderer/src/widget_system.rs:115-135 | every child of a vertical stack starts one padding in and ends one padding before the right edge, the latter exactly if the box is as wide as both paddings; the first starts one padding down, each other one gap below the one before it, and leaves have the default or given heights, all in the document's own numbers |
| Geometry.RowIsAligned | gui-renderer/src/widget_system.rs:137-156 | the children of a horizontal stack have its top and height and one width, the first at its left edge, each other one gap right of the one before it |
| Geometry.DescendantsEndAbove | gui-renderer/src/widget_system.rs:108-195 | a box at least as high as the estimate holds every descendant vertically |
| Geometry.DescendantsEndLeft | gui-renderer/src/widget_system.rs:118-155 | a descendant with positive width ends within every ancestor, however small the canvas |
| Geometry.DescendantsStartWithin | gui-renderer/src/widget_system.rs:108-162 | no descendant starts left of or above an ancestor, and no box has negative size |
| Geometry.ColumnsAreDisjoint | gui-renderer/src/widget_system.rs:125-135 | the subtrees of two children of a vertical stack are apart by at least the gap, whatever height the stack has |
| Geometry.LayoutKeepsLeavesClear | gui-renderer/src/widget_system.rs:108-195 | in the whole list, nothing placed after a leaf reaches into the interior of that leaf |
| EcsTree.Builder.BuildNodesFromPairs | gui-renderer/src/uidl_to_ecs.rs:211-280 | the loop over the pairs, with its frame stack and id counter, computes the fold of the machine's step |
| EcsTree.Builder.AppendNode | gui-renderer/src/uidl_to_ecs.rs:231-257 | one new node with the next id, listed as the last child of its parent, nothing else changed |
| EcsTree.Builder.AdvanceStack | gui-renderer/src/uidl_to_ecs.rs:259-266 | counts the child on the top frame and pops the complete frames |
| EcsTree.BuildEcsTree | gui-renderer/src/uidl_to_ecs.rs:180-204 | layout and rebuild put together |
| EcsTree.HitTest | gui-renderer/src/uidl_to_ecs.rs:152-161 | a result is interactive and contains the point, nothing interactive after it does, and no result means no interactive box contains the point |
| EcsTree.Find | gui-renderer/src/uidl_to_ecs.rs:135-137 | the first node with the id, and none only if no node has it |
| Rebuild.StackStaysOpen | gui-renderer/src/uidl_to_ecs.rs:259-275 | on any input, every frame on the stack still waits for a child |
| Rebuild.AdvanceOpen | gui-renderer/src/uidl_to_ecs.rs:263-266 | the pop loop removes at most one frame: the top one, when its last child came |
| Rebuild.RebuildInvertsFlatten | gui-renderer/src/uidl_to_ecs.rs:206-280 | fed the flat list of any widget tree, the machine ends with an empty stack and exactly the table defined by recursion on the tree |
| TreeTheorems.LinksAgree | gui-renderer/src/uidl_to_ecs.rs:116-119 | in every built table: one node per widget, ids from 1 up, node 0 the only root, parents before children, and parent and child links say the same |
| TreeTheorems.SubtreesAreRanges | gui-renderer/src/uidl_to_ecs.rs:206-280 | in every built table the nodes below the k-th, by parent links, are exactly the range from k on of as many nodes as its subtree has widgets |
| TreeTheorems.BuiltTreeReadsBack | gui-renderer/src/uidl_to_ecs.rs:206-280 | following the child links from node 0 yields the widget tree of the document, payloads, boxes and child order included |
| TreeTheorems.DocumentReadsBack | gui-renderer/src/uidl_to_ecs.rs:206-311 | the document can be restored from the table: every text, label, action, value, style, number and id of every widget, with the table's defaults where a number is left out |
| TreeTheorems.BuiltKeepsFields | gui-renderer/src/uidl_to_ecs.rs:240-329 | field by field, the k-th node has what the document says of the k-th widget, its box, and no interaction yet; the first fills the canvas |
| TreeTheorems.BuiltMirrorsLayout | gui-renderer/src/uidl_to_ecs.rs:230-252 | node by node, the table has the layout list's boxes, components and widget ids |
| TreeTheorems.HitTestIsExact | gui-renderer/src/uidl_to_ecs.rs:149-161 | for every document, canvas and point strictly inside the box of a button or input, the hit test finds exactly that node |
| TreeTheorems.HitTestReadsLayout | gui-renderer/src/uidl_to_ecs.rs:149-161 | for every point, edges included: the last button or input of the layout whose box holds it, and nothing exactly if there is none |
| EventBridge.Bridge.PushUiEvent | gui-renderer/src/event_bridge.rs:135-137 | appends the event |
| EventBridge.Bridge.ProcessEvents | gui-renderer/src/event_bridge.rs:143-189 | empties the inbound queue and appends to outbound exactly the callbacks of its events, in order |
| EventBridge.Bridge.DrainOutbound | gui-renderer/src/event_bridge.rs:196-198 | hands out all callbacks and leaves none |
| EventBridge.Bridge.PushPatch | gui-renderer/src/event_bridge.rs:210-212 | appends the patch |
| EventBridge.Bridge.DrainPatches | gui-renderer/src/event_bridge.rs:215-217 | hands out all patches and leaves none |
| EventBridge.ApplyPatches | gui-renderer/src/event_bridge.rs:249-295 | patch by patch over all nodes comes to last-writer-wins node by node, up to the first full replacement, and the count is the number of alterations plus toggles plus one for a replacement |
| EventBridge.PatchNodes | gui-renderer/src/event_bridge.rs:253-280 | one text or label patch against every node, counting the nodes it alters |
| EventBridge.OnePatchMore | gui-renderer/src/event_bridge.rs:251-294 | counting alterations by node and by patch comes to the same |
| EventBridge.PatchesKeepSkeleton | gui-renderer/src/event_bridge.rs:249-295 | no batch changes ids, layout, links, kind or action of a node |
| EventTheorems.ClickReachesWidget | gui-renderer/src/event_bridge.rs:146-160 | a click strictly inside a button or input becomes the callback the document names for that very widget, with its id, or none if it names none |
| EventTheorems.TextReachesWidget | gui-renderer/src/event_bridge.rs:168-181 | text typed into entity k + 1 goes to the k-th widget of the layout |
| EventTheorems.CallbackNamesWidget | gui-renderer/src/event_bridge.rs:143-189 | conversely, every callback carries the action and id of a widget of the document: the button or input that holds the clicked point, or the widget the entity id numbers |
| EventTheorems.ClickAmongOthers | gui-renderer/src/event_bridge.rs:143-160 | in any queue, a click on a button or input contributes the callback of that widget exactly in its place |
| EventTheorems.SilentEventsAreDropped | gui-renderer/src/event_bridge.rs:161-186 | hover and key events leave no callback |
| EventTheorems.PatchesKeepRoutes | gui-renderer/src/event_bridge.rs:249-295 | any events route to the same callbacks before and after any batch of patches |
| EventTheorems.LastWriterWins | gui-renderer/src/event_bridge.rs:249-295 | every node ends up with what the last live patch aimed at it writes, and as it was if no live patch is aimed at it |
| EventTheorems.FieldsAreLastWritten | gui-renderer/src/event_bridge.rs:249-280 | a text has the content, and a button the label, of the last live patch that sets it for its id, all else as before; without such a patch, and for any other node, nothing changes |
| EventTheorems.ReapplyingChangesNothing | gui-renderer/src/event_bridge.rs:249-295 | applying a batch a second time leaves the tree as it is |
| EventTheorems.CountIsModifiedNodes | gui-renderer/src/event_bridge.rs:243-248 | the count is at least the number of modified nodes, and equal exactly if the batch has no toggle, no full replacement, and for no node two writes that each differ from the text before |
| EventTheorems.ToggleCountsWithoutChange | gui-renderer/src/event_bridge.rs:281-286 | a single visibility toggle counts as one change and changes no node |
| EventTheorems.CountGrowsPatchByPatch | gui-renderer/src/event_bridge.rs:249-294 | before a full replacement, one more patch adds to the count one for each node with its id that has another text by then, and one for a toggle or full replacement |
| EventTheorems.StalePatchesCountNothing | gui-renderer/src/event_bridge.rs:287-291 | patches after a full replacement add nothing to the count and change nothing |
| EventTheorems.TogglesAndReplacement | gui-renderer/src/event_bridge.rs:281-291 | toggles and then a full replacement count one each, and no node changes |
| EventTheorems.CallbacksFollowTheTable | gui-renderer/src/event_bridge.rs:109-115 | in every interleaving of pushes, processing, deliveries, patches and table replacements, what is delivered and queued is every processed event routed once, in order, by the table in force at that time |
| EventTheorems.CallbacksAreConserved | gui-renderer/src/event_bridge.rs:109-115 | without table replacements: delivered, queued and still unprocessed callbacks together are those of all pushed events, in order, as the original table routes them |
| BridgeRefinement.Perform | gui-renderer/src/event_bridge.rs:126-295 | every action of a run is what the bridge's methods and `apply_patches` do to the queues and the tree |
| BridgeRefinement.PerformAll | gui-renderer/src/event_bridge.rs:109-115 | a whole run carried out on a new bridge hands out and queues exactly the callbacks owed |
| TimerRegistry.Host.SetInterval | os-agent/src/wasm_runtime.rs:120-160 | refuses beyond 64 timers or with interval 0 and then changes nothing; else issues the next id, with callback, entry and a lowered flag |
| TimerRegistry.Host.Clear | os-agent/src/wasm_runtime.rs:166-181 | removes entry, callback and pending firings of the id, raises its flag and no other, and tells whether it existed |
| TimerRegistry.Host.Push | os-agent/src/wasm_runtime.rs:150-152 | appends the id to the fired list |
| TimerRegistry.Host.DrainFired | os-agent/src/wasm_runtime.rs:185-194 | empties the fired list and returns those of its ids that still have a callback |
| TimerRegistry.SleepInChunks | os-agent/src/wasm_runtime.rs:140-146 | the chunked sleep ends at the first 10 ms checkpoint at which the flag is up, else after exactly the interval |
| TimerProtocol.EveryRunKeepsInv | os-agent/src/wasm_runtime.rs:98-194 | the invariant (tables, flags, logs, sleep, staleness, conservation) holds in every state of every interleaving |
| TimerProtocol.StepKeeps | os-agent/src/wasm_runtime.rs:98-194 | every single step of the host or of a thread keeps the invariant |
| TimerTheorems.DrainHandsOutLiveTimers | os-agent/src/wasm_runtime.rs:185-194 | draining hands out only timers registered at that moment, with the flag down, under the name they were registered with |
| TimerTheorems.ClearedNeverSurfaces | os-agent/src/wasm_runtime.rs:162-194 | after clear, at any point of any run, no later drain hands the timer out |
| TimerTheorems.ClearedThreadWindsDown | os-agent/src/wasm_runtime.rs:139-154 | a cleared thread pushes exactly once more if it was past its last check and gets another turn, and never otherwise; it exits within three turns and sleeps at most one more chunk |
| TimerTheorems.StaleFiringsAreBounded | os-agent/src/wasm_runtime.rs:147-152 | the id of a cancelled timer is in the fired list at most once |
| TimerTheorems.LatePushHappens | os-agent/src/wasm_runtime.rs:147-152 | for every interval there is a run that leaves an unregistered id in the fired list |
| TimerTheorems.FiringsAreConserved | os-agent/src/wasm_runtime.rs:150-194 | for the registered timers, the pushes in order are the deliveries followed by what is pending |
| TimerTheorems.DeliveryKeepsOrder | os-agent/src/wasm_runtime.rs:150-194 | for all timers, cleared ones included, what was handed out followed by what is pending is a subsequence of the pushes |
| TimerTheorems.IdsNeverReissued | os-agent/src/wasm_runtime.rs:130-131 | the ids successful registrations return grow strictly over the run |
| TimerTheorems.RegistrationIsFresh | os-agent/src/wasm_runtime.rs:120-131 | a refused registration changes nothing; an accepted one gets an id that occurs nowhere yet |
| TimerTheorems.RegistryStaysBounded | os-agent/src/wasm_runtime.rs:98-105 | at most 64 timers, each with exactly one callback, and all ids below the next one |
| TimerTheorems.FirstRegistrationsSucceed | os-agent/src/wasm_runtime.rs:120-131 | on a new registry, the first 64 registrations with positive intervals return 1 to 64, and all further ones 0 |
| TimerTheorems.FiresOncePerInterval | os-agent/src/wasm_runtime.rs:139-153 | unless cleared, a thread pushes exactly once for every whole period among its own turns, for every number of turns and in any interleaving |
| TimerTheorems.RegisteredTimerFires | os-agent/src/wasm_runtime.rs:120-159 | a timer registered while fewer than 64 are, and not cleared, fires once for every whole period of its interval from its registration on, and each firing is handed out or pending |
| TimerTheorems.PushAfterWholeInterval | os-agent/src/wasm_runtime.rs:140-152 | a thread about to push has slept exactly its interval since its last turn |
| TimerRefinement.Perform | os-agent/src/wasm_runtime.rs:120-194 | every event of the protocol is what the registry's methods and flags do, and they answer what the protocol answers: the new id, whether the timer existed, the firings due |
| TimerRefinement.PerformAll | os-agent/src/wasm_runtime.rs:107-194 | any run carried out on a new registry ends in the protocol's state, with the protocol's ids returned and firings handed out |
| TimerRefinement.ThreadSleepsInChunks | os-agent/src/wasm_runtime.rs:140-146 | whenever the flag goes up, a thread's turns in its sleep loop sleep exactly as long as the chunked sleep |
| Glyphs.RasterizeText | gui-renderer/src/widget_system.rs:355-390 | every pixel ends as the glyphs' coverages at that pixel blend over it in text order; all writes are in bounds |
| Glyphs.DrawGlyph | gui-renderer/src/widget_system.rs:362-388 | one glyph blends each pixel by its coverage there, clipped pixels aside |
| Glyphs.TextPutsCells | gui-renderer/src/widget_system.rs:360-390 | in any text, a glyph stands where the advances before it put it, and each cell of its bitmap blends the one pixel at its row and column |
| Glyphs.CellLandsAt | gui-renderer/src/widget_system.rs:362-371 | the cell (row, col) of a bitmap stored row by row lands col right and row down of the glyph's corner |
| Glyphs.IndexOfPixel | gui-renderer/src/widget_system.rs:372-376 | the pixel in column px and row py is the one at index py * width + px and no other |
| Glyphs.BlendPixel | gui-renderer/src/widget_system.rs:370-386 | clips, writes exactly one pixel at most, and the index is always in range |
| Glyphs.BlendIsThePlainFormula | gui-renderer/src/widget_system.rs:377-385 | on premultiplied pixels the casts, the clamp and the fallback never take effect, and the result is premultiplied |
| Glyphs.BlendRoundsDown | gui-renderer/src/widget_system.rs:377-385 | at any coverage, each channel is the colour and the old value weighted by the coverage's share of the alpha, rounded down once |
| Glyphs.OpaqueStaysOpaque | gui-renderer/src/widget_system.rs:377-385 | opaque stays opaque, each channel between its old value and the text colour |
| Glyphs.FullCoverageReplaces | gui-renderer/src/widget_system.rs:377-385 | full coverage in an opaque colour replaces the pixel by the colour |
| Glyphs.TextKeepsPixelsValid | gui-renderer/src/widget_system.rs:360-390 | any text keeps every pixel premultiplied, and opaque pixels opaque and between old value and colour |
| Glyphs.OutsideGlyphsUnchanged | gui-renderer/src/widget_system.rs:360-390 | pixels outside all glyph rectangles are unchanged |
| UidlCache.Cache.Get | gui-renderer/src/cache.rs:32-43 | returns the cached document and stamps the entry |
| UidlCache.Cache.Insert | gui-renderer/src/cache.rs:46-68 | stores the document, dropping a least recently accessed entry of a full cache first, also when access times coincide |
| UidlCache.Cache.Invalidate | gui-renderer/src/cache.rs:71-80 | removes one entry |
| UidlCache.LeastRecentlyUsed | gui-renderer/src/cache.rs:53-56 | finds an entry no other is older than |
| UidlCache.SizeIsBounded | gui-renderer/src/cache.rs:46-68 | over any run the size stays at most max(1, max_entries) |
| UidlCache.CapacityIsKept | gui-renderer/src/cache.rs:23-29 | the documented bound holds over all runs exactly when max_entries is at least 1 |
| UidlCache.CacheIsCoherent | gui-renderer/src/cache.rs:32-88 | what is cached is what a map without a bound holds after the same operations |
| UidlCache.EvictedIsLeastRecent | gui-renderer/src/cache.rs:51-60 | an evicted key was touched before every key that stays, and there are at least max_entries - 1 of those |
| UidlCache.InsertDropsOther | gui-renderer/src/cache.rs:46-68 | an insertion costs a different key its entry exactly when the cache is full and the oldest entry is a different key's |
| UidlCache.OverwriteCanDropOther | gui-renderer/src/cache.rs:51-67 | at every capacity of two or more, a run exists whose last operation overwrites a cached key and costs a different key its entry |
| UidlCache.RecentKeysAreKept | gui-renderer/src/cache.rs:32-68 | a key just touched stays cached, unless dropped by name, while fewer than max(1, max_entries - 1) other keys are touched |
| UidlCache.RecentInsertIsServed | gui-renderer/src/cache.rs:32-68 | the document last inserted under a key is the one served for it while fewer than that many other keys are touched |
| UidlCache.RetentionBoundIsSharp | gui-renderer/src/cache.rs:32-68 | at every capacity, touching exactly that many other keys can cost the key its entry |
| CallbackSlots.CallbackTable.SetInterval | os-syscall-bindings/src/lib.rs:175-195 | takes the lowest free id, which was not live, and makes it live with the callback; all others keep theirs |
| CallbackSlots.CallbackTable.Clear | os-syscall-bindings/src/lib.rs:198-208 | frees the id and leaves all others live with their callbacks |
| CallbackSlots.LengthIsPeak | os-syscall-bindings/src/lib.rs:169-208 | over any run the table is exactly as long as the peak number of live timers |
| CallbackSlots.TimersKeepTheirCallbacks | os-syscall-bindings/src/lib.rs:169-208 | over any run, exactly the timers registered and not cleared since are live, each with the callback it was last registered with |
| RateMonitor.CgroupMonitor.ReadMetricsWithDelta | resource-scheduler/src/monitor.rs:74-136 | rates against the app's previous snapshot, which is replaced while other apps' stay; unreadable files count as their defaults, and the limit is the one `ReportedLimitMb` reads |
| RateMonitor.ReportShowsFiles | resource-scheduler/src/monitor.rs:81-87 | memory used, limit and number of processes are those written in the files of their own names, the number of processes if and only if it fits 32 bits |
| RateMonitor.FirstReportShowsNoRates | resource-scheduler/src/monitor.rs:111-113 | an app's first report shows no rates |
| RateMonitor.RateOfOneReport | resource-scheduler/src/monitor.rs:95-109 | a rate is the growth of its own counter since the app's sample before, over the time between, rounded down; a drop counts as none and a standing clock as one millisecond |
| RateMonitor.ReportsCoverTraffic | resource-scheduler/src/monitor.rs:90-122 | with counters that only grow and a clock that moves on, rates times times come to last minus first of the counter in the control files, short by less than a byte per millisecond passed |
| RateMonitor.RatesTelescope | resource-scheduler/src/monitor.rs:90-122 | per app and counter, over runs interleaved with other apps, rates times effective times never exceed the forward increments and fall short by less than the total time |
| RateMonitor.CpuPercentIsExactBelowOneCore | resource-scheduler/src/monitor.rs:97-108 | a reported CPU percentage never stands for more than the microseconds used, and for exactly those if and only if at most one core was busy; else it is 100 |
| RateMonitor.CpuTelescopes | resource-scheduler/src/monitor.rs:90-122 | per app, over runs interleaved with other apps, the CPU time the percentages add up to never exceeds the time used, and equals it exactly if the app never kept more than one core busy |
| RateMonitor.ForwardOfMonotone | resource-scheduler/src/monitor.rs:102-104 | for a counter that never goes back, the forward increments are last minus first |
| MemoryLimit.CgroupTree.SetMemoryLimit | resource-scheduler/src/executor.rs:76-85 | writes the limit's text exactly if the app id is valid and the file exists |
| MemoryLimit.DecimalRoundTrip | resource-scheduler/src/monitor.rs:159-161 | parsing takes back what printing made, for every 64-bit number |
| MemoryLimit.ReadingIsExact | resource-scheduler/src/monitor.rs:152-162 | a file reads as a number exactly if it holds "max" or decimal digits for it, with or without a plus sign, and blank space around; numbers beyond 64 bits are unreadable |
| MemoryLimit.ValidNames | resource-scheduler/src/executor.rs:8-22 | a name is valid exactly if it is not empty, has allowed characters only and two dots in a row nowhere |
| MemoryLimit.LimitRoundTrip | resource-scheduler/src/executor.rs:79-83 | the limit written is the limit reported exactly for limits from 1 to 2^44 - 1, with any blank space around the text |
| ApiKey.HexRoundTrip | os-agent/src/setup_wizard.rs:373-374 | hex decoding takes back hex encoding |
| ApiKey.HexDecodesExactly | os-agent/src/config.rs:96 | exactly the texts of even length and of hex digits in either case decode |
| ApiKey.DecodedByte | os-agent/src/config.rs:96 | each decoded byte is that of its own pair of digits |
| ApiKey.Utf8IsExact | os-agent/src/config.rs:103 | what counts as UTF-8 are exactly the encodings of sequences of Unicode scalar values |
| ApiKey.KeyRoundTrip | os-agent/src/config.rs:91-104 | every key comes back from its stored form exactly when the machine id is not empty, or the key is |
| ApiKey.StoredIsMasked | os-agent/src/setup_wizard.rs:362-375 | the stored text decodes to as many bytes as the key has, and each differs from the key's in the bits of the repeated machine id at that place |
| ApiKey.OtherMachineReads | os-agent/src/config.rs:91-104 | a machine with another id decrypts to the key exactly if the two repeated ids agree on the key's length |
| ApiKey.DecryptedText | os-agent/src/config.rs:91-104 | any text decrypts to its unmasked bytes, of the hex or of the text itself, if they are UTF-8, and else to itself |
| ApiKey.StoredFormIsExact | os-agent/src/setup_wizard.rs:362-375 | a text is the stored form of some key exactly when it is lower-case hex that unmasks to UTF-8, and then decrypting and encrypting it gives it back |

## Left out

- `f32` rounding in layout and CPU percentages: exact reals stand for it.
- `u32` overflow of entity ids and `u64` overflow of timer ids: ids are unbounded.
- Parsing UIDL JSON, colours, fonts, glyph generation, filling rectangles and borders: inputs or drawing
  calls of libraries. Glyph metrics and bitmaps are arbitrary, with a bitmap as large as its metrics say.
- `i32` range of pixel coordinates: coordinates are unbounded integers.
- The bridge's counters and `clear`, the tree's `root`, `get_mut` and `interactive_nodes`: nothing to say
  beyond their bodies.
- Rebuilding the table after a full replacement: done by the caller in code that is not in the repository.
  `EventTheorems` lets the caller install any table at any time.
- The atomics' memory ordering: flags are read and written one at a time. Poisoned mutexes, dropping a
  registry and the joining of threads there are not modelled.
- TimerRegistry.Host.SetInterval: spawning the thread is not part of the method; the thread appears in
  `TimerProtocol`, where the flags are fields of the threads, and `TimerRefinement` ties the two.
- The clocks are inputs. The results about runs of the cache are for a clock that strictly increases.
- Theme and metadata of a document: they are carried along unchanged.
- The wasm32 branch of the guest timer module: its ids are the host's, not slots.
- RateMonitor.CgroupMonitor.ReadMetricsWithDelta: the line parsers of `cpu.stat` and `io.stat` are inputs,
  as numbers or as unreadable; the one-number files are inputs as text.
- The CPU and IO weight writers and `kill_app`.
- ApiKey.KeyRoundTrip: the file that holds the machine id is an input, the same for both directions.
- LLM calls, HTTP, the store, SQLite, the wasmtime engine, archives, signatures, the terminal, the setup
  prompts and the ROM build.
