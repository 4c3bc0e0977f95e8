# MoCoLinux: protocols, memory and rings

MoCoLinux runs a Linux guest beside Windows. This project models the parts of it where several
parties share memory or where an address passes through several tables, and proves what their
comments and documentation promise.

- **Block protocol** (`CobdPool`, `CobdProtocol`, `CobdInvariants`, `CobdTheorems`, `CobdStop`, `CobdRing`,
  `CobdCalls`).
  A pool of 128 nodes, one queue, worker and wake latch for each of four units, and a completion
  ring in guest memory. The whole is a step system: every section under a lock and every access
  to memory the other side may touch is one step, and results hold for every interleaving.
- **Pseudo and machine memory** (`Translation`, `BlockIndex`, `Windows`, `Kload`, `Layout`). The
  forward array and its reverse hash, the block index with its binary search and last-hit cache,
  the window arena, RAM growth, the reserved table range and whether it is large enough.
- **Page tables** (`PageTables`, `Graft`). Four-level walks over machine memory (section 4.5 of
  volume 3A of the Intel Software Developer's Manual), the loader's tree of tables, adding a
  mapping, and grafting that tree into the kernel's own root.
- **Lifetime of guest RAM** (`Teardown`). Free, map, unmap, begin and build as steps of any run.
- **Rings** (`NetRing`, `NetFlow`, `ConsoleRing`, `ConsoleFlow`). Free-running 32-bit indices over circular
  buffers in guest memory, against a guest that moves its own index at any time.
- **Block requests** (`ScatterGather`, `Requests`). Transfers page by page over separate host
  allocations, against one flat copy.
- **File server** (`Inodes`, `FileServer`). The inode tree in three lists, and forgetting a
  subtree of any depth with recursion of bounded depth.
- **Image loading** (`Image`), **console cells** (`ConsoleCells`), **UTF-8** (`Utf8`) and **tick
  accounting** (`Ticks`).

Objects whose fields the source updates are classes; their methods are proved against functions
on values, and the results over whole runs are lemmas about those functions. `Counting`, `Words`,
`Sizes` and `Splicing` hold what several modules share: finite sets, 32-bit indices, pages and
bytes, writing over part of a sequence. Host services become parameters or steps: memory the host grants
or refuses (`grant`, `granted`), the machine frames it hands out (`frame`), clock readings (`now`),
what a device answers (`result`), when a worker is scheduled.

Where the code and its comments differ, the model follows the code:

- `co_kload_window_map` does not look whether the range it takes is vacant. `Windows.MapDownSound`
  says exactly when it is harmless, `Windows.MixedRun` exactly which runs are, and
  `Windows.MixedMapsCollide` shows a pair of calls that is not.
- The range tests of caller-placed windows subtract in 32 bits. `Windows.RangeTest` says for which
  bases they mean what they say; past the arena's top only calls that the tests refuse are modelled.
- RAM growth is bounded by a capacity that includes the window arena. `Layout.OtherRamSize` says
  exactly which later RAM sizes keep out of it, and which the capacity test lets pass.
- A worker takes a request before it looks at `stopping`, so a stop may drop accepted requests
  unstarted. `CobdStop.StopDrops` says exactly which, `CobdStop.NothingDropped` exactly when there
  are none, and `CobdStop.DiscardedUnstarted` is a run with one.
- The hash of loaded bytes starts from a number one digit short of the FNV-1a offset basis; the model
  has the code's (`Image.FnvIs`).
- A window placed just where the next downward range ends moves that end up when it is released
  (`Windows.PlaceAndBack`).
- A zeroing chunk writes nothing. Its pages read as zero only where nothing was loaded before.
- Frames in the network ring may be split where it wraps; only the length word never is.
- `co_utf8_mbstowcs` passes its count of wide characters on as a limit in bytes. `Utf8.RoundTrip`
  says exactly which limits suffice, and `Utf8.DuplicateTrue` that `co_utf8_dup_to_wc` is true to a
  string exactly when its last character takes at most two bytes; `Utf8.EuroSign` is an input where
  it is not.
- The guest's drain stores its tail after reading the records, and there is one such drain at a time.
- The reserve for page tables is not enough for every RAM size the loader accepts.
  `Layout.ReserveExact` gives the exact condition, for an image whose every page is loaded, wherever
  it begins, and RAM that is fully backed. For images up to 64 MiB the reserve suffices up to
  115710 MiB, whichever pages are mapped (`Layout.ReserveSuffices`). A byte later it fails for an
  image that ends there exactly when it begins in the first 2 MB of the kernel's addresses, and it
  suffices again further up (`Layout.ReserveLimit`). It fails at every whole gigabyte from 125 to 128
  (`Layout.ReserveShort`).
- A region scroll is tested against the rows of the whole buffer. `ConsoleCells.ScrollInside` says
  exactly which regions stay inside it, and `ConsoleCells.AcceptedOutside` is an accepted one that
  does not.
- A guest may print while its output is pumped. `ConsoleFlow.PumpWhilePrinting` says which byte each
  one returned is.
- A tick count is narrowed to 32 bits and clamped to a second. `Ticks.ExactWhenCalm` says exactly
  when no tick is lost.

## Model

| member | source | states |
|---|---|---|
| CobdPool.WorkPool.Start | src/colinux/kernel/cobd_async.c:332-350 | whatever the last run left in the links, all 128 nodes form the free list and every queue is empty |
| CobdPool.WorkPool.Submit | src/colinux/kernel/cobd_async.c:421-457 | a request goes to the back of its own unit's queue on a node no list or worker had; refused exactly for a bad unit or an empty free list, and then nothing moves |
| CobdPool.WorkPool.Pop | src/colinux/kernel/cobd_async.c:268-282 | the oldest node of the unit leaves its queue for the worker; no other list changes |
| CobdPool.WorkPool.NodeFree | src/colinux/kernel/cobd_async.c:284-290 | a node a worker holds becomes free; linked lists and contents stay in step |
| CobdPool.EnqueueKeepsSeparate | src/colinux/kernel/cobd_async.c:421-457 | every node is in exactly one place before and after a submission |
| CobdPool.DequeueKeepsSeparate | src/colinux/kernel/cobd_async.c:268-282 | the same for a pop |
| CobdPool.ReleaseKeepsSeparate | src/colinux/kernel/cobd_async.c:284-290 | the same for a release |
| CobdRing.Ring.Complete | src/colinux/kernel/cobd_async.c:189-241 | a posted record is the last of those waiting and disturbs none of them, across the wrap of the index; refused exactly when the ring is full or retired, and then the ring is as it was |
| CobdRing.Ring.Drain | patch/7.1.5/async-cobd-src/cobd.c:130-171 | the records waiting are ended in order and none is left; an impossible gap only resynchronises |
| CobdRing.ReapOnce | patch/7.1.5/async-cobd-src/cobd.c:150-168 | whatever the ring holds, no request is ended twice |
| CobdCalls.CompleteIsSteps | src/colinux/kernel/cobd_async.c:189-241 | a completion is the protocol's lock, write and publish steps, with the same refusals |
| CobdCalls.DrainIsSteps | patch/7.1.5/async-cobd-src/cobd.c:130-171 | a drain is the protocol's start, one step for each record waiting and end, and ends what the method ends |
| CobdCalls.RequestIsServed | src/colinux/kernel/cobd_async.c:292-330 | from any state of the protocol with nothing of its unit's under way, a request is accepted, transferred once, posted and ended, with its own tag and the device's answer |
| CobdTheorems.InvStep | src/colinux/kernel/cobd_async.c:189-330 | every step of submitter, worker, drain and stop keeps the protocol's invariant; a stop may find the guest in the middle of a drain |
| CobdTheorems.RunInv | src/colinux/kernel/cobd_async.c:189-457 | so does every interleaving of any length |
| CobdTheorems.Conservation | src/colinux/kernel/cobd_async.c:189-330 | in every reachable state a unit's accepted requests are, in order, those served, the one its worker holds and those queued; the served ones have their records, with their own tags and results, in order among those ended, unread in the ring or about to be posted |
| CobdTheorems.NeverFull | src/colinux/kernel/cobd_async.c:59-84 | the ring indices never differ by more than 64 and at most 68 nodes are in use |
| CobdTheorems.DeadBranches | src/colinux/kernel/cobd_async.c:210-218 | so no submission is refused, no completion finds the ring full, no drain resynchronises and none skips a record |
| CobdTheorems.NoLostWakeup | src/colinux/kernel/cobd_async.c:292-330 | no worker sleeps on a non-empty queue unless its latch is set or its submitter is about to set it |
| CobdStop.StopNeverHangs | src/colinux/kernel/cobd_async.c:380-419 | while a stop waits, some step can be taken, until every worker is joined |
| CobdStop.StopEnds | src/colinux/kernel/cobd_async.c:380-419 | however its steps interleave, a stop is over after 421 of them at most: each brings a measure of what is left down |
| CobdStop.StopIsFinal | src/colinux/kernel/cobd_async.c:380-419 | once all workers are joined, retiring is all that can happen, and after it nothing touches the ring |
| CobdStop.StopAccounts | src/colinux/kernel/cobd_async.c:380-419 | then every accepted request either has exactly one posted record or was never started |
| CobdStop.StopDrops | src/colinux/kernel/cobd_async.c:292-304 | which were never started is settled when stop is called: the queues, as they then stand, of units whose worker has found its queue empty or was never started; everything else is served, whatever the interleaving |
| CobdStop.NothingDropped | src/colinux/kernel/cobd_async.c:292-304 | nothing is dropped exactly when, at the stop, no such unit has anything queued |
| CobdStop.DiscardedUnstarted | src/colinux/kernel/cobd_async.c:297-304 | a run in which an accepted request is dropped so |
| Translation.EmptySlot | src/colinux/kernel/kload.c:1004-1014 | a table with fewer entries than slots has an empty slot, so a probe ends |
| Translation.Enter | src/colinux/kernel/kload.c:547-557 | entering a page at the first empty slot of its probe keeps every page findable |
| Translation.NotFound | src/colinux/kernel/kload.c:172-197 | a probe that meets an empty slot or comes round has missed nothing |
| Translation.HashFrame | src/colinux/kernel/kload.c:245-296 | entries of the forward array above RAM do not concern the reverse lookup |
| Translation.SomeHashes | src/colinux/kernel/kload.c:166-170 | the slots of some frames, as numbers |
| BlockIndex.Index.Find | src/colinux/kernel/kload.c:421-454 | the binary search, whatever the cache remembers, finds what looking at every block in turn finds |
| BlockIndex.Covered | src/colinux/kernel/kload.c:559-564 | blocks laid end to end leave no page out: a page is in some block exactly when it is backed |
| BlockIndex.ScanFinds | src/colinux/kernel/kload.c:421-454 | a block that holds the page is the only one and is the one found |
| BlockIndex.Index.Append | src/colinux/kernel/kload.c:559-564 | a new allocation takes the pages after the last one |
| Kload.TableSize | src/colinux/kernel/kload.c:988-1024 | refused exactly for no pages or more than the forward array's 1 GiB window has entries; else the hash gets the least power of two of slots that keeps it two-thirds full at most, and always fits its own window |
| Kload.Loader.constructor | src/colinux/kernel/kload.c:1032-1065 | fresh tables: nothing is backed, nothing is found |
| Kload.Loader.MachineToPseudo | src/colinux/kernel/kload.c:172-197 | the lookup ends, inverts the forward array on every backed page and fails on every other frame |
| Kload.Loader.PseudoToMachine | src/colinux/kernel/kload.c:199-217 | exactly RAM and the pages that live windows show translate, those of a window to its own frames |
| Kload.Loader.EnterPage | src/colinux/kernel/kload.c:547-557 | the probe for a slot ends and the reverse map stays the inverse |
| Kload.Loader.BlockAlloc | src/colinux/kernel/kload.c:508-567 | a granted block extends RAM, index and both maps together; a refusal leaves them |
| Kload.Loader.GrowTo | src/colinux/kernel/kload.c:574-601 | RAM grows to the end asked for, never a page beyond, and both maps stay inverse; short of it only when a single page more was refused by the host or by a limit; with a host that refuses nothing, exactly when `AllGrantedIs` says |
| Kload.AllGrantedIs | src/colinux/kernel/kload.c:508-601 | in numbers: tables and section reach the end, and the blocks of 32 MiB, or 8 MiB of a section, with one more for a rest and two for one of odd length, are 16384 at most |
| Kload.Loader.GrowOnce | src/colinux/kernel/kload.c:574-601 | after k refusals the request is the pages wanted, 32 MiB of them at most, halved k times, and never less than one; of a section at most 8 MiB are taken |
| Kload.HalvingsIs | src/colinux/kernel/kload.c:592-594 | halving k times divides by 2^k, rounding down |
| Kload.Loader.WindowMap | src/colinux/kernel/kload.c:250-292 | the in-place fill with rollback is the arena's downward map, and RAM's entries and the reverse map do not change |
| Kload.Loader.WindowMapAt | src/colinux/kernel/kload.c:303-345 | the same for a caller-placed map |
| Kload.Loader.WindowUnmap | src/colinux/kernel/kload.c:347-383 | the same for a release |
| Kload.MemoryRun | src/colinux/kernel/kload.c:245-601 | over any run from fresh tables of growth up to the RAM ceiling, maps, placed maps and releases in which no downward map crosses a window in use, RAM keeps the host's frames and ends below the arena, windows stay sound, and nothing else is mapped |
| Windows.RangeTest | src/colinux/kernel/kload.c:320-321 | the 32-bit range test means the range lies in the arena exactly for bases up to the arena's top |
| Windows.MapDownAccepts | src/colinux/kernel/kload.c:250-292 | a downward map is accepted exactly for some frames, none of them zero, that the arena has room for |
| Windows.MapAtAccepts | src/colinux/kernel/kload.c:303-345 | a caller-placed one exactly for some frames, none of them zero, that fit into vacant slots of the arena there |
| Windows.FailedFill | src/colinux/kernel/kload.c:274-285 | a fill rolled back restores the entries exactly when they were vacant |
| Windows.MapAtSound | src/colinux/kernel/kload.c:303-345 | a caller-placed map never overwrites a live slot, adds a window that was not there, keeps live windows apart, and changes nothing when refused |
| Windows.UnmapSound | src/colinux/kernel/kload.c:347-383 | an exact release removes that window and no other |
| Windows.DownAndBack | src/colinux/kernel/kload.c:347-383 | releasing the window a downward map has just made gives the whole arena back, its next range included |
| Windows.PlaceAndBack | src/colinux/kernel/kload.c:347-383 | so does releasing one just placed, but for the next range where that ended just there |
| Windows.MapDownSound | src/colinux/kernel/kload.c:266-287 | a downward map, accepted or refused, is harmless in that sense exactly when the entries it writes were vacant |
| Windows.MixedMapsCollide | src/colinux/kernel/kload.c:272-285 | a caller-placed window that the next downward map overwrites |
| Windows.DownwardRun | src/colinux/kernel/kload.c:245-383 | over any run of downward maps and exact releases from fresh tables, live windows stay apart and inside the arena, nothing else in it is mapped, and refused calls change nothing |
| Windows.MixedRun | src/colinux/kernel/kload.c:245-383 | of runs that mix in caller-placed maps, exactly those are harmless at every call in which no downward map writes to a window in use |
| Layout.RamBelowWindows | src/colinux/kernel/kload.c:1159-1177 | growing to the RAM size the run began with ends exactly where the window arena begins |
| Layout.OtherRamSize | src/colinux/kernel/kload.c:1796-1804 | for any other size, RAM stays below the arena exactly when that size, or the image if larger, takes no more pages than the size the run began with; and exactly which sizes the capacity test lets pass |
| Layout.RangesPartition | src/colinux/kernel/kload.c:471-500 | the ranges reported to the guest hold every backed byte exactly once and mark as reserved exactly the table hole |
| Layout.RangesReported | src/colinux/kernel/kload.c:471-500 | a range is reported exactly when it is not empty: the first with any memory at all, the second only for memory above the tables |
| Layout.PrefixesBetween | src/colinux/arch/x86_64/mmu.h:78-81 | a run of pages needs one table for each consecutive prefix |
| Layout.TablesMonotone | src/colinux/arch/x86_64/mmu.h:78-81 | mapping fewer pages never takes more tables |
| Layout.TablesExact | src/colinux/kernel/kload.c:1068-1095 | the direct map, any run of image pages and the translation windows share no table below the top level, and only the two windows share one there: the number of tables is exact |
| Layout.ReserveExact | src/colinux/kernel/kload.c:1129-1157 | for every RAM size and every image, wherever it begins, that the loader accepts, the number of 4 KB tables once every page is mapped, from the sizes alone; the reserve holds them exactly when that is no more than 512 for each 2 MB of it |
| Layout.ReserveSuffices | src/colinux/kernel/kload.c:1147-1157 | so with an image up to 64 MiB the reserve suffices, whichever pages of image and RAM are mapped, up to 115710 MiB of RAM, and up to 64 GiB with 128 tables to spare |
| Layout.ReserveLimit | src/colinux/kernel/kload.c:1129-1157 | with one byte more and an image that ends at 64 MiB it fails exactly when that begins in the first 2 MB; at 130980 MiB it suffices for any |
| Layout.ReserveShort | src/colinux/kernel/kload.c:1147-1157 | and fails, whatever such an image, at 125, 126, 127 and 128 GiB |
| PageTables.EntryParts | src/colinux/kernel/kload.c:1981-1984 | replacing an entry's frame keeps its other bits |
| PageTables.EntryFields | src/colinux/kernel/kload.c:1879-1890 | which bits of an entry are the frame, present and large; all others are the flags |
| PageTables.KernpgIs | src/colinux/arch/x86_64/mmu.h:26-37 | which bits an entry for a table has |
| PageTables.IndexDigits | src/colinux/arch/x86_64/mmu.h:78-81 | the indices at the four levels are the nine-bit digits of the page number |
| PageTables.WalkLocal | src/colinux/arch/x86_64/space.c:390-474 | a walk inside a tree depends on the tree's tables alone |
| PageTables.LinkWalk | src/colinux/arch/x86_64/space.c:246-276 | hanging an empty table on an absent entry gives or takes no address a mapping |
| PageTables.LeafMeaning | src/colinux/arch/x86_64/space.c:212-216 | writing a last-level entry changes the meaning of that page and of no other |
| Graft.Guest.TableFrame | src/colinux/kernel/kload.c:604-629 | each frame comes zeroed from the reserved range and was never given out before; refused exactly when the range is used up |
| Graft.Guest.CreateSpace | src/colinux/arch/x86_64/space.c:153-175 | a new space maps nothing |
| Graft.Guest.Map | src/colinux/arch/x86_64/space.c:187-280 | after a mapping its page walks to that frame with those flags, or is missing if they do not say present, and every other page as before; a failed call changes no page's meaning even when it added tables; refused exactly for a non-canonical address, failed exactly under a large page, out of memory only with the reserved range used up |
| Graft.Guest.Machineize | src/colinux/kernel/kload.c:1859-1897 | succeeds exactly when every present entry is small and of a page that translates, or of page zero; then each present entry's frame is the machine frame of the page it named, under its old flags, and absent ones stay; no other page changes |
| Graft.GraftKeeps | src/colinux/kernel/kload.c:1957-1984 | every address whose top-level entry the loader had walks alike from the kernel's root, frame, level and flags of every entry, except under the fixmap, which walks on in the fixmap's table; other top-level entries stay the kernel's |
| Graft.Guest.Adopt | src/colinux/kernel/kload.c:1899-1994 | the exact condition for success; the loader's own space walks as before in every outcome; on success the root handed out keeps the loader's meaning, the fixmap's table is translated, and an address under it walks on into the machine frame of the page its entry named |
| Graft.KernelOffset | src/colinux/kernel/kload.c:502-506 | where a linked kernel address lies in pseudo memory |
| Graft.FixmapIs | src/colinux/kernel/kload.c:1958-1967 | the fixmap is the last gigabyte of addresses, below the last entry of the root |
| Teardown.Ram.ReleaseBlocks | src/colinux/kernel/kload.c:637-696 | every block is handed back once, in order, its slot cleared first |
| Teardown.Ram.Free | src/colinux/kernel/kload.c:722-808 | the locked teardown is the free step: release now, defer, or nothing to do |
| Teardown.Ram.UserMapTryGet | src/colinux/kernel/kload.c:827-839 | a mapping is granted exactly when RAM is complete, not pending and present, however many are out, and is counted |
| Teardown.Ram.UserMapPut | src/colinux/kernel/kload.c:850-868 | the last mapping completes a deferred teardown |
| Teardown.InvStep | src/colinux/kernel/kload.c:637-868 | every step of free, map, unmap, begin, wait, allocation and build keeps the lifetime invariant |
| Teardown.ReleasedOnce | src/colinux/kernel/kload.c:637-720 | in every run, each block ever allocated is held now or was released, and that exactly once |
| Teardown.NoReleaseUnderMapping | src/colinux/kernel/kload.c:785-868 | in every run, what an outstanding mapping shows is not released, a pending teardown has a mapping to wait for, and memory is allocated only while every mapping is of the current run |
| Teardown.MappingLasts | src/colinux/kernel/kload.c:827-868 | a mapping keeps showing the same blocks, over any steps, until its holder puts it back |
| Teardown.FreeCompletes | src/colinux/kernel/kload.c:722-868 | once every holder has put back, in any order, every block ever allocated has been released |
| Teardown.Granted | src/colinux/kernel/kload.c:827-839 | complete RAM that is not pending is mapped, all of it, by whoever asks |
| Teardown.RamIsUsable | src/colinux/kernel/kload.c:1097-1226 | with nothing mapped, a begin of any number of blocks and a build of any number more release what was there and end in RAM that can be mapped whole |
| Teardown.BeginRefused | src/colinux/kernel/kload.c:954-973 | while a mapping is out a begin gives up after two hundred polls and not before |
| NetRing.RoundTrip | src/colinux/kernel/net.c:165-195 | records laid one after the other decode to exactly their frames |
| NetRing.LengthIs | src/colinux/kernel/net.c:240 | a length as its bytes, lowest first |
| NetRing.WellFormedIs | src/colinux/kernel/net.c:232-251 | which records are well formed, in numbers |
| NetRing.Aligned | src/colinux/kernel/net.c:247-258 | an aligned length word never straddles the wrap |
| NetRing.WriteRecord | src/colinux/kernel/net.c:256-276 | the split copies put the record at its position going round, inside the ring's memory, and nothing else changes |
| NetRing.LaidHolds | src/colinux/kernel/net.c:225-276 | records laid one behind the other are there to be read, record by record |
| NetRing.LaidUnread | src/colinux/kernel/net.c:225-276 | and leave every byte before them, as long as they end within a turn |
| NetRing.LaidLies | src/colinux/kernel/net.c:256-276 | byte for byte in the ring's memory: each frame laid has its length, lowest byte first, and its own bytes behind it, going round the end |
| NetRing.PokeElsewhere | src/colinux/kernel/net.c:253-276 | bytes written within a turn of the tail leave what lies between unread |
| NetRing.Fetch | src/colinux/kernel/net.c:232-254 | a record is accepted exactly when it is whole, of legal length and fits |
| NetRing.TakesAll | src/colinux/kernel/net.c:225-276 | a batch of records that fit is taken whole |
| NetRing.Rings.Put | src/colinux/kernel/net.c:196-299 | takes the longest run of frames that was asked for, is well formed and fits; the bytes between old and new head decode to them, head stays aligned and within the ring of the tail, unread bytes stay, and the ring is the old one with those records laid at the head; a malformed batch or a full ring publishes nothing |
| NetRing.Arc | src/colinux/kernel/net.c:142-145 | one unsigned comparison holds exactly for the tails on the arc from tail to head |
| NetRing.Rings.Take | src/colinux/kernel/net.c:119-163 | accepts exactly those tails, and the occupancy falls by the distance moved |
| NetRing.Rings.Dump | src/colinux/kernel/net.c:336-399 | returns the window of the ring at an absolute position, at most one turn of it |
| NetFlow.TestKeeps | src/colinux/kernel/net.c:253-254 | the one 32-bit test before a record, on the tail read at the start, keeps the record within a turn of every later tail |
| NetFlow.ScribbleKeeps | src/colinux/kernel/net.c:253-276 | no byte the guest has yet to read is overwritten by a write inside the record that the test let through, however far the guest has read meanwhile |
| NetFlow.RecordRuns | src/colinux/kernel/net.c:253-276 | once the test has passed, the length word and the split copies are such writes, and leave the whole record in place |
| NetFlow.DeliveryRuns | src/colinux/kernel/net.c:196-299 | a delivery of frames that fit is a run of the protocol that publishes exactly them |
| NetFlow.PutIsDelivery | src/colinux/kernel/net.c:196-299 | and the ring it ends in is the very one that the delivery's method leaves |
| NetFlow.ReadKeeps | src/colinux/kernel/net.c:165-195 | each read of the guest gets the oldest frame not yet read |
| NetFlow.PrefixDelivered | src/colinux/kernel/net.c:196-299 | in every interleaving the guest has read exactly a prefix of the frames published, the ring holds the rest, and the index words differ by no more than its size |
| ConsoleRing.Console.PumpIn | src/colinux/kernel/console.c:142-172 | as many keystrokes as fit go in, in order, behind the unread ones; every other byte stays |
| ConsoleRing.Console.PumpOut | src/colinux/kernel/console.c:174-210 | returns output from the tail, or from a ring's length behind the head, in order, and moves the tail past it |
| ConsoleRing.OldestIs | src/colinux/kernel/console.c:188-189 | where a pump resumes, in numbers |
| ConsoleRing.KeysArrive | src/colinux/kernel/console.c:142-172 | in every interleaving the guest reads exactly a prefix of the keystrokes offered and the ring never overflows |
| ConsoleRing.PrintShows | src/colinux/kernel/console.c:182-188 | a guest that prints regardless of the tail leaves its last ring's worth in the ring |
| ConsoleRing.PumpReturnsPrinted | src/colinux/kernel/console.c:174-210 | a pump into which the guest does not print returns a run of what was printed without a gap, skipping only what was overwritten |
| ConsoleFlow.PumpWhilePrinting | src/colinux/kernel/console.c:174-210 | however prints fall between its reads, each byte of a pump is the last one printed to its place by then, so its own until the guest is a whole ring past it; while the guest stays within a ring of where the pump resumed, what it returns has no gap |
| ConsoleFlow.QuietPump | src/colinux/kernel/console.c:174-210 | without prints in between, the steps of a pump return and store what the method does |
| ScatterGather.PageRead | src/colinux/kernel/kload.c:421-454 | within a page, the bytes of its allocation are the flat bytes of guest memory |
| ScatterGather.PageWrite | src/colinux/kernel/kload.c:421-454 | writing them there splices the flat bytes |
| ScatterGather.Device.Request | src/colinux/kernel/cobd.c:212-291 | the page loop is one flat copy whatever the layout of the allocations; a run that leaves guest memory is copied up to there; one past the disk's end is refused untouched |
| ScatterGather.Device.ReadDescriptor | src/colinux/kernel/cobd.c:162-181 | a descriptor reads as its sixteen flat bytes even across pages and allocations |
| ScatterGather.RunIs | src/colinux/kernel/cobd.c:80-84 | which bytes of a descriptor are the address and which the length |
| ScatterGather.DescriptorRun | src/colinux/kernel/cobd.c:80-84 | every run of 64-bit address and 32-bit length reads back from its descriptor |
| ScatterGather.Descriptors | src/colinux/kernel/cobd.c:162-190 | which descriptors are refused before anything moves |
| ScatterGather.Device.RequestSg | src/colinux/kernel/cobd.c:100-210 | the request is that of taking the descriptors one by one on flat memory, with the same refusals; no other disk changes |
| Requests.ListIsFixed | src/colinux/kernel/cobd.c:125-202 | reading the list as the request goes along comes to taking it as it stood, for a write always and for a read whose runs do not touch it |
| Requests.WriteIsFlat | src/colinux/kernel/cobd.c:100-210 | a write is one flat copy of the concatenated runs to the disk at the offset, and memory stays |
| Requests.ReadIsFlat | src/colinux/kernel/cobd.c:100-210 | a read whose runs do not touch the list is one flat copy of the disk dealt out over the runs, and the disk stays |
| Requests.ScatterElsewhere | src/colinux/kernel/cobd.c:212-291 | a read changes nothing outside its runs |
| Requests.GatherScatter | src/colinux/kernel/cobd.c:100-210 | gathering disjoint runs gets back what was dealt out over them |
| Requests.WriteThenRead | src/colinux/kernel/cobd.c:100-210 | what a write stores, a later read of the same list brings back |
| Inodes.FreeKeepsLists | src/colinux/kernel/filesystem.c:97-110 | freeing an inode keeps the flat list, the hash, the count and the uniqueness of numbers |
| Inodes.Pass | src/colinux/kernel/filesystem.c:112-129 | one pass of bounded depth frees the siblings and all below them except the subtrees it puts aside whole and parentless, and touches nothing else |
| Inodes.PutAside | src/colinux/kernel/filesystem.c:117-122 | past level 5 a pass frees nothing and puts all siblings aside |
| Inodes.FreedAtFive | src/colinux/kernel/filesystem.c:123-128 | up to level 5 it frees |
| Inodes.PruneRep | src/colinux/kernel/filesystem.c:131-149 | the inodes that remain form the tree with that subtree taken out |
| FileServer.Filesystem.Lookup | src/colinux/kernel/filesystem.c:14-33 | finds the live inode with a number, or says rightly that there is none |
| FileServer.Filesystem.FreshNumber | src/colinux/kernel/filesystem.c:45-48 | the loop ends with the first number from the next one on that no live inode has |
| FileServer.Filesystem.Alloc | src/colinux/kernel/filesystem.c:35-76 | the new inode is last in its parent's list, in the flat list and in its bucket, and the tree and all lists stay true |
| Inodes.AdoptIs | src/colinux/kernel/filesystem.c:50-53 | the new inode is a leaf, last among its parent's children, and no other inode changes |
| FileServer.Filesystem.FreeChildren | src/colinux/kernel/filesystem.c:112-129 | the loops over linked siblings are the pass |
| FileServer.Filesystem.Forget | src/colinux/kernel/filesystem.c:131-157 | ends, and exactly the inode and all below it are gone, at any depth, from the tree, the flat list, the hash and the parent's list; survivors are unchanged and the count is right |
| Image.Loader.PageFor | src/colinux/kernel/kload.c:1229-1285 | a page is zeroed at its first touch only, and refused exactly outside the image range |
| Image.Loader.Load | src/colinux/kernel/kload.c:1287-1331 | after any sequence of chunks every byte is that of the last non-zeroing chunk that covered it, or zero; a chunk is loaded whole exactly when it lies in range and each of its pages is touched already or in the image; else it stops at the first page it may not load, and touches exactly the pages up to there |
| Image.ReplayIs | src/colinux/kernel/kload.c:1287-1331 | before any chunk every byte is zero; then a chunk's own bytes are its data and no other changes |
| Image.Loader.Read | src/colinux/kernel/kload.c:1496-1527 | reads back that content, exactly when all its pages were touched |
| Image.Loader.Verify | src/colinux/kernel/kload.c:1684-1726 | the sum over page stretches is the hash of that content |
| Image.FnvIs | src/colinux/kernel/kload.c:1687-1712 | the hash of nothing is the starting number, and of one byte more is mixed from the hash before |
| Image.MixIs | src/colinux/kernel/kload.c:1709-1712 | by exclusive or and then the product |
| Image.FnvOfA | src/colinux/kernel/kload.c:1709-1712 | the sum of one letter |
| ConsoleCells.Console.ScrollUp | src/colinux/common/console.c:88-133 | a full-screen scroll shifts history and screen together; a region scroll changes only its own rows |
| ConsoleCells.Console.ScrollDown | src/colinux/common/console.c:136-177 | rows on screen move down and blanks enter at the top; history and other rows stay |
| ConsoleCells.ScrollInside | src/colinux/common/console.c:100-167 | the cells a region scroll up or down reads and writes lie in the buffer exactly when the region is on the screen and no shorter than the scroll, or is empty and scrolled by nothing |
| ConsoleCells.AcceptedOutside | src/colinux/common/console.c:100-106 | a region that the test accepts and that is not inside |
| ConsoleCells.AcceptedWithoutHistory | src/colinux/common/console.c:100-106 | with no history, an accepted region is inside exactly when it is no shorter than the scroll |
| ConsoleCells.Console.Clear | src/colinux/common/console.c:220-237 | exactly the rectangle becomes blank |
| ConsoleCells.Console.BlockMove | src/colinux/common/console.c:239-267 | the destination holds what the source held at the start, however the two overlap, and no other cell changes |
| ConsoleCells.FourRows | src/colinux/common/console.c:88-177 | four rows scrolled up and down, worked out |
| ConsoleCells.UpThenDown | src/colinux/common/console.c:88-177 | scrolling up and down again brings back every row that had not left the region |
| ConsoleCells.SixCells | src/colinux/common/console.c:220-267 | six cells cleared and moved over themselves, worked out |
| Utf8.ScanUnit | src/colinux/common/unicode.c:47-74 | the bytes of a unit decode to it with at least their number as the limit, and to nothing with less |
| Utf8.ScanForm | src/colinux/common/unicode.c:36-74 | of each length from two to six, a sequence is got exactly when the limit covers it and no shorter one could have held its code |
| Utf8.ScanByte | src/colinux/common/unicode.c:47-74 | which bytes are sequences by themselves and which begin none |
| Utf8.Wctomb | src/colinux/common/unicode.c:76-101 | the table and shift loops write the form of section 2 of RFC 2279, or refuse exactly when it does not fit |
| Utf8.RowForm | src/colinux/common/unicode.c:90-96 | the lead byte and six-bit groups that a table row makes of a unit are that form |
| Utf8.Forms | src/colinux/common/unicode.c:36-41 | the forms of one, two and three bytes, bit by bit |
| Utf8.Mbtowc | src/colinux/common/unicode.c:47-74 | the table loop is the scan, for sequences of every length and for malformed ones |
| Utf8.Mbstowcs | src/colinux/common/unicode.c:145-178 | the loop is the decoding under its shrinking limit |
| Utf8.Wcstombs | src/colinux/common/unicode.c:180-216 | the loop is the encoding into a bounded buffer |
| Utf8.EncodeInWhole | src/colinux/common/unicode.c:180-216 | the whole encoding comes out exactly when it fits |
| Utf8.NoRoom | src/colinux/common/unicode.c:180-216 | a unit that does not fit becomes one question mark |
| Utf8.WctowbStrlen | src/colinux/common/unicode.c:218-244 | the predicted length is the number of bytes the encoding has |
| Utf8.RoundTrip | src/colinux/common/unicode.c:145-216 | decoding what was encoded gives the string back exactly when each unit's bytes fit what is left of the limit at its turn |
| Utf8.StrayByte | src/colinux/common/unicode.c:145-178 | a byte that begins no sequence becomes one question mark and costs no other byte |
| Utf8.ByteLengthAmple | src/colinux/common/unicode.c:145-178 | the byte length is always enough |
| Utf8.ThereAndBack | src/colinux/common/unicode.c:145-244 | measured, encoded and decoded with at least the byte length, every string comes back |
| Utf8.DupToWc | src/colinux/common/unicode.c:246-269 | a duplicate is the decoding under one more than the number of units |
| Utf8.DuplicateTrue | src/colinux/common/unicode.c:246-269 | which is true to the string exactly when its last unit is below 0x800 |
| Utf8.CountStray | src/colinux/common/unicode.c:103-143 | a byte that begins no sequence counts as one unit |
| Utf8.EuroSign | src/colinux/common/unicode.c:246-269 | a string for which it is not |
| Ticks.TickSource.TakeTicks | patch/7.1.5/async-cobd-src/process.c:972-1004 | never more than a second's ticks, and the new mark |
| Ticks.FirstReading | patch/7.1.5/async-cobd-src/process.c:984-987 | the first reading sets the mark and delivers nothing |
| Ticks.Delivers | patch/7.1.5/async-cobd-src/process.c:989-1001 | fewer than 2^32 ticks due are delivered up to a second of them, and less than one is left |
| Ticks.Narrowed | patch/7.1.5/async-cobd-src/process.c:989-993 | more are narrowed to 32 bits first |
| Ticks.NeverAhead | patch/7.1.5/async-cobd-src/process.c:972-1004 | from a source not yet read, over any readings, by either caller, no more ticks are delivered than time has passed since the first |
| Ticks.ExactWhenCalm | patch/7.1.5/async-cobd-src/process.c:989-1001 | the total is the elapsed time in whole ticks exactly when no reading finds more than a second's ticks due |

## Left out

- The world switch, interrupt delivery and the monitor loop: their code is not part of this model.
- Windows and blk-mq primitives: mutexes, waits and tag allocation are atomic steps, latches and tags not in use; allocation is a parameter.
- Failures of the page-table walk to a ring in guest memory, and I/O errors inside a transfer: the rings and disks are taken as reachable, the block protocol carries a device's error as its result.
- Memory ordering weaker than program order, timing and the ten-second length of a poll; only the number of polls is modelled.
- The claim-first drain for several guest processors that a host comment describes: the drain modelled is the one in the guest source.
- The doorbell to waiting processors after a completion, and worker thread creation.
- Masks with a power of two minus one are written as remainders, and a flag joined to a clear field as a sum.
- ConsoleRing.PumpReturnsPrinted: takes a pump as one step; `ConsoleFlow.PumpWhilePrinting` is the same with prints in between.
- Kload.Loader.WindowMapAt: not stated for a base past the top of the arena whose wrapped range test passes, because the entries it then reads are not in the array; those the test refuses are included.
- Kload.Loader.WindowUnmap: the same.
- Windows.MapAtSound: the same.
- Graft.Guest.Adopt: stated for kernel symbols outside the reserved table range and for distinct root and fixmap tables, as the linker places them.
- Graft.Guest.Map: stated for physical addresses below 2^52 and flags outside the frame bits.
- The worker loop, stop, begin and build_ram appear as steps of their protocols and not as methods, since others act between their locked sections.
- FileServer.Filesystem.Forget: stated for inodes other than the root.
- FileServer.Filesystem.FreshNumber: numbers are unbounded; the wrap of a 32-bit inode number is not modelled.
- ConsoleCells.Console.BlockMove: stated for rectangles on the screen; the source checks neither.
- ConsoleCells.Console.ScrollUp: stated for refused regions and for those that `ConsoleCells.ScrollInside` finds inside the buffer, save empty ones; the others are accepted by the source but reach outside.
- ConsoleCells.Console.ScrollDown: the same.
- ConsoleCells.Console.Clear: stated for rectangles on the screen, which the source does not check.
- Moving an inode to another parent, directory names and the file operations behind the inodes.
- Writing single characters to the console and initialising its history: they would only add easy members.
- Large-page mappings and the destruction of a space.
- Reads and writes through a guest's own root, and the u32 accessors.
- The virtio transport, the installer, the user tools, formatting and the debug buffers.
