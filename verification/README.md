# A verified model of the kernel's stateful components

This project models, in Dafny 4.11, the parts of a Xen guest kernel that carry its hardest invariants, and proves them.
`dafny verify dfyconfig.toml` checks everything.

- **Page tables** (`Paging`, `PteWord`, `Hardware`, `Mmu`, `PageNeeds`, `PageOthers`, `PageInsert`, `PageNext`,
  `PageRange`, `PageOffline`, `PageAllocTree`, `PageCopy`, `PageFree`, `PageDualRoots`, `PageRuns`). Memory is a map
  from slots to entries; an entry is a frame and twelve flags, and `PteWord` shows that the operations on 64-bit words
  are operations on that pair. A ghost map places each table page at a node (address space, level, prefix); `Tree`
  says that following an entry leads to the child node, so every table has one parent slot below each root. The
  specification of a page table is `Mapping`, a map from pages to entries; `Hardware` has the processor's own walk,
  written with the bits it tests, and shows that it finds exactly that map. Class `Mmu` has what the code updates in
  place: memory, the update queue with its capacity, `ptNoWrite`, the pool of table pages, the frame counts. Walks
  read memory while updates are queued; theorems are about memory after the queue is applied, and hold for any
  capacity.
- **Handle table** (`HandleTable`): the direct-mapped growable array, as a class, against a finite map and a step relation
  over whole runs.
- **XenStore transport** (`XenStore`, `XenbusRequest`, `Xenbus`): message frames and their parsing, the request ring, the
  event handler that routes replies, and a request with the wait for its reply.
- **Grant table** (`Grant`): the free list in an array and the shared entries, on which the hypervisor acts between any
  two accesses of the guest.
- **Console** (`Console`): the software buffer drained into the backend's ring. `Ring` has the facts about free-running
  counters, their machine words and circular buffers that both kinds of ring need.
- **Heap and lists** (`Heap`, `LinkedList`): the first-fit allocator over intrusive circular lists.
- **Clock** (`SeqLock`, `Clock`): the versioned snapshots, their reader, and the monotonic clock. `Arith` has word sizes and
  facts about remainders.

Concurrency is modelled by schedules: each call is given, or has, a sequence of what the other side does at each point
where the guest touches shared memory. Every finite prefix of a run is such a schedule, of any length, so what is proved
holds at each point of every run. A waiting loop that would still wait when the schedule ends returns and says so.
Hypercalls that apply a list of updates are its application in order, compare-and-swap is one step, and barriers are the
order of steps. Memory allocation gives memory or not, as a parameter says; where several requests may follow one another
and the kernel stops at the first refusal, a number says how many are granted. A failed assertion or bug check is a result.

## Where the code departs from its intent

Each is proved with the exact condition, by the member named.

- A page inserted into a page table in use, below tables that were allocated ahead, is missed from the user root: the
  roots agree over the page afterwards iff they did before or the entry was unused (`InsertAgreesIff`,
  `AllocatedAheadIsMissed`). The calls of the interface get there: clone, tree allocation, completion and insertion in
  this order end so whenever they succeed (`AllocatedAheadRun`).
- Tearing an address space down clears the entries of the kernel root, and none of the user root. When a table right
  below the roots becomes writable, the kernel root no longer names it, and the user root still does iff its entry there
  was in use (`FreedTableNamedIff`), as after every clone, user insertion, completion and teardown that succeed
  (`StillNamedRun`).
- Completing an offline table appends two roots to `ptNoWrite`, of whose capacity one slot was kept: it stays in bounds
  iff at most `MAX_PTS - 2` pages wait (`CompleteExisting`). Allocating the tables of the first 4086 * 512 pages of a new
  page table leads beyond (`OverflowRun`).
- `archPageTableNext` passes over a mapped page iff `addr` and `hi` are less than a page apart with that page's start
  between them (`Next`, `NextPassesOver`).
- `_rangeSet` and `archPageTableUserspaceCopy` do nothing when `addr` and `hi` are less than a page apart. That leaves out
  a mapped page of the range iff the page of `addr` or the next one starts below `hi` and is mapped
  (`RangeIsWholeIff`, `CopyIsWholeIff`).
- `archPageTableOfflineAllocTree` accepts `toAddr == USERSPACE_END`, whose entry belongs to the kernel half
  (`EndOfUserspaceIsKernel`).
- Growing the handle table keeps the map iff no live id is a multiple of the new size or no slot after the first is empty
  (`DoublingKeepsMapIff`), and a run of allocations and releases loses a handle so (`GrowthLosesHandle`); skipping empty
  slots would always keep it (`SkippingEmptyKeepsMap`).
- Freeing handle 0 succeeds iff slot 0 is empty, and then only drops the count (`HandleTable.Free`).
- Requests carry 32 bits of a handle, so no call returns once handles have more (`MsgReply`).
- The bug check on the request ring's index fires exactly when the limit wraps and the message's end does not
  (`CheckFailsIff`, `WriteRing`). After 2^22 - 1 messages of 1024 bytes, all taken, a message without a body meets it, with
  the ring empty (`RunToWrap`).
- With no free grant entry, reserved entry 0 is granted (`GetFree`, `GrantAccess`); a grant is read-only iff the
  argument is odd (`ReadOnlyIffOdd`).
- `my_malloc` gives less than was asked for iff the size plus the header overflows `size_t` and some block is free
  (`Malloc`).
- The condition that ends a clock reader's loop is safe when its parity operand is evaluated first, as it is written; C
  does not fix the order, and the other one lets a torn copy through (`ParityFirst`, `EqualityFirst`, `TornSnapshot`).

## Model

| member | source | states |
|---|---|---|
| Paging.OffsetsAreIndices | include/nano/x86_64/archPageTable.h:82-112 | the four offsets of an address are the four nine-bit digits of its page |
| Paging.IndicesDetermine | include/nano/x86_64/archPageTable.h:82-112 | two pages with the same four offsets are the same page |
| Paging.BaseShr | include/nano/x86_64/archPageTable.h:45-71 | a page is at or after the first page of a node iff its prefix is at or after the node's |
| Paging.UserFlags | arch/x86_64/archPageTable.c:111-131 | the flags grant the permission and nothing else, bit by bit: 0x001 iff there is any, 0x002 iff it is to write, 0x080 iff there is none, 0x004 always, no other |
| Paging.PermissionRoundTrip | arch/x86_64/archPageTable.c:111-131 | reading back the permission of an entry made with one gives its closure under what the hardware can tell apart |
| Paging.WriteAccess | include/nano/x86_64/archPageTable.h:118-119 | losing and gaining write access touch bit 0x002 alone; frame and every other flag stay |
| Paging.WalkPlace | arch/x86_64/archPageTable.c:136-166 | in a tree a walk that reaches a leaf slot reaches it in the table of the page's own node |
| Paging.LeafSlotInjective | arch/x86_64/archPageTable.c:136-166 | two walks end in the same leaf slot only for the same page, of one address space or of the shared kernel half |
| Paging.WalkSame | arch/x86_64/archPageTable.c:136-166 | walks cannot tell apart two memories that agree on the upper tables |
| Paging.PutOffPath | arch/x86_64/archPageTable.c:136-166 | writing a leaf entry keeps the tree and every walk |
| PteWord.WordRoundTrip | include/nano/x86_64/archPageTable.h:114-159 | frame and flags are recovered from their word |
| PteWord.PairDeterminesWord | include/nano/x86_64/archPageTable.h:63-79 | a word without bits above 52 is determined by frame and flags, and is unused iff both are zero |
| PteWord.CreatePair | arch/x86_64/archPageTable.c:99-106 | making an entry from an address or an entry keeps the frame and replaces the flags |
| PteWord.MfnPair | include/nano/x86_64/archPageTable.h:147-159 | the machine frame of a word is its frame part |
| PteWord.WriteAccessPair | arch/x86_64/archPageTable.c:355-356 | clearing and setting _PAGE_RW on words changes that flag alone |
| Hardware.HardwareFinds | include/nano/x86_64/archPageTable.h:118-145 | where every entry on the way has bits 0x001, 0x002 and 0x004, the processor's walk finds what the page table maps the page to, at every address |
| Hardware.HardwareReaches | include/nano/x86_64/archPageTable.h:132-145 | after a change that makes upper entries with flags 0x067 only, the processor still passes wherever it could, and finds the page |
| Mmu.ApplyAppend | arch/x86_64/archPageTable.c:80-93 | the queue's effect and its intermediate memories grow by one update at a time |
| Mmu.Mmu.DoUpdate | arch/x86_64/archPageTable.c:58-75 | memory becomes what the queue makes of it, through each intermediate memory, and the queue is empty |
| Mmu.Mmu.DeferredUpdate | arch/x86_64/archPageTable.c:80-93 | the effective memory gains the one entry; the queue is flushed first iff it is full, and stays within its capacity |
| Mmu.Mmu.PtpAlloc | arch/x86_64/archPageTable.c:220-229 | the contract assumed of the table page allocator: a fresh zero page that the kernel maps, or none |
| PageNeeds.PathMissing | arch/x86_64/archPageTable.c:889-928 | the tables one page lacks are those below the level where its walk ends |
| PageNeeds.PavingStep | arch/x86_64/archPageTable.c:709-733 | giving one page of a set its path provides as many of the tables the set lacks as the path was short, none of them twice |
| PageNeeds.MissingLess | arch/x86_64/archPageTable.c:392-411 | one table hung at a node that had none leaves the set lacking one table less |
| PageOthers.OtherUserPages | arch/x86_64/archPageTable.c:889-937 | a change that keeps the entries of another address space keeps its user pages, from both of its roots |
| PageInsert.GrowChain | arch/x86_64/archPageTable.c:894-897 | a new page above a chain of single-entry tables makes a longer chain to the same leaf |
| PageInsert.Attach | arch/x86_64/archPageTable.c:889-934 | hanging a chain into a free entry maps the one page and keeps the tree and all other pages |
| PageInsert.InsertPtp | arch/x86_64/archPageTable.c:852-870 | the page's entry is written at once and its own mapping is queued to lose _PAGE_RW |
| PageInsert.WalkToEnd | arch/x86_64/archPageTable.c:889-928 | the walk ends at the level where the page's path stops |
| PageInsert.LeafFor | arch/x86_64/archPageTable.c:955-959 | the entry names the frame; a kernel page has flags 0x027, a user page those that grant the permission and nothing else |
| PageInsert.InsertInternal | arch/x86_64/archPageTable.c:877-937 | in all four cases the page is mapped, the new tables lose write access and nothing else of this table moves; other tables keep their own entries, and their roots see the page only where they share the table it hangs in; no result iff mapped before |
| PageInsert.Insert | arch/x86_64/archPageTable.c:947-969 | succeeds iff the page was unmapped and tables suffice; then maps exactly it, marks exactly the new tables read-only, keeps the tree and the places of all tables. Other tables keep their own entries, kernel pages seen from their roots change by the marks and the page only, and each that was ready for insertion stays so; upper entries are made with flags 0x067, so the processor finds the frame: at a kernel page with flags 0x027, at a user page with those that grant the permission |
| PageInsert.InsertedKeepsFrames | arch/x86_64/archPageTable.c:947-969 | no other page changes its frame or becomes mapped or unmapped |
| PageInsert.Populate | arch/x86_64/archPageTable.c:1539-1557 | succeeds iff the frames are distinct, their kernel pages unmapped, and there are pages for all tables these lack; then each kernel page has its own frame with flags 0x027, the new tables lose write access, no other page of this table moves, and as many pages are used as tables were missing. For other tables the same holds as for one insertion, and for the processor's walk |
| PageNext.ScanLevel | arch/x86_64/archPageTable.c:1046-1110 | a loop level reports the first mapped page of its node from the start page on, or none, with the lower offsets reset |
| PageNext.Next | arch/x86_64/archPageTable.c:1016-1111 | returns the least mapped page after addr and below hi, or hi, exactly unless the stated unaligned case holds |
| PageNext.NextPassesOver | arch/x86_64/archPageTable.c:1016-1032 | an input for which it does not: page 1 is mapped and starts between 4095 and 4097, and 4097 is returned |
| PageNext.IterationIncreases | arch/x86_64/archPageTable.c:1016-1111 | called again and again it gives strictly increasing addresses up to hi |
| PageNext.IterationVisitsAll | arch/x86_64/archPageTable.c:1016-1111 | and exactly the mapped pages in between |
| PageRange.RangeLevel | arch/x86_64/archPageTable.c:1231-1331 | a loop level re-flags exactly the mapped pages of its node in range, whatever is flushed meanwhile |
| PageRange.RangeSet | arch/x86_64/archPageTable.c:1231-1331 | after the queue, exactly the leaf entries in use of the range keep their frames and have the new flags; none if it is shorter than a page |
| PageRange.RangeIsWholeIff | arch/x86_64/archPageTable.c:1238-1241 | all mapped pages of the range are re-flagged unless it is shorter than a page and one of its pages is mapped |
| PageRange.ProtectRange | arch/x86_64/archPageTable.c:316-333 | the same in memory, for any queue capacity; each entry in range keeps its frame and grants exactly the permission, bit by bit |
| PageRange.ReflaggedMapping | arch/x86_64/archPageTable.c:1231-1331 | read as a map of pages: in range new flags and old frames, elsewhere no change, the same pages mapped, still a tree |
| PageOffline.AddTable | arch/x86_64/archPageTable.c:681-701 | hanging a zero page into a free upper entry maps nothing, changes no entry in use and keeps the tree |
| PageOffline.Clone | arch/x86_64/archPageTable.c:553-600 | the new roots have an empty user half, the user root is empty, and the old kernel half is mapped; whatever else waits in ptNoWrite |
| PageOffline.OfflinePtpAlloc | arch/x86_64/archPageTable.c:740-753 | a page is taken and queued in ptNoWrite iff there is one and two slots are left |
| PageOffline.DuplicateL4 | arch/x86_64/archPageTable.c:608-611 | the two roots agree at the index and every other walk is as before |
| PageOffline.OfflinePath | arch/x86_64/archPageTable.c:709-733 | the page's leaf slot exists, with one page allocated for each level missing and no mapping changed; new entries have flags 0x067 |
| PageOffline.UserInsert | arch/x86_64/archPageTable.c:761-775 | succeeds iff the missing tables can be allocated; then exactly the page is mapped and the roots agree over it; the entry names the frame and grants exactly the permission, and the processor finds it |
| PageOffline.CompleteExisting | arch/x86_64/archPageTable.c:633-662 | in bounds iff two slots are left; then exactly the own mappings of every waiting page and both roots lose write access, no other entry changes, and the pin is safe; no flag but 0x002 and no frame changes, and the processor's walk is as it was |
| PageOffline.AllUnwritable | arch/x86_64/archPageTable.c:643-659 | every table reachable from the user half waited in ptNoWrite, so none is mapped writable at the pin |
| PageAllocTree.MaskOffsets | include/nano/x86_64/archPageTable.h:69-71 | the offsets of a masked address are the lower offsets of the address |
| PageAllocTree.ExtendStep | arch/x86_64/archPageTable.c:392-411 | one table allocated in range is new, the only new one, and its node had none |
| PageAllocTree.AllocEntry | arch/x86_64/archPageTable.c:417-493 | one entry of an upper table has all tables of its part of the range; on failure what was allocated is accounted for, pages have run out and the range still lacks a table |
| PageAllocTree.AllocTree | arch/x86_64/archPageTable.c:499-545 | succeeds iff the range ends in user space and there are pages for all tables it lacks; every page of it then has a leaf slot. Failing or not, the pages allocated are the first of the pool, each hangs where a table was missing, no leaf changes and the user root is untouched; new entries have flags 0x067 |
| PageAllocTree.EndOfUserspaceIsKernel | arch/x86_64/archPageTable.c:501-512 | a range that ends at USERSPACE_END leaves the first kernel entry in use |
| PageCopy.CopyPage | arch/x86_64/archPageTable.c:1199-1222 | one page is inserted in the other table and its frame counted once more |
| PageCopy.UserspaceCopy | arch/x86_64/archPageTable.c:1118-1225 | succeeds iff every frame mapped in range can be shared and there are pages for all tables the target lacks; then exactly the pages mapped in range are mapped at the offset to the same frames with the new flags, each counted; the source and every other address space are unchanged, entry by entry, and all tables keep their places. A range shorter than a page counts as empty; each page copied has its source's frame and grants exactly the permission; new upper entries have flags 0x067 |
| PageCopy.CopyIsWholeIff | arch/x86_64/archPageTable.c:1125-1128 | so with the pages copied |
| PageCopy.CountsMatchEntries | include/nano/physicalInfo.h:113-117 | the count of each frame rises as the number of pages that name it over both tables |
| PageFree.SlotsBelowOk | arch/x86_64/archPageTable.c:791-845 | the upper entries met by the nested loops belong to distinct nodes of the user half |
| PageFree.PagesAreTables | arch/x86_64/archPageTable.c:835-843 | the table pages freed are exactly those reachable from the user half, each once |
| PageFree.FramesAreUserFrames | arch/x86_64/archPageTable.c:821-833 | the frames released are those user pages are mapped to, once for each page, in page order |
| PageFree.PtpFree | arch/x86_64/archPageTable.c:340-356 | a child's entry is cleared and its own mapping made writable, found rightly whatever has been flushed |
| PageFree.FreeLevel | arch/x86_64/archPageTable.c:791-845 | a loop level frees the frames and tables below its entries in order |
| PageFree.Free | arch/x86_64/archPageTable.c:364-385 | releases those frames and pages in order and leaves the stated memory, which is a tree, with the pool as it was, the other tables' entries untouched and each table ready that was; at every moment a table page is writable only after the kernel root's tree no longer has an entry for it, and no other upper entry has changed |
| PageFree.FreedMeaning | arch/x86_64/archPageTable.c:364-385 | afterwards the kernel root maps no user page and the kernel may write to every freed page and both roots, whose mappings are otherwise as before |
| PageFree.UserRootUntouched | arch/x86_64/archPageTable.c:340-385 | at every moment of the teardown the user root's entries are those at its start |
| PageFree.FreedElsewhere | arch/x86_64/archPageTable.c:364-385 | the teardown of one page table leaves a tree, the free pages zero and the user pages of all other tables; kernel pages keep leaf slot and frame from every root and at most gain write access |
| PageDualRoots.AgreementLasts | arch/x86_64/archPageTable.c:602-611 | over any run an entry of the user root in use is and stays the kernel root's |
| PageDualRoots.AllocationKeepsRoots | arch/x86_64/archPageTable.c:499-545 | tree allocation is a step of such a run |
| PageDualRoots.CompletionKeepsRoots | arch/x86_64/archPageTable.c:633-662 | completion is a step of such a run too; every root keeps its leaf slots and user pages, and kernel pages at most lose write access |
| PageDualRoots.CompletedIsReady | arch/x86_64/archPageTable.c:633-662 | a completed table meets what insertion into a table in use requires |
| PageDualRoots.ChangeElsewhere | arch/x86_64/archPageTable.c:877-969 | insertion into one page table, and its teardown, are steps of every other and leave its user root alone |
| PageDualRoots.InsertAgreesIff | arch/x86_64/archPageTable.c:889-904 | insertion keeps that; the roots agree over the page iff they did or the entry was unused |
| PageDualRoots.AllocatedAheadIsMissed | arch/x86_64/archPageTable.c:902-937 | a page inserted below tables allocated ahead is not mapped from the user root |
| PageDualRoots.AgreedWalks | arch/x86_64/archPageTable.c:602-624 | where the roots agree both map a page alike |
| PageDualRoots.FreedTableNamedIff | arch/x86_64/archPageTable.c:783-846 | once a table right below the roots is writable the kernel root names it nowhere, and the user root names it iff its entry there was in use |
| PageDualRoots.FreedUserRoot | arch/x86_64/archPageTable.c:364-385 | after the teardown the user root's entries are as before and no user page is mapped from it |
| PageRuns.AllocatedAheadRun | arch/x86_64/archPageTable.c:499-662 | cloning, allocating the tables of a page ahead, completing and inserting the page succeed iff three table pages and five places in ptNoWrite are left, and the page is then mapped from the kernel root and not from the user root |
| PageRuns.OverflowRun | arch/x86_64/archPageTable.c:633-662 | cloning, allocating all tables of the first 4086 * 512 pages and completing stores the second root behind the end of ptNoWrite |
| PageRuns.StillNamedRun | arch/x86_64/archPageTable.c:364-385 | cloning, inserting a user page, completing and tearing down succeed iff three table pages and five places in ptNoWrite are left; then a table page is given back and writable, and the user root still names it |
| HandleTable.ContentsAreLiveSlots | src/handle.c:26-32 | the map is exactly what the slots hold, and no id is in two slots |
| HandleTable.SomeSlotEmpty | src/handle.c:159-171 | fewer ids than slots leave an empty slot |
| HandleTable.DoublingKeepsApart | src/handle.c:129-134 | ids in different slots are in different slots of the doubled table |
| HandleTable.DoubledContents | src/handle.c:115-140 | the doubled table holds the map less what slot 0 loses |
| HandleTable.DoublingKeepsMapIff | src/handle.c:129-134 | the map is kept iff no live id is a multiple of the new size or no later slot is empty |
| HandleTable.GrowthLosesHandle | src/handle.c:92-187 | a run of a valid table: handle 2048 is live and found before an allocation grows the table, and is neither after it |
| HandleTable.SkippingEmptyKeepsMap | src/handle.c:129-134 | with empty slots skipped the map is always kept |
| HandleTable.FreedNeverAgain | src/handle.c:7-8 | over any run an issued id that is not live never resolves again |
| HandleTable.IssuedInOrder | src/handle.c:174-177 | over any run ids are issued in strictly increasing order |
| HandleTable.ResolvesUntilFreed | src/handle.c:57-109 | over any run a handle resolves to its reference until it is freed or a growth loses it |
| HandleTable.HandleTable.constructor | src/handle.c:38-55 | the table starts at its least size as the empty map |
| HandleTable.Init | src/handle.c:38-55 | without memory for the table the status is NoMemory, otherwise the table is the empty map |
| HandleTable.HandleTable.GetReference | src/handle.c:60-87 | lookup agrees with the map, and the two errors tell zero or unissued ids from dead ones |
| HandleTable.HandleTable.Free | src/handle.c:92-109 | frees exactly a live id; id 0 with an empty slot 0 only drops the count, which alone can break the count |
| HandleTable.HandleTable.Grow | src/handle.c:114-140 | the size doubles and the map loses exactly the stated id |
| HandleTable.HandleTable.Allocate | src/handle.c:145-187 | terminates; the id is the first after the last issued whose slot is free, within one turn; the map gains it and loses what a growth loses |
| HandleTable.HandleTable.Probe | src/handle.c:170-183 | the probe loop ends within one turn of the table |
| HandleTable.HandleTable.ShortHandleToHandleId | src/handle.c:189-203 | the low 32 bits of a live id resolve to it; what is found is live and in the slot named |
| XenStore.WordOfBytes | xen/xenbus.c:57-66 | the header's words are recovered from their bytes |
| XenStore.FirstIsFrame | xen/xenbus.c:145-151 | the message read is the one whose frame lies at the front |
| XenStore.ParseIsAll | xen/xenbus.c:138-171 | messages' frames and the rest are the bytes, and the rest has no whole message |
| XenStore.ParseFrames | xen/xenbus.c:138-171 | the messages sent are the messages read, whatever incomplete bytes follow |
| XenStore.ParseChunks | xen/xenbus.c:138-171 | reading in two goes reads what one go reads |
| XenStore.FramesPrefix | xen/xenbus.c:57-66 | frames are uniquely decodable |
| XenbusRequest.CopyFromRing | xen/xenbus.c:113-126 | the copy is the window of the ring from the offset, at any wrap |
| XenbusRequest.CheckFailsIff | xen/xenbus.c:249 | the bug check fails iff the limit wraps and the end does not |
| XenbusRequest.RequestRing.CopyAll | xen/xenbus.c:221-248 | header and segments, empty ones included, are appended in order behind what the daemon has not read; the two offset checks hold |
| XenbusRequest.RequestRing.WaitForRoom | xen/xenbus.c:209-219 | the wait ends as soon as the message fits |
| XenbusRequest.RequestRing.WriteRing | xen/xenbus.c:177-258 | a message that fits is appended whole to the request stream; otherwise nothing is, and the outcome says why, exactly |
| XenbusRequest.RunToWrap | xen/xenbus.c:249 | a run of 2^22 messages, all but the last taken by the daemon before the next, at whose end the bug check stops the kernel with the ring empty |
| Xenbus.OthersUntouched | xen/xenbus.c:151-169 | a record no reply is for is unchanged, by watch events too |
| Xenbus.LastReply | xen/xenbus.c:156-169 | a record holds the last reply for its handle, whole |
| Xenbus.DeliveredAppend | xen/xenbus.c:131-172 | delivering in two calls is delivering in one |
| Xenbus.HandledAreSent | xen/xenbus.c:131-172 | however the bytes were chunked, the messages handled are the first of those sent, and all once all bytes came |
| Xenbus.ReplyRing.Event | xen/xenbus.c:131-172 | takes whole messages in order and delivers each, asking memory once for each reply; stops the kernel exactly at a reply without live handle or at the first refusal of memory |
| Xenbus.ReplyRing.WaitForReply | xen/xenbus.c:278-285 | the wait ends with a reply that carries the handle |
| Xenbus.Bus.Register | xen/xenbus.c:272-275 | a fresh handle for a pending record, alone in naming it; fails iff the table has to grow and memory is refused |
| Xenbus.Bus.Request | xen/xenbus.c:272-277 | the handle, and a request with its low bits |
| Xenbus.Bus.MsgReply | xen/xenbus.c:264-291 | returns only with the reply to its request, for handles of 32 bits, leaving no handle behind; the check on the reply cannot fail |
| Grant.HypervisorKeeps | xen/xenGrant.c:67-98 | a hypervisor step keeps what is known of each entry and cannot touch one not granted or complete |
| Grant.HypervisorRun | xen/xenGrant.c:100-152 | so does any run of steps; foreign domains write only where writing was granted |
| Grant.StepShows | xen/xenGrant.c:106-119 | the flags of an access grant show exactly the mappings foreign domains hold; each step keeps that, and undoing a mapping restores the entry |
| Grant.RunShows | xen/xenGrant.c:106-119 | so does any run |
| Grant.PutKeeps | xen/xenGrant.c:44-49 | pushing keeps the chain acyclic and exact |
| Grant.GetKeeps | xen/xenGrant.c:55-61 | popping gives the head; from an empty list it gives 0 and changes nothing |
| Grant.FreeIsUnused | xen/xenGrant.c:100-152 | no run of the hypervisor touches or uses a reference on the free list |
| Grant.Partition | xen/xenGrant.c:35-61 | free and outstanding references are together all from 8 on, each once |
| Grant.FlagsAreBits | xen/xenGrant.c:70-78 | flags and their 16-bit word correspond, bit by bit |
| Grant.ReadOnlyIffOdd | xen/xenGrant.c:70-78 | no run gives a foreign domain write access iff the argument is odd |
| Grant.GrantTable.constructor | xen/xenGrant.c:256-260 | the loop builds the list of all references from 8 on, highest first |
| Grant.GrantTable.PutFree | xen/xenGrant.c:44-49 | the reference becomes the head of the list |
| Grant.GrantTable.GetFree | xen/xenGrant.c:55-61 | the head is taken, or 0 returned if there is none |
| Grant.GrantTable.GrantAccess | xen/xenGrant.c:67-81 | the head of the list is granted as asked, invisible until its flags are written; other entries change only by the hypervisor; the flags are the word 1 + 4 * readonly, in 16 bits |
| Grant.GrantTable.GrantTransfer | xen/xenGrant.c:86-98 | the same for a transfer |
| Grant.GrantTable.EndAccess | xen/xenGrant.c:103-120 | at one moment the entry is either in use, and nothing changes, or cleared and recycled in the same step; it is granted iff no foreign domain holds a mapping at that moment |
| Grant.GrantTable.EndTransfer | xen/xenGrant.c:125-152 | returns 0 for a transfer not committed to, else the frame delivered, read after completion; waits in between |
| Grant.AccessRun | xen/xenGrant.c:67-120 | a page is granted and access ended while the hypervisor leaves the reference alone: it ends at once and the free list is as before |
| Ring.SubWord | src/xencons_ring.c:82-84 | the difference of index words is the distance of their counters across wrap |
| Ring.SlotIs | src/console.c:48 | a counter and its slot differ by whole turns of the buffer |
| Ring.WordIs | src/xencons_ring.c:82-84 | a counter and its word differ by whole ranges of words |
| Ring.WordAt | src/console.c:48 | masking an index word gives the slot of its counter |
| Ring.WindowPut | src/xencons_ring.c:89-90 | an item written behind a window that is not full extends it and overwrites nothing in it |
| Ring.WindowBlit | src/console.c:124-125 | so does a chunk copied in one piece |
| Console.Console.BufferInit | src/console.c:189-202 | with memory, printing goes through an empty buffer from then on; without, nothing changes |
| Console.Console.PutBytes | src/xencons_ring.c:86-93 | bytes are appended while the backend takes others, and published after they are written |
| Console.Console.RingSend | src/xencons_ring.c:69-107 | everything is sent once there is room; what is sent goes to the end of the stream; it stops only at a full ring |
| Console.Console.RingFlush | src/xencons_ring.c:177-194 | ends only when the backend has everything in the ring |
| Console.Console.DoAll | src/console.c:75-101 | moves bytes from buffer to ring without changing the stream, and makes progress unless the ring is full |
| Console.Console.CopyIn | src/console.c:119-128 | one pass appends a part of the data to the stream |
| Console.Console.BufferSend | src/console.c:103-132 | everything goes to the end of the stream; it stops only with ring and buffer full |
| Console.Console.Flush | src/console.c:134-145 | ends only when the backend has received everything printed |
| Console.Console.PrintDestination | src/console.c:147-159 | the same by either way |
| Console.Console.Print | src/console.c:161-186 | the stream gains the text with each newline preceded by a carriage return, or a prefix of it if the call still waits |
| Console.StripCrlf | src/console.c:164-180 | the text is recovered from what is printed |
| Console.CrlfAppend | src/console.c:167-185 | printing in pieces prints what one call prints |
| LinkedList.Rotate | include/nano/list.h:16-18 | a circle may be read from any of its nodes |
| LinkedList.CircleElsewhere | include/nano/list.h:37-45 | changes at other nodes keep a list |
| LinkedList.Nodes.AddBetween | include/nano/list.h:37-45 | the node is linked between the two and only they change |
| LinkedList.Nodes.Add | include/nano/list.h:55-58 | the node becomes the first item |
| LinkedList.Nodes.AddTail | include/nano/list.h:68-71 | the node becomes the last item |
| LinkedList.Nodes.Del | include/nano/list.h:80-95 | exactly the entry leaves the list |
| LinkedList.Nodes.Splice | include/nano/list.h:121-135 | one list's items go in order before the other's |
| LinkedList.Nodes.MoveTail | include/nano/list.h:194-199 | the entry leaves its list and ends another |
| LinkedList.Nodes.IsEmpty | include/nano/list.h:111-114 | true iff there are no items |
| Heap.TiledApart | hw2/my_malloc.c:9-13 | blocks do not overlap and lie within the heap |
| Heap.TiledCovers | hw2/my_malloc.c:9-13 | every byte is in a block |
| Heap.TiledTotal | hw2/my_malloc.c:17-23 | the sizes add up to the heap less one header however it is divided |
| Heap.SplitTiled | hw2/my_malloc.c:34-39 | splitting keeps the tiling and makes a start that was none |
| Heap.TakenOk | hw2/my_malloc.c:32-43 | taking a block keeps tiling, free list and marks in agreement |
| Heap.Heap.constructor | hw2/my_malloc.c:17-23 | the heap starts as one free block |
| Heap.Heap.Malloc | hw2/my_malloc.c:25-47 | first fit in list order among free blocks of the size asked for and 32 bytes more; null iff there is none; without overflow the block is split off as stated with room for the request and block starts are never lost; with overflow the block is too small |
| Heap.Heap.Free | hw2/my_malloc.c:49-63 | the block becomes the first free one; with SAFE it is refused iff it is free |
| SeqLock.WriterRun | arch/x86_64/time.c:132-143 | over any run of the writer versions grow, snapshots are only added, and an even version that stays means fields that stay |
| SeqLock.ParityFirst | arch/x86_64/time.c:143 | with parity read first the loop ends iff no update was under way since the version was copied |
| SeqLock.EqualityFirst | arch/x86_64/time.c:143 | with equality read first it also ends after an update that was under way throughout |
| SeqLock.TornSnapshot | arch/x86_64/time.c:143 | a run in which that leaves fields of two snapshots |
| SeqLock.SeqLock.Attempt | arch/x86_64/time.c:133-143 | it succeeds iff no update was or came under way since the version was copied, and then leaves a published snapshot, whole and current |
| SeqLock.SeqLock.Update | arch/x86_64/time.c:127-166 | so does the loop, for the time and for the wall clock |
| Clock.ScaledIs | arch/x86_64/time.c:81-110 | a shift to the right divides by a power of two and drops the rest, a shift to the left multiplies; the scaled value is the product less the rest below 2^32 |
| Arith.Pow2Doubles | arch/x86_64/time.c:85-88 | the powers of two are the doubles of 1 |
| Clock.ScaleExact | arch/x86_64/time.c:81-110 | the product never overflows; the scaled value is exact unless the left shift loses bits |
| Clock.ScaleLosesHighBits | arch/x86_64/time.c:81-110 | when a left shift loses bits they are those from 2^64 on, and the product has room |
| Clock.ScaledMonotone | arch/x86_64/time.c:81-110 | scaling keeps the order of deltas |
| Clock.TimeIsExtrapolated | arch/x86_64/time.c:117-122 | without overflow the 64-bit result is the snapshot's time carried on |
| Clock.TimeWraps | arch/x86_64/time.c:117-122 | in any case the result is the signed 64-bit number the sum wraps to |
| Clock.ReadingsKept | arch/x86_64/time.c:196-211 | readings stay between the stamps of their snapshot and the next while the hypervisor goes on |
| Clock.LaterSnapshots | arch/x86_64/time.c:196-211 | later snapshots start beyond all that was read off earlier ones |
| Clock.TimeNeverDecreases | arch/x86_64/time.c:196-211 | of two results the later is not smaller, for snapshots that continue one another, without overflow |
| Clock.Clock.TimeUpdate | arch/x86_64/time.c:173-187 | ends with the copies of the time's and of the wall clock's current snapshots, each renewed iff its version changed |
| Clock.Clock.Monotonic | arch/x86_64/time.c:196-211 | the result is from one whole snapshot that was current when compared after the counter was read; readings are in order over all calls, and the snapshot's time carried on to the counter unless something overflows |

## Left out

- Entry bits 52 to 63: not used by the page table code; the model's words have them zero.
- TLB invalidation, accessed and dirty bits that the processor sets, failures of hypercalls, and machine-level code: not part of this model.
- The four nested loops of `archPageTableNext`, `_rangeSet`, `archPageTableUserspaceCopy` and `_offlineFree` are one method each that recurses on the level, with the same order of visits and the same mutable offsets.
- Mmu.Mmu.PtpAlloc: its source is not part of this model; what it promises is assumed, namely distinct zero pages that the kernel maps writable.
- PageOffline.UserInsert: for pages of user space, as the name says; the code does not check.
- PageFree.Free: the assertion that no user page is a foreign frame is not modelled; it would only stop the kernel.
- PageFree.FreedElsewhere: pages given back keep their place and are not handed out again, since the user root may still name them.
- PageCopy.UserspaceCopy: for destinations in user space and a page-aligned offset; the assertions on frames are the result, and what the target has when the call fails is not stated.
- `archPageTablePageUpdate`: marked unused; it reads entries that are still queued.
- `archPageTablePropagateKernelEntry`, `archPageTableRemove`, `archPageTableReplace` and the walks that only print: they would only add easy members.
- HandleTable.HandleTable.Allocate: ids do not wrap in 64 bits, which is the source's own assumption, and the table stays below 2^31 slots before a growth, since the loop counter is an int.
- XenbusRequest.RequestRing.WriteRing: the lengths of the segments add up to less than 2^31, as the int that holds their sum needs.
- Xenbus.Bus.MsgReply: one request at a time, and events are handled while it waits.
- XenStore's higher-level operations, watches by token and error strings: they format strings around the transport.
- Grant.GrantTable.EndAccess: for references of access grants; ending access on a transfer is outside its contract, as is the other way round for EndTransfer.
- Mapping of foreign grants: hypercalls only.
- Event channel notifications and the console's input: not modelled. Sending is not re-entered, as nothing in the code excludes it.
- Console.Console.RingSend: its assertion that a message fits the ring is a precondition, and so without a buffer printing needs lines that fit.
- Heap.Heap.Malloc: the state after a size that overflows is not stated, since headers would overlap and memory is modelled by header.
- Heap.Heap.Free: without SAFE a double free is outside the contract, and pointers must come from my_malloc.
- `list_del_init`, `list_pop` and the iteration macros: compositions of what is modelled.
- SeqLock.SeqLock.Update: the hypervisor takes fewer than 2^30 steps during one call, so that a 32-bit version does not come round within it.
- Clock.TimeNeverDecreases: the counter does not wrap and results stay below 2^63. Two things are the hypervisor's promise: snapshots continue one another, and the stamp of a snapshot is the counter at the moment the version turns odd for it, so that no reading of the snapshot before is later than that stamp (SeqLock's writer steps say so).
- `timeOfDay` adds the wall clock to the monotonic time; timers and `xenEventHandler.c` are not modelled.
