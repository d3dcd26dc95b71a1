# SparkOS kernel cores: a verified model

This project models the parts of the SparkOS kernel whose correctness does not
depend on hardware and proves what they are for. The main results, hardest
first:

- **Address spaces.** `Lifecycle.RunProcesses`: however processes interleave,
  whatever regions and surfaces they map and remove, and wherever a request
  fails, after the last exit every physical frame is back where it was. It rests
  on the frame pool (`FramePool`), on page-table trees described by the set of
  pages they map and the frames they own (`AddressSpace`), and on the kernel's
  mapping, rollback, pruning and teardown routines over real table entries
  (`Memory`). `Lifecycle.Isolated`: on the way no process reaches a frame of
  another one or a page table. `UserMemory`, `Elf`, `ElfFormat` and `Loader` go
  on from there: a program that was written to a file is in memory byte for byte,
  with exactly the access that its headers ask for (`Loader.SpawnProgram`).
- **Capabilities.** `CapRuns`, `CapLaws` and `CapChecks` prove, over every run of
  operations, what revocation kills, that authority traces back to one creation,
  that handles never come back, what a timer pass over expired loans does when
  other operations run between its two phases, and from its birth to its end
  exactly which checks a handle passes. `CapSpace` is the kernel's mutable
  form, each method equal to the step of the specification.
- **SPFS storage.** `Spfs`, `SpfsRewrite`, `SpfsEngine` and `SpfsVolume` for
  block allocation, direct and indirect pointers, all-or-nothing writes and
  reclamation; `Journal` and `Wal` for crash recovery and the journal's sector;
  `FsImage`, `FsFormat` and `FsDisk` for the recursive tree image on zero-padded
  sectors and its format; `Vfs` and `VfsTree` for the tree as a map from paths.
- **IOMMU tables.** `Iommu` and `IommuUnit`: a four-level radix tree without
  sharing that translates mapped pages to themselves, open to reading and writing,
  and one device that sees it.
- **Smaller cores.** `Damage`, `Editor`, `Net` and `Histogram`.

Physical memory is a map from frames to table entries or bytes, a drive is a
sequence of sectors, and time, locks and other processors appear as the order of
atomic steps. The page mapper of the x86_64 crate is not part of this model; its
two operations are modelled as "make the missing tables and set an unused leaf"
and "clear a present leaf".

Where the code and its documentation differ the code is followed:

- The capability document orders the checks generation, epoch, rights and lists
  loan expiry as future work; the code checks rights before the epoch and has the
  expiry registry (`kernel/src/cap.rs:373-401`).
- The promise that a registered loan ends by its deadline fails when a
  registration comes after its own loan was closed and its slot lent and
  registered anew. `CapLaws.LateRegistrationLosesPromise` gives such a run,
  `CapLaws.PromisesKeptExactly` says exactly which step breaks the promise, and
  `CapLaws.PassKeepsPromises` exactly when a pass keeps it.
- The journal promises to roll back uncommitted work; it restores the allocator
  exactly if no block in use was freed since the commit
  (`Journal.CrashAndRecover`, `Journal.FreedSinceCommit`). Its sector is also the
  first sector of the file tree's image, and each destroys the other
  (`FsDisk.JournalOverwritesImage`, `FsDisk.ImageOverwritesJournal`).
- A write promises to leave no orphan blocks; it keeps that promise exactly if the
  file was empty and every sector has a pointer (`Spfs.WriteMeans`,
  `SpfsEngine.OutgrowPointers`, `SpfsRewrite.OverwriteLoses`), and
  `SpfsVolume.RunFaithful` and `RunRestores` carry this to whole runs.
- Removing a surface is said to be safe against a stale record; it compares the
  frames and not who owns the pages, and loses no frame exactly if the space owns
  none of them (`Memory.NothingShed`).

Two more things that the code does and a caller may not expect: the loader allows
execution by address and writability, not by the header's flag, so the first
instruction of a spawned program can be fetched exactly if its segment is not
writable or the entry lies in the first two pages of user space
(`Loader.EntrySeen`); and a derivation does not ask whether the object is alive,
so a handle derived from one to a dead object passes no check
(`CapChecks.IssuedPasses`).

## Model

| member | source | states |
|---|---|---|
| FramePool.FramePool.constructor | kernel/src/frame_pool.rs:13-17 | The remaining regions, the recycled list and the handed-out set partition the boot frames; nothing is handed out. |
| FramePool.FramePool.Allocate | kernel/src/frame_pool.rs:19-53 | Some: the frames are one contiguous extent of free frames and move from free to handed out. None exactly for a zero request or when neither the recycled list nor any region has such a run, and then nothing has changed. |
| FramePool.FramePool.TakeRecycled | kernel/src/frame_pool.rs:31-37 | A run of the recycled list becomes an extent of handed-out frames; the partition is kept. |
| FramePool.FramePool.TakeRegion | kernel/src/frame_pool.rs:41-51 | The front of a region becomes handed-out frames and no other frame moves. |
| FramePool.FramePool.Release | kernel/src/frame_pool.rs:55-60 | A handed-out frame becomes free, anything else is ignored; the insertion index always exists, so the `unwrap_err` cannot panic. |
| FramePool.FramePool.Stats | kernel/src/frame_pool.rs:62-64 | Handed-out bytes and free pages never exceed the boot total, and add up to it when every boot region is a whole number of pages. |
| FramePool.AllCount | kernel/src/frame_pool.rs:13-17 | Counting the pages of disjoint regions counts the region bytes, but for the parts smaller than a page. |
| FramePool.BinarySearch | kernel/src/frame_pool.rs:57 | Finds the address in the sorted list, or the one index where it can be inserted. |
| FramePool.FindRun | kernel/src/frame_pool.rs:25-38 | The first adjacent run of the wanted length in the sorted list is found if there is one. |
| FramePool.ExtentIsRun | kernel/src/frame_pool.rs:25-38 | A free extent inside the recycled list is a run of it, so a failed search means there is none. |
| FramePool.BumpOneRegion | kernel/src/frame_pool.rs:41-51 | Bumping a region takes exactly the extent out of the frames it could still hand out. |
| AddressSpace.WalkIsLeaf | kernel/src/memory.rs:617-629 | In a tree that represents an address space, the hardware walk of every user page, which ands user and write access over all four levels and lets any level forbid execution, gives exactly the recorded leaf with the rights of that leaf, or nothing. |
| AddressSpace.OwnedPagesAreDistinct | kernel/src/memory.rs:573-615 | Two owned pages never share a frame. |
| AddressSpace.AddL1Holds | kernel/src/memory.rs:604-605 | Linking an empty level-1 table keeps the tree, its owner map and every translation. |
| AddressSpace.AddLeafHolds | kernel/src/memory.rs:604-607 | Writing an unused leaf entry adds exactly that page. |
| AddressSpace.DropLeafHolds | kernel/src/memory.rs:674-678 | Clearing a leaf entry removes exactly that page. |
| AddressSpace.DropL1Holds | kernel/src/memory.rs:510-518 | Unlinking an empty level-1 table keeps every translation and gives up only its frame. |
| AddressSpace.DropL2Holds | kernel/src/memory.rs:520-523 | Unlinking the empty level-2 table keeps every translation and gives up only its frame. |
| AddressSpace.PrunedIsTight | kernel/src/memory.rs:501-525 | After pruning every table left holds a mapping. |
| AddressSpace.PrunedForgetsEmptyTables | kernel/src/memory.rs:501-525 | Two trees with the same mappings, one with more empty tables, prune to the same tree, frame by frame. |
| AddressSpace.RepresentsDependsOnOwn | kernel/src/memory.rs:417-444 | What a tree represents depends on its own frames only. |
| Memory.PageOfIsInjective | kernel/src/memory.rs:578 | Different user pages have different table indices. |
| Memory.GoodStep | kernel/src/memory.rs:395-444 | Changing one address space inside its own frames keeps every other one and the global owner map. |
| Memory.StepKeepsPage | kernel/src/memory.rs:448-525 | Work on one address space changes no byte of a page in use anywhere. |
| Memory.Seen | kernel/src/memory.rs:573-615 | So it does in every state of the machine, for every live address space. |
| Memory.PteOpens | kernel/src/memory.rs:588-600 | A page mapped for user code or data can be read by ring 3, written exactly if asked for as writable, and fetched from exactly if not or in the first two pages of user space. |
| Memory.Machine.UserAllocContiguous | kernel/src/memory.rs:121-133 | An extent of free frames is handed out and zeroed, or nothing has changed. |
| Memory.Machine.UserAllocFrame | kernel/src/memory.rs:116-118 | A zeroed free frame, or None exactly when no frame is free. |
| Memory.Machine.UserFreeFrame | kernel/src/memory.rs:135-139 | The frame goes back to the pool, whoever owns it; the machine stays intact exactly if no address space does. |
| Memory.Machine.TranslatePage | kernel/src/memory.rs:618-629 | The frame recorded for the page, or None. |
| Memory.Machine.MapTo | kernel/src/memory.rs:604-613 | Creates the missing tables and one leaf; AlreadyMapped exactly if the leaf is in use, and without a frame the leaves stay. The only level-1 table that can be new is the one over the page, and it is there unless a frame was missing. |
| Memory.Machine.Unmap | kernel/src/memory.rs:676-678 | Clears a mapped leaf and returns its frame; an unmapped page changes nothing. |
| Memory.Machine.MapUserPage | kernel/src/memory.rs:573-615 | Maps one fresh zeroed owned frame, or maps nothing and frees the frame. Through the hardware walk ring 3 can then read the page, write it exactly if it was asked for as writable, and fetch from it exactly if it was not or if it is one of the first two pages of user space. |
| Memory.Machine.MapFrame | kernel/src/memory.rs:601-615 | Maps the zeroed frame just taken, or leaves every leaf as it was and gives it back. |
| Memory.Machine.Prune | kernel/src/memory.rs:502-525 | The tree becomes its pruned form and exactly the frames of the empty tables are freed. |
| Memory.Machine.RollBack | kernel/src/memory.rs:674-682 | Unmaps and frees the pages mapped so far, whatever remains of the request. |
| Memory.PruningTakesNothing | kernel/src/memory.rs:501-525 | A tree with empty tables and its pruned form: the latter has no frame handed out that the former had not. |
| Memory.Machine.MapUserRegion | kernel/src/memory.rs:660-687 | All pages of the region are fresh owned pages, and ring 3 has exactly the access asked for at every byte of them; or the tree is the pruned form of what it was, no frame is handed out that was not before, and a page was in use or frames were too few. |
| Memory.Machine.MapSurfaceFrames | kernel/src/memory.rs:448-476 | All pages show the surface, none owned: ring 3 reaches each frame of it in order, can write and cannot execute it; or the tree is the pruned form of what it was, no frame is handed out that was not before, and a page was in use or frames were too few. |
| Memory.Machine.UnlaySurface | kernel/src/memory.rs:464-472 | Unmapping the pages laid so far and pruning restores the leaves and gives back the tables made on the way. |
| Memory.Machine.UnmapSurfaceFrames | kernel/src/memory.rs:480-499 | Succeeds exactly when every page shows the expected frame, and then removes exactly these pages, leaving the frames that the space owned through them handed out without an owner; otherwise nothing has changed. |
| Memory.NothingShed | kernel/src/memory.rs:480-499 | Removing a surface loses no frame exactly if the space owned none of its pages. |
| Memory.Machine.CloneActive | kernel/src/memory.rs:419-444 | A new address space with the kernel entries copied, the private half empty and two fresh frames; or nothing taken. |
| Memory.Machine.Destroy | kernel/src/memory.rs:530-568 | Every frame the address space owns is freed once, no other frame is, and the other spaces stay; refused for the active or kernel table. |
| UserMemory.WriteUserRegion | kernel/src/memory.rs:634-656 | Afterwards every mapped byte of the region is the given byte, or zero behind the given bytes; unmapped pages have been skipped, and no other byte of the address space or of any other page has changed. |
| UserMemory.ChunkWrote | kernel/src/memory.rs:639-655 | One page-sized chunk extends the part already written. |
| UserMemory.ChunkSkipped | kernel/src/memory.rs:644-651 | A chunk over an unmapped page is done without a write. |
| UserMemory.ReadsByte | kernel/src/memory.rs:634-656 | Where the hardware lets ring 3 read, it reads the byte of the mapped page. |
| Lifecycle.MapRegionOp | kernel/src/memory.rs:660-687 | A region request from any of the processes, also a failing one, keeps what a run keeps. |
| Lifecycle.RolledBackExactly | kernel/src/memory.rs:666-684 | In a space without empty tables a rolled-back mapping leaves the tree, the owners and the pool exactly as they were. |
| Lifecycle.CreateSurfaceOp | kernel/src/surface.rs:71-89 | Backing is allocated and mapped, or given back; the surface is registered only in the first case. |
| Lifecycle.DestroySurfaceOp | kernel/src/surface.rs:182-196 | A registered surface is unmapped from its owner and its backing freed once; all others stay. |
| Lifecycle.CreateOp | kernel/src/memory.rs:419-444 | A new process joins the run; it does not only when fewer than two frames are free. |
| Lifecycle.DestroySpaceOp | kernel/src/memory.rs:530-568 | The address space of a process without surfaces goes, and the others run on. |
| Lifecycle.ExitOp | kernel/src/surface.rs:222-231 | A process leaves: all its surfaces are removed one by one, then its address space, whatever the others hold. |
| Lifecycle.Serve | kernel/src/surface.rs:71-89 | Every request keeps what a run keeps: all live surfaces are mapped in their owners on extents that nobody shares, and the frames taken since the start are those of the live spaces and surfaces. |
| Lifecycle.SurfaceStaysOpen | kernel/src/surface.rs:71-89 | In every state of a run each live surface can be read and written, and not executed, by its owner, on its own extent. |
| Lifecycle.ReachesOwn | kernel/src/memory.rs:413-444 | In every state of a run, whatever ring 3 of a process reaches is a page that it owns or backs one of its surfaces. |
| Lifecycle.Isolated | kernel/src/memory.rs:413-444 | In every state of a run two processes never reach a common frame, and none reaches a page table or a free frame. |
| Lifecycle.EverythingBack | kernel/src/memory.rs:407-411 | When no process of the run is left, handed-out and free frames, the other spaces and all contents in use are those of the start. |
| Lifecycle.RunProcesses | kernel/src/task/process.rs:1798-1823 | For every interleaving of creations, region, surface and removal requests and exits of any number of processes, each request failing anywhere: after the last one has left, the handed-out and free frames, the other address spaces and all contents in use are those of the start. |
| Elf.ParseElf | kernel/src/elf.rs:81-225 | Ok exactly for an acceptable file, and then every segment carries its header's fields and its file bytes followed by zeros; each error is returned exactly if it names the first check that fails. |
| Elf.CheckHeader | kernel/src/elf.rs:82-131 | None exactly for a good header; each of its errors is returned exactly if that check is the first to fail. |
| Elf.CollectLoads | kernel/src/elf.rs:139-182 | The loadable headers in file order exactly when all are in range and the page footprint is within 16 MiB; each error exactly if the first header at fault has that fault first. |
| Elf.CheckOverlaps | kernel/src/elf.rs:188-200 | Accepts exactly when no two segments share a page. |
| Elf.OneFault | kernel/src/elf.rs:81-225 | No file has two first faults, and an acceptable one has none. |
| Elf.LoadsInRange | kernel/src/elf.rs:143-166 | Every collected header lies in the file and in the user image range. |
| ElfFormat.HeadReadsBack | kernel/src/elf.rs:6-20 | The fixed header, written as its fields in file order, is read back. |
| ElfFormat.RowReadsBack | kernel/src/elf.rs:22-31 | A program header, written as type, flags, offset, address, physical address, file size, memory size and alignment, is read back wherever it stands. |
| ElfFormat.AcceptableIsGood | kernel/src/elf.rs:81-225 | A written file is acceptable exactly if it has at most 128 headers, every loadable one lies in the file and in the user image range, no two share a page, all together take at most 4096 pages, and the entry lies in an executable one. |
| ElfFormat.ParseWritten | kernel/src/elf.rs:81-225 | For any file with these headers at the places the fixed header names, the parser gives back the entry point and each segment with its bytes of the file, exactly if the program is good. |
| ElfFormat.WriteThenParse | kernel/src/elf.rs:81-225 | Writing a program, header, rows and payloads one behind the other, and parsing it gives the program back: entry, flags, places and payloads. |
| ElfFormat.ApartIsDisjoint | kernel/src/elf.rs:188-200 | Two segments are apart exactly if no byte of one lies on a page of the other. |
| Loader.FootprintMatches | kernel/src/elf.rs:167-171 | The parser's page arithmetic gives the number of pages the loader maps. |
| Loader.ApartPages | kernel/src/elf.rs:188-200 | Headers whose rounded ranges are disjoint occupy disjoint pages. |
| Loader.ImageFits | kernel/src/elf.rs:170-171 | A whole accepted image needs at most 4096 pages. |
| Loader.NextRegionFree | kernel/src/app_registry.rs:122-127 | The pages of the next segment are unmapped when the loader reaches it. |
| Loader.LoadSegment | kernel/src/app_registry.rs:122-127 | After a segment has been loaded, all segments so far read as in the file; it fails only for want of frames. |
| Loader.LoadSegments | kernel/src/app_registry.rs:122-127 | Either all segments read as in the file, or frames ran out and what was mapped still belongs to the new space only. |
| Loader.MapStack | kernel/src/app_registry.rs:129-130 | The stack page never meets a segment and leaves them all in place. |
| Loader.Abandon | kernel/src/memory.rs:407-411 | Dropping a half-loaded space gives everything back. |
| Loader.Spawn | kernel/src/app_registry.rs:111-140 | Ok only for an acceptable file, and then ring 3 reads every byte of every segment where the file says, writes exactly the writable segments, and has a zeroed writable stack page; a failure gives everything back, and an acceptable file fails only with fewer than 2 * 4096 + 5 free frames. |
| Loader.EntrySeen | kernel/src/app_registry.rs:132-140 | After a spawn the entry point lies in a loaded executable segment; the processor can fetch there exactly if the segment is not writable or the entry lies in the first two pages of user space. |
| Loader.SpawnProgram | kernel/src/app_registry.rs:111-140 | From writer to process: a good program that was written and spawned is in memory, payload by payload, open to ring 3 as its flags ask. |
| Cap.MeetIsRequest | kernel/src/cap.rs:217-219 | Rights that contain the request are cut down to exactly the request. |
| Cap.RevokeIsExact | kernel/src/cap.rs:108-122 | After a node's epoch grows, a node is dead exactly if it was dead or descends from it. |
| CapRuns.AllOrNothing | kernel/src/cap.rs:152-360 | A creation or derivation takes effect as a whole or changes nothing: the slot that is looked for after the node has been appended is always found. |
| CapRuns.DeriveAllowed | kernel/src/cap.rs:191-230 | A derivation succeeds exactly when the handle is valid, holds the rights, is no loan, is not revoked and a node is free. |
| CapRuns.StepKeepsInv | kernel/src/cap.rs:152-360 | Every operation keeps the invariant: linked tables, births of the nodes, the loan registry, counted accesses. |
| CapRuns.LineagesKept | kernel/src/cap.rs:191-360 | Every node is born from a node of the same object with at least its rights, never from a loan. |
| CapRuns.AccessesKept | kernel/src/cap.rs:619-677 | The reference count of every object is the number of accesses held on it, and an object with one is valid. |
| CapRuns.CoreAdvances | kernel/src/cap.rs:418-453 | Generations never go back, a slot in use keeps its capability until its generation moves, nodes keep their parent and stay revoked. |
| CapChecks.CheckIsExact | kernel/src/cap.rs:477-501 | A check passes exactly if the handle names a slot in use with its generation, the slot has every bit asked for, no node on its lineage has been revoked, and its object is alive; each error is returned exactly if it names the first of these that fails. |
| CapChecks.TargetCheckIsExact | kernel/src/cap.rs:506-534 | The check against a target is that check once both handles are in use and stand for one object. |
| CapChecks.DerefIsExact | kernel/src/cap.rs:619-651 | An access is given exactly if the check passes, on the object that the handle stands for; only that object's count changes, by one. |
| CapChecks.DeriveErrorIsExact | kernel/src/cap.rs:191-230 | Each error of a derivation is returned exactly if it names the first check that fails. |
| CapChecks.CreateIsExact | kernel/src/cap.rs:152-189 | Creation fails exactly with 1024 objects or 2048 nodes. |
| CapChecks.ContainsIsBits | kernel/src/cap.rs:217-219 | Rights contain others exactly if they have every bit of them. |
| CapChecks.InUseExactly | kernel/src/cap.rs:152-453 | After a step exactly those handles are in use that were and have not been closed or transferred away, and the one that was issued: nobody can make up a handle. |
| CapChecks.IssuedPasses | kernel/src/cap.rs:152-360 | A handle just issued passes a check exactly for the rights it was born with; derivations do not ask whether the object is alive, and then it passes none. |
| CapChecks.StepDecides | kernel/src/cap.rs:477-501 | A handle that passes a check passes it after a step exactly if the step does not take it away, revoke something on its lineage, or drop the last access to its object. |
| CapChecks.RunDecides | kernel/src/cap.rs:477-501 | So over every run: it passes at the end exactly if no step did. |
| CapChecks.IssuedPassesUntilEnded | kernel/src/cap.rs:152-453 | From its birth on, through every run, a handle passes exactly the checks for the rights it was born with, until it is closed or transferred away, something on its lineage is revoked or expires, or the last access to its object is dropped. |
| CapLaws.ClosedNeverReturns | kernel/src/cap.rs:418-433 | A closed handle is invalid in every continuation, whatever reuses its slot. |
| CapLaws.TransferredNeverReturns | kernel/src/cap.rs:248-305 | So is the source of a transfer. |
| CapLaws.SameCapability | kernel/src/cap.rs:87-106 | As long as a handle is valid it stands for the same node, object and rights. |
| CapLaws.HandlesAreFresh | kernel/src/cap.rs:87-106 | No handle is handed out twice in a run. |
| CapLaws.LiveHandlesNameDistinctNodes | kernel/src/cap.rs:174-189 | Two different valid handles name different nodes. |
| CapLaws.DeadForever | kernel/src/cap.rs:437-453 | A dead node stays dead in every continuation. |
| CapLaws.StepKillsExactly | kernel/src/cap.rs:437-453 | A step kills exactly the node it revokes and what descends from it. |
| CapLaws.RevokeIsExactForHandles | kernel/src/cap.rs:437-453 | After revoke(h) a check of g passes exactly if it passed before and g does not descend from h. |
| CapLaws.Authority | kernel/src/cap.rs:477-501 | A handle that passes a check traces back to the one creation of its object, through derivations that all hold the needed rights, with no revoked node on its lineage. |
| CapLaws.SameCreation | kernel/src/cap.rs:506-534 | A check against a target passes only between capabilities of one creation. |
| CapLaws.LoanHasNoChildren | kernel/src/cap.rs:307-360 | Nothing ever descends from a loan. |
| CapLaws.PromisesKeptExactly | kernel/src/cap.rs:373-377 | A step keeps every registered deadline in reach of a pass exactly if it is not a registration whose loan is already closed and whose slot holds a live registered loan. |
| CapLaws.LateRegistrationLosesPromise | kernel/src/cap.rs:373-401 | A reachable state in which such a late registration lets a due loan survive a whole pass. |
| CapLaws.PassIsExact | kernel/src/cap.rs:380-401 | In any state, lost promises included: after a drained pass a due handle passes a check exactly if it passed one before, its entry is no longer registered, and no earlier pass had collected it. |
| CapLaws.PassKeepsPromises | kernel/src/cap.rs:380-401 | A drained pass keeps every due promise exactly if each due handle is registered, was already collected, or passed no check before. |
| CapLaws.PassSparesUndue | kernel/src/cap.rs:380-401 | A drained pass changes no check of a handle with a later deadline or none. |
| CapLaws.ExpiryPass | kernel/src/cap.rs:380-401 | In every run from boot without a late registration: once a pass for tick t has revoked what it collected, no handle registered before it with a deadline of at most t passes a check, whatever ran before, in between and after. |
| CapLaws.ExpirySpares | kernel/src/cap.rs:394-399 | Revoking a collected handle changes the check of no other handle, even when slots were reused. |
| CapLaws.TransferOutlivesGrantors | kernel/src/cap.rs:279-305 | A transferred capability survives every revocation but that of its own handle. |
| CapLaws.ObjectDiesByLastDrop | kernel/src/cap.rs:663-677 | An object dies exactly when the last access held on it is dropped. |
| CapLaws.DeadObjectForever | kernel/src/cap.rs:642-644 | No handle to a dead object is ever accepted again. |
| CapLaws.FailuresChangeNothing | kernel/src/cap.rs:152-453 | An operation that reports an error leaves the tables as they were. |
| CapSpace.DestroyIsExact | kernel/src/cap.rs:459-462 | destroy_owned ends the handle and its whole lineage and nothing else. |
| CapSpace.RevokeAllIsExact | kernel/src/cap.rs:394-400 | Revoking what was collected kills exactly what descends from a handle of it that is still valid. |
| CapSpace.Space.IsRevoked | kernel/src/cap.rs:108-122 | The cursor loop ends and decides whether any node up to the root has been revoked. |
| CapSpace.Space.CreateObject | kernel/src/cap.rs:152-189 | Takes the creation step of the specification. |
| CapSpace.Space.Derive | kernel/src/cap.rs:191-360 | Takes the derivation step of the specification: grant, lend or transfer. |
| CapSpace.Space.AllocateSlot | kernel/src/cap.rs:87-106 | The first free slot, else a new one, else an error with the slots as they were. |
| CapSpace.Space.Grant | kernel/src/cap.rs:191-246 | The derivation step that leaves the parent in place. |
| CapSpace.Space.Transfer | kernel/src/cap.rs:248-305 | The derivation step that starts a new root and retires the source. |
| CapSpace.Space.Lend | kernel/src/cap.rs:307-360 | The derivation step that makes a loan. |
| CapSpace.Space.Register | kernel/src/cap.rs:373-377 | Sets the deadline of the slot, whatever was registered for it before. |
| CapSpace.Space.Close | kernel/src/cap.rs:418-433 | Takes the close step. |
| CapSpace.Space.Revoke | kernel/src/cap.rs:437-453 | Takes the revoke step. |
| CapSpace.Space.DestroyOwned | kernel/src/cap.rs:459-462 | Revokes, then closes, and reports the second result. |
| CapSpace.Space.CheckRights | kernel/src/cap.rs:477-501 | Decides the check of the specification, with its error. |
| CapSpace.Space.CheckRightsForObject | kernel/src/cap.rs:506-534 | Decides the check against a target. |
| CapSpace.Space.Deref | kernel/src/cap.rs:619-651 | Checks and counts the reference in one step. |
| CapSpace.Space.DropAccess | kernel/src/cap.rs:663-677 | Drops a reference; the last one frees the object. |
| CapSpace.Space.CollectDue | kernel/src/cap.rs:381-393 | Takes exactly the due entries out of the registry and returns their handles, one per slot. |
| CapSpace.Space.RevokeDue | kernel/src/cap.rs:394-400 | Revokes every collected handle that is still valid and counts those. |
| Blocks.BlockAllocator.constructor | kernel/src/fs.rs:116-127 | Only block 0 is used and the free count is exact. |
| Blocks.BlockAllocator.AllocateBlock | kernel/src/fs.rs:130-142 | The lowest free block becomes used; None exactly when no block is free, with nothing changed. |
| Blocks.BlockAllocator.FreeBlock | kernel/src/fs.rs:145-151 | The block is free afterwards, the count stays exact, and free or unknown blocks are ignored. |
| Spfs.SetEntryOk | kernel/src/fs.rs:221-225 | Writing one pointer of a table changes that pointer and no other. |
| Spfs.EntryDigits | kernel/src/fs.rs:221-225 | A table is an array of 32-bit integers, lowest byte first. |
| Spfs.BlocksAreEnough | kernel/src/fs.rs:177 | The data takes as few sectors of 512 bytes as hold it. |
| Spfs.ChunkBytes | kernel/src/fs.rs:203-206 | A sector holds its 512 bytes of the data, and zeros behind the end. |
| Spfs.ReadsBack | kernel/src/fs.rs:196-230 | The data is what is read through the pointers exactly if there was a pointer for each sector. |
| Spfs.FilledOwned | kernel/src/fs.rs:196-230 | After a write every new sector has one pointer of the file or is lost to it, and the others are as before. |
| Spfs.WriteMeans | kernel/src/fs.rs:170-235 | For an empty inode: pointers all different and to new sectors, old sectors unchanged, and the data is readable, and no sector lost, exactly if it needs at most 6 blocks, or at most 134 with one more free for the table. |
| Spfs.WriteThenTruncate | kernel/src/fs.rs:170-291 | Writing and truncating restores bitmap and sectors exactly under the same condition and only then. |
| Spfs.WroteInSync | kernel/src/fs.rs:170-235 | Also over a file in use, sectors stay stored for exactly the used blocks. |
| Spfs.TruncatesOwned | kernel/src/fs.rs:238-291 | Truncating a file releases exactly the blocks it owns. |
| Spfs.OthersUntouched | kernel/src/fs.rs:170-291 | A file reads the same whatever happens to blocks it does not own. |
| SpfsEngine.Engine.Stage | kernel/src/fs.rs:182-194 | All data blocks are taken, or every one taken is given back and bitmap and count are as before. |
| SpfsEngine.Engine.RollBack | kernel/src/fs.rs:186-191 | Freeing the staged blocks restores the bitmap exactly. |
| SpfsEngine.Engine.PlaceBlock | kernel/src/fs.rs:203-226 | Stores one sector and its pointer, making the table when the first indirect block needs it. |
| SpfsEngine.Engine.StoreAll | kernel/src/fs.rs:196-230 | All chunks are placed in order, the last one padded with zeros. |
| SpfsEngine.Engine.ReclaimDirect | kernel/src/fs.rs:239-246 | Exactly the blocks of the direct pointers are freed and the pointers cleared. |
| SpfsEngine.Engine.WriteFile | kernel/src/fs.rs:170-235 | NoSpace exactly when the data sectors exceed the free blocks, with engine and inode unchanged; otherwise the write of the specification, with size modulo 2^32 and the block count. |
| SpfsEngine.Engine.ReclaimTable | kernel/src/fs.rs:249-262 | Frees a table block and every block it points to. |
| SpfsEngine.Engine.ReclaimTables | kernel/src/fs.rs:265-283 | Frees every table of a double table and the blocks of each. |
| SpfsEngine.Engine.ReclaimDouble | kernel/src/fs.rs:265-287 | Frees a double table, its tables and their blocks, table by table. |
| SpfsEngine.Engine.Truncate | kernel/src/fs.rs:238-291 | The truncation of the specification; the inode is empty afterwards. |
| SpfsEngine.OutgrowPointers | kernel/src/fs.rs:196-230 | 135 sectors on a large disk: the write succeeds, the data does not read back, and a stored sector has no pointer. |
| SpfsRewrite.PlaceTakesNew | kernel/src/fs.rs:203-226 | After placing one sector the file owns what it owned before and new blocks only, each through one pointer, and the sectors of others are as they were. |
| SpfsRewrite.WriteTakesNew | kernel/src/fs.rs:170-235 | Also over a file in use, a write keeps one pointer a sector, takes only blocks that were free, and leaves every other sector alone. |
| SpfsRewrite.OverwriteLoses | kernel/src/fs.rs:196-208 | Writing over a file that has a first sector leaves that sector stored and without a pointer. |
| SpfsVolume.RunKeeps | kernel/src/fs.rs:159-292 | In every state of every run of writes, overwrites and truncations no sector has two owners and every file has its first pointer or none; if every write went to an empty file and had its pointers, every sector has one owner and every file reads as what was last written. |
| SpfsVolume.RunFaithful | kernel/src/fs.rs:159-292 | A run ends with every sector owned and every file readable exactly if each write that found room went to an empty file and had a pointer for each sector. |
| SpfsVolume.RunRestores | kernel/src/fs.rs:238-291 | When a run ends with all files truncated, the disk is the one it began with exactly if every write was such a write. |
| SpfsVolume.StrandedForever | kernel/src/fs.rs:170-291 | A sector that no file leads to is never found again. |
| SpfsVolume.FreshVolume | kernel/src/fs.rs:159-165 | A fresh engine with empty inodes satisfies what runs keep. |
| SpfsVolume.Serve | kernel/src/fs.rs:159-292 | One call of the engine over a table of inodes is one step of such a run. |
| SpfsVolume.ServeAll | kernel/src/fs.rs:159-292 | The engine serving any list of requests goes through such a run, and ends with every sector owned and every file readable exactly if the run was careful. |
| Journal.SpfsJournal.Log | kernel/src/fs.rs:332-368 | Appends a record under the next sequence number. |
| Journal.SpfsJournal.CommitUpTo | kernel/src/fs.rs:371-381 | Moves the committed sequence forward, never back. |
| Journal.SpfsJournal.Recover | kernel/src/fs.rs:385-405 | Frees exactly the blocks of uncommitted allocation records, keeps the committed records, and counts the former. |
| Journal.RecoverTwice | kernel/src/fs.rs:385-405 | A second recovery finds nothing to do. |
| Journal.CrashAndRecover | kernel/src/fs.rs:331-405 | After any logged allocations and frees since a commit, recovery restores the journal; it restores bitmap and free count exactly if no block used at the commit was freed since. |
| Journal.FreedSinceCommit | kernel/src/fs.rs:385-405 | A block used at the commit and freed since stays free after recovery. |
| Wal.RecordRoundTrip | kernel/src/fs.rs:415-466 | A record written at an offset is read back from it. |
| Wal.FlushToDisk | kernel/src/fs.rs:408-428 | Byte by byte: magic, committed sequence and count, lowest byte first; the first 20 records in 17 bytes each from byte 16 on, operation code, inode, block and sequence; zeros behind them. |
| Wal.RecoverFromDisk | kernel/src/fs.rs:431-469 | Refuses a sector without the magic, unchanged; otherwise loads its fields and at most 20 records, each what its 17 bytes say, unknown codes as commits. |
| Wal.FlushThenRecover | kernel/src/fs.rs:408-469 | What was flushed is loaded: the committed sequence and the first records, twenty at most. |
| FsImage.RoundTrip | kernel/src/fs.rs:502-576 | For every tree whose image is below 4 GiB: parsing the image, wherever it lies, gives the tree without what lives only in memory, stops exactly at its end and never indexes out of range. |
| FsImage.StripTwice | kernel/src/fs.rs:512-528 | Storing what was loaded changes neither tree nor image. |
| FsFormat.ImageStands | kernel/src/fs.rs:502-537 | The image of a tree is, position by position, the kept part of the tree: kind, name behind its length, then content behind its length or the number of children and the children. |
| FsFormat.StandingIsRead | kernel/src/fs.rs:539-576 | Whatever wrote it, a tree in this format whose names are text is read. |
| FsFormat.Utf8IsExact | kernel/src/fs.rs:546 | Accepted as a name are exactly the UTF-8 encodings of sequences of Unicode scalar values. |
| FsDisk.AppendNode | kernel/src/fs.rs:502-537 | Appends exactly the node's image to the buffer. |
| FsDisk.ReadNode | kernel/src/fs.rs:539-576 | Computes the parse of the specification, including missing nodes and indices out of range. |
| FsDisk.ReadChildren | kernel/src/fs.rs:560-565 | Reads as many children as the count says, skipping the missing ones. |
| FsDisk.SyncToDisk | kernel/src/fs.rs:578-609 | Byte by byte: size and tag in sector 0, the image from sector 1 on, zeros behind each; as far as the drive reaches, other sectors stay. |
| FsDisk.LoadFromDisk | kernel/src/fs.rs:622-671 | Decides between defaults, a loaded tree, no change and a crash as the drive's sectors say; defaults exactly without a readable tag or with a size of zero or above ten mebibytes. |
| FsDisk.StandingIsLoaded | kernel/src/fs.rs:622-671 | A tree that stands in the sectors behind the header is loaded, whatever wrote it. |
| FsDisk.LoadsWhatWasSynced | kernel/src/fs.rs:578-671 | The stored tree comes back, less what lives only in memory, exactly if its image is at most 10 MiB. |
| FsDisk.SecondRoundTrip | kernel/src/fs.rs:578-671 | Storing and loading the loaded tree changes nothing. |
| FsDisk.JournalOverwritesImage | kernel/src/fs.rs:425-427 | Once a journal sector has been flushed, no stored tree can be loaded: both use sector 1. |
| FsDisk.ImageOverwritesJournal | kernel/src/fs.rs:578-609 | After a sync on a drive of more than one sector, sector 1 no longer begins with the journal's magic. |
| FsDisk.SyncThenRecover | kernel/src/fs.rs:431-440 | Recovery of the journal after a sync of the tree is refused, and the journal stays as it was. |
| Vfs.SplitOfJoin | kernel/src/fs.rs:784-797 | The path built for the parent directory splits back into its components. |
| Vfs.SplitLaws | kernel/src/fs.rs:784 | Splitting a path is given by three laws: nothing gives nothing, text without a slash gives itself, and a slash divides. |
| Vfs.FoundIsDir | kernel/src/fs.rs:711-744 | The search for a directory succeeds exactly where the map has one. |
| Vfs.WithChildrenLookup | kernel/src/fs.rs:799-814 | New children in one directory change the map below that directory only. |
| VfsTree.FileTree.FindDir | kernel/src/fs.rs:711-744 | The children of the directory that the path leads to. |
| VfsTree.FileTree.FindParent | kernel/src/fs.rs:784-800 | The children of the parent directory; without one there is no entry, and with one the first child of the name decides the entry. |
| VfsTree.FileTree.Mkdir | kernel/src/fs.rs:781-814 | Succeeds exactly if the parent is a directory and the name is free; then one key of the map is set to a directory; otherwise nothing changes. Each error exactly if it names the first check that fails. |
| VfsTree.FileTree.WriteFileBytes | kernel/src/fs.rs:816-858 | Succeeds exactly if the parent is a directory and the name is free or a file; then one key is set to these bytes; otherwise nothing changes. Each error exactly if it names the first check that fails. |
| VfsTree.FileTree.Remove | kernel/src/fs.rs:864-904 | Succeeds exactly if there is something; then exactly its subtree is dropped; otherwise nothing changes. Each error exactly if it names the first check that fails. |
| VfsTree.FileTree.ReadFileBytes | kernel/src/fs.rs:906-943 | Outside the process file system, the bytes of the map at the path; each error exactly if it names the first check that fails. |
| VfsTree.StripKeepsUnique | kernel/src/fs.rs:512-528 | Storing and loading keeps sibling names different. |
| VfsTree.StripLookup | kernel/src/fs.rs:512-528 | Storing and loading keeps the map, except what lies in or is one of the in-memory directories. |
| Iommu.WalkIsLeaf | kernel/src/iommu.rs:487-531 | The four-level walk of a page, which ands the read and the write bit over all four entries, is decided by the one last-level table over it. |
| Iommu.HangKeepsTree | kernel/src/iommu.rs:490-525 | Hanging an empty table into an absent entry keeps the tables a tree without sharing. |
| Iommu.HangKeepsWalk | kernel/src/iommu.rs:490-525 | It changes no translation. |
| Iommu.LeafSetWalk | kernel/src/iommu.rs:527-530 | Writing a leaf entry changes the translation of one page only, and opens that page to reading and writing. |
| IommuUnit.PairReadsBack | kernel/src/iommu.rs:61-112 | Table address, domain and width code of an entry are read back and do not disturb each other. |
| IommuUnit.Indices | kernel/src/iommu.rs:481-485 | The shifted indices are those of the walk for the lowest 48 bits of the address. |
| IommuUnit.IdentityBelow48Bits | kernel/src/iommu.rs:470-532 | Below 2^48 the pages of a range and no others are retargeted, each to itself, with read and write access. |
| IommuUnit.Unit.NextTable | kernel/src/iommu.rs:490-525 | The table behind an entry, made if missing; no translation changes and no frame is shared. |
| IommuUnit.Unit.BuildSecondLevel | kernel/src/iommu.rs:541-569 | A fresh top table that translates no page, or no frame was left. |
| IommuUnit.Unit.MapPage | kernel/src/iommu.rs:480-531 | Exactly one page is retargeted, to itself, with read and write access; without a frame the kernel stops. |
| IommuUnit.Unit.MapDmaRange | kernel/src/iommu.rs:470-538 | For any range: the device can read and write each page it maps, at the last address mapped for it; every other page has the translation and the rights it had; memory outside the tables stays. |
| IommuUnit.Unit.MapDmaBuffer | kernel/src/iommu.rs:470-538 | Below 2^48 every page of the range translates to itself for reading and writing, earlier translations and their rights stay, none is added. |
| IommuUnit.Unit.BuildTables | kernel/src/iommu.rs:413-458 | Only bus 0, device 2, function 0 gets a second-level table, for 48-bit addresses and in domain 1, and it translates nothing yet. |
| IommuUnit.Unit.MapForNic | kernel/src/iommu.rs:470-538 | Through all tables that device can read and write the range at its own addresses, and what every other device sees stays nothing. |
| Damage.UnionIsLeast | kernel/src/damage.rs:28-43 | The union is the least rectangle holding the points of both. |
| Damage.ClampKeepsScreen | kernel/src/damage.rs:46-67 | Clamping keeps exactly the points on the screen. |
| Damage.HoldsCorner | kernel/src/damage.rs:70-75 | A non-empty rectangle holds points exactly if neither of its far edges wraps past 2^31. |
| Damage.AreaIsPoints | kernel/src/damage.rs:76-79 | The area counts the points, as long as no edge wraps. |
| Damage.GrowthIsExtra | kernel/src/damage.rs:127-128 | What a merge is charged is what the area grows by. |
| Damage.UnionHolds | kernel/src/damage.rs:28-43 | Wrapping or not, a union loses no point. |
| Damage.HullHolds | kernel/src/damage.rs:103-107 | Wrapping or not, the accumulated damage holds every damaged point. |
| Damage.HullIsLeast | kernel/src/damage.rs:103-107 | The accumulated damage is the least rectangle around everything added. |
| Damage.DamageTracker.MergePending | kernel/src/damage.rs:111-121 | The restarting loop ends, loses no point, adds no area, and stops only when every further merge would cost extra. |
| Damage.DamageTracker.CheapestMerge | kernel/src/damage.rs:127-128 | The first of the rectangles whose merge adds the least area. |
| Damage.DamageTracker.AddRect | kernel/src/damage.rs:100-131 | At most four non-empty rectangles cover everything damaged, the last one better drawn apart from every other; the total area is at most that before plus the new one, unless four are kept, every merge costs extra and the first cheapest is made; over a whole run it is at most that of everything added as long as no such merge has raised it. |
| Damage.DamageTracker.TakeRegions | kernel/src/damage.rs:134-148 | Exactly the tracked points on the screen, or the whole screen when a full redraw is due; the tracker is reset. |
| Editor.EditorState.InsertChar | kernel/src/editor_app.rs:430-449 | The flat text gets the character at the cursor, which moves past it; the state before is on the undo stack. |
| Editor.EditorState.InsertNewline | kernel/src/editor_app.rs:451-473 | Splitting a line inserts a newline at the cursor. |
| Editor.EditorState.DeleteBackward | kernel/src/editor_app.rs:475-498 | Deletes the character before the cursor, also across lines; at the start nothing changes. |
| Editor.EditorState.DeleteForward | kernel/src/editor_app.rs:500-517 | Deletes the character at the cursor, also across lines; at the end nothing changes. |
| Editor.EditorState.PushUndoSnapshot | kernel/src/editor_app.rs:100-113 | Keeps the state for undo, forgets the oldest of fifty, and clears redo. |
| Editor.EditorState.Undo | kernel/src/editor_app.rs:115-134 | The undo step of the history. |
| Editor.EditorState.Redo | kernel/src/editor_app.rs:136-155 | The redo step of the history. |
| Editor.StepsStayBounded | kernel/src/editor_app.rs:100-155 | Undo and redo together never hold more than fifty snapshots; undo after an edit restores lines and cursor, redo undoes an undo. |
| Editor.UndosThenRedos | kernel/src/editor_app.rs:115-155 | k undos and k redos are the identity. |
| Editor.EditsThenUndos | kernel/src/editor_app.rs:100-134 | n edits and n undos return to the start for n up to fifty, else to the state fifty edits ago. |
| Net.CalculateChecksum | kernel/src/net.rs:7-21 | The folding loop ends with the one's-complement checksum of up to 131074 bytes. |
| Net.FoldStep | kernel/src/net.rs:17-19 | One fold makes the sum smaller and keeps its one's-complement value. |
| Net.SumIsValue | kernel/src/net.rs:7-21 | The sum of the words is, modulo 65535, the number that the bytes are. |
| Net.ChecksExactly | kernel/src/net.rs:7-21 | Data checks to zero exactly if it is, as one number, a multiple of 65535 other than zero. |
| Net.ChecksToZero | kernel/src/net.rs:272-274 | Data whose even-placed checksum field held zero checks to zero once filled in. |
| Net.OneWordError | kernel/src/net.rs:7-21 | One changed word keeps the checksum zero only if it exchanges the two one's-complement zeros. |
| Net.BuildIpv4Packet | kernel/src/net.rs:255-278 | Every field of the header stands at its place; the header checks to zero and parses back to the fields put in; the length field is the length up to 65515 payload bytes. |
| Net.BuildTcpPacket | kernel/src/net.rs:312-346 | Every field of the segment stands at its place; segment and pseudo header check to zero, odd lengths included; the header parses back to the fields put in. |
| Net.SendTcpSegment | kernel/src/net.rs:280-284 | In the packet sent every field of both headers stands at its place, and what the receiver sums checks to zero: the header, and the addresses, protocol and length of the packet with the segment. |
| Histogram.BucketBound | kernel/src/perf_histogram.rs:14 | The buckets up to i hold exactly the samples up to 2^i. |
| Histogram.LargestIsMaximum | kernel/src/perf_histogram.rs:13-19 | The maximum kept is the largest sample. |
| Histogram.BoundIsTight | kernel/src/perf_histogram.rs:20-29 | At least the rank's number of samples are at most the bound, which below the overflow bucket is under twice any such value. |
| Histogram.BoundIsMonotone | kernel/src/perf_histogram.rs:20-29 | A higher rank has no lower bound. |
| Histogram.Histogram.Record | kernel/src/perf_histogram.rs:13-19 | Every counter stays that of the recorded samples, cut off where 64 bits end. |
| Histogram.Histogram.Percentiles | kernel/src/perf_histogram.rs:20-29 | While the rank fits in 64 bits: at least the percentage of the samples are at most the result; from 2 up to below 2^23 the result is under twice any value of which that is true; above, it is the largest sample; and it grows with the percentage. |

## Left out

- Ports, registers, control registers, interrupt handling, translation caches and the boot memory map.
- Drawing, widgets, window management, and the editor's search, selection, clipboard, scrolling and file handling.
- Copy-on-write and the older mappers of `kernel/src/memory.rs:152-360` and `:690-752`: they treat an existing mapping as success and lie outside the owner bit.
- Memory.Machine.Destroy: huge pages, which the private tables never contain, are not modelled; a leaf is cleared before its frame is released, where the code releases first.
- Memory.Machine.CloneActive: the kernel's root table is the one captured by the first call, so the early return for a missing one is not modelled.
- Memory.Machine.MapUserPage: the target is always a given address space, not the active one named by 0.
- Elf.ParseElf: running out of kernel heap (`OutOfMemory`) is not modelled.
- Lifecycle.RunProcesses: memory charging, surface slots, process identifiers and their lookup are not modelled; a process is its address space.
- Memory.Machine.TranslatePage: addresses outside the user range, which the kernel's own tables translate, are not modelled.
- Memory.Machine.UnmapSurfaceFrames: the range lies in the user half, as for every surface that has been mapped.
- UserMemory.WriteUserRegion: a page of the region is unmapped or owned by the space; nothing is claimed of writes through a shared surface page.
- CapSpace.Space.Derive: grant, lend and transfer repeat the same steps in the code and are one method here, with three short ones for the names; generations are unbounded, so their 32-bit wrap-around is not modelled. Ports bound to devices, object identities and the bootstrap of the first capability are left out.
- SpfsEngine.Engine.WriteFile: what an inode that was not empty reads as afterwards is not stated, only what it owns and what it leaves behind. Double tables are reclaimed but never written by the code.
- SpfsVolume.RunKeeps: a file system error other than NoSpace does not occur in this code.
- Journal.SpfsJournal.Log: sequence numbers end at 2^64 - 1.
- FsDisk.LoadFromDisk: the default tree and the seeded files are not modelled; a drive has a fixed number of sectors and fails only beyond them.
- FsDisk.LoadsWhatWasSynced: images of 4 GiB and more, whose length does not fit the header, are not covered.
- VfsTree.FileTree.Mkdir: the tree is a value that is rebuilt on the way to the changed directory; the code changes the vector of children in place. Listing directories, the working directory and the generated contents of the process file system are left out; the latter is a parameter of reading.
- IommuUnit.Unit.MapDmaRange: regions registered before the tables exist are only logged by the code and are not mapped.
- Damage.DamageTracker.AddRect: sums wrap as in a build without overflow checks, while a build with them stops there; that a union or hull is the least rectangle is stated for rectangles whose edges do not wrap; `take_damage` and `peek_damage` are left out.
- Editor.EditorState.InsertChar: characters are single bytes, as the keyboard and clipboard paths deliver them; a cursor outside the text, which no operation leaves behind, is not modelled.
- Net.CalculateChecksum: above 131074 bytes the 32-bit sum wraps and nothing is claimed.
- Histogram.Histogram.PercentileUpper: nothing is claimed of a histogram with more samples than 64 bits count, where the sum over the buckets can overflow.
- Message channels, memory objects, sockets, address resolution, domain names, packages and services.
