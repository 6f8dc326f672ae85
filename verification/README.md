# kernai in Dafny

kernai is a small single-hart RISC-V kernel. This project models the parts of it that change
memory step by step, in the same form (loops over bitmap words, page-table words, process
slots, wire bytes), and proves what every step and every run keep.

The layers, bottom up:

- `Words`, `Pte`: 64-bit words, the bytes and bits in them, page-table entries.
- `FramePool`: physical memory and the bitmap allocator.
- `Space`: what a three-level table in pool memory stands for. `role` gives every owned frame
  exactly one purpose, which is where separation of tables, pages and spaces comes from.
- `PageTables`, `Translate`, `Teardown`, `Census`, `Fork`: mapping, translating, freeing and
  copying address spaces, and how many frames each takes.
- `ElfImage`, `Elf`, `TrapFrame`, `Launch`, `Checkpoint`: what an image says and what can be
  wrong with it, loading it, saved register frames, building a payload's space, taking and
  reviving checkpoints. `Assemble` writes images, to show that each case occurs.
- `Machine`, `Invariant`, `Runs`: processes, checkpoints and scheduling as their users
  understand them. Each process owns its memory outright, and a run is any sequence of steps.
- `Estate`, `Books`, `Ledger`, `Steps`, `Kernel`: the same system over shared frames. `Kernel` is a class
  whose every method is proved to take exactly one step of the machine, to keep the page
  tables, records and allocator consistent, and to account for every frame.
- `Effects`: what each event means to a payload, over runs and without the machine's own
  words: how it is queued, with what bytes and registers it starts, what a store does, how it
  ends, which budget it has, what a fork continues.
- `Timer`: tick cadence and the deadline bound.
- `Tools`, `Drive`: the operator's mutating tools, the timer interrupt, and whole executions.
  `Drive.Drive` boots the kernel and serves any sequence of calls from payloads, timer and
  operator; the execution is proved to be a run of the machine in which each call causes
  exactly the event it should (`Drive.Answers`), so everything in `Runs`, `Effects` and `Timer`
  holds of it, and frames are accounted for over all of it.
- `Framing`, `Request`, `Json`, `Console`, `Output`, `Members`, `Rings`: the wire, the request
  reader, the structural JSON reader, frame building, payload output and what the host finds in
  it, and the trap and operation-id rings.

Two promises do not hold of the code as it stands, and are stated with the exact condition.

- A load can lose frames, whether it completes or is refused. It does exactly when it gets past
  the first page of a segment that has pages and none of R, W and X, or takes a frame for file
  bytes that are not in the image (`Elf.MapSegment`, `Elf.Load`). `ElfImage.Loses` says which
  images those are, from the image alone; unless the pool runs short first, every load of such an
  image loses frames, and no load of any other does. `Assemble.AcceptedButLoses` and
  `Assemble.RefusedAndLoses` are two such images.
- Seeding a suite loses frames exactly when a suspended payload was killed and nothing has reaped
  since (`Kernel.Kernel.SeedSuite`, `Runs.SeedLoss`), and that run exists (`Runs.KillThenSeed`).

Over a whole execution nothing else costs a frame: if neither happens, the idle kernel without
checkpoints holds its root frame alone, as at boot (`Drive.Drive`, `Drive.LosslessExact`).

`deep_copy`, `on_snapshot`, forks and `start` are stated with the only reasons for which they may
fail: a fault of the image, a full table, or too few free frames.

Integers are unbounded except where the source wraps: the release build's unchecked `usize`
sums in the loader and in `copy_from_user` wrap at 64 bits. The clock and event ids are
parameters.

## Model

| member | source | states |
|---|---|---|
| Words.PutByteReads | kernel/src/hal/boot.rs:80-90 | a byte store into a word changes that byte and no other |
| Words.WithBitReads | kernel/src/frames.rs:29-39 | setting or clearing a bit changes that bit and no other |
| Words.WordIsItsBytes | kernel/src/hal/boot.rs:117-139 | a word is its eight bytes, least significant first |
| Pte.LeafReadsBack | kernel/src/mm.rs:331-339 | a leaf entry reads back its page, permissions and validity, and is a leaf exactly when it grants any of R, W, X |
| Pte.TableReadsBack | kernel/src/mm.rs:334-336 | a table entry is valid, is no leaf and reads back its page |
| Pte.LeafBits | kernel/src/mm.rs:18-27 | V, R, W, X, U, G at bits 0 to 5, A and D always set, the page number from bit 10 on |
| Pte.TableBits | kernel/src/mm.rs:334-336 | a table entry is V alone and the page number |
| Pte.PteTests | kernel/src/mm.rs:129-141 | the walkers' tests for valid, leaf and user look at those bits |
| FramePool.Pool.Alloc | kernel/src/frames.rs:44-58 | succeeds exactly when a frame is free, wherever the hint points; the frame is zeroed, was free, and no other bit or frame changes |
| FramePool.Pool.Free | kernel/src/frames.rs:61-72 | frees exactly the frame at an aligned pool address and ignores any other address; the live count follows |
| FramePool.Pool.Stats | kernel/src/frames.rs:77-79 | the live count is the number of frames in use |
| FramePool.ScanReaches | kernel/src/frames.rs:44-50 | the wrap-around scan probes every frame |
| FramePool.Pool.PhysWrite | kernel/src/hal/boot.rs:80-90 | within one frame the bytes land at their offset and every other byte of the pool is kept; outside the pool nothing is written |
| FramePool.Pool.PhysRead | kernel/src/hal/boot.rs:105-114 | reads exactly the bytes at a pool address |
| FramePool.PteSlot | kernel/src/hal/boot.rs:117-139 | a page-table word is one word of one frame, and writing it changes nothing else |
| FramePool.PoolLayout | kernel/src/hal/boot.rs:67-68 | frames are 4 KiB from 0x80400000 up to 0x88000000 |
| FramePool.FrameLittleEndian | kernel/src/hal/boot.rs:80-139 | the bytes of a frame are those of its words |
| Space.RepresentsUnique | kernel/src/mm.rs:126-145 | table words determine the space: no two spaces have the same tables |
| Space.RepresentsFrame | kernel/src/mm.rs:77-145 | what a table tree means depends on its own table frames only |
| Space.FramesExactly | kernel/src/mm.rs:303-318 | a space owns exactly its root, its tables and the pool frames under its live leaves |
| Space.AddMidRepresents | kernel/src/mm.rs:83-90 | a zeroed frame linked at the root adds an empty level-1 table and nothing else |
| Space.AddLowRepresents | kernel/src/mm.rs:83-90 | a zeroed frame linked at level 1 adds an empty level-0 table and nothing else |
| Space.AddLeafRepresents | kernel/src/mm.rs:92-98 | a leaf word adds exactly one mapping |
| PageTables.MapPage | kernel/src/mm.rs:77-98 | insertion: one page more and no other translation changed; overlap and lack of frames are characterised exactly; on failure every mapping is as it was and new tables, on the path only, stay owned |
| PageTables.LinkTable | kernel/src/mm.rs:83-90 | a zeroed frame becomes the next table on the path, or the pool is full and nothing changed |
| PageTables.MapGigapage | kernel/src/mm.rs:101-112 | unaligned, overlapping or mapped, exactly; only the root table changes |
| PageTables.NewUserSpace | kernel/src/mm.rs:50-60 | a fresh space maps the kernel's supervisor gigapage only, and exists exactly when a frame was free |
| PageTables.New | kernel/src/mm.rs:56-61 | a zeroed root that maps nothing, exactly when a frame is free |
| PageTables.MapKernel | kernel/src/mm.rs:50-52 | the kernel's gigapage, exactly when its slot is free |
| Translate.TranslateChecked | kernel/src/mm.rs:126-145 | the page map's answer: the physical address for an access, or none |
| Translate.Walk | kernel/src/mm.rs:171-183 | the entries on the path to an address, outermost first |
| Translate.WalkEndsAtTranslation | kernel/src/mm.rs:126-183 | the last entry of the walk is the one translation uses, at every level |
| Translate.CopyFromUser | kernel/src/mm.rs:150-166 | true exactly when every byte of the wrapping range is one the payload could read itself and lies in the pool; then the buffer holds those bytes, across any number of pages |
| Translate.UserByteExact | kernel/src/mm.rs:126-166 | U-mode can read exactly the pages with R and U, and gets the byte at that offset of the page's frame |
| Translate.UserWriteExact | kernel/src/mm.rs:126-145 | U-mode can write exactly the pages with W and U |
| Translate.KernelIdentity | kernel/src/mm.rs:42-52 | the kernel's gigabyte translates to itself, and to nothing for U-mode |
| Translate.LeafStored | kernel/src/mm.rs:77-98 | the three table words behind a mapped page, bit by bit |
| Teardown.FreeSubtree | kernel/src/mm.rs:303-318 | frees exactly the frames under one table, in order |
| Teardown.Destroy | kernel/src/mm.rs:269-279 | the allocated set loses exactly the space's own frames, each once; memory is untouched |
| Census.CopyBounded | kernel/src/mm.rs:207-264 | what a partial copy has and still lacks never exceeds what the original owns |
| Fork.CopyUserPages | kernel/src/mm.rs:207-264 | copies exactly the user pages under a table, in page order; when it stops early some page has no place or the pool is too full for it |
| Fork.ShareWindow | kernel/src/mm.rs:235-241 | a page outside the pool is mapped again with the same permissions, not copied |
| Fork.ClonePage | kernel/src/mm.rs:242-255 | a pool page gets a frame of its own with the same bytes and permissions, or its frame goes back |
| Fork.DuplicateFrame | kernel/src/mm.rs:242-250 | a fresh frame with the bytes of another, exactly when a frame is free |
| Fork.DeepCopy | kernel/src/mm.rs:190-205 | on success the same pages with the same permissions and bytes in frames nobody owned, no bigger than the original; on failure the allocated set is restored exactly; no frame in use ever changes; it succeeds whenever as many frames are free as the original owns |
| Elf.FillPage | kernel/src/elf.rs:159-180 | the page's bytes are the segment's (`ElfImage.SegmentByteIs`: the file bytes that fall in it and zero elsewhere); fails exactly when no frame is free or the file range is refused |
| Elf.MapSegment | kernel/src/elf.rs:140-185 | on success every page of the segment is mapped with its bytes and permissions, and no other page; which error, and at which page, exactly; frames are lost exactly when a dead page was mapped before it, or when it is a refused file range |
| Elf.LoadPage | kernel/src/elf.rs:155-182 | one page: mapped with its bytes, or refused for a stated reason; frame lost exactly on a dead page or a refused file range |
| Elf.Load | kernel/src/elf.rs:69-137 | unless the pool runs short, accepted exactly when header, segments and entry are faultless; an accepted image reads as written and nothing else is mapped; the error belongs to the place where the load ended; W^X holds whether it completes or not; frames are lost exactly when that place is lossy, and unless the pool ran short exactly when the image is one that loses frames |
| Elf.MapSegments | kernel/src/elf.rs:97-131 | the program headers in order: every load segment in full, or the place where it ended and its error |
| Elf.LoadedAsWritten | kernel/src/elf.rs:159-182 | of an accepted image the payload reads, at every address of a readable load segment, the image byte at offset plus distance, and zero beyond filesz |
| Elf.LoadedBytesReadable | kernel/src/elf.rs:140-185 | every address of every readable load segment reads as the image byte below filesz and zero above |
| ElfImage.PageSourceBytes | kernel/src/elf.rs:164-173 | an accepted file range supplies exactly the segment's bytes, despite wrap-around |
| ElfImage.SegmentByteIs | kernel/src/elf.rs:164-176 | a segment's bytes are the image's from its offset on, then zeros |
| ElfImage.FileInside | kernel/src/elf.rs:105-113 | an image that can be loaded has all its file ranges inside it |
| ElfImage.LeIs | kernel/src/elf.rs:51-65 | fields of two, four and eight bytes are little-endian |
| ElfImage.HeaderExact | kernel/src/elf.rs:70-95 | which images get past the file header, byte by byte, and which error the others get |
| ElfImage.HeaderFields | kernel/src/elf.rs:97-124 | a program header is loaded exactly when its type is 1; its permissions and fields from its bytes |
| ElfImage.RangeExact | kernel/src/elf.rs:164-173 | the unchecked sums let nothing through: every page of a segment gets its file bytes exactly when its whole file range lies in the image |
| ElfImage.LossExact | kernel/src/elf.rs:140-185 | wherever a load ends, whether it lost frames there agrees with what the image alone says |
| ElfImage.TidyNeverLoses | kernel/src/elf.rs:140-185 | an image whose file ranges lie inside it and whose pages all grant access never loses a frame |
| Assemble.AssembledReads | kernel/src/elf.rs:69-113 | the loader's header reading returns exactly the entry and segments an image was written from |
| Assemble.AcceptedButLoses | kernel/src/elf.rs:175-182 | a concrete image that is accepted and loses a frame, on a page without access |
| Assemble.RefusedAndLoses | kernel/src/elf.rs:159-173 | a concrete image with live pages only that is refused and loses a frame, on a file range that leaves it |
| Assemble.AcceptedAndKeeps | kernel/src/elf.rs:69-137 | a concrete image that is accepted and loses nothing |
| TrapFrame.SaveFrame | kernel/src/traps.rs:316-323 | words 0 to 30 of the frame hold the registers with a0 overridden, word 31 sepc, word 32 sstatus; no other frame changes |
| TrapFrame.InitFrame | kernel/src/traps.rs:329-332 | sepc is the entry, sstatus has SPIE alone, every register is zero |
| Launch.MapWindow | kernel/src/payload.rs:368-378 | maps the read-only range page by page, and nothing else; allocates tables only, loses none; fails only on a clash or a full pool, and always on a clash |
| Launch.BuildSpace | kernel/src/payload.rs:774-804 | the space a payload starts in holds its segments and window, nothing else, and is W^X; a faulty image is never accepted; on failure all but lost frames go back, and the image is at fault or frames were short; frames lost exactly |
| Launch.Populate | kernel/src/payload.rs:782-804 | image and window in a fresh space, or a refusal with its reason; W^X; frames lost exactly where the load ended lossy |
| Launch.Prepare | kernel/src/payload.rs:774-814 | space and zeroed start frame together, or all given back but lost frames, which only an image that loses frames costs |
| Launch.PlainImageLoads | kernel/src/elf.rs:69-185 | what it takes for an image to be accepted, in plain terms: segments below the kernel that share no page, W^X, file ranges inside, an entry in a segment with access |
| Estate.Isolation | kernel/src/mm.rs:50-112 | a live pool page is no table, no register frame and nobody else's; pages outside the pool are read-only; the kernel gigapage is closed to U-mode |
| Estate.CopyLooksSame | kernel/src/mm.rs:207-264 | a deep copy shows its owner exactly what the original showed |
| Estate.ViewReads | kernel/src/mm.rs:126-166 | what the machine calls a process's memory is what it reads through its tables |
| Estate.CopyReadsSame | kernel/src/mm.rs:190-264 | a deep copy reads the same byte at every address and may be written where the original may |
| Estate.WriteHeld | kernel/src/payload.rs:892-925 | writing a data page or register frame changes no space and no frame's holder |
| Checkpoint.Capture | kernel/src/payload.rs:892-927 | a copied space that looks the same and a frame with the caller's registers, a0 = 0; or nothing taken; cannot fail with enough frames |
| Checkpoint.Revive | kernel/src/payload.rs:930-947 | a copy of a checkpoint's space and of its register frame, both fresh; or nothing taken |
| Invariant.StepInv | kernel/src/payload.rs:659-1055 | every step keeps: capabilities within ceiling and parent, W^X, slots in order, one running process, who may hold memory when |
| Invariant.BootInv | kernel/src/payload.rs:449-484 | the invariant holds at boot |
| Machine.First | kernel/src/payload.rs:683-685 | the first slot in a state, and none before it |
| Machine.FirstFree | kernel/src/payload.rs:901-904 | the first free checkpoint slot, and none before it |
| Runs.RunInv | kernel/src/payload.rs:704-820 | the invariant holds in every state of every run |
| Runs.ForkFidelity | kernel/src/payload.rs:892-974 | a restored continuation starts with the memory, capabilities, image and registers its original had at the checkpoint, except x10 = 0, whatever ran in between; it has no budget and no parent |
| Runs.Attenuation | kernel/src/payload.rs:1022-1053 | a process holds no capability any ancestor, or any ancestor's image, lacks; ancestors have smaller pids |
| Runs.RunAttenuation | kernel/src/payload.rs:659-681 | capabilities never change while a slot is occupied, down every delegation chain of every run |
| Machine.CapsAreBits | kernel/src/payload.rs:659-664 | capability sets are bit sets: clamping keeps the common bits, containment misses none |
| Runs.RunWx | kernel/src/elf.rs:115-130 | in every state no page of a process or checkpoint is writable and executable, and no window is writable |
| Runs.IdleHoldsNothing | kernel/src/payload.rs:704-746 | at idle no process holds memory or registers |
| Runs.OnlyKilledHold | kernel/src/payload.rs:733-746 | an ended process holds memory only if the operator killed it, and only inside the service window |
| Runs.KillThenSeed | kernel/src/payload.rs:1326-1376 | a run in which a suite is seeded while a killed payload still owns its memory |
| Runs.LeftoverExact | kernel/src/payload.rs:733-746 | at any point of any run, an ended process still holds memory exactly when a suspended payload was killed and nothing has reaped since |
| Runs.SeedLoss | kernel/src/payload.rs:495-499 | a seeding drops held memory exactly when a suspended payload was killed since the last reap |
| Runs.RunOrder | kernel/src/payload.rs:683-731 | when the CPU passes to another payload, it has a larger pid and everything before it has ended |
| Runs.StartsIncrease | kernel/src/payload.rs:748-820 | starts come in strictly increasing pid order until the next seeding |
| Runs.AtMostTwelveStarts | kernel/src/payload.rs:394-403 | a suite announces at most twelve starts |
| Runs.KeepsLong | kernel/src/payload.rs:864-890 | image, capabilities and parent are fixed for a slot's life, and terminal states are absorbing until a reseed |
| Runs.PreemptedResumesNext | kernel/src/payload.rs:1282-1318 | a preempted payload that is not killed is the next on the CPU, with its exact registers and memory and its start time unmoved |
| Runs.SuspendedStep | kernel/src/payload.rs:704-731 | while a payload is suspended nothing else can take the CPU, reseed the table or reach idle |
| Effects.FreshStart | kernel/src/payload.rs:771-828 | a start puts the payload on the CPU with sepc the image's entry, 31 zero registers, SPIE set and SPP clear |
| Effects.FreshBytes | kernel/src/elf.rs:140-185 | at every address of a load segment with access its own page holds the file byte, zero beyond, with the header's permissions |
| Effects.FreshPages | kernel/src/payload.rs:782-804 | every page it starts with belongs to a load segment or the window |
| Effects.FreshWindow | kernel/src/payload.rs:368-378 | each window page is the window's memory, readable and no more |
| Effects.Seeded | kernel/src/payload.rs:495-577 | after a seeding slot p waits for the suite's p-th image with its full ceiling and its budget, up to twelve; no checkpoint is left; the forks are owed |
| Effects.Spawned | kernel/src/payload.rs:1022-1053 | a child waits in the lowest empty slot on one of three images, with exactly the bits asked for, held by the parent and allowed to the image; nothing else changes |
| Effects.Stored | kernel/src/mm.rs:126-145 | a store's byte reads back and no other byte of any process or checkpoint changes |
| Effects.Ended | kernel/src/payload.rs:864-890 | exit code, fault or kill stays on record until the next seeding; memory goes back at once unless the operator killed it |
| Effects.Finished | kernel/src/payload.rs:704-731 | when a suite is done every payload has ended, nobody holds memory, and control is idle |
| Effects.BudgetStep | kernel/src/payload.rs:1381-1388 | a budget change takes effect on its slot, and no other event changes a budget |
| Effects.ImageBudget | kernel/src/payload.rs:659-670 | until its budget is changed, a payload that was not restored has its image's budget |
| Effects.Checkpointed | kernel/src/payload.rs:901-925 | a checkpoint goes into the lowest free place and changes nothing else |
| Effects.ForksAddUp | kernel/src/payload.rs:717-728 | forks spent and forks owed add up to what the suite was seeded with |
| Effects.ForksTheLatest | kernel/src/payload.rs:717-728 | a fork continues the checkpoint taken last; a suite ends with forks owed only if it took none |
| Kernel.Kernel.constructor | kernel/src/payload.rs:32-43 | at boot the kernel root is the only frame in use |
| Kernel.Kernel.ReapTerminated | kernel/src/payload.rs:733-746 | every ended process gives back its memory and register frame; nobody else's changes |
| Kernel.Kernel.ReapSlot | kernel/src/payload.rs:734-745 | one slot's turn: an ended process gives back memory and register frame |
| Kernel.Kernel.LeaveCpu | kernel/src/traps.rs:302-311 | the payload leaves the CPU and the scheduler reaps |
| Kernel.Kernel.OnExit | kernel/src/payload.rs:864-872 | one exit step of the machine; frames conserved |
| Kernel.Kernel.MarkFaulted | kernel/src/payload.rs:874-890 | one fault step of the machine; frames conserved |
| Kernel.Kernel.OnTick | kernel/src/payload.rs:979-1002 | kills exactly when a payload is on the CPU, has a budget, and now is past its start plus that budget |
| Kernel.Kernel.UserStore | kernel/src/mm.rs:126-145 | a U-mode store at any address goes through exactly where the payload has a page it may write, and changes one byte of it; no table and nobody else's memory changes |
| Kernel.Kernel.Enqueue | kernel/src/payload.rs:659-681 | the first empty slot is queued (`Effects.EnqueueAt` says with what), or the table is full |
| Kernel.Kernel.OnSpawn | kernel/src/payload.rs:1022-1053 | -2, -4 or -5 exactly when the capability, the selector or a slot is missing; otherwise one spawn step of the image the selector names |
| Kernel.Kernel.OnSnapshot | kernel/src/payload.rs:892-927 | one checkpoint step, or -4, -5 or -6 with nothing changed; -6 only when there is no room for a copy |
| Kernel.Kernel.TakeSnap | kernel/src/payload.rs:905-925 | a slot's memory, registers (a0 = 0), capabilities and image become a checkpoint, or nothing changed and there was no room |
| Kernel.Kernel.FreeSnap | kernel/src/payload.rs:901-904 | the first free checkpoint slot |
| Kernel.Kernel.EnqueueRestore | kernel/src/payload.rs:930-974 | a fork waits with the checkpoint's memory and registers and re-clamped capabilities; a failed fork gives everything back and has a reason |
| Kernel.Kernel.KillPid | kernel/src/payload.rs:1360-1373 | kills exactly a pending payload and returns the time since its start, 0 if it never started |
| Kernel.Kernel.SetDeadline | kernel/src/payload.rs:1381-1388 | changes the budget of exactly a pending payload |
| Kernel.Kernel.FreeSnapshots | kernel/src/payload.rs:508-521 | every checkpoint's frames go back |
| Kernel.Kernel.SeedSuite | kernel/src/payload.rs:495-577 | one seed step; frames are lost exactly when some slot still holds memory or registers |
| Kernel.Kernel.ClearTable | kernel/src/payload.rs:495-499 | every slot is empty; what slots held is held by nobody |
| Kernel.Kernel.QueueAll | kernel/src/payload.rs:524-563 | each image is queued in order with its full ceiling |
| Kernel.Kernel.IsBusy | kernel/src/payload.rs:1347-1351 | true exactly when a payload is running or pending |
| Kernel.Kernel.MaybePreempt | kernel/src/payload.rs:1282-1318 | suspends exactly when a payload runs and a byte is waiting, saving its registers in its own frame |
| Kernel.Kernel.StartSaved | kernel/src/payload.rs:748-769 | a preempted payload keeps its start time, a restored one starts now |
| Kernel.Kernel.StartFresh | kernel/src/payload.rs:771-828 | a fresh payload finds its image in memory and zeroed registers; a refused one is faulted, for a stated reason; frames are lost exactly where the load ended lossy, and always by an image that loses frames unless it was refused for lack of them |
| Kernel.Kernel.Acquire | kernel/src/payload.rs:774-814 | what a start allocates, not yet attached to the slot: everything else is as it was, and lost frames are exactly accounted for |
| Kernel.Kernel.CloseWindow | kernel/src/payload.rs:713-731 | exactly one start, load fault, resume, restore or finish step; failures have reasons; frames are lost only by loading an image that loses frames, and always then unless it was refused with frames short |
| Kernel.Kernel.TakeNextPending | kernel/src/payload.rs:683-685 | the first pending slot |
| Kernel.Kernel.RunPending | kernel/src/payload.rs:748-820 | one start, resume or load fault step for the first pending payload |
| Kernel.Kernel.StartFork | kernel/src/payload.rs:717-728 | a fork of a checkpoint is on the CPU from now on, or nothing changed for a stated reason |
| Kernel.Kernel.ForkOrFinish | kernel/src/payload.rs:717-730 | one restore or finish step; a fork is only given up when the table is full or frames are short |
| Kernel.Kernel.IdleAccounts | kernel/src/payload.rs:704-731 | at idle the frames in use are the kernel root's, the checkpoints' and the lost ones; without those, exactly one, as at boot; `Drive.Drive` says when nothing is lost |
| Timer.Timer.ArmFirstTick | kernel/src/traps.rs:181-185 | begins the chain of deadlines that every later tick extends: the first counts from boot, each later one was set by re-arming |
| Timer.Timer.Rearm | kernel/src/traps.rs:228-234 | extends the chain by one tick: the next deadline is an interval or more later, in the future, and on the exact cadence unless a whole interval was missed |
| Timer.LongCadence | kernel/src/traps.rs:223-234 | over any stretch deadlines advance by at least an interval a tick; when no tick is an interval late, tick j is due exactly j + 1 intervals after boot |
| Timer.Cadence | kernel/src/traps.rs:223-234 | consecutive ticks: deadlines an interval or more apart, service at most an interval plus lateness after the last |
| Timer.DeadlineBound | kernel/src/payload.rs:979-1002 | no budgeted payload is on the CPU when a tick checks its budget later than interval plus lateness after the budget ran out, or after it got the CPU back |
| Timer.KilledInTime | kernel/src/payload.rs:748-820 | an undisturbed payload is killed with elapsed time in (d, d + interval + lateness] |
| Timer.KilledByImageBudget | kernel/src/payload.rs:659-670 | a payload whose budget nobody changed is killed between its image's budget and that plus interval and lateness after its start, and never if the image has none |
| Framing.EncodeFrame | harness/framing.py:24-28 | refuses exactly payloads over the bound; otherwise one whole frame around the payload |
| Framing.WireIs | harness/framing.py:24-28 | 0xAA, 0x99, the length in four bytes least significant first, then the payload |
| Framing.ParseConserves | harness/framing.py:42-71 | every byte is in exactly one stray, frame or the pending rest, in order |
| Framing.ChunkingIrrelevant | harness/framing.py:42-71 | however the stream is cut into chunks, the same items come out and the same bytes stay pending |
| Framing.Recovered | harness/framing.py:24-71 | any payload list separated by magic-free noise comes back whole, and the noise with it |
| Framing.FrameRecovered | harness/framing.py:42-71 | one frame after magic-free noise comes back as that payload and that noise |
| Framing.Resync | harness/framing.py:62-66 | a magic with a length over the bound costs one byte of noise, and reading goes on with the next |
| Framing.Pending | harness/framing.py:58-69 | a frame that has not all arrived stays pending, whole |
| Framing.FrameDecoder.Feed | harness/framing.py:42-71 | the frames and noise of pending bytes plus chunk, and the new pending bytes |
| Framing.FindMagic | harness/framing.py:47-47 | the first magic, or none anywhere |
| Framing.ParseResumes | harness/framing.py:42-71 | reading on from the pending bytes equals reading everything at once |
| Framing.LengthReadsBack | harness/framing.py:28-28 | the little-endian length reads back |
| Request.Heard | kernel/src/rpc.rs:50-62 | a message is read to its last byte exactly when no byte keeps the reader waiting more than sixteen polls |
| Request.Serial.GetcStall | kernel/src/rpc.rs:50-62 | one byte, or none after seventeen empty polls |
| Request.Serial.ReadRequest | kernel/src/rpc.rs:78-111 | returns exactly the payload of a frame of 1 to 512 bytes that arrives without a stall and consumes exactly that frame; a wrong magic or length is dropped without draining |
| Request.Serial.Fill | kernel/src/rpc.rs:83-104 | so many bytes in order, or none when the sender stalls |
| Request.RequestArrives | kernel/src/rpc.rs:78-111 | a frame with a payload of 1 to 512 bytes and at most sixteen empty polls before any byte is returned whole |
| Json.ObjectGet | kernel/src/rpc.rs:647-678 | total and in bounds on every byte string |
| Json.SkipContainer | kernel/src/rpc.rs:602-623 | the depth-counting scan, in bounds |
| Json.SkipWs | kernel/src/rpc.rs:579-584 | to the first byte that is no white space |
| Json.SkipString | kernel/src/rpc.rs:587-597 | past the closing quote, escapes skipped, in bounds |
| Json.StringPasses | kernel/src/rpc.rs:587-597 | a well-formed string is passed over exactly, whatever it escapes |
| Json.SkipValue | kernel/src/rpc.rs:626-643 | past one value, in bounds |
| Json.SkipScalar | kernel/src/rpc.rs:635-641 | to the next structural byte |
| Json.ReadMember | kernel/src/rpc.rs:654-667 | one member's raw key and value range |
| Json.ValueFound | kernel/src/rpc.rs:626-643 | the value skipped and trimmed is exactly the value's text |
| Json.ContainerPasses | kernel/src/rpc.rs:602-623 | a well-formed container is passed over exactly, at any depth, whatever it nests or quotes |
| Json.ObjectFound | kernel/src/rpc.rs:579-678 | on any well-formed object, written with the literal bytes of RFC 8259, the text of the first top-level member with the raw key, never a nested one, and none when there is none |
| Json.RequestRead | harness/mcp.py:30-30 | one request with a space after every comma and colon, byte by byte: the top-level id is found |
| Console.EscapedReadsBack | kernel/src/console.rs:59-73 | reading the escaped bytes as a JSON string returns them and stops at the closing quote, whatever follows |
| Console.EscapeIsPrintable | kernel/src/console.rs:59-73 | only printable ASCII, at most six bytes for one |
| Console.EscapeExact | kernel/src/console.rs:59-73 | which bytes stand for themselves, which get a backslash, and which become u00 and two lower-case hexadecimal digits |
| Console.FrameBuf.Write | kernel/src/console.rs:115-125 | all of it fits and is appended, or none is and the frame is poisoned |
| Console.FrameBuf.WriteEscaped | kernel/src/console.rs:59-73 | succeeds exactly when the whole escape fits |
| Console.FrameBuf.Emit | kernel/src/console.rs:83-96 | sends one frame around the contents, or nothing when poisoned |
| Output.OutputFits | kernel/src/payload.rs:1071-1099 | an accepted write of up to 256 bytes always fits one frame |
| Output.EmitOutput | kernel/src/payload.rs:1071-1099 | sends exactly the payload's first 256 bytes, exactly when it could read them itself, and never drops the frame |
| Output.SysWrite | kernel/src/syscall.rs:69-81 | -2 exactly without the capability, -3 exactly when a byte cannot be read, else the number of bytes sent, at most 256 |
| Output.OutputArrives | kernel/src/payload.rs:1085-1096 | the host decodes one frame, and its data string reads back as the payload's bytes |
| Output.BlitFits | kernel/src/payload.rs:1103-1109 | the largest accepted picture fits one frame |
| Output.OnBlit | kernel/src/payload.rs:1119-1174 | errors exactly without the write capability, on bad sizes or on unreadable pixels, in that order; otherwise the whole picture and its checksum are sent |
| Output.DrawRows | kernel/src/payload.rs:1141-1157 | the rows as glyphs and their checksum, exactly when every pixel can be read |
| Output.WriteGlyphs | kernel/src/payload.rs:1152-1156 | one row's glyphs and checksum |
| Members.DigitsRead | kernel/src/payload.rs:1085-1096 | numbers are written so that they read back |
| Members.OutputMembers | kernel/src/payload.rs:1085-1096 | an output frame is one JSON object whose id, pid, caused_by, len and data are the values it was made from |
| Members.BlitMembers | kernel/src/payload.rs:1136-1160 | a picture frame is one JSON object: pid, size, rows of glyphs in order, checksum |
| Members.GlyphLevels | kernel/src/payload.rs:1103-1103 | the ten brightness levels |
| Members.FnvVectors | kernel/src/payload.rs:1141-1153 | the checksum agrees with the published FNV-1a values |
| Rings.Ring.Record | kernel/src/traps.rs:187-195 | the ring keeps the most recent records |
| Rings.Ring.Dump | kernel/src/traps.rs:355-373 | the most recent records, oldest first |
| Rings.TrapLog.Digest | kernel/src/traps.rs:414-446 | the newest notable traps, newest first, within budget, and counters that add up to all of them |
| Rings.Ring.Newest | kernel/src/traps.rs:428-446 | the newest records, newest first, within budget |
| Rings.TrapLog.Record | kernel/src/traps.rs:187-212 | every trap is in the log, the notable ones apart, and the severity counters follow |
| Rings.LogStep | kernel/src/traps.rs:196-211 | one more trap is notable unless it is a timer interrupt, and counts as a system call or a fault |
| Rings.TicksNotNotable | kernel/src/traps.rs:196-211 | no number of ticks evicts a notable trap |
| Rings.OpWindow.Admit | kernel/src/rpc.rs:167-173 | a call is executed exactly when its id is not among the last eight recorded; equal ids are always more than eight apart |
| Rings.Ring.Holds | kernel/src/rpc.rs:563-565 | exactly the records still in the window are seen |
| Rings.CountsAll | kernel/src/traps.rs:199-204 | the system-call and fault counters add up to all notable traps ever |
| Tools.RunSuite | kernel/src/rpc.rs:134-180 | busy exactly while a payload is alive, then duplicate exactly when the id is recent, else recorded and one seed step; a refusal changes nothing and records nothing |
| Tools.KillTool | kernel/src/rpc.rs:197-221 | duplicate exactly when the id is recent; otherwise the id is recorded and exactly a pending payload is killed, with its elapsed time |
| Tools.BudgetTool | kernel/src/rpc.rs:222-252 | duplicate exactly when the id is recent; otherwise the id is recorded and the budget of exactly a pending payload changes |
| Drive.HandleTick | kernel/src/traps.rs:223-272 | one tick: the timer is re-armed; the running payload is killed exactly when over its budget at the second clock reading, else suspended with its registers exactly when input is waiting, else left alone; frames conserved |
| Drive.Serve | kernel/src/traps.rs:217-297 | any call causes exactly the event it should, with its arguments, or nothing when its guard fails; frames are lost only by seeding over held memory or loading an image that loses frames, and always then unless the load was refused |
| Drive.ServePayload | kernel/src/syscall.rs:46-65 | exit, fault, store, spawn and checkpoint calls: the event with the call's arguments exactly when its guard holds; a checkpoint refused for room only when there is none |
| Drive.ServeTool | kernel/src/rpc.rs:128-252 | seed, kill and budget calls: exactly when nobody is alive, or the payload waits, and the id is new; which ids are used up |
| Drive.Drive | kernel/src/main.rs:25-60 | any sequence of calls from boot is a run of the machine in which each call causes its event, with its ticks on the cadence; nothing is lost unless an event may lose; when none may, the idle kernel without checkpoints holds its root frame alone |
| Drive.LosslessExact | kernel/src/payload.rs:495-577 | a run has no event that may lose frames exactly when no seeding finds a killed payload unreaped and no image that loses frames is loaded |
| Drive.TidyLossless | kernel/src/payload.rs:495-577 | with tidy images, exactly when no seeding finds a killed payload unreaped |

## Left out

- PageTables.MapGigapage: only for leaves that grant some access and not to U-mode, as the kernel map uses it.
- PageTables.MapPage: the physical address lies below 2^56, and a pool frame that is mapped with access is in use and in no other place of this space; the callers guarantee both.
- FramePool.Pool.PhysWrite: within one frame only, as every caller uses it; so is FramePool.Pool.PhysRead.
- Kernel.Kernel.MaybePreempt: assumes the trap came from U-mode, and `start` is one step; the source allows ticks while `start` finishes with interrupts on. The branch that allocates a register frame is not modelled, because `start` has already given every running payload one. The exemption of keyboard-reading payloads, in doom builds only, is not modelled.
- Kernel.Kernel.KillPid: called with nobody on the CPU, like set_deadline.
- Kernel.Kernel.LeaveCpu: the rewriting of the trap frame by the redirect is not modelled.
- Launch.MapWindow: the range is aligned and outside the pool, as every window in the image table is.
- Kernel.Kernel.CloseWindow: `run` starts over after a load fault; here that is the next step of the run.
- Kernel.Kernel.UserStore: loads, instruction fetch and the contents of windows outside the pool are not modelled.
- Launch.BuildSpace: the destroy branch after a failed kernel map is not modelled, because a fresh root has that slot free.
- Json.ObjectGet: works on bytes; `str::trim` is modelled for ASCII white space, and character boundaries of `str::get` are not modelled.
- Request.Serial.ReadRequest: stops before the UTF-8 check and the test for an opening brace.
- Timer.DeadlineBound: the clock does not wrap at 64 bits.
- Elf.Load: which images lose frames is stated for a pool that does not run short; when it does, where the load stops depends on the free frames, and the loss is stated from where it stopped.
- Drive.Drive: calls arrive one after another; interrupts inside a call are not modelled. Whether a checkpoint call is refused for lack of frames is stated per call by `Drive.Serve`, one way, because the machine state shows no frames. A denied capability's event frame is not part of it.
- Kernel.Kernel.constructor: the image table is a parameter of at least thirteen images, each shorter than 2^64 bytes with its window, if any, outside the pool.
- Rings.OpWindow.Admit: states idempotency over 64-bit hashes, not over the strings.
- Assembly, CSRs, SBI calls, satp switching and TLB fences.
- The bytes served between slices, the stashed byte, and the autonomy and surface switches.
- JSON rendering of faults, process table, specification, tools, resources and responses.
- `write_json_escaped` for panic text, base64 frame chunks and the doom key protocol.
- The payload programs, the host runner, evals and demos.
