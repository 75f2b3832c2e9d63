# SacabambaspOS, modelled and proved

SacabambaspOS is a freestanding x86-64 kernel with its own page tables, a ring-3 program
loader, an xHCI keyboard driver, a framebuffer console with a shell, and a UEFI boot stage.
This project models the parts of it that keep state and decides what they promise.

* **Virtual memory and exec.** `PageTable` is the processor's four-level walk as a recursive
  function over a set of table pages, with the frame lemmas that say what one store can
  change. `Memory`, `Paging` and `Proc` are the bump heap, the in-place table code and the
  ELF loader as classes; each operation is proved to refine an update of a plain map from
  page number to (frame, W, U, X). `UserSpace`, `Elf`, `ExecImage` say what ring 3 sees.
  `Session` runs boot and then any mix of programs, failed loads, device mappings and
  allocations. `PteBits` ties the entry records to the 64-bit words.
* **xHCI.** `XhciRing` and `XhciEvents` are the producer and consumer rings against a
  controller that may act between any two stores (sections 4.9.2 to 4.9.4 and 4.11.5.1 of
  the xHCI specification). `XhciTransfers` joins them: commands, control transfers and the
  keyboard pipe, and how much each can leave outstanding. `XhciDevices` is the slot table
  under the mutually recursive enumeration, any command of which may fail.
* **Console and shell.** `Console` shows on the shadow buffer and the screen a pure rendering
  of the cells, but for a set of stale cells that is a function of the calls; `Terminal` is
  that pure grid; `LineEditor` and `Tokenizer` work on it as the shell does.
* **Boot, archive, keyboard, snake.** `KernelImage` and `KernelLoad` are the static-PIE
  loader with its unsigned 64-bit arithmetic, `Division` the 32-bit stage's division; `Pak`
  is the archive's writer and reader, `ProcExec` the lookup in front of the loader; `Kbd` is
  the PS/2 ring and decoder; `Snake` is the game, down to its picture on the console.
  `ElfExamples` and `KernelExamples` are concrete files, written with `WordFiles`.

Methods follow the C code's stores and loops; functions and predicates are their
specification; lemmas prove what the code is for about the specification. Integers are
unbounded, and 64-bit wrap-around is written out where the code can reach it. Addresses are
byte numbers; pages are numbered by address / 4096.

What a specification function says is stated a second time without it, in the file's own bytes
and bits or in numbers: `ExecImage.StartsAsFiled` and `AcceptedIff`, `Session.InitExact`,
`KernelImage.HeaderIs`, `LoadableIff` and `LayoutIs`, `XhciTransfers.SetupBytes` and
`StageWords`, `XhciEvents.EventWords`, `Terminal.TextStands`, the key tables of `Kbd`,
`Tokenizer.AnyLine`, `Pak.ArchiveExample`.

Things found to differ from what one would expect, each with its exact condition and an
input at which it happens:

* Early returns of the ELF loader keep what was already mapped (`Proc.LeftBehind`,
  `ElfExamples.NothingLeftIff`; `ElfExamples.RefusedAfterOpening`). A run that returns 0
  empties the window iff all that was open lay in its own span or stack (`Proc.EmptiesIff`).
* Two segments in one page replace each other's frame (`ExecImage.FaithfulIffAgree`;
  `ElfExamples.SharedPageLost`).
* The range list of `paging_init` omits the program archive (`Session.PakReachable`;
  `Session.PakLost`).
* A fullscreen scroll carries the old cursor block along (`Console.Screen.PutcBottom`,
  `Console.Screen.NewlineTrace`; `Console.TraceExample`).
* `con_clear` on a panel paints the panel, not the background colour it records
  (`Console.Screen.Clear`; `Console.PanelExample`).
* The boot loader's range tests wrap, so it can leave its pages (`KernelImage.OnlyWrapsStray`,
  and `KernelImage.LeavesPagesIff` in terms of the file; `KernelExamples.TableOutside`,
  `KernelExamples.TargetOutside`).
* Nothing empties a transfer ring whose transfers time out, so 85 failed transfers can fill
  a control pipe. One push more and the controller, were it to go on, finds nothing; 255 more
  and it finds the newest request, with everything before it lost
  (`XhciTransfers.Control.Bound`, `XhciRing.AnyLook`; `XhciTransfers.StoppedPipe`,
  `XhciTransfers.LateReport`).
* Snake's border scrolls the screen when the board fills the console
  (`Snake.Board.Border`; `Snake.BorderExample`).

## Model

| member | source | states |
|---|---|---|
| PageTable.AscendWalk | src/kernel/paging.c:47-48 | The hardware walk seen from any table on the way gives the same answer as from the root: upper levels never remove a permission a leaf grants, so the leaf alone decides |
| PageTable.FrameAway | src/kernel/paging.c:77-82 | Rewriting one entry leaves alone every page whose walk does not meet that entry; the frame rule behind every store |
| PageTable.AttachTree | src/kernel/paging.c:40-51 | Hanging a fresh table of leaves (or zeros) under an absent or large entry keeps the tables a tree with no table reached twice |
| PageTable.AttachZeroView | src/kernel/paging.c:41-44 | An absent entry replaced by a link to a zeroed table translates nothing new, for any page |
| PageTable.SplitView | src/kernel/paging.c:66-73 | Replacing a 2 MiB leaf by the 512-entry table translates every page exactly as before, also when U is set on the link |
| PageTable.GrantView | src/kernel/paging.c:47-49 | Setting U on an existing link changes no translation, because below it nothing carries U unless the link already did |
| PageTable.LeafTree | src/kernel/paging.c:77-82 | Writing or clearing a leaf where no link stood keeps the tree |
| PageTable.SmallLeafView | src/kernel/paging.c:80 | The 4 KiB store changes the view of exactly one page, to exactly what was asked; all other pages keep theirs |
| PageTable.LargeLeafView | src/kernel/paging.c:56 | The 2 MiB store changes the 512 pages of one region together and no other page |
| PteBits.LinkWord | src/kernel/paging.c:44 | The 64-bit word stored for a link decodes to exactly present, writable, user as asked, no PS, no NX, and the table address |
| PteBits.GrantWord | src/kernel/paging.c:48 | OR-ing PTE_U into any entry decodes to the same entry with U set |
| PteBits.LeafWord | src/kernel/paging.c:56 | Flags and an aligned address OR-ed together decode to exactly those flags and that address, small or large leaf |
| PteBits.SplitAddress | src/kernel/paging.c:71 | Adding i<<12 to a 2 MiB-aligned base is the same as OR-ing it in: it never carries out of the region |
| PteBits.SplitOffset | src/kernel/paging.c:71 | i<<12 stays within the bits PteBits.SplitWord asks of it, for all 512 i |
| PteBits.SplitWord | src/kernel/paging.c:69-71 | Each word written while splitting decodes to the large leaf's permissions at base + 4096 i: the sum never carries into other fields |
| Memory.Heap.constructor | src/kernel/kmain.c:33-36 | The heap starts empty at the boot range |
| Memory.Heap.Kalloc | src/kernel/kmain.c:37-42 | A block lies above everything handed out before and inside the heap, or the heap is too full and nothing is taken but alignment |
| Memory.Heap.KallocPage | src/kernel/kmain.c:43-48 | A page is handed out exactly when one is left; it is zeroed, aligned, nonzero, never a page in use, and lowers the room by one |
| Paging.PageTables.NextLevel | src/kernel/paging.c:40-51 | Whether it allocates, grants U or only reads, no page's translation changes; with user, ring 3 has U on the whole way down; it fails only at a large leaf or an exhausted heap |
| Paging.PageTables.SplitTable | src/kernel/paging.c:67-71 | The fill loop leaves exactly the split of the large leaf in a fresh table before anything points to it |
| Paging.PageTables.SplitLargePage | src/kernel/paging.c:66-73 | The split keeps every translation; on failure nothing at all changes |
| Paging.PageTables.PtFor | src/kernel/paging.c:62-75 | Reaching or making the page table of va changes no translation, and fails only for want of memory |
| Paging.PageTables.Map4k | src/kernel/paging.c:77-82 | On success a one-point update of the translation map; on failure every page translates as before; failure only when the heap is full |
| Paging.PageTables.Map2m | src/kernel/paging.c:53-58 | On a space without 4 KiB tables: exactly the 512 pages of the region become the large mapping |
| Paging.PageTables.EnsureRegion | src/kernel/paging.c:96-100 | One region becomes identity RW+NX where it was absent and is left as it was where any entry was present |
| Paging.PageTables.EnsureIdentity | src/kernel/paging.c:92-103 | Adds identity mappings only inside the rounded range and only where nothing was mapped; unless the heap ran out, the whole range is served; no existing translation changes |
| Paging.PageTables.UserMap | src/kernel/paging.c:105-109 | Inside the window a one-page update with U and the asked W and X; outside it refuses; failure changes nothing |
| Paging.PageTables.UserUnmapRange | src/kernel/paging.c:111-121 | Nothing of the range is left to ring 3, every page outside it translates as before, and a kernel mapping inside is kept whole or gone |
| Paging.PageTables.UserOk | src/kernel/paging.c:177-189 | Exact: true iff len is 0, or the range lies in the window and every page of it is user-readable under the four-level walk with U required at each level |
| Paging.PageTables.Protect | src/kernel/paging.c:85-90 | Exactly the pages of the rounded range get the identity mapping with these flags; failure only for want of memory |
| Paging.PageTables.InitLow | src/kernel/paging.c:134-136 | After the first loop the low 4 GiB is identity RW+NX and nothing else is mapped |
| Paging.PageTables.InitExtra | src/kernel/paging.c:150-155 | One listed range adds its 2 MiB regions above 4 GiB and keeps the rest |
| Paging.PageTables.Init | src/kernel/paging.c:131-160 | On success every page of the address space translates to what the section and range lists say, page by page; it fails only for want of memory |
| UserSpace.WindowIs | src/kernel/kernel.h:58-60 | The user window, the stack and the guard page, in addresses |
| UserSpace.MapFresh | src/kernel/paging.c:105-109 | Mapping a fresh frame in the window keeps ring 3 confined, frames unshared and W^X, and places exactly that frame |
| UserSpace.UnmapKeeps | src/kernel/paging.c:111-121 | Unmapping takes the range from ring 3 and keeps confinement and all kernel translations |
| UserSpace.IdentityKeeps | src/kernel/paging.c:92-103 | Identity mappings outside the window leave everything ring 3 sees where it was |
| Elf.CopiedPage | src/kernel/proc.c:103-110 | The zeroed frame with its computed slice copied in equals that page of the segment byte for byte, for every alignment of vaddr and filesz |
| Elf.SegInWindow | src/kernel/proc.c:135-140 | A segment the checks let through covers only pages of the window below the stack guard page, and is never both writable and executable |
| Proc.Kernel.FillFrame | src/kernel/proc.c:101-110 | A fresh frame holds exactly the segment's page |
| Proc.Kernel.LoadPage | src/kernel/proc.c:101-111 | One page of the segment appears in ring 3's view, replacing what was there; everything else stays; without memory the view is as before |
| Proc.Kernel.LoadSegment | src/kernel/proc.c:97-116 | All pages of the segment, and no others, show it afterwards; when memory runs out, exactly those up to the page reached do |
| Proc.Kernel.LoadSegments | src/kernel/proc.c:131-142 | After the loop ring 3's view is exactly the image of all headers over what was there; ended early, exactly that of the headers before, and of the pages reached in the last one |
| Proc.Kernel.LoadStack | src/kernel/proc.c:145-148 | The stack pages are zeroed, RW, NX, up to the page reached, and nothing else has changed |
| Proc.Kernel.Load | src/kernel/proc.c:118-148 | 0 only for acceptable files, -1 only for others, -2 only when the heap is exhausted; in each case the view is exactly the image of what was handled over what was there; what that means for the bytes and bits of the file is ExecImage.StartsAsFiled |
| Proc.Kernel.UserStore | src/kernel/proc.c:151 | A store by the program goes through exactly when the walk grants ring 3 a write: then that byte of the frame at the translated address changes and nothing else; otherwise nothing does |
| Proc.Kernel.UserEnter | src/kernel/proc.c:151 | Any run of the program changes only frames ring 3 may write; no translation and no other frame; the entry, with its start address, its stack pointer and the memory it finds, is put on record |
| Proc.Kernel.ElfRun | src/kernel/proc.c:118-157 | On 0 the program has been entered exactly once, at the address in the ELF header and the top of the stack, over exactly the image of this file; on -1 and -2 nothing has been entered and exactly the pages loaded so far are added. Ring 3 stays confined and kernel translations are untouched whatever is returned; on 0 the image span and stack are gone and every other page is open to ring 3 iff it was before |
| Proc.RunUsers | src/kernel/proc.c:150-155 | While the program runs, every page outside the image span and the stack is open to ring 3 iff it was before |
| Proc.EmptiesIff | src/kernel/proc.c:150-156 | After a run that returns 0 the window is empty iff every page that was open before lies in the program's span or the stack |
| Proc.SpanBounds | src/kernel/proc.c:113-114 | [img_lo, img_hi) stays in the window, clear of the guard page and stack, and covers every segment |
| Proc.LeftBehind | src/kernel/proc.c:135-143 | After an early return the pages open to ring 3 are exactly those open before plus those of the headers already handled |
| Proc.LeftByOom | src/kernel/proc.c:141-147 | Running out of memory leaves open exactly what was open, the headers handled, and the pages reached of the next one or of the stack |
| ElfExamples.NothingLeftIff | src/kernel/proc.c:131-143 | What an early return adds to the window is nothing iff every page of the headers before the first bad one was open already; from an empty window, iff none of them loads anything |
| ElfExamples.RefusedAfterOpening | src/kernel/proc.c:139-141 | A concrete 176-byte file is refused at its second header after the first one's page was opened to ring 3 |
| ElfExamples.SharedPageLost | src/kernel/proc.c:100-111 | A concrete accepted file with two segments in one page for which no loading can be faithful |
| ExecImage.FaithfulIffAgree | src/kernel/proc.c:97-142 | Memory shows every segment as the file describes it iff segments sharing a page agree on the whole page |
| ExecImage.StartsExact | src/kernel/proc.c:97-157 | From an empty window and page-disjoint segments, ring 3 starts with exactly the image, a zeroed stack, and nothing else |
| ExecImage.SegmentBytes | src/kernel/proc.c:97-116 | Byte by byte a segment reads file[off+k] for k < filesz and zero up to memsz, with its own W and X |
| ExecImage.StartsAsFiled | src/kernel/proc.c:97-157 | In the file's own bytes: when a program is entered, a segment that shares no page reads as the file has it at p_offset, p_vaddr, p_filesz and p_memsz, little-endian at their ELF-64 places, and its pages are writable iff bit 1 of p_flags is set and executable iff bit 0 is or there is no NX |
| ExecImage.AcceptedIff | src/kernel/proc.c:118-143 | In the file's own bytes and in numbers: exactly which files elf_run does not refuse |
| ExecImage.BothRefused | src/kernel/proc.c:139-140 | A loadable header whose p_flags byte has bits 0 and 1 makes the file unacceptable, whatever else it holds |
| ElfExamples.TextAndData | src/kernel/proc.c:139 | Concrete files: a segment with flags 5 comes out executable and not writable, one with flags 6 writable and not executable |
| Session.InitIdentity | src/kernel/paging.c:134-155 | After paging_init every mapped page maps to itself, none has U, and all pages below 4 GiB or in a listed range are mapped |
| Session.InitExact | src/kernel/paging.c:134-155 | Exactly which pages paging_init maps, from the boot information and the image alone: the first 4 GiB and every 2 MiB region holding a byte of the heap, the framebuffer (4 bytes a pixel of its pitch), the splash, init.rc, the kernel or the LAPIC page; each to itself, RW and NX outside the kernel |
| Session.HandedMapped | src/kernel/paging.c:142-155 | Each byte of those six areas can be reached at its own address |
| Session.HighFramebuffer | src/kernel/paging.c:144 | A 1920 by 1080 framebuffer at 256 GiB is mapped up to its last pixel, and the region behind it is not |
| Session.InitSectionsProtected | src/kernel/paging.c:157-160 | After paging_init text is executable and never writable, rodata read-only and NX, data NX, and with NX support no page is both writable and executable |
| Session.InitHeap | src/kernel/paging.c:142-155 | After paging_init every heap page is mapped RW at its own address, so tables and frames can be written through their physical addresses |
| Session.HeapStays | src/kernel/paging.c:40-121 | The heap stays mapped so through everything that keeps the kernel's translations |
| Session.PakReachable | src/kernel/paging.c:142-149 | A page of BIN.PAK is mapped iff it lies below 4 GiB or some listed range happens to cover it: the list itself omits it |
| Session.PakLost | src/kernel/paging.c:142-149 | Concrete boot information with the archive at 5 GiB: its page is not mapped |
| Session.BootConfines | src/kernel/paging.c:123-160 | After paging_init nothing is open to ring 3 and the confinement and W^X invariants hold |
| Session.BootConfinesIff | src/kernel/paging.c:123-160 | Ring 3 is confined after paging_init iff no range in the list meets the user window |
| Session.Boot | src/kernel/paging.c:123-172 | paging_init maps what the lists say, and then every byte handed over at its own address, or the heap ran out; the result confines ring 3 iff no range in the list meets the user window, and then all of the above holds |
| Session.IdentityKeepsWX | src/kernel/paging.c:92-103 | Device identity ranges keep kernel W^X |
| Session.WholeWX | src/kernel/paging.c:105-160 | Kernel W^X and confinement together are W^X of the whole address space |
| Session.Run | src/kernel/proc.c:97-157 | Over every run of exec (of any bytes, failed or not), device mappings and allocations: each does what it is for (an acceptable program is entered once, a device range is mapped, the bytes are taken off the heap) unless the heap ran out; tables stay a tree of fresh pages apart from user frames, every user leaf has U at all levels inside the window and off the guard page, W^X holds, no kernel translation changes; each program ever entered found itself confined so |
| ProcExec.Exec | src/kernel/proc.c:161-171 | -1 exactly for names no entry of the archive has, with nothing touched or entered; otherwise 0, and the first entry of that name has been run: entered exactly once over the image of just its bytes of the archive, or, if that file is refused or memory runs out, not entered and with the pages open that were reached; ring 3 confined and kernel translations untouched either way |
| XhciRing.DataLook | src/kernel/usb.c:72-85 | At any data slot and moment the controller sees the next unread request, or not-owned when there is none; never a half-written or stale one |
| XhciRing.TrbWords | src/kernel/usb.c:72-83 | Bit 0 of a control word is the cycle, bits 10 to 15 the type; the link word has type 6 and toggles |
| XhciRing.LinkLook | src/kernel/usb.c:73-79 | The Link TRB is owned by the controller exactly when the driver has gone past it, and sends it to slot 0 with the toggle |
| XhciRing.OverrunStalls | src/kernel/usb.c:72-85 | The bound is tight: pushing with 255 outstanding leaves the controller before a slot it does not own, from every state |
| XhciRing.AnyLook | src/kernel/usb.c:72-85 | However many are outstanding, the controller finds at its slot the newest request written there if an odd number of laps of requests lie ahead, and nothing otherwise |
| XhciRing.AnyLink | src/kernel/usb.c:73-79 | The Link TRB lets it through after an odd number of laps and not after an even one |
| XhciRing.TornLook | src/kernel/usb.c:81-83 | With 255 outstanding (and every 510 more) a look between the stores takes the slot being rewritten: new address and length so far, old control word |
| XhciRing.RingfulOk | src/kernel/usb.c:64-85 | From ring_init on, any number of pushes leave the last 255 requests in their slots with their lap's cycle bit |
| XhciRing.LeftBehind | src/kernel/usb.c:64-85 | A controller left behind by any number of pushes finds the next request (up to 255 outstanding), nothing (256 to 510), the request 510 later (511 to 765), and so on |
| XhciRing.Ring.constructor | src/kernel/usb.c:64-69 | Both sides start at slot 0 with cycle state 1 on zeroed memory, and agree |
| XhciRing.Ring.ControllerStep | src/kernel/usb.c:71-85 | One look at any moment yields the next request in push order, or a link step, or waits only when nothing is outstanding; with more than 255 outstanding it yields the request whole laps later that AnyLook names |
| XhciRing.Ring.ControllerDrains | src/kernel/usb.c:71-85 | A controller that keeps going takes everything outstanding in order and stops |
| XhciRing.Ring.WriteLink | src/kernel/usb.c:73-79 | Writing the Link TRB with the controller running in between leaves exactly that word changed, starts the next lap and, with room, hands over nothing wrong |
| XhciRing.Ring.StoreBody | src/kernel/usb.c:81-82 | Between the stores the slot keeps its old control word; with room it is still not the controller's, which meanwhile takes only earlier requests, in order |
| XhciRing.Ring.StoreControl | src/kernel/usb.c:83 | The control store appends exactly the request to the sequence the controller will see |
| XhciRing.Ring.Push | src/kernel/usb.c:72-85 | From every state: the pushed request is appended once and memory becomes exactly what the stores say, whatever the controller does meanwhile; with fewer than 255 outstanding all it takes meanwhile is the pushed sequence continued, over any number of wraps |
| XhciRing.Ring.Recover | src/kernel/usb.c:457-458 | Pointing the controller at t[enq]|cyc re-synchronises both sides from every state, also with enq at the unwritten link slot |
| XhciEvents.HandledAll | src/kernel/usb.c:225-247 | After any run of events the waiter is done iff it was or one of them was its completion, and reports the last such code |
| XhciEvents.HandleJoins | src/kernel/usb.c:225-247 | Handling a run of events is handling its two parts in turn |
| XhciEvents.NextEvent | src/kernel/usb.c:252-255 | The cycle test at ev_deq is true iff an unread event is there, and what is read is that event |
| XhciEvents.EventWords | src/kernel/usb.c:225-246 | Completion code, slot, endpoint and type of an event whose words are laid out as section 6.4.2 of the xHCI specification has them are read as what they are |
| XhciEvents.EventRing.constructor | src/kernel/usb.c:249-257 | Both sides of the event ring start in agreement |
| XhciEvents.EventRing.ControllerWrites | src/kernel/usb.c:249-262 | The controller, never overrunning ERDP and toggling each lap, keeps the ring invariant |
| XhciEvents.EventRing.PollOne | src/kernel/usb.c:252-258 | One round hands exactly the next event to the handler, however the controller writes meanwhile |
| XhciEvents.EventRing.Poll | src/kernel/usb.c:249-262 | Each event is handled once, in order, over unboundedly many laps; all that was pending at the start is handled; it returns the number handled, which is under 256, so the limit of 512 is out of reach |
| XhciEvents.EventRing.WaitDone | src/kernel/usb.c:265-274 | A code is returned exactly when the armed completion came by, and it is the last such one's, with its slot for a command; -1 otherwise; the waiter is disarmed |
| XhciEvents.EventRing.CmdExec | src/kernel/usb.c:277-284 | Once the command is at its address: code and slot are those of the last completion event naming that address, or -1 and none came by |
| XhciTransfers.Control.Bound | src/kernel/usb.c:286-299 | On a control pipe, on a slot never used or used before, with a controller that reports a success once and not early: at most three requests are outstanding for each transfer that ever failed or timed out |
| XhciTransfers.Control.Xfer | src/kernel/usb.c:286-299 | The transfer's two or three requests are appended; it counts as a success only with a success event of its own; with at most 84 failures before, the controller takes only what was pushed, in order and whole |
| XhciTransfers.SetupBytes | src/kernel/usb.c:289 | The setup word is, byte by byte, the USB setup packet: bmRequestType, bRequest, wValue, wIndex, wLength |
| XhciTransfers.StageWords | src/kernel/usb.c:290-295 | Types 2, 3, 4 in that order; immediate data on the setup request only, interrupt on the status request only; transfer type and data direction from bit 7 of bmRequestType, status the other way |
| XhciTransfers.FirstRequest | src/kernel/usb.c:287-295 | The three requests of GET_DESCRIPTOR for 18 bytes, in numbers |
| XhciTransfers.Control.SendAll | src/kernel/usb.c:291-295 | Setup, data and status go into the ring in that order, one push each, with the controller running in between |
| XhciTransfers.Control.constructor | src/kernel/usb.c:361-367 | A fresh pipe on a slot starts with no failures, whatever the slot's former owner was told |
| XhciTransfers.Control.Run | src/kernel/usb.c:286-299 | Over any transfers: before each of them, if the controller has been honest so far, at most three requests are outstanding for each failure so far; while there are at most 84 failures it takes exactly what was pushed |
| XhciTransfers.WholeBound | src/kernel/usb.c:286-299 | What is not taken belongs to transfers not wholly taken, at most three requests each |
| XhciTransfers.StoppedPipe | src/kernel/usb.c:72-85 | An input: any 85 transfers with data put 255 requests in the ring of a pipe that has stopped; the controller would find the first of them, after 1 to 255 more pushes nothing, after 256 to 510 more the newest request with all before it lost |
| XhciTransfers.LateReport | src/kernel/usb.c:239-242 | An input: of two transfers the controller has taken the first, which timed out; its success event, handled now, tells the waiter for the second that it is done, while all three requests of the second are outstanding; so failures since the last success bound nothing |
| XhciTransfers.Commands.Bound | src/kernel/usb.c:277-284 | On the command ring at most one command is outstanding for each that timed out since the last completion |
| XhciTransfers.Commands.Exec | src/kernel/usb.c:277-284 | The command is appended and its code and slot returned; with fewer than 255 timeouts in a row an answer is that of the completion of this very command, never of an earlier one at the same address, and then nothing is outstanding |
| XhciTransfers.Commands.Answered | src/kernel/usb.c:227-230 | A completion naming the address of command n, after fewer than 255 timeouts, is completion number n |
| XhciTransfers.Keyboard.Arm | src/kernel/usb.c:219-223 | When all that was queued has been reported or given up, the push has room and appends one report request |
| XhciTransfers.Keyboard.OnEvent | src/kernel/usb.c:234-239 | A report arms the pipe again, any other code asks for recovery and arms nothing |
| XhciTransfers.Keyboard.Recover | src/kernel/usb.c:453-461 | Recovery points the controller past what is queued and arms once, or gives the keyboard up when a command fails |
| XhciTransfers.Keyboard.Run | src/kernel/usb.c:216-239 | Over every run of controller steps, reports and recoveries at most one request is outstanding on the keyboard pipe |
| XhciDevices.SlotsCount | src/kernel/usb.c:339-343 | No more used devices with slots than slots: owned slots are pairwise distinct |
| XhciDevices.SomeFree | src/kernel/usb.c:339-343 | With at most 15 slots owned one to one, one of the 16 records is free: dev_alloc cannot fail between operations |
| XhciDevices.Adopt | src/kernel/usb.c:356-368 | Giving a free record a slot nobody owned keeps the one-to-one table |
| XhciDevices.Drop | src/kernel/usb.c:345-352 | Dropping a record clears its slot's entry and keeps the table one-to-one, whether or not Disable Slot succeeds |
| XhciDevices.Xhci.DevAlloc | src/kernel/usb.c:339-343 | Always finds a record that is not in use, the first one |
| XhciDevices.Xhci.DevDrop | src/kernel/usb.c:345-352 | The record is free, its slot's dcbaa entry zero, everything else as before |
| XhciDevices.Xhci.EnumDevice | src/kernel/usb.c:354-450 | With any command or transfer failing at any point: the table is right on return, records in use are as they were, and the recursion terminates. It succeeds iff a slot in range that was not enabled is granted and heard of, its context could be allocated and the device described itself; then the first free record is that device's, with the slot granted, its place and its kind, and nothing else has changed but that a hub's ports have been scanned. Otherwise the records in use are the same |
| XhciDevices.Xhci.Identify | src/kernel/usb.c:370-449 | Descriptors missing: exactly this record is dropped; else it stays, a keyboard iff it is no hub and one was configured, and a hub with its ports scanned iff it sits on a root port and could be set up |
| XhciDevices.Xhci.HubSetup | src/kernel/usb.c:501-522 | A hub whose descriptor comes gets its port count, at most 15; if its slot can be marked it becomes a hub and its ports are scanned; else no port is |
| XhciDevices.Xhci.HubScan | src/kernel/usb.c:471-499 | Afterwards the hub's attached bits are what the scanned ports reported; devices on detached ports are gone, those on attached or unscanned ports unchanged; a newly attached port has a device, as found there, only if it came up enabled and nothing failed, and does have it if besides its slot was new; the scan covers all ports or ends at a failing one; the table is right |
| XhciDevices.Xhci.ScanPort | src/kernel/usb.c:472-498 | One port's turn: its attached bit follows the report; a newly attached port gets a device iff it comes up enabled, the hub stays there and enumeration finds nothing missing; a detached one loses its device; nothing else changes |
| XhciDevices.Xhci.DropPort | src/kernel/usb.c:540-543 | Exactly the records on that root port are dropped |
| XhciDevices.Xhci.DropBelow | src/kernel/usb.c:491-496 | Exactly the port's bit and the records behind it go; every other record is unchanged |
| XhciDevices.Xhci.DevOnRoot | src/kernel/usb.c:525-530 | Reports exactly whether a used record sits directly on the port |
| XhciDevices.Xhci.PortScan | src/kernel/usb.c:534-573 | Disconnected: exactly the records of the root port go; connected with its device, or not ready: nothing changes; empty and ready: the device comes up iff enumeration finds nothing missing, else the records in use are the same; the table is right in each case |
| XhciDevices.Xhci.Run | src/kernel/usb.c:534-573 | Over every run of port scans and hub rescans: each comes to what PortScan and HubScan say; for s >= 1 dcbaa[s] is nonzero iff exactly one used record owns slot s, and no two records share a slot |
| Console.Geometry.GridFits | src/kernel/console.c:131-143 | The checks of con_init put the whole text grid on the screen, and in panel mode inside the panel |
| Console.Geometry.PanelTaken | src/kernel/console.c:127-141 | con_init takes the panel iff there is a splash and memory, the panel lies on the screen and leaves room for a character inside its padding; columns, rows and the grid's corner then follow from the panel, otherwise from the whole screen |
| Console.Screen.constructor | src/kernel/console.c:121-148 | The buffers have the sizes the geometry asks for |
| Console.Screen.Blit | src/kernel/console.c:78-81 | Exactly the rectangle of the screen equals the shadow afterwards |
| Console.Screen.PixelFor | src/kernel/console.c:87-107 | The value computed for a pixel is the ink of its cell: glyph bit, cursor inversion, solid or panel background |
| Console.GlyphIs | src/kernel/console.c:93-95 | The font starts at the space and has one glyph for each printable character; anything else is drawn as a space |
| Console.Screen.RenderCell | src/kernel/console.c:87-107 | The cell's 128 shadow pixels become the pure rendering of the cell; no other pixel changes |
| Console.Screen.PaintCell | src/kernel/console.c:109-112 | One more cell is shown right on shadow and screen, all others as before |
| Console.Screen.SetCursor | src/kernel/console.c:176 | From any screen: the cursor's cell is shown right, the text is the same, and no other cell becomes wrong |
| Console.Screen.SetXY | src/kernel/console.c:179-185 | From any screen: the cursor moves (clamped), the cell it left and the one it reached are shown right, and no other cell becomes wrong |
| Console.Screen.ScrollCells | src/kernel/console.c:205-206 | The cell memmove is the grid shifted up by one row with a blank last row |
| Console.Screen.Redraw | src/kernel/console.c:207-214 | In panel mode every cell is shown right after scrolling |
| Console.Screen.ShiftPixels | src/kernel/console.c:217-221 | The pixel memmove and band fill move every shadow row up one text row, blank the last, and put the grid on screen |
| Console.Screen.Scroll | src/kernel/console.c:204-222 | In panel mode everything is shown right after a scroll; fullscreen, memmove plus fill gives the picture of re-rendering every cell, given a blank space glyph, except that stale cells and the one with the cursor move up as they were |
| Console.Screen.Putc | src/kernel/console.c:224-239 | From any screen: cells and cursor become what the terminal model says (Terminal.NewlineGoesDown to Terminal.TextStands say what that is), and the cells shown wrong are at most those StaleAfterPutc names: a stale cell is repaired by the cursor leaving or reaching it or by a panel scroll; a fullscreen scroll moves the others up, and with them the cell under the cursor |
| Terminal.NewlineGoesDown | src/kernel/console.c:227-236 | A newline ends in column 0 of the next row with the cells as they were; on the last row they move up one and the last one is blank |
| Terminal.ReturnGoesBack | src/kernel/console.c:228 | A return ends in column 0 of the same row and changes no cell |
| Terminal.CharacterGoesRight | src/kernel/console.c:232-236 | Any other character is put under the cursor, which moves one to the right, or to the start of the next row, scrolling below the last |
| Terminal.BackspaceTakesBack | src/kernel/console.c:229-235 | A character and a backspace leave the cursor where it was, on a blank |
| Terminal.BackspaceAtTheEdge | src/kernel/console.c:229-231 | In column 0 a backspace does nothing |
| Terminal.TextStands | src/kernel/console.c:224-239 | Any text of lines shorter than a row, printed from column 0 with room below, stands line under line from column 0, and no other row changes |
| Console.Screen.PutcBottom | src/kernel/console.c:236 | After a fullscreen scroll the cell that moved up from under the cursor is right iff it looks as it did with the cursor on it; on a console of one row it is gone |
| Console.Screen.NewlineTrace | src/kernel/console.c:236 | For a newline that is: iff the cursor was hidden or its cell's two colours are one pixel value; otherwise an inverted cell stays |
| Console.Screen.Clear | src/kernel/console.c:187-202 | Fullscreen or on black all cells but the cursor's are shown right; in panel mode on another background a pixel is right iff the panel has that colour there |
| Console.Screen.ClearWrong | src/kernel/console.c:187-202 | A panel pixel of another colour than the background leaves a cell off the cursor wrong after con_clear |
| Console.Screen.OneCall | src/kernel/console.c:176-239 | Each of con_putc, con_setxy, con_cursor, con_color and con_clear, from any screen and in either mode: text, colours and stale cells become those of the pure step |
| Console.Screen.Session | src/kernel/console.c:176-239 | Over every sequence of these calls, in either mode and from any screen: text and cursor are the fold of the terminal model, and every cell outside the fold of the stale set shows exactly its rendering on shadow and screen |
| Console.Screen.FromBoot | src/kernel/console.c:121-239 | From con_init's clear on, over any calls: in panel mode, cleared only on black, at most the cursor's cell is ever wrong and none after a call that paints; fullscreen, at most one cell a row |
| Console.PanelStale | src/kernel/console.c:176-239 | In panel mode, with clears on black only, the stale set never holds more than the cursor's cell, and is empty after each painting call |
| Console.TracesOnePerRow | src/kernel/console.c:204-236 | Fullscreen, however many scrolls: at most one stale cell a row, and on the last row none but the cursor's |
| Console.TraceExample | src/kernel/console.c:236 | A concrete fullscreen console of 80 by 30: cleared, cursor on the last row, newline; the block left on row 28 is wrong, and nothing else |
| Console.PanelExample | src/kernel/console.c:187-202 | A concrete panel of 400 by 300 in 640 by 480: cleared on a colour the panel lacks, a cell off the cursor is wrong |
| LineEditor.LeftRight | src/kernel/shell.c:241-242 | Left and Right undo each other wherever both move |
| LineEditor.UpAndDown | src/kernel/shell.c:245-255 | Up goes one line back in the history and Down one forward, past the last to an empty line; neither moves beyond the ends |
| LineEditor.UpRecalls | src/kernel/shell.c:245-255 | k times Up from a fresh line shows the k-th last line entered |
| LineEditor.HomeEndDelete | src/kernel/shell.c:234-244 | Home and End move the cursor and not the line; Delete takes the character after the cursor alone |
| LineEditor.TypeInserts | src/kernel/shell.c:256-261 | A printable character goes in before the cursor; in a full line nothing does |
| LineEditor.TypeAndErase | src/kernel/shell.c:227-261 | Typing a character and Backspace restore the line and cursor |
| LineEditor.Editor.Memmove | src/kernel/kmain.c:15-21 | Overlapping copies in either direction move the old bytes, and no byte outside the target changes |
| LineEditor.Editor.RenderLine | src/kernel/shell.c:195-217 | Whatever the row showed from px on, it now shows the line, then blanks over what the line was before, then what was there; no other row changes, nothing wraps or scrolls |
| LineEditor.Editor.Backspace | src/kernel/shell.c:227-233 | Buffer, cursor and row follow removing the character left of the cursor |
| LineEditor.Editor.Delete | src/kernel/shell.c:234-240 | Buffer, cursor and row follow removing the character at the cursor |
| LineEditor.Editor.Insert | src/kernel/shell.c:256-261 | Buffer, cursor and row follow inserting at the cursor |
| LineEditor.Editor.Recall | src/kernel/shell.c:245-255 | Buffer, cursor and row become the recalled history line, longer or shorter than the old one |
| LineEditor.Editor.Keystroke | src/kernel/shell.c:223-262 | Every key but Enter: buffer, cursor and row equal the two-halves edit, cur <= len < max, the line fits the row |
| LineEditor.Editor.ReadLine | src/kernel/shell.c:219-263 | For any keys up to Enter the buffer ends as the NUL-terminated fold of the edits, the line fits the prompt, the row shows it, and only Enter moves to the next row; before each key is read the row shows the line so far, with the cursor at the place edited |
| LineEditor.Editor.Remember | src/kernel/shell.c:318-322 | The line is appended and the oldest of 16 makes room; the history still fits the prompt |
| LineEditor.Editor.Shell | src/kernel/shell.c:311-325 | Over any number of lines read one after the other: the history is the fold of the non-empty lines, each of which depends on the history before it, cut at 16; it goes on fitting the prompt |
| Tokenizer.Tokenize | src/kernel/shell.c:267-283 | For any line (first 239 characters): argv are the NUL-terminated strings of the left-to-right split with quotes, in order; overflow exactly when there is a seventeenth token |
| Tokenizer.CutOne | src/kernel/shell.c:280-282 | Writing one NUL in place adds exactly the next token and leaves earlier tokens and the rest of the line |
| Tokenizer.OneString | src/kernel/shell.c:267-283 | A place in the buffer holds at most one NUL-terminated string, so the result determines the tokens |
| Tokenizer.LineReadBack | src/kernel/shell.c:276-283 | Reading words written with quotes or bare and joined by spaces gives exactly their texts |
| Tokenizer.AnyLine | src/kernel/shell.c:276-283 | Every line, whatever it holds: spaces are skipped; a quote opens a token up to the next quote, which may be followed directly by another token, or, unclosed, up to the end of the line; any other token ends at the next space, quotes inside it included |
| Tokenizer.WriteAndTokenize | src/kernel/shell.c:267-283 | 1 to 16 words, under 240 characters written out, tokenize in place back to exactly those words |
| KernelImage.HeaderIs | src/efi/boot.c:268-280 | Byte by byte, which file headers the loader accepts |
| KernelImage.LoadableIff | src/efi/boot.c:282-292 | The segments pass iff there is something to load, none wraps or has more bytes in the file than in memory, and from the first byte to the last it is at most 64 MiB |
| KernelImage.LayoutIs | src/efi/boot.c:282-299 | The pages asked for: whole ones, from the page of the lowest segment to the end of the highest, with less than a page to spare |
| KernelImage.SegmentsByte | src/efi/boot.c:301-310 | Byte for byte the span holds the last loadable header's file byte for that address, and zero where no header has one |
| KernelImage.RangeTestExact | src/efi/boot.c:316-326 | The unsigned table tests accept exactly the ranges inside [lo,hi) and those starting past hi, where the subtraction wraps |
| KernelImage.TargetTestExact | src/efi/boot.c:330 | The target test accepts exactly words inside [lo,hi) and the last eight addresses, where adding 8 wraps |
| KernelImage.RelocStrays | src/efi/boot.c:327-332 | A record inside the pages makes the loader write outside them iff it is RELATIVE with a wrapping target the pages do not reach |
| KernelImage.OnlyWrapsStray | src/efi/boot.c:314-333 | For every loadable file, also one that overwrites its own tables: the loader leaves its pages iff it gets to a dynamic header that wraps on the image as the earlier ones left it: one past hi that runs off, or naming a relocation table past hi that does, or with a record, reached with all before it in order, whose target wraps |
| KernelImage.HeaderStrays | src/efi/boot.c:314-333 | The same for one dynamic header, on any image |
| KernelImage.RelocsStray | src/efi/boot.c:327-332 | A run of records strays iff some record, after all before it were applied, is read or would write outside |
| KernelImage.LeavesPagesIff | src/efi/boot.c:312-333 | Exactly when kernel_load leaves its pages, at any base, for every loadable file whose relocations do not overwrite the tables: the first dynamic header it does not get through starts past hi with its first entry outside, names a relocation table past hi whose first record is outside or wraps, or has, before any refused record, a RELATIVE one whose target wraps to below the pages |
| KernelImage.DynamicsCases | src/efi/boot.c:314-333 | Loaded, refused or straying is decided by the segments' image: it loads iff every dynamic header is in order, and otherwise strays iff the first one not in order does |
| KernelImage.OneDynamicCases | src/efi/boot.c:314-333 | The same for one dynamic table, after relocations that left it alone |
| KernelImage.RelocsCases | src/efi/boot.c:327-332 | The same for a run of records: it goes through iff all are in order, and otherwise strays iff the first one not in order does |
| KernelImage.TableStraysIs | src/efi/boot.c:316-332 | A dynamic header that is not got through makes the loader stray iff one of the three unsigned tests wraps on it |
| KernelExamples.TableOutside | src/efi/boot.c:316-324 | A concrete 248-byte kernel file whose dynamic table lies past its one page: accepted, and its first entry is read outside |
| KernelExamples.TargetOutside | src/efi/boot.c:327-332 | A concrete 248-byte kernel file with a relocation of the word at 2^64 - 8: accepted, and the word is written outside |
| KernelImage.RelocsOk | src/efi/boot.c:327-332 | A table of sound records, none of which overwrites it, is applied exactly as read before the first write |
| KernelImage.StaticPieLoads | src/efi/boot.c:281-340 | A well-formed static PIE loads at any base without leaving its pages: segments, then slide + addend at each target, in order |
| KernelImage.AppliedElsewhere | src/efi/boot.c:327-332 | Bytes in no target keep the segment bytes |
| KernelImage.AppliedWord | src/efi/boot.c:331 | Each target ends as slide + addend of the last relocation naming it, modulo 2^64 |
| KernelImage.TwoBases | src/efi/boot.c:281-340 | Images at two bases agree off the targets and differ at each target by exactly the base difference |
| KernelLoad.Measure | src/efi/boot.c:282-291 | The loop refuses exactly malformed segments and otherwise finds the lowest and highest address |
| KernelLoad.Fill | src/efi/boot.c:301-310 | The copy loop fails iff some segment is not in the file, and otherwise leaves exactly the segment image |
| KernelLoad.RunScan | src/efi/boot.c:321-324 | The table loop finds the last DT_RELA and DT_RELASZ before DT_NULL, or is the first access outside |
| KernelLoad.RunRelocs | src/efi/boot.c:327-332 | The in-place loop over records equals the fold of single relocations on the evolving image |
| KernelLoad.RunDynamics | src/efi/boot.c:314-333 | The loop over PT_DYNAMIC headers equals the fold over tables |
| KernelLoad.Load | src/efi/boot.c:262-341 | Memory is asked for iff the checks on header, segments and entry point pass, as many pages as the layout has; given them, it succeeds, fails or leaves its pages exactly as the image function says; success leaves that image and the entry at base + (e_entry - lo); every well-formed static PIE with pages succeeds |
| Division.UDivMod64 | src/efi/boot.c:31-38 | Quotient and remainder for every n and d > 0, with the doubled remainder never leaving 64 bits even for d above 2^63; all ones for d = 0 |
| Pak.NormalAscii | tools/mkpak.py:25 | Normalised ASCII names are ASCII and NUL-free |
| Pak.NormalIs | tools/mkpak.py:25 | A program is called its file's stem in lower case, without a leading u_ or U_, at most 23 characters of it |
| Pak.NameExample | tools/mkpak.py:25 | U_Hello is called hello |
| Pak.ArchiveExample | tools/mkpak.py:15-38 | The archive of one two-byte program, byte for byte |
| Pak.BlobsApart | tools/mkpak.py:21-28 | Blobs are 16-aligned, after the directory, pairwise disjoint and inside the file |
| Pak.Plan | tools/mkpak.py:20-28 | The planning loop yields each file's name, offset and size, and the total size |
| Pak.Pack | tools/mkpak.py:15-38 | No files is a usage error; otherwise the bytearray holds header, every entry and every blob, none overwritten by a later slice assignment |
| Pak.Memcmp | src/kernel/proc.c:68-72 | Zero iff the first n bytes are equal |
| Pak.Strcmp | src/kernel/kmain.c:23-25 | Zero iff the string that starts in the entry's name field, which may run on past it, is the name |
| Pak.Strncmp | src/kernel/kmain.c:26-29 | Zero iff the string that starts in the name field begins with these bytes |
| Pak.HeaderRead | src/kernel/proc.c:30-39 | A packed archive is accepted by pak_init iff it holds at most 256 programs |
| Pak.EntryThere | src/kernel/proc.c:22-24 | A directory entry, wherever it stands, reads back as its name, offset and size |
| Pak.EntryRead | tools/mkpak.py:34-38 | Entry i of a packed archive reads back as file i: normalised name, and exactly its bytes at its offset |
| Pak.Reader.Init | src/kernel/proc.c:30-39 | The archive is kept exactly when base, size, magic, count and directory fit |
| Pak.Reader.Find | src/kernel/proc.c:48-56 | The first entry of that name, or none if there is none |
| Pak.Reader.Has | src/kernel/proc.c:60-65 | True iff some entry has exactly this name and it has 1 to 23 bytes: for those it agrees with pak_find |
| Pak.Reader.Fetch | src/kernel/proc.c:161-167 | No program iff no entry; otherwise the first entry's bytes, or a refusal when they are not inside the archive |
| Pak.PaddedName | src/kernel/proc.c:52 | An entry whose field ends in NUL has a name iff it is the text before the field's first NUL |
| Pak.LongNames | src/kernel/proc.c:60-65 | pak_find finds a name of 24 bytes or more, which proc_has denies, only in an entry whose field has no NUL |
| Pak.PackThenFetch | tools/mkpak.py:15-40 | Packing any ASCII-named files, then reading: accepted iff at most 256; a name fetches exactly the bytes of its (first) file; proc_has agrees on every nonempty NUL-free name |
| Kbd.KeysJoin | src/kernel/kbd.c:125-158 | Decoding a run of bytes is decoding its parts in turn, with the mode carried over |
| Kbd.LetterCase | src/kernel/kbd.c:152-157 | A letter key types the capital iff exactly one of shift and caps lock is on |
| Kbd.LetterKeys | src/kernel/kbd.c:34-53 | Each of the 26 letter keys types its letter, small and capital |
| Kbd.SignKeys | src/kernel/kbd.c:34-53 | Each of the 27 other typing keys types its two signs of the US layout |
| Kbd.PadKeys | src/kernel/kbd.c:34-53 | The 13 keys of the number pad |
| Kbd.NoOtherKeys | src/kernel/kbd.c:34-53 | No other scancode types anything |
| Kbd.GreyKeys | src/kernel/kbd.c:126-141 | After 0xE0: the arrows, Delete, Home, End and Enter give their codes, releases nothing |
| Kbd.Capitals | src/kernel/kbd.c:142-158 | Either shift key held, or Caps Lock struck, gives capitals; both together small letters; release and a second strike undo them |
| Kbd.TypingTypes | src/kernel/kbd.c:125-158 | Striking any keys, shifted or not, types exactly their characters under the caps state and leaves the decoder idle |
| Kbd.AnyTextTypable | src/kernel/kbd.c:34-53 | Every printable ASCII text has strokes that decode to exactly that text |
| Kbd.RingPut | src/kernel/kbd.c:110-111 | A byte is stored iff fewer than 255 are buffered, and then goes last |
| Kbd.RingTake | src/kernel/kbd.c:118-122 | The ring is empty iff rd = wr, and rd holds the oldest byte |
| Kbd.Keyboard.Poll | src/kernel/kbd.c:104-114 | It only reads, at most 16 bytes, fewer only if none waits or the status reads all ones, which is no keyboard byte's doing; each byte read joins the ring exactly when it is the keyboard's and fewer than 255 are there |
| Kbd.Keyboard.Take | src/kernel/kbd.c:106-112 | One byte is read once, and the history with it |
| Kbd.Keyboard.Pop | src/kernel/kbd.c:118-122 | Takes the oldest buffered byte, or reports none, exactly when the ring is empty |
| Kbd.Keyboard.Decode | src/kernel/kbd.c:125-158 | The flags and the key are those of the decoding function, all branches |
| Kbd.Keyboard.TryGetc | src/kernel/kbd.c:162-175 | With interrupts between any two steps: the key returned is the next the popped bytes type; none only after the ring was found empty with nothing popped since; it ends for every finite stream |
| Kbd.Session | src/kernel/kbd.c:104-175 | From power-on, over every interleaving: one history accounts for every key handed out, call by call, for the bytes left in the ring and for those never read |
| Kbd.PoppedThenBuffered | src/kernel/kbd.c:104-122 | In every history the bytes popped, then those buffered, are exactly the keyboard's bytes minus those read while the ring held 255; the ring never holds more |
| Kbd.HandedAreTyped | src/kernel/kbd.c:125-175 | All keys handed out from the PS/2 side are the fold of decode over the bytes popped |
| Kbd.RoomyWhole | src/kernel/kbd.c:106-112 | Nothing of the keyboard's is lost in a history in which the ring never holds 255 |
| Kbd.ShortStreamWhole | src/kernel/kbd.c:106-112 | A stream of fewer than 256 bytes loses none of the keyboard's bytes, whatever the timing |
| Snake.MoveKeepsGood | src/user/snake.c:73-99 | A surviving pass keeps the body distinct, connected, interior, of length score + 3 - grow, with the food off it |
| Snake.EveryGameGood | src/user/snake.c:62-102 | Throughout any game all of that holds, and the length never exceeds (W-2)(H-3) < 8192 |
| Snake.NeverIntoTheNeck | src/user/snake.c:64-71 | Whatever arrows were waiting, the head never turns back into the cell behind it |
| Snake.ArrowsSteer | src/user/snake.c:63-71 | Up, Down, Left and Right take the head up, down, left and right on the screen, unless straight back; no other key steers |
| Snake.QuitKeys | src/user/snake.c:64 | Exactly q and Esc quit |
| Snake.DiesAsSeen | src/user/snake.c:73-75 | The game ends iff the picture shows a wall or the snake at the cell ahead, and the snake eats iff it shows food there |
| Snake.MovesOn | src/user/snake.c:73-99 | A surviving pass puts the head one cell on; each food is worth one point and one cell, and the length is conserved otherwise |
| Snake.NumberSays | src/user/sbos.h:41-46 | The digits written are those of the score |
| Snake.BoardRoom | src/user/snake.c:54-58 | Distinct interior cells number at most (W-2)(H-3); a free food cell exists iff the snake is shorter than that |
| Snake.DrawChanges | src/user/snake.c:12-16 | cell() changes exactly its own cell, unless it is the console's bottom right corner, which scrolls |
| Snake.RingPush | src/user/snake.c:78-79 | Pushing the head keeps the ring slots tail..head equal to the body, over any number of laps |
| Snake.RingPop | src/user/snake.c:95-98 | Popping reads back the oldest cell and keeps the rest |
| Snake.Board.Border | src/user/snake.c:41-44 | The border comes out right iff the board leaves the console's bottom right corner alone (W < cols or H < rows) |
| Snake.BorderExample | src/user/snake.c:41-44 | On a console of 80 by 30 the board fills it and the border comes out wrong |
| Snake.Board.Status | src/user/snake.c:18-27 | Row 0 says "snake  score" and the score, as far as it reaches, and never spoils the picture below |
| Snake.Board.PlaceFood | src/user/snake.c:54-58 | Takes the first drawn cell off the snake, and fails iff every draw there is hits it |
| Snake.Board.Steer | src/user/snake.c:63-71 | Quits iff q or Esc is waiting; else the last arrow wins unless it is the reverse |
| Snake.Board.Open | src/user/snake.c:29-60 | The opening position: one cell in the middle, food elsewhere, ring and grid in agreement, the score on row 0, and the screen too when the border came out right; it fails iff every draw hits that cell |
| Snake.Board.PopTail | src/user/snake.c:95-98 | Ring, grid and screen lose exactly the tail cell |
| Snake.Board.Step | src/user/snake.c:62-99 | The game ends iff a key quits, or the next cell is wall or body, or the food is eaten and every draw hits the snake; otherwise the pass is the move of the rules, and ring, grid, the score shown and (when the border came out right) the board on the screen still agree with it |
| Snake.Play | src/user/snake.c:29-102 | Refuses consoles under 20x10; else the game reached is the one the rules give for these keys pass by pass, with all invariants and the board in agreement while it is on; it ends by q, by death or because every draw hit the snake, as the next pass's keys and draws say |

## Left out

- Port I/O, MSRs, control registers, TLB flushes, the timer, interrupt controllers, GDT/IDT and `entry.S`: hardware effects without state to reason about; `user_enter` is any run of stores that the walk allows.
- UEFI calls, file loading, graphics mode selection, boot information and the overlay log (`rec_putc`): firmware plumbing and display of messages.
- PCI scan, xHCI bring-up, port reset timing, endpoint and slot contexts, `find_kbd_if`, report parsing and key repeat: device plumbing; commands and transfers fail or succeed arbitrarily.
- DMA allocation failure is one of the arbitrary failures; the contents of descriptors are arbitrary.
- Splash scaling, palettes, the font's shapes and the serial mirror: the font is any table, blank at the space where a lemma needs it.
- Built-in shell commands, `find_cmd`, prompt drawing and the colours `render_line` picks: which words are commands is an arbitrary predicate.
- `mkimage.py`, `mkasset.py`, `mkfont.py`, `primes.c`, `hello.c`, `crash.c`, fault reporting: easy or image output.
- Page-table entries are records, accessed and dirty bits are not modelled, and addresses are below 2^48; `PteBits` proves the words decode to the records.
- Session.Boot: the physical ranges handed over stay inside the 48-bit space, text starts above 0 and the three sections are page-aligned and ordered, as linker.ld lays them out; a heap range past 2^64 is not modelled.
- Paging.PageTables.Map2m: stated for spaces without 4 KiB tables, which is when paging_init calls it.
- Paging.PageTables.EnsureIdentity: ranges end inside the 48-bit space.
- Paging.PageTables.UserUnmapRange: ranges end inside the 48-bit space; its callers pass parts of the user window.
- XhciDevices.Xhci.EnumDevice: an answer to Enable Slot that names a slot already enabled counts as no slot; the xHCI specification promises that there is none.
- XhciDevices.Xhci.HubScan: that a device comes up is promised for a slot that was not enabled before the scan and not granted to an earlier port in it; `XhciDevices.Xhci.ScanPort` has the exact condition for one port. A hub's ports are those of one tier, as in the code; the physical ports behind them are arbitrary answers.
- XhciTransfers.Control.Bound: the controller reports a transfer's success at most once and only after passing all of it, and no success of the slot's former owner is still unhandled when the pipe is set up; one that breaks this is not modelled. Doorbells have no effect of their own.
- XhciTransfers.Commands.Exec: the controller completes commands in order, once each, after taking them, as section 4.6.1 of the xHCI specification has it.
- XhciTransfers.Keyboard.Run: the pipe's events come one for each request taken, as does the event that asks for recovery.
- Console.Screen.constructor: the framebuffer's pitch is at least its width, which con_init does not check.
- Console.Screen.Session: the font's space glyph is blank; the generated font table is not part of this model.
- Console.Screen.Scroll: framebuffer, shadow and cells are two-dimensional arrays instead of flat ones with a pitch.
- LineEditor.Editor.ReadLine: the keys up to Enter are given as a finite sequence; waiting for a key is not modelled. History lines were entered at a prompt in the same column.
- Tokenizer.Tokenize: running the command that the tokens name is not part of it.
- KernelImage.LeavesPagesIff: files whose relocations overwrite a table still to be read are left to `KernelImage.OnlyWrapsStray`, whose condition is on the image as it is by then: what such a file does next depends on the words its own relocations have put there.
- KernelLoad.Load: what happens after the first access outside the allocated pages is not modelled; the result says that it is reached. Freeing memory on failure is not modelled.
- Pak.PackThenFetch: names are ASCII and archives shorter than 2^64 bytes; a name that is not ASCII can be cut inside a character.
- Kbd.Session: the stream of bytes is finite, its timing and the other status bits arbitrary; controller set-up is not modelled.
- Snake.Board.PlaceFood: the draws are a finite sequence of arbitrary numbers instead of the generator's; it says when they run out instead of looping.
- Snake.Play: the game-over banner, colours and pauses are left out, and the two cells at the start of row 1 that a long status line may overwrite are not part of the picture.
