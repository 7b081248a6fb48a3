# A verified model of a small RISC-V teaching kernel

This project models the core of a single-hart RISC-V (Sv39) teaching kernel.
The kernel is written in C. The model covers:

- the page and PTE arithmetic of `include/riscv.h`;
- the physical page allocator, a LIFO free list (`kernel/mm/pmm.c`);
- the three-level page-table manager (`kernel/mm/vm.c`);
- the process table with create, exit, wait and the round-robin scheduler (`kernel/proc/proc.c`);
- system-call dispatch (`kernel/syscall.c`);
- the timer trap handler and interrupt set-up (`kernel/trap/trap.c`);
- the C string library (`kernel/string.c`);
- `printf` (`kernel/printf.c`) and the console helpers (`kernel/console.c`);
- the RAM file store with open/close/read/write/unlink (`kernel/fs.c`).

There is one Dafny module per source file. `Console` and `ConsoleEscapes`
together cover console.c, and `Wrappers` holds `Option`.

- **Integers.** 64-bit values (addresses, PTEs, CSRs) are `u64`, an `int`
  subset. Wrap-around is written out with `% TWO_64`. C `int` values are
  `i32`; `ToI32` and `ToU64` model the truncating casts. Bitwise OR is
  `BitOr`, defined bit by bit.
- **Mutable state.** The kernel's global state is held in classes whose
  methods change their fields:
  - `Pmm.Allocator`: the free list, head first.
  - `Vm.PageTables`: a page store from page address to its 512 entries.
  - `Proc.ProcTable`: `proc[]`, `current_proc` and `next_pid`.
  - `Fs.FileSystem`: the inode, root-directory and open-file tables.
  - `Trap.TrapState`: `timer_ticks`, the CSRs and the timer deadline.
  - `Console.Console`: every character passed to `console_putc`, in order.
- **Methods proved against functions.** Each method is proved against a
  function of the old state, such as `WalkFrom`, `Create`, `WaitScan`,
  `OpenFile` or `FormatText`. The lemmas about those functions state what
  the kernel promises.

The model follows the code as written. Where the code does something its
authors evidently did not intend, the model keeps the behaviour as written.
It also proves the evident intention on a corrected definition; see
"## Findings".

## Model

| member | source | states |
|---|---|---|
| RiscV.ToI32 | kernel/syscall.c:51 | the `int` a 64-bit register is cut to agrees with it modulo 2^32, and is the same number when it is below 2^31 |
| RiscV.ToU64 | kernel/syscall.c:54 | storing an `int` in a 64-bit register sign-extends it: the register holds the value modulo 2^64, so it agrees with it modulo 2^32 and is at least 2^31 exactly when the value is negative |
| RiscV.I32RoundTrip | kernel/syscall.c:51-54 | an `int` stored into a register and read back as `int` is unchanged |
| RiscV.SetBit | kernel/trap/trap.c:61-70 | OR-ing in bit j (j < 64) stays within 64 bits, sets bit j and keeps every other bit |
| RiscV.BitOrBits | include/riscv.h:28-32 | bit k of a OR b is set iff bit k of a or of b is |
| RiscV.BitOrDisjoint | include/riscv.h:28-36 | OR of a multiple of 2^k with a number below 2^k is their sum |
| RiscV.PgRoundDown | include/riscv.h:14 | the result is page-aligned and a - 4096 < result <= a |
| RiscV.PgRoundUp | include/riscv.h:13 | the result is page-aligned and sz <= result < sz + 4096 when sz + 4095 fits in 64 bits; otherwise the sum wraps and the result is 0 |
| RiscV.PteToPa | include/riscv.h:35 | the address read from a PTE is page-aligned |
| RiscV.PaToPte | include/riscv.h:36 | the PTE built from an address has bits 0-9 clear and fits in 62 bits |
| RiscV.PteRoundTrip | include/riscv.h:35-36 | reading back the address of the PTE built from pa gives pa rounded down, so pa itself when it is page-aligned |
| RiscV.FlagsPreserveAddress | include/riscv.h:28-36 | OR-ing flags below 1024 into a PTE adds them and leaves the address read back unchanged |
| RiscV.Vpn | include/riscv.h:40 | each level's index is below 512 |
| RiscV.VpnBitsIsShift | include/riscv.h:39-40 | dropping the 12 offset bits and then 9 bits per level is the shift of va right by VPN_SHIFT(level) = 12 + 9 * level, so Vpn is exactly VPN_MASK |
| RiscV.VpnSlicesRebuildPageNumber | include/riscv.h:39-40 | the three 9-bit indices for levels 0, 1 and 2 are disjoint slices that together rebuild the low 27 bits of the page number of va |
| RiscV.MakeSatp | include/riscv.h:67 | the mode field (bits 60-63) is 8 (Sv39); for pt < 2^56 the PPN field is pt >> 12 and the ASID field is 0, and the ASID is 0 only then |
| RiscV.SatpFacts | include/riscv.h:67 | the OR with 8 << 60 is an addition that stays in 64 bits, which fixes the mode, PPN and ASID fields |
| Pmm.PageRangeBounds | kernel/mm/pmm.c:19-30 | every page pmm_init lists is page-aligned and between PGROUNDUP(end) and PHYSTOP - 4096 |
| Pmm.PageRangeShape | kernel/mm/pmm.c:25-30 | the list pmm_init builds runs from PGROUNDUP(end) up to PHYSTOP - 4096 in steps of 4096, lowest page first, and is empty only when there is no page |
| Pmm.AllocStep | kernel/mm/pmm.c:34-42 | an empty list gives 0 and stays empty; otherwise the head is returned and the tail remains |
| Pmm.FreeStep | kernel/mm/pmm.c:46-57 | a misaligned address or one below PGROUNDUP(end) is ignored; any other is pushed on the head |
| Pmm.StepsKeepListValid | kernel/mm/pmm.c:39-41 | alloc and free keep every listed page aligned and at or above PGROUNDUP(end); a page handed out satisfies the same |
| Pmm.FreeThenAlloc | kernel/mm/pmm.c:54-56 | an alloc right after a valid free returns the freed page and restores the list |
| Pmm.AllocMany | kernel/mm/pmm.c:39-41 | n allocations take exactly the first n pages of the list |
| Pmm.FreeManyValid | kernel/mm/pmm.c:54-56 | freeing valid pages adds one entry per page and keeps the list valid |
| Pmm.Conservation | kernel/mm/pmm.c:39-41 | n allocations followed by freeing those n pages restore the list length and validity |
| Pmm.Allocator.constructor | kernel/mm/pmm.c:13 | the allocator starts with an empty list |
| Pmm.Allocator.Init | kernel/mm/pmm.c:16-31 | pmm_init's loop leaves the list holding every page from PGROUNDUP(end) to PHYSTOP - 4096, lowest first |
| Pmm.Allocator.AllocPage | kernel/mm/pmm.c:34-42 | alloc_page performs AllocStep on the list, and a non-zero page it returns is aligned and at or above PGROUNDUP(end) |
| Pmm.Allocator.FreePage | kernel/mm/pmm.c:46-57 | free_page performs FreeStep on the list and keeps it valid |
| CString.Contents | kernel/string.c:36-41 | a C string's characters are those before its first NUL |
| CString.StrLen | kernel/string.c:36-41 | the length is the index of the first NUL |
| CString.StrLenAt | kernel/string.c:36-41 | a NUL with no NUL before it is at index StrLen |
| CString.ContentsOfTerminated | kernel/string.c:36-41 | a NUL-free text followed by NUL has that text as its contents |
| CString.Char8 | kernel/string.c:16 | the `(char)` conversion of an `int` keeps it modulo 256 |
| CString.StrCmpZeroIff | kernel/string.c:21-27 | strcmp is 0 iff both strings agree up to and including the first NUL |
| CString.StrCmpAtDifference | kernel/string.c:21-27 | at the first difference, strcmp is the difference of the two characters taken as unsigned |
| CString.StrCmpAntisymmetric | kernel/string.c:21-27 | swapping the arguments negates strcmp |
| CString.IndexOf | kernel/string.c:43-48 | the first position before the NUL holding the character, or none when no such position exists |
| CString.StrChr | kernel/string.c:43-52 | strchr finds the first position holding (char)c before the NUL, returns the terminator for c = 0, and is null exactly when (char)c is absent and c is not 0 |
| CString.StrCpyThenCompare | kernel/string.c:29-34 | after strcpy, the destination holds a string equal to the source (strcmp gives 0) |
| CString.Memcpy | kernel/string.c:4-11 | dst[d..d+n) becomes src[s..s+n) and the rest of dst is unchanged |
| CString.Memset | kernel/string.c:13-19 | dst[d..d+n) becomes (char)c, n times, and the rest of dst is unchanged |
| CString.Strlen | kernel/string.c:36-41 | the loop returns the index of the first NUL |
| CString.Strcmp | kernel/string.c:21-27 | the loop returns StrCmp of the two strings |
| CString.Strchr | kernel/string.c:43-52 | the loop returns StrChr |
| CString.Strcpy | kernel/string.c:29-34 | the destination becomes StrCpyInto: the source's characters and its NUL at d, the rest unchanged |
| CString.IndexOfScan | kernel/string.c:44-48 | a scan that has passed k non-matching characters finds the answer at k |
| Printf.DigitCharIsTableEntry | kernel/printf.c:70 | digit d is entry d of "0123456789abcdef" |
| Printf.DigitValueOfChar | kernel/printf.c:70 | the digit characters decode to their values |
| Printf.DigitsRoundTrip | kernel/printf.c:91-93 | reading the digits of x back in the same base gives x |
| Printf.DigitsNoLeadingZero | kernel/printf.c:91-93 | the digits of x begin with '0' only for x = 0, whose digits are "0" |
| Printf.DigitsFromTable | kernel/printf.c:70-93 | every digit is a lowercase hex digit from the table |
| Printf.DigitsAppend | kernel/printf.c:91-93 | the decimal digits of 10x + d are those of x followed by d |
| Printf.Unsigned32 | kernel/printf.c:81 | the `unsigned int` view of an `int` is below 2^32 and agrees with it modulo 2^32 |
| Printf.IntMinDigits | kernel/printf.c:85-88 | the decimal digits of 2^31 are "2147483648" |
| Printf.DecimalText | kernel/printf.c:69-104 | %d prints '-' for a negative value, then the digits of its magnitude, which read back to that magnitude and have no leading zero except for 0; INT_MIN prints "-2147483648" |
| Printf.HexText | kernel/printf.c:74-93 | %x prints the lowercase hex digits of the value taken as unsigned 32-bit, with no prefix or padding |
| Printf.PointerText | kernel/printf.c:107-112 | %p prints "0x" and the hex of the low 32 bits of the pointer only |
| Printf.FormatStep | kernel/printf.c:27-62 | one step of the loop: a non-'%' character is printed as is; '%' and the next character print that conversion and consume its arguments |
| Printf.FormatPlain | kernel/printf.c:30-33 | text without '%' is printed unchanged and in order |
| Printf.FormatConversion | kernel/printf.c:36-54 | %d, %x, %p, %s and %c each consume exactly one argument and print its conversion |
| Printf.FormatNonConversion | kernel/printf.c:55-61 | %% prints '%', an unknown character c prints '%' then c, and neither consumes an argument, so "%lx" prints "%l" then 'x' |
| Printf.FormatOneConversion | kernel/printf.c:27-62 | a format with one conversion prints its text around that one conversion |
| Printf.FormatTwoConversions | kernel/printf.c:27-62 | a format with two conversions prints them in order, the first argument first |
| Printf.FormatConversionThenOne | kernel/printf.c:27-62 | a format that starts with a conversion and has one more prints both in order |
| Printf.FormatTwoLongs | kernel/printf.c:58-61 | a format whose only '%'s are two "%l" is printed as it stands and consumes no argument |
| Printf.ReverseSnoc | kernel/printf.c:101-103 | reversing a buffer with one more character puts that character first |
| Printf.ReverseIndex | kernel/printf.c:101-103 | entry k of the reversed buffer is entry len - 1 - k of the buffer |
| Printf.FillDigits | kernel/printf.c:91-93 | the do-while fills the buffer with the digits of x, least significant first |
| Printf.PutsReversed | kernel/printf.c:101-103 | the final loop prints the buffer in reverse |
| Printf.PrintIntValue | kernel/printf.c:77-88 | the unsigned magnitude printint computes is \|x\| for a signed negative x and x modulo 2^32 otherwise; the INT_MIN test is true only for INT_MIN |
| Printf.PrintInt | kernel/printf.c:69-104 | printint prints IntText: the sign, then the digits in the base |
| Printf.PrintPtr | kernel/printf.c:107-112 | printptr prints the %p text of its argument |
| Printf.PrintPercent | kernel/printf.c:35-62 | the switch prints the conversion's text and returns the arguments it did not consume |
| Printf.Printf | kernel/printf.c:20-66 | printf prints FormatText of the format's characters and the arguments, and returns 0 |
| Console.PutsTextOfLiteral | kernel/console.c:20-23 | console_puts prints exactly the characters before the NUL, and nothing for "" |
| Console.Console.constructor | kernel/console.c:6-8 | the output starts empty |
| Console.Console.Putc | kernel/console.c:6-8 | console_putc appends exactly its character |
| Console.Console.Puts | kernel/console.c:10-24 | console_puts prints "(null)" for a null pointer and otherwise the characters before the NUL |
| Console.Console.ClearScreen | kernel/console.c:27-29 | clear_screen prints ESC "[2J" ESC "[H" |
| ConsoleEscapes.GotoFormat | kernel/console.c:33 | goto_xy's format prints ESC "[", the row, ";", the column and "H" |
| ConsoleEscapes.GotoXy | kernel/console.c:32-34 | goto_xy prints ESC "[" y ";" x "H", row first, both in decimal |
| ConsoleEscapes.ColorFormats | kernel/console.c:37-44 | set_color's format prints ESC "[", the colour and "m"; reset_color's is printed as it stands |
| ConsoleEscapes.SetColor | kernel/console.c:37-39 | set_color prints ESC "[" fg "m" |
| ConsoleEscapes.ResetColor | kernel/console.c:42-44 | reset_color prints ESC "[0m" |
| Vm.ZeroNode | kernel/mm/vm.c:15-17 | a zeroed node has 512 entries, all 0 |
| Vm.WriteEntry | kernel/mm/vm.c:35 | writing one entry changes that entry of that node and nothing else |
| Vm.NodeEntry | kernel/mm/vm.c:35 | an interior entry is valid, has R/W/X set and points at the new node's page |
| Vm.NodeEntryBits | kernel/mm/vm.c:35 | OR-ing V, R, W, X and U into the PTE is an addition that keeps the address |
| Vm.LeafEntry | kernel/mm/vm.c:60 | the leaf entry map_page would write is valid |
| Vm.LeafFlags | kernel/mm/vm.c:60 | perm OR V has bit 0 set and stays below 1024 for perm below 1024 |
| Vm.LeafEntryAddress | kernel/mm/vm.c:60 | for perm below 1024 the leaf entry points at pa rounded down |
| Vm.WalkWithoutAllocIsLookup | kernel/mm/vm.c:22-29 | walk with alloc = 0 allocates and writes nothing, and returns a slot exactly when the entries on va's path at levels 2, 1 and 0 are all valid |
| Vm.WalkReturnsValidSlot | kernel/mm/vm.c:25-26 | a slot walk returns holds a valid entry |
| Vm.WalkOnlyPops | kernel/mm/vm.c:30 | walk takes at most one page per level from the head of the free list and nothing else |
| Vm.FreshPagesAfterAlloc | kernel/mm/vm.c:30-36 | installing a fresh zeroed node keeps the remaining free pages outside the page store |
| Vm.InstallStep | kernel/mm/vm.c:30-36 | one allocation step keeps the store closed and its free pages fresh; the page taken becomes a zeroed node in the store, and only the entry at idx changes, to point at it |
| Vm.WalkKeepsHealthy | kernel/mm/vm.c:22-40 | walk keeps the store closed, its free pages fresh, aligned and non-zero, and loses no page of the store |
| Vm.WalkFillsPath | kernel/mm/vm.c:22-40 | walk, also when it fails half way, only pops the free list and only fills invalid entries, each with an interior entry pointing at one of the zeroed pages it popped |
| Vm.WalkCompletesPath | kernel/mm/vm.c:22-40 | walk with alloc and a free page per level leaves every entry on va's path valid, the level-0 one pointing at a zeroed node |
| Vm.WalkFromZeroNodeFails | kernel/mm/vm.c:23-39 | a walk that starts at a zeroed node returns 0 at every level, with or without alloc |
| Vm.WalkReturnsOnlyMappedSlots | kernel/mm/vm.c:23-39 | when walk returns a slot it changed nothing: every entry on the path was already valid |
| Vm.MapPageSpec | kernel/mm/vm.c:43-62 | map_page returns 0 or -1, and returns -1 with no change when va or pa is not page-aligned |
| Vm.MapPageAlwaysFails | kernel/mm/vm.c:49-60 | map_page as written always returns -1 |
| Vm.WalkFixed | kernel/mm/vm.c:22-40 | the corrected walk returns slots with an index below 512 |
| Vm.MapPageFixed | kernel/mm/vm.c:43-62 | the corrected map_page returns 0 or -1, and -1 with no change for unaligned addresses |
| Vm.FixedWalkOnFreshRoot | kernel/mm/vm.c:23-37 | on an empty root the corrected walk installs two zeroed nodes from the free list and returns the level-0 slot of the second |
| Vm.FixedWalkFindsMapped | kernel/mm/vm.c:23-27 | when every entry on the path is valid the corrected walk changes nothing and returns that valid slot |
| Vm.FixedMapOfMappedFails | kernel/mm/vm.c:55-58 | the corrected map_page refuses to overwrite a valid slot |
| Vm.FixedWalkFillsPath | kernel/mm/vm.c:22-40 | on a healthy store the corrected walk only pops the free list and only fills invalid entries with interior entries pointing at the pages it popped |
| Vm.FixedWalkReachesSlot | kernel/mm/vm.c:22-40 | an empty slot the corrected walk returns is on va's path: once a valid entry is stored there, the lookup of va from the start finds that slot |
| Vm.FixedWalkFindsEmptySlot | kernel/mm/vm.c:22-40 | where the lookup of va fails and a free page is left per level, the corrected walk with alloc returns an empty slot |
| Vm.LookupThroughChain | kernel/mm/vm.c:23-27 | a chain of two interior entries ending in a valid leaf is found by a lookup |
| Vm.FixedMapOnFreshRoot | kernel/mm/vm.c:43-62 | on an empty root the corrected map_page installs two nodes and writes the leaf |
| Vm.FixedMapThenLookup | kernel/mm/vm.c:43-62 | on a fresh root with two aligned free pages the corrected map_page succeeds, takes both pages, the lookup of va finds the slot of the second page holding exactly the leaf for pa and perm, which translates to pa, and mapping va again fails |
| Vm.FixedMapThenLookupAnyRoot | kernel/mm/vm.c:43-62 | on any healthy store, when the corrected map_page returns 0 the lookup of va from the root finds an entry holding exactly the leaf for pa and perm |
| Vm.FixedMapKeepsValid | kernel/mm/vm.c:43-62 | on a healthy store the corrected map_page overwrites no valid entry |
| Vm.FixedMapSucceeds | kernel/mm/vm.c:43-62 | on a healthy store the corrected map_page succeeds when va and pa are aligned, va is unmapped and a free page is left per level |
| Vm.DestroyOnlyFrees | kernel/mm/vm.c:65-74 | destroy(0) frees nothing; destroy only pushes pages free_page accepts on top of the list and keeps what was there; an accepted non-zero node is pushed last, after its children |
| Vm.DestroyEntriesOnlyFree | kernel/mm/vm.c:67-72 | the loop over the entries only pushes pages free_page accepts on top of the list and keeps what was there |
| Vm.PushesValidTrans | kernel/mm/vm.c:67-73 | two runs of pushes of valid pages compose into one |
| Vm.DestroyFreesReachable | kernel/mm/vm.c:65-74 | destroy pushes exactly the accepted pages reachable from pt through valid entries with R, W or X set, with pt on top and everything below it pushed before |
| Vm.DestroyEntriesFreeChildren | kernel/mm/vm.c:67-72 | the loop over entries i..511 pushes exactly the accepted pages reachable through those entries |
| Vm.PageTables.constructor | kernel/mm/vm.c:9 | the page store starts empty, over the given allocator |
| Vm.PageTables.ZeroPage | kernel/mm/vm.c:15-17 | the zeroing loop makes the node all 0 and touches no other node |
| Vm.PageTables.CreatePagetable | kernel/mm/vm.c:9-19 | create_pagetable returns 0 and changes nothing when allocation fails, otherwise the popped page, zeroed |
| Vm.PageTables.Walk | kernel/mm/vm.c:22-40 | walk's level loop computes WalkFrom on the page store and the free list |
| Vm.PageTables.WalkLevel | kernel/mm/vm.c:24-37 | one iteration of the level loop either returns walk's answer or descends to the next node with the same answer |
| Vm.PageTables.MapPage | kernel/mm/vm.c:43-62 | map_page computes MapPageSpec, which always fails |
| Vm.PageTables.DestroyPagetable | kernel/mm/vm.c:65-74 | destroy_pagetable leaves the free list DestroyFrom gives: by DestroyFreesReachable, exactly the reachable tables free_page accepts are pushed, pt last |
| Proc.FirstWith | kernel/proc/proc.c:32-33 | the lowest slot in the given state, or none when no slot is in it |
| Proc.FirstWithFrom | kernel/proc/proc.c:89-90 | the lowest slot at or after k in the given state, or none when no slot from k on is in it |
| Proc.Create | kernel/proc/proc.c:31-54 | with no UNUSED slot: -1 and no change, including next_pid; otherwise the lowest UNUSED slot gets pid = next_pid, which advances by one, and no other slot changes; if the stack allocation fails the result is -1 and the slot, otherwise as it was, stays UNUSED with kstack 0; otherwise the slot, otherwise as it was, is RUNNABLE with the popped kstack, sp = kstack + 4096 and ra = entry, and the pid is returned |
| Proc.Exit | kernel/proc/proc.c:57-65 | with a current process: that slot becomes ZOMBIE holding the status, every other field of the slot and every other slot unchanged, current_proc and next_pid unchanged; with none: no change |
| Proc.WaitScan | kernel/proc/proc.c:68-81 | one scan reaps the lowest ZOMBIE: it returns its pid and status, frees its stack and makes its slot UNUSED; with no zombie nothing changes |
| Proc.RunSlot | kernel/proc/proc.c:90-101 | after the switch returns, current_proc is null and the slot is RUNNABLE |
| Proc.Enter | kernel/proc/proc.c:92-96 | the switch makes the slot RUNNING and current, saves the scheduler context into proc[0].context, and changes no other state, no other context and no other field |
| Proc.CreateAdvancesPid | kernel/proc/proc.c:35 | next_pid never decreases, and a successful create returns the old value, below the new one |
| Proc.CreatePidsIncrease | kernel/proc/proc.c:35 | successive successful creates return strictly increasing pids |
| Proc.CreateKeepsPidsDistinct | kernel/proc/proc.c:31-54 | create keeps the pids of live processes distinct and below next_pid |
| Proc.ExitKeepsPidsDistinct | kernel/proc/proc.c:57-65 | exit keeps the pids of live processes distinct |
| Proc.WaitKeepsPidsDistinct | kernel/proc/proc.c:70-77 | wait keeps the pids of live processes distinct |
| Proc.ExitThenWait | kernel/proc/proc.c:57-77 | when no zombie exists, a wait after exit reaps the exiting process with its status |
| Proc.SweepOfYieldsKeepsStates | kernel/proc/proc.c:89-102 | a sweep whose processes switch straight back leaves every state and every slot but proc[0]'s context unchanged |
| Proc.SweepRunsNextRunnable | kernel/proc/proc.c:89-101 | whatever the processes do, a sweep from slot k runs the lowest slot at or after k that is RUNNABLE when it gets there and then goes on after it; with no RUNNABLE slot left it changes nothing |
| Proc.ExitedProcessRevived | kernel/proc/proc.c:100 | a process that exits while it runs is RUNNABLE again after the sweep, and a later wait cannot reap it |
| Proc.RunSlotFixed | kernel/proc/proc.c:98-100 | the corrected step makes the slot RUNNABLE only when it was still RUNNING, and otherwise keeps what the process did |
| Proc.FixedSlotKeepsZombie | kernel/proc/proc.c:98-100 | with the corrected step an exited process stays ZOMBIE and is reaped by the next wait |
| Proc.SlotZeroLoadsSchedulerContext | kernel/proc/proc.c:96 | when slot 0 holds a new process, the switch overwrites its saved entry with the scheduler's registers |
| Proc.EnterFixed | kernel/proc/proc.c:92-96 | the corrected switch makes the slot RUNNING and current and changes no saved context |
| Proc.FixedEnterLoadsEntry | kernel/proc/proc.c:92-96 | with the corrected switch a new process resumes at its entry on its own stack |
| Proc.ProcTable.constructor | kernel/proc/proc.c:8-10 | the table starts zeroed, with no current process and next_pid = 1 |
| Proc.ProcTable.ProcInit | kernel/proc/proc.c:23-28 | proc_init sets every slot's state to UNUSED and nothing else |
| Proc.ProcTable.CreateProcess | kernel/proc/proc.c:31-54 | create_process performs Create on the table and the allocator's free list |
| Proc.ProcTable.ExitProcess | kernel/proc/proc.c:57-65 | exit_process performs Exit |
| Proc.ProcTable.WaitProcess | kernel/proc/proc.c:68-81 | one scan of wait_process performs WaitScan, freeing the stack through free_page |
| Proc.ProcTable.SchedulerSweep | kernel/proc/proc.c:84-104 | one pass of the scheduler's loop leaves the table Sweep gives; with SweepRunsNextRunnable that is: each RUNNABLE slot met in index order is run, and no other |
| Syscall.ArgInt | kernel/syscall.c:25-34 | argint(n) for n in 0..2 returns 0 and stores a_n cut to `int`; for any other n it returns -1 and keeps *ip |
| Syscall.ArgAddr | kernel/syscall.c:36-44 | argaddr(n) returns a0, a1 or a2 for n = 0, 1, 2 and 0 otherwise |
| Syscall.ArgIntOfSmallValue | kernel/syscall.c:25-34 | an `int` placed in a0 reaches the handler unchanged |
| Syscall.UserBytes | kernel/syscall.c:96-99 | the count bytes at buf, in order |
| Syscall.SysWriteOut | kernel/syscall.c:85-101 | sys_write succeeds iff fd is 1, buf is not null and count is not negative; it then prints exactly buf[0..count) and returns count; otherwise -1 and no output |
| Syscall.SysWrite | kernel/syscall.c:85-101 | the loop prints SysWriteOut's text and returns its result |
| Syscall.UnknownSyscallText | kernel/syscall.c:56 | the message for an unknown number prints "Unknown syscall ", the number in decimal and a newline |
| Syscall.DispatchWithoutProcess | kernel/syscall.c:48-49 | with no current process dispatch changes nothing |
| Syscall.DispatchWritesOnlyA0 | kernel/syscall.c:52-57 | dispatch writes a0 of the caller's trapframe and no other trapframe field, epc included |
| Syscall.UnknownSyscallFails | kernel/syscall.c:51-58 | a number outside 1..5 prints the message and sets a0 to -1 |
| Syscall.GetpidAndFork | kernel/syscall.c:63-77 | getpid answers the caller's pid; fork always answers -1 and changes nothing else |
| Syscall.ExitSyscall | kernel/syscall.c:67-72 | exit makes the caller ZOMBIE with status a0 cut to `int` and answers 0 |
| Syscall.WaitSyscall | kernel/syscall.c:79-83 | wait keeps scanning exactly when there is no zombie, changing nothing; otherwise it reaps the lowest zombie, frees its stack and answers its pid |
| Syscall.WriteSyscall | kernel/syscall.c:85-101 | write to fd 1 prints the count user bytes at buf and answers count |
| Syscall.SyscallDispatch | kernel/syscall.c:47-59 | syscall_dispatch leaves the table, output, free list and blocking exactly as Dispatched says |
| Syscall.DispatchUnknown | kernel/syscall.c:55-58 | the unknown-number branch of Dispatched |
| Syscall.DispatchWait | kernel/syscall.c:79-83 | the wait branch of Dispatched |
| Syscall.DispatchOther | kernel/syscall.c:52-54 | the getpid, fork, exit and write branches of Dispatched |
| Trap.TickTextCases | kernel/trap/trap.c:38-46 | a message is printed exactly when the new count is a multiple of 5: RED when it is also a multiple of 10, GREEN otherwise |
| Trap.TickFormat | kernel/trap/trap.c:39 | the tick format prints the alarm-clock prefix, the count in decimal and " - " |
| Trap.UnexpectedTrapText | kernel/trap/trap.c:48 | "%lx" is no conversion: the diagnostic is printed as it stands, with no register value |
| Trap.TrapState.constructor | kernel/trap/trap.c:7 | the tick count starts at 0 with no deadline requested |
| Trap.TrapState.GetTime | kernel/trap/trap.c:20-24 | get_time returns timer_ticks |
| Trap.TrapState.KernelTrap | kernel/trap/trap.c:27-54 | scause = 5: ticks grow by exactly one, the next deadline is time + 1000000, every fifth tick is printed and sepc is written back as read; any other scause, 8 included, prints the diagnostic and halts with nothing else changed |
| Trap.TrapState.TrapInit | kernel/trap/trap.c:57-76 | trap_init ORs bit 5 into mideleg and sie and bit 1 into sstatus, points stvec at the vector and asks for the first interrupt at time + 1000000 |
| Trap.TrapInitBits | kernel/trap/trap.c:61-70 | those ORs set exactly the named bits and keep every other bit |
| Trap.PrintTick | kernel/trap/trap.c:38-46 | the two printf calls of a fifth tick print TickText |
| Trap.PrintUnexpected | kernel/trap/trap.c:48 | the diagnostic printf prints the format as it stands |
| Fs.FirstFree | kernel/fs.c:31-32 | the lowest inode slot with inum 0, or none when all 50 are in use |
| Fs.Allocate | kernel/fs.c:30-41 | ialloc claims the lowest free slot, giving it next_inum (then incremented), the type, nlink 1 and size 0; it fails with no change exactly when all 50 are in use |
| Fs.FindLive | kernel/fs.c:53-60 | the first live entry (inum not 0) with the name, or none |
| Fs.NameMatches | kernel/fs.c:55 | strcmp of an entry's name with the path's name is 0 iff the names are equal |
| Fs.ResolveCases | kernel/fs.c:44-62 | namei is null unless the path starts with '/'; "/" gives the root; a name containing '/' gives null; otherwise a slot exactly when a live entry has the name |
| Fs.Link | kernel/fs.c:65-76 | dirlink fails with no change when the target is not a directory or the entry would pass 64 KiB; otherwise it appends one entry, inum cut to 16 bits, and size grows by sizeof(struct dirent) |
| Fs.FirstFreeFd | kernel/fs.c:102-103 | the lowest FD_NONE descriptor, or none |
| Fs.OpenFile | kernel/fs.c:79-112 | with bit 0 set open fails on a path that resolves; without it open fails on one that does not; success takes the lowest FD_NONE descriptor, sets it to FD_INODE, ref 1, offset 0 and namei's answer, and changes no other descriptor |
| Fs.CloseFile | kernel/fs.c:114-122 | close fails with no change iff fd is outside 0..15 or FD_NONE; otherwise the descriptor becomes FD_NONE with ref 0 |
| Fs.ReadReturnsAvailable | kernel/fs.c:124-144 | read with n >= 0 and off within the file returns min(n, size - off), yields those bytes from off, and advances off by that much |
| Fs.ReadPastEnd | kernel/fs.c:136-138 | read with n >= 0 and off past the end of the file (a slot reused after unlink) is defined, returns 0, copies nothing and changes nothing |
| Fs.WriteFile | kernel/fs.c:146-164 | write fails with no change if off + n passes 64 KiB; otherwise it puts the n bytes at off, keeps the rest of the data, sets size to max(size, off + n) and advances off by n |
| Fs.PackedResolveIsLive | kernel/fs.c:57 | when inodes were never freed, the slot namei picks is the live inode with that number |
| Fs.PackedAllocate | kernel/fs.c:30-41 | when inodes were never freed, ialloc claims slot next_inum - 2 |
| Fs.PackedCreate | kernel/fs.c:87-95 | a create keeps the inodes packed and appends the new entry |
| Fs.CreateInPackedStore | kernel/fs.c:79-112 | creating a new name opens the new inode, with inum next_inum, at the lowest free descriptor |
| Fs.WriteFromStart | kernel/fs.c:146-164 | writing n bytes to an empty, freshly opened file stores them and sets its size to n |
| Fs.CloseThenReopen | kernel/fs.c:97-122 | closing the lowest open descriptor and reopening the same path gives back that descriptor at offset 0 |
| Fs.ReadFromStart | kernel/fs.c:124-144 | reading size bytes from offset 0 yields the file's data |
| Fs.CreateWriteReopenRead | kernel/fs.c:79-164 | create, write n bytes, close, reopen and read n bytes gives back the same bytes |
| Fs.UnlinkInPackedStore | kernel/fs.c:166-186 | unlink of a resolvable name succeeds, frees the inode and makes the name unresolvable |
| Fs.AsWrittenCreateAfterUnlink | kernel/fs.c:57 | after an unlink, creating a file gives it slot 0 while the descriptor points at slot 1, an inode with inum 0 |
| Fs.FindInum | kernel/fs.c:57 | the lowest inode slot holding the number, or none |
| Fs.ResolveFixed | kernel/fs.c:44-62 | the corrected namei returns only slots inside the table |
| Fs.FixedResolveFindsCreatedFile | kernel/fs.c:53-58 | with the corrected namei a newly created file resolves to the slot ialloc gave it |
| Fs.AsWrittenLongNameOverruns | kernel/fs.c:71 | on a fresh store, O_CREATE with a 30-byte path reaches dirlink with a name whose copy needs 29 bytes, more than the 28-byte name field |
| Fs.LinkChecked | kernel/fs.c:65-76 | the corrected dirlink succeeds exactly when the root can take an entry and the name fits, and then does what dirlink does; otherwise -1 and no change |
| Fs.LinkCheckedKeepsNamesShort | kernel/fs.c:65-76 | with the corrected dirlink every directory entry's name stays shorter than 28 characters, and a successful link stores the whole name |
| Fs.FileSystem.constructor | kernel/fs.c:9-13 | the tables start zeroed with next_inum = 2 |
| Fs.FileSystem.FsInit | kernel/fs.c:15-27 | fs_init makes the root an empty directory and every descriptor FD_NONE |
| Fs.FileSystem.Ialloc | kernel/fs.c:30-41 | ialloc's loop performs Allocate |
| Fs.FileSystem.Namei | kernel/fs.c:44-62 | namei's loop returns Resolve |
| Fs.FileSystem.DirLink | kernel/fs.c:65-76 | dirlink performs Link on the root and changes nothing else |
| Fs.FileSystem.Open | kernel/fs.c:79-112 | sys_open performs OpenFile |
| Fs.FileSystem.LinkNew | kernel/fs.c:94-95 | the new file's entry is appended to the root |
| Fs.FileSystem.AllocFd | kernel/fs.c:102-111 | the descriptor loop claims the lowest FD_NONE slot for namei's answer |
| Fs.FileSystem.Close | kernel/fs.c:114-122 | sys_close performs CloseFile |
| Fs.FileSystem.Read | kernel/fs.c:124-144 | sys_read performs ReadFile, returning the bytes it copies out |
| Fs.FileSystem.Write | kernel/fs.c:146-164 | sys_write performs WriteFile |
| Fs.FileSystem.Unlink | kernel/fs.c:166-186 | sys_unlink performs UnlinkFile |

## Left out

- The CSR accessors, `w_satp`, `sfence_vma` and `kvminithart` are hardware register access. CSR values are parameters or fields of `Trap.TrapState`.
- `kvminit` is not modelled. Since `map_page` as written always fails, it would stop at its first mapping.
- `dump_pagetable` only prints debugging output.
- The diagnostic `printf` calls are not in the output. This covers pmm_init, alloc_page, free_page, create_pagetable, map_page, proc_init, create_process, exit_process, fs_init and trap_init.
- The UART driver is not modelled. The output is the sequence of characters passed to `console_putc`, so the driver's '\n' to "\n\r" expansion is not in it. sys_write's direct `uart_putc` calls are recorded in the same output.
- `sbi_set_timer` is a firmware call. Only the deadline it is given is recorded.
- `swtch`, the scheduler's endless loop and wait_process's spinning are not modelled as such. The process run by `swtch` is an opaque function parameter `Run`. The model covers one sweep of the scheduler and one scan of wait; a scan that finds no zombie is reported as `blocked`.
- Proc.ProcTable.WaitProcess: the status is returned with the pid instead of being stored through the `status` pointer. sys_wait turns a 32-bit argument into that pointer, and that pointer is not modelled.
- The trapframe pointer is not modelled: a trapframe is a value inside its process slot.
- Printf.Printf requires a well-formed format. A format that ends in a lone '%' makes printf read past the terminator, and every argument must have the kind its conversion reads with `va_arg`.
- CString.Memcpy, CString.Memset, CString.Strcpy: these do not return `dst`, because pointer identity is not modelled. Memcpy requires non-overlapping ranges. Strcpy requires distinct arrays, since an overlapping copy has no defined result.
- Pmm.Allocator.Init requires PGROUNDUP(end) to be non-zero. With a start of 0 the loop condition `p >= start` never fails and the loop does not terminate.
- Vm.PageTables.DestroyPagetable and Vm.DestroyFrom take a depth bound. A recursion that would go deeper stops there, so cyclic or over-deep tables are not modelled.
- Pages that are not in the page store read as all-zero nodes.
- Fs.OpenFile, Fs.FileSystem.Read, Fs.FileSystem.Write, Fs.FileSystem.Unlink: each requires that the call does not dereference a pointer outside the inode table.
  - namei's slot `inum - 2` can be outside the table, or the root inode.
  - sys_read and sys_write need `n >= 0` and an offset within the data array.
  - A negative `n` that reaches `memcpy` is undefined behaviour in the source; one that takes the past-the-end exit returns 0.
- The directory is a sequence of entries, not bytes inside `root_inode.data`. `next_inum` is an unbounded integer; a directory entry keeps it modulo 2^16 (`ushort`).
- `argstr` and user-memory copies in the file system are not modelled. A path is the string `argstr` would produce, and read returns the bytes it copies out.
- Proc.Create requires `next_pid` to be below INT_MAX, so the `int` counter does not overflow.
- Trap.TrapState.KernelTrap requires `timer_ticks` to be below INT_MAX on a timer interrupt. `timer_ticks` is a signed `int` (kernel/trap/trap.c:7), and `timer_ticks++` at that value overflows (kernel/trap/trap.c:33).
- Fs.OpenFile with O_CREATE requires the name after '/' to be shorter than 28 characters. sys_open's `argstr` buffer takes names of up to 62 characters, but dirlink's `strcpy` into the 28-byte name field overruns the entry for longer ones (kernel/fs.c:71), which has no defined result; see "## Findings".
- Vm.PageTables.DestroyPagetable: free_page writes the list link into the first word of each freed page (kernel/mm/pmm.c:54). The model keeps the free list as a sequence, so the freed nodes stay unchanged in the page store.
- Proc.ProcTable.SchedulerSweep: the process run by `swtch` is a function of the process table only. A running process therefore cannot allocate or free pages, print, or touch the file system in this model. For slot 0, `swtch(&proc[0].context, &proc[0].context)` (kernel/proc/proc.c:96) saves the scheduler's registers and loads them straight back, so no code of process 0 runs; the model still applies the arbitrary `run` to slot 0, which over-approximates it, since every lemma about the sweep holds for every `run`.
- Vm.DestroyFreesReachable: states which pages are pushed, not how often. A child table reachable through two entries is freed once per entry by kernel/mm/vm.c:67-73, and the lemma neither shows nor excludes such repeats.

## Findings

| source | as written | input that shows it | evidently intended | confidence | as-written member | corrected member |
|---|---|---|---|---|---|---|
| kernel/mm/vm.c:23-39 | walk returns a slot only when the level-0 entry is already valid; an invalid level-0 entry gets a new node installed and walk returns 0, so map_page never reaches line 60 | any call of map_page, e.g. map_page on a fresh root with aligned va and pa | walk allocates nodes only at levels 2 and 1 and returns the level-0 slot, valid or not | high (not executed) | Vm.MapPageAlwaysFails | Vm.WalkFixed, Vm.FixedMapThenLookupAnyRoot |
| kernel/proc/proc.c:100 | after the switch returns, the slot is made RUNNABLE even if the process exited meanwhile | a process whose run calls exit_process: after the sweep it is RUNNABLE and wait cannot reap it | only a process still RUNNING goes back to RUNNABLE | high (not executed) | Proc.ExitedProcessRevived | Proc.RunSlotFixed, Proc.FixedSlotKeepsZombie |
| kernel/proc/proc.c:96 | the scheduler's registers are saved into proc[0].context, the context of a real process slot | create a process in slot 0, then schedule it: its saved entry point is overwritten by the scheduler's registers | save into a scheduler context of its own | high (not executed) | Proc.SlotZeroLoadsSchedulerContext | Proc.EnterFixed, Proc.FixedEnterLoadsEntry |
| kernel/fs.c:57 | namei takes inode slot inum - 2, which holds that inode only while no inode has been freed | create "/a", unlink it, create "/b": "/b" gets slot 0 with inum 3, but its descriptor points at slot 1, which has inum 0 | namei finds the slot that holds inum | high (not executed) | Fs.AsWrittenCreateAfterUnlink | Fs.ResolveFixed, Fs.FixedResolveFindsCreatedFile |
| kernel/fs.c:71 | dirlink copies the name with strcpy into the 28-byte name field, and sys_open accepts paths of up to 63 characters | O_CREATE of "/" followed by 28 letters on a fresh store: the copy writes 29 bytes into 28 | dirlink refuses a name that does not fit | high (not executed) | Fs.AsWrittenLongNameOverruns | Fs.LinkChecked, Fs.LinkCheckedKeepsNamesShort |
