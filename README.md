# Working-set page replacement, modelled in Dafny

This project models three small page-replacement engines and proves what they
do. The properties are proved by the Dafny verifier.

- **Clock-hand WSClock** (`WSClock_1/wsclock_kernel.c`, module `WSClockHand`).
  Each process has a page table and a clock. On an access, a hit marks the page
  referenced and stamps it with the clock. On a fault, the engine counts the
  resident pages. If the working set is full, it searches for a victim with a
  circular clock hand:
  - a referenced page gets a second chance (its bit is cleared);
  - a page whose age gap is under 5 is skipped;
  - a clean old page is evicted;
  - a dirty old page is written back (its dirty bit is cleared) and evicted,
    within a quota of 2 write-backs per scan.

  The hand is one `static` cursor that every process shares. The model keeps it
  as one field of the environment.
- **Oldest-page WSClock** (`WSClock/wsclock_kernel.c`, module `WSClockOldest`).
  This engine has the same access, fault and periodic-scan skeleton. Its victim
  is found by a read-only two-pass search: the oldest unreferenced resident page,
  otherwise the oldest resident page. Ties go to the lowest index.
- **Fixed-window working-set table** (`os_keshe_workingset/kernel_module.c`,
  module `WorkingSetTable`). A global table holds `MAX_PROCESSES` = 10 slots.
  Each slot is a working set of up to `MAX_PAGES` = 256 pages. The module offers
  these operations:
  - creating a process in the first free slot (process id -1);
  - marking a referenced page;
  - a periodic update that clears the lowest-indexed resident pages of each
    process until its resident count fits its working-set size.

The page and process records shared by both WSClock engines are in module
`WSClockPages`. `Optional.Option` stands for a nullable pointer result.

Each entity keeps the form the C code gives it:
- page tables are `array`s updated entry by entry;
- `struct Process` and the environments are classes, and only their clock, hand
  and page tables change;
- the kernel's static table is an `array` of slot records inside a `Kernel`
  class.

Every method is tied by its `ensures` to a pure function:
- `Scan` and `Access` for the clock engine;
- `OldestVictim` and `Access` for the oldest-page engine;
- `Created`, `Referenced` and `Trim`/`UpdateSlot` for the table.

Lemmas state what those functions guarantee.

The clock scan has an independent closed-form description, built from
`FirstEligible`, `Swept` and `Expected`. `ScanCharacterised` proves that the
step-by-step scan equals it. The closed form states the scan's result directly:
- the first eligible page in circular order from the re-wrapped hand is
  evicted;
- every slot passed before it has lost its referenced bit;
- a scan that finds nothing sweeps the whole table and leaves the hand where it
  started.

A consequence is that the write-back quota never binds. The only write-back in
a scan is followed at once by the return, so the counter is always 0 when it
is tested. The quota-exhausted branch of the imperative scan is therefore
proved unreachable.

## Model

| member | source | states |
|---|---|---|
| WSClockPages.ClearAll | WSClock_1/wsclock_kernel.c:177-181 | the sweep keeps length, identity, residency, dirty bit and age of every page; it clears the referenced bit of every resident page and leaves non-resident pages exactly as they were |
| WSClockPages.Touch | WSClock_1/wsclock_kernel.c:47-48 | a hit sets the referenced bit and the age to the clock, and keeps identity, dirty bit and residency |
| WSClockPages.Insert | WSClock_1/wsclock_kernel.c:72-75 | a faulted-in page is resident, referenced, clean and stamped with the clock, with its identity kept |
| WSClockPages.Evict | WSClock_1/wsclock_kernel.c:64-67 | an evicted page is out of the working set, unreferenced, clean and of age 0, with its identity kept |
| WSClockPages.ClearAllKeepsZeroed | WSClock_1/wsclock_kernel.c:177-181 | the sweep keeps the invariant that every non-resident page is unreferenced, clean and of age 0 |
| WSClockPages.ClearAllIdempotent | WSClock/wsclock_kernel.c:126-130 | a second reference-bit sweep changes nothing |
| WSClockPages.ResidentCountUpdate | WSClock_1/wsclock_kernel.c:54-59 | replacing one page changes the resident count by the difference of the old and new residency of that page |
| WSClockPages.ResidentCountZero | WSClock_1/wsclock_kernel.c:54-59 | the resident count is zero exactly when no page is in the working set |
| WSClockPages.Process.constructor | WSClock/wsclock_kernel.h:27-34 | a process record holds the given id, page table, working-set size, clock and active flag |
| WSClockPages.Process.CountResident | WSClock_1/wsclock_kernel.c:54-59 | the counting loop returns the number of resident pages of the table |
| WSClockPages.Process.ClearReferenced | WSClock_1/wsclock_kernel.c:177-181 | the loop leaves the table equal to ClearAll of the old table |
| WSClockHand.OldEnoughUnsigned | WSClock_1/wsclock_kernel.c:110-113 | for a clock and an age within the range of unsigned long, the age test holds exactly when their difference modulo 2^64 is at least 5 |
| WSClockHand.Start | WSClock_1/wsclock_kernel.c:94-97 | the scan starts at the shared hand when it lies within the table, otherwise at 0 |
| WSClockHand.Scan | WSClock_1/wsclock_kernel.c:87-155 | a whole scan from the re-wrapped hand with no write-backs yet: the table length is kept, the hand stays in range, and a victim is the slot under the hand |
| WSClockHand.ScanLoop | WSClock_1/wsclock_kernel.c:99-154 | one examined slot per step: the table length is kept, the hand stays in range, and a returned victim is the slot under the hand |
| WSClockHand.FirstEligible | WSClock_1/wsclock_kernel.c:101-117 | the first step in circular order whose page is resident, unreferenced and at least 5 ticks old; no earlier step is such a page, and none means none exists |
| WSClockHand.ScanLoopFrom | WSClock_1/wsclock_kernel.c:99-150 | started at any step with the earlier slots swept and fewer than 2 write-backs made, the loop ends in the closed-form outcome for the first eligible step |
| WSClockHand.ScanCharacterised | WSClock_1/wsclock_kernel.c:87-155 | a whole scan from the re-wrapped hand equals the closed form: the first eligible page in circular order is the victim (its dirty bit cleared), the hand rests on it, and the slots passed before it lose their referenced bit; with no eligible page, every resident page loses its bit and the hand is back at the start |
| WSClockHand.ScanEmpty | WSClock_1/wsclock_kernel.c:94-97 | on an empty table the hand is re-wrapped to 0 and no victim is returned |
| WSClockHand.ScanVictim | WSClock_1/wsclock_kernel.c:95-154 | a victim is resident, was unreferenced and is old enough, and the hand is left on it; a page with its referenced bit set is never the victim; no victim exactly when no page is eligible, and then the hand is back at the re-wrapped start |
| WSClockHand.ScanFootprint | WSClock_1/wsclock_kernel.c:99-149 | a scan never changes residency, age or identity and never sets a referenced bit; only the victim's dirty bit can be cleared (its write-back); slots passed before the victim are swept and slots after it are untouched |
| WSClockHand.Access | WSClock_1/wsclock_kernel.c:44-76 | after an accepted access the page is resident, referenced and stamped with the clock, with its identity kept and the table length unchanged |
| WSClockHand.AccessHit | WSClock_1/wsclock_kernel.c:45-48 | a hit sets the referenced bit and the age of that page to the clock and changes no other page, the residency, the dirty bit or the hand |
| WSClockHand.AccessFault | WSClock_1/wsclock_kernel.c:49-76 | the faulted page becomes resident, referenced, clean and stamped. At or above the working-set size a scan runs: every other page is as the scan left it, except the victim, which is a different, previously resident page with all four fields zeroed, and the hand is where the scan left it. When a victim was found the resident count is unchanged, otherwise it grows by one. Below the size no other page changes and the hand does not move |
| WSClockHand.AccessKeepsZeroed | WSClock_1/wsclock_kernel.c:44-76 | an accepted access keeps the invariant that every non-resident page is unreferenced, clean and of age 0 |
| WSClockHand.Environment.constructor | WSClock_1/wsclock_kernel.c:13-23 | the environment holds the given processes and count; the hand, which wsclock_init does not touch, keeps the value it is given |
| WSClockHand.Environment.FindVictim | WSClock_1/wsclock_kernel.c:87-155 | the imperative scan leaves the table, the shared hand and the victim exactly as Scan of the old table, clock and hand describes |
| WSClockHand.Environment.AccessPage | WSClock_1/wsclock_kernel.c:25-77 | an out-of-range process, an inactive one or an out-of-range page changes nothing; otherwise the clock goes up by one and the table and the hand become what Access gives |
| WSClockHand.Environment.PeriodicScan | WSClock_1/wsclock_kernel.c:167-182 | under the same process guards the page table becomes ClearAll of the old one; a rejected call changes nothing |
| WSClockOldest.Best | WSClock/wsclock_kernel.c:88-107 | the chosen slot of a pass is a candidate of minimum age among the slots seen, every earlier candidate is strictly older, and none is chosen exactly when no candidate was seen |
| WSClockOldest.IsOldestUnique | WSClock/wsclock_kernel.c:88-107 | the tie-break makes the oldest candidate unique |
| WSClockOldest.OldestVictim | WSClock/wsclock_kernel.c:82-110 | the victim is the oldest unreferenced resident page if one exists, otherwise the oldest resident page; none exactly when nothing is resident |
| WSClockOldest.FindVictim | WSClock/wsclock_kernel.c:82-110 | the two loops return OldestVictim of the page table and change nothing |
| WSClockOldest.Access | WSClock/wsclock_kernel.c:42-76 | after an accepted access the page is resident, referenced and stamped with the clock, with its identity kept and the table length unchanged |
| WSClockOldest.AccessHit | WSClock/wsclock_kernel.c:40-46 | a hit sets the referenced bit and the age of that page to the clock and changes nothing else; the resident count is unchanged |
| WSClockOldest.AccessFault | WSClock/wsclock_kernel.c:47-76 | the faulted page becomes resident, referenced, clean and stamped; with a full working set one resident page, the oldest victim, is evicted with its fields zeroed and the count is unchanged, otherwise the count grows by one; no other page changes |
| WSClockOldest.AccessKeepsBound | WSClock/wsclock_kernel.c:52-75 | with a working-set size of at least 1, an access never takes the resident count above the size |
| WSClockOldest.AccessKeepsZeroed | WSClock/wsclock_kernel.c:42-76 | an accepted access keeps the invariant that every non-resident page is unreferenced, clean and of age 0 |
| WSClockOldest.Environment.constructor | WSClock/wsclock_kernel.c:7-17 | the environment holds the given processes and count |
| WSClockOldest.Environment.AccessPage | WSClock/wsclock_kernel.c:23-77 | a rejected access changes nothing; an accepted one raises the clock by one and the table becomes what Access gives |
| WSClockOldest.Environment.PeriodicScan | WSClock/wsclock_kernel.c:116-131 | under the process guards the page table becomes ClearAll of the old one; a rejected call changes nothing |
| WorkingSetTable.FirstSlot | os_keshe_workingset/kernel_module.c:68-73 | the first slot carrying the id; no earlier slot carries it, and none means no slot does |
| WorkingSetTable.Created | os_keshe_workingset/kernel_module.c:41-49 | a created slot has the new id, at most 256 pages in use and a working-set size of at least 1 |
| WorkingSetTable.CreatedSlot | os_keshe_workingset/kernel_module.c:41-49 | a created slot has the new id, min(maxPages, 256) pages in use, a working-set size of at least 1 (the requested one when positive), its pages in use numbered in order and out of the working set, and its other entries untouched |
| WorkingSetTable.Referenced | os_keshe_workingset/kernel_module.c:86 | a referenced page is in the working set, and the slot header is unchanged |
| WorkingSetTable.ReferencedSlot | os_keshe_workingset/kernel_module.c:86 | a reference puts exactly that page into the working set and touches no other entry; the resident count grows by one unless the page was already in |
| WorkingSetTable.Trim | os_keshe_workingset/kernel_module.c:106-124 | the trim keeps the slot header and the length of its page array |
| WorkingSetTable.UpdateSlot | os_keshe_workingset/kernel_module.c:100-125 | the update of one slot keeps its header and its page array length |
| WorkingSetTable.TrimSpec | os_keshe_workingset/kernel_module.c:106-124 | the trim only clears working-set bits of pages in use and keeps the header; a slot within its size is unchanged, and a slot over it ends with exactly its working-set size of resident pages |
| WorkingSetTable.TrimLowestFirst | os_keshe_workingset/kernel_module.c:116-124 | every page the trim clears comes before every page it keeps |
| WorkingSetTable.KeptCount | os_keshe_workingset/kernel_module.c:117-123 | clearing the first toRemove resident entries of a prefix lowers its count by toRemove, or to 0 |
| WorkingSetTable.UpdateSlotSpec | os_keshe_workingset/kernel_module.c:100-125 | after the update an occupied slot fits its working-set size, a free slot is unchanged, and a second update changes nothing |
| WorkingSetTable.CountSlot | os_keshe_workingset/kernel_module.c:107-112 | the counting loop returns the number of resident pages among the pages in use of the slot |
| WorkingSetTable.TrimSlot | os_keshe_workingset/kernel_module.c:106-124 | the counting loop and the trim loop over one slot produce Trim of it |
| WorkingSetTable.Kernel.constructor | os_keshe_workingset/kernel_module.c:4-5 | the static table starts with 10 zeroed slots and a count of 0 |
| WorkingSetTable.Kernel.Init | os_keshe_workingset/kernel_module.c:11-24 | the count becomes 0 and every slot becomes free: id -1, no pages, size 0, entry j numbered j and out of the working set |
| WorkingSetTable.Kernel.CreateProcess | os_keshe_workingset/kernel_module.c:29-57 | with 10 processes already, or no free slot, the result is -1 and nothing changes; otherwise the first free slot becomes Created, the count goes up by one and the result is 0 |
| WorkingSetTable.Kernel.ReferencePage | os_keshe_workingset/kernel_module.c:62-89 | with no slot carrying the id, or a page outside 0..pageCount-1, the result is -1 and nothing changes; otherwise the first matching slot becomes Referenced and the result is 0 |
| WorkingSetTable.Kernel.UpdateWorkingSets | os_keshe_workingset/kernel_module.c:95-126 | every slot becomes UpdateSlot of its old value, so every occupied slot ends within its working-set size |
| WorkingSetTable.Kernel.GetProcessCount | os_keshe_workingset/kernel_module.c:135-138 | the count of created processes, between 0 and 10 |
| WorkingSetTable.Kernel.GetProcessTable | os_keshe_workingset/kernel_module.c:129-132 | a view of all 10 slots, each a well-formed working set |

## Left out

- The logging callback and `log_msg` of both WSClock engines are not modelled (output only).
- `wsclock_cleanup` is not modelled: its body is empty.
- The null checks on the environment and process pointers are not modelled: Dafny references are never null.
- `page_count` is taken to be the length of the page table array; a count that disagrees with the allocation is not modelled.
- The int flags `referenced`, `modified`, `in_working_set`, `active` and `inWorkingSet` are booleans, because the code only ever stores 0 or 1 in them.
- The process clock and page ages are unbounded naturals. The `unsigned long` wrap-around of the clock after 2^64 ticks is not modelled. An age ahead of the clock is compared through the unsigned difference modulo 2^64, as the code computes it.
- WSClockOldest.FindVictim: the `ULONG_MAX` starting minimum is modelled as "no candidate yet". A resident page of age `ULONG_MAX` is therefore a candidate here, while the code can skip it. Ages never reach that value without the wrap-around that is not modelled.
- WSClockHand.Environment.constructor: the hand is a field of each environment, and its value is passed to the constructor. In the code it is a function-level static: 0 at program start, kept by later wsclock_init calls and shared by every environment. A program with one environment, such as `WSClock_1/main.c:76-78`, passes 0. Two environments alive at once that share one cursor are not captured.
- The constructors require `process_count` to be at most the length of the process array. The C code trusts its caller on this and reads out of bounds otherwise.
- The driver programs `WSClock_1/main.c` and `os_keshe_workingset/mian.c` are not part of this model. They only build inputs and print.
- `ProcessControlBlock` holds nothing but its `WorkingSet`, so each kernel slot is modelled as the `WorkingSet` value itself.
- WorkingSetTable.Kernel.GetProcessTable: the code returns a pointer through which callers may write the table. The model returns a read-only copy.
- WorkingSetTable.TrimSlot: the trim works on a copy of one slot, and the result is written back into the table, rather than updating the embedded array in place.
- Both environments share their `Process` objects with the caller. The model does not capture aliasing between two processes that share one page table.
- The clock engine's hand is not kept per process. The comment beside the cursor (`WSClock_1/wsclock_kernel.c:89-90`) suggests a per-process field, but the code uses one `static` cursor for all processes. The model follows the code, so a scan of one process starts where a scan of another left off.
- `Kernel_CreateProcess` does not check for duplicate process ids. The model keeps that: a second process with the same id is created, and references go to the first slot that carries it.
