# xv6 per-CPU physical page allocator, in Dafny

This project models `kernel/kalloc.c` of an xv6 kernel, where the page
allocator keeps one free list per CPU. The bank `kmem[NCPU]` holds one LIFO
free list of 4096-byte pages per CPU. The operations are:

- `kfree` checks a page address, fills the page with junk and pushes it on
  the calling CPU's list.
- `kalloc` pops from the calling CPU's list. When that list is empty, it
  steals from the other CPUs' lists in ring order.
- `freerange` and `kinit` seed the bank with every whole page between the
  end of the kernel image and `PHYSTOP`.

Modules:

- `FreeLists` (`free_lists.dfy`) is the pure model. A bank is a
  `seq<seq<nat>>` of `NCPU` pools, and each pool lists its page addresses
  head first. The module defines the list operation of `kfree` (`Push`),
  the ring order of the steal loops (`RingOrder`, `RingDist`,
  `FirstNonEmpty`, `Victim`), the list operation of `kalloc` (`KallocPop`),
  the pages `freerange` visits (`PgRoundUp`, `FreerangePages`), the bank
  `kinit` builds (`BootBank`) and the point where a `freerange` stops on a
  panic (`ValidPrefix`). It also holds the lemmas about each of them.
- `KallocConservation` (`conservation.dfy`) holds whole-run properties of
  the pure model. `Run` applies any interleaving of kfree and kalloc calls,
  on any CPUs, and `RunConserves` proves that no page is lost, duplicated or
  invented over it. `Conservation` proves that a run of kfrees followed by a
  run of kallocs hands back exactly the freed pages. The module also proves
  the exhaustion boundary after boot and the work-stealing scenario.
- `Kalloc` (`kalloc.dfy`) is the allocator as it runs. The class `Kmem`
  holds `pools: array<seq<nat>>`, the linker symbol `end` (`kernelEnd`), and
  ghost state: the pages in use, the pages that have entered the allocator,
  and the last fill byte of each page. Its constructor `Kinit` and its
  methods `Freerange`, `Kfree` and `Kalloc` update the array in place, loop
  as the C code loops, and are proved against the functions of `FreeLists`.
  Each of them keeps the invariant `Valid()`:
  - every free page is aligned and lies in [end, PHYSTOP);
  - no page is on two lists, or twice on one;
  - a page in use is not free;
  - every page that entered is either free or in use;
  - free pages carry fill byte 1 and pages in use carry fill byte 5.

Constants: `PGSIZE` = 4096, `NCPU` = 8, `PHYSTOP` = `KERNBASE` + 128 MiB
with `KERNBASE` = 0x80000000. These are xv6's values. `riscv.h`, `param.h`
and `memlayout.h` are not part of this model. `end` is a parameter of
`Kinit`; it must be positive and at most `PHYSTOP`. It must be positive
because address 0 is both the list terminator and kalloc's failure result.
If `end` were 0, `kfree(0)` would be accepted, and setting a CPU's
`freelist` to 0 would make that list look empty, losing every page behind it.

The C `kfree` panics on a bad address. `Kfree` models this with an `ok`
result: it is false exactly on the panic condition, and then nothing
changes. `Freerange` passes that outcome on. When a page in the middle of
the range fails the check, the pages before it have already been freed;
`ValidPrefix` says how many. `kalloc` returns 0 for "no memory", as the C
code does. The invariant keeps page 0 out of every list, so 0 is never
ambiguous.

## Model

| member | source | states |
|---|---|---|
| `Kalloc.Kmem.Kinit` | kernel/kalloc.c:26-35 | kinit on one CPU leaves every whole page of [PGROUNDUP(end), PHYSTOP) on that CPU's list, highest address first, and every other list empty; nothing is in use, and the pages that entered are exactly the pages kfree accepts |
| `Kalloc.Kmem.Freerange` | kernel/kalloc.c:37-44 | freerange kfrees the pages PGROUNDUP(start), +PGSIZE, ... while a whole page fits below the end; it succeeds iff every such page passes kfree's check; otherwise it stops at the first page that fails, with the pages before it pushed in order on the CPU's list; the freed pages leave the in-use set, enter the allocator and get fill byte 1, and every other page keeps its fill byte |
| `Kalloc.Kmem.Kfree` | kernel/kalloc.c:50-70 | kfree fails (the C panic) iff pa is unaligned, below end or at/above PHYSTOP, changing nothing; otherwise the page gets fill byte 1, becomes the head of the calling CPU's list, leaves the in-use set, and the invariant is kept |
| `Kalloc.Kmem.Kalloc` | kernel/kalloc.c:75-118 | kalloc's two loops give the result of the ring-order search `KallocPop`; it returns 0 iff every list is empty; a returned page passes kfree's check, was free, gets fill byte 5 and joins the in-use set; the invariant is kept |
| `Kalloc.PushKeepsInv` | kernel/kalloc.c:55-68 | freeing a page that kfree accepts and that is not free keeps the allocator invariant |
| `Kalloc.PopKeepsInv` | kernel/kalloc.c:85-116 | a successful kalloc keeps the allocator invariant and returns a free page that kfree would accept |
| `Kalloc.FoundAbove` | kernel/kalloc.c:85-98 | when the first loop finds pool i (every pool from cid to i-1 empty), that is the pool the ring order picks |
| `Kalloc.FoundBelow` | kernel/kalloc.c:100-116 | when the second loop finds pool i (every pool from cid up, and every pool below i, empty), that is the pool the ring order picks |
| `Kalloc.BootFacts` | kernel/kalloc.c:34 | freerange(end, PHYSTOP) never panics, yields the boot bank, and frees exactly the pages kfree accepts |
| `Kalloc.FreerangeNotYetFree` | kernel/kalloc.c:42-43 | within freerange, the next page is not already free, so freerange never double-frees a page of its own range |
| `Kalloc.FreerangeStep` | kernel/kalloc.c:42-43 | one freerange iteration puts the next page in front of the pages already freed on the CPU's list, and adds exactly that page to the pages freed so far |
| `FreeLists.EmptyBank` | kernel/kalloc.c:21-24 | the bank before kinit: NCPU lists, all empty |
| `FreeLists.EmptyBankHasNoPages` | kernel/kalloc.c:21-24 | the bank before kinit holds no free page |
| `FreeLists.ValidPa` | kernel/kalloc.c:55-56 | the address test of kfree: pa is accepted iff it is page aligned, at or above end and below PHYSTOP (definition; Kfree's ok result is proved equal to it) |
| `FreeLists.Push` | kernel/kalloc.c:67-68 | the list operation of kfree: pa becomes the head of the CPU's list; the bank keeps NCPU lists (its properties are PushShape and PushConserves) |
| `FreeLists.RingOrder` | kernel/kalloc.c:85-116 | the order kalloc visits the lists from CPU cid: NCPU entries, the k-th being (cid + k) mod NCPU (its properties are RingOrderBijective and RingOrderIsTwoLoops) |
| `FreeLists.Victim` | kernel/kalloc.c:85-116 | the list kalloc takes from: the first non-empty list in ring order, and none when all are empty; a chosen list is a CPU's list and non-empty (characterised by VictimIsNearest) |
| `FreeLists.KallocPop` | kernel/kalloc.c:85-117 | the list operation of kalloc: pop the head of the victim list, or return 0 and change nothing; the bank keeps NCPU lists (its properties are KallocPops, KallocFailsIffAllEmpty and KallocKeepsOk) |
| `FreeLists.PopHead` | kernel/kalloc.c:88-90 | unlinking the head of one list removes exactly that page from the free pages, and the count goes down by one |
| `FreeLists.PgRoundUp` | kernel/kalloc.c:41 | PGROUNDUP(a) is page aligned and lies in [a, a + PGSIZE) |
| `FreeLists.RoundUpIsLeast` | kernel/kalloc.c:41 | PGROUNDUP(a) is the least aligned address at or above a |
| `FreeLists.FlattenUpdate` | kernel/kalloc.c:21-24 | replacing one list of the bank swaps exactly that list's pages in the multiset of free pages |
| `FreeLists.CountZeroIffAllEmpty` | kernel/kalloc.c:21-24 | the bank holds no free page iff every list is empty |
| `FreeLists.PushShape` | kernel/kalloc.c:67-68 | after kfree, pa is the head of the CPU's list, the old list is its tail, and every other list is unchanged |
| `FreeLists.PushConserves` | kernel/kalloc.c:67-68 | kfree adds exactly the page pa to the free pages; the count of free pages goes up by one |
| `FreeLists.PushKeepsOk` | kernel/kalloc.c:55-68 | freeing an accepted page that is not free keeps every free page valid and on one list once |
| `FreeLists.RingOrderBijective` | kernel/kalloc.c:85-116 | kalloc's visiting order lists every pool exactly once; the k-th pool visited is at ring distance k |
| `FreeLists.RingOrderIsTwoLoops` | kernel/kalloc.c:85-116 | the ring order (cid + k) mod NCPU is exactly cid .. NCPU-1 followed by 0 .. cid-1, the two loops of kalloc |
| `FreeLists.FirstNonEmpty` | kernel/kalloc.c:85-116 | the search stops at the first non-empty pool in the given order: every pool before it is empty, and it is past the end only when all are empty |
| `FreeLists.VictimIsNearest` | kernel/kalloc.c:85-116 | kalloc takes from pool v iff v is non-empty and every pool it visits before v is empty |
| `FreeLists.KallocFailsIffAllEmpty` | kernel/kalloc.c:85-117 | with no page 0 on any list, kalloc returns 0 iff every list is empty, and then no list changes |
| `FreeLists.KallocPops` | kernel/kalloc.c:88-91 | a successful kalloc returns the head of the chosen list, leaves that list its old tail and the other lists unchanged, and removes exactly the returned page; the count goes down by one |
| `FreeLists.KallocKeepsOk` | kernel/kalloc.c:85-116 | kalloc keeps every free page valid and on one list once; a returned page was free and no longer is |
| `FreeLists.PushThenPop` | kernel/kalloc.c:67-91 | kfree then kalloc on the same CPU returns the freed page and restores the bank (each list is LIFO) |
| `FreeLists.PagesIn` | kernel/kalloc.c:41-42 | the number of whole pages from PGROUNDUP(start) up to the end (definition; FreerangeLoopTest proves it is where the loop stops) |
| `FreeLists.FreerangePages` | kernel/kalloc.c:41-43 | the addresses freerange passes to kfree, in call order: PagesIn(start, end) of them, PGROUNDUP(start) + k * PGSIZE (its properties are FreerangeLoopTest, FreerangeMembership and FreerangeIncreasing) |
| `FreeLists.BootBank` | kernel/kalloc.c:34 | the bank kinit builds on CPU cid: the pages of freerange(end, PHYSTOP) on that CPU's list, last freed first, and every other list empty (BootFacts proves Kinit builds it) |
| `FreeLists.FreerangeLoopTest` | kernel/kalloc.c:42 | the loop test p + PGSIZE <= end holds at the k-th page iff k is below the number of whole pages in the range |
| `FreeLists.FreerangeMembership` | kernel/kalloc.c:38-43 | freerange frees an address iff it is aligned, at or above PGROUNDUP(start), and its page ends at or below the end |
| `FreeLists.FreerangeIncreasing` | kernel/kalloc.c:41-42 | every page freerange frees is aligned, and the pages strictly increase |
| `FreeLists.FreerangeCoversManaged` | kernel/kalloc.c:34 | over [end, PHYSTOP), freerange frees exactly the pages kfree accepts |
| `FreeLists.ValidPrefix` | kernel/kalloc.c:42-43 | the number of leading pages that pass kfree's check: all before it pass, and the page at it (if any) fails |
| `FreeLists.ValidPrefixAt` | kernel/kalloc.c:55-56 | ValidPrefix is the unique length whose pages all pass and which ends at the end or at a failing page |
| `FreeLists.IncreasingIsDistinct` | kernel/kalloc.c:42 | a strictly increasing run of pages holds no page twice |
| `FreeLists.ReversedMultiset` | kernel/kalloc.c:67-68 | pushing a run of pages one by one keeps exactly those pages |
| `KallocConservation.FreeAll` | kernel/kalloc.c:67-68 | a run of kfrees that kfree accepts: page i is pushed on CPU i's list, in call order (its property is FreeAllConserves); the address check is not applied, see "Left out" |
| `KallocConservation.AllocAll` | kernel/kalloc.c:85-117 | a run of kallocs on the given CPUs: one result per call, in call order (its property is AllocAllDrains) |
| `KallocConservation.Run` | kernel/kalloc.c:50-117 | any interleaving of kfree and kalloc calls on any CPUs, applied in order; the kalloc results in call order (its property is RunConserves); a kfree step is kfree's accepted path only, see "Left out" |
| `KallocConservation.FreedPages` | kernel/kalloc.c:50-70 | the pages passed to kfree in a run of calls, at most one per call |
| `KallocConservation.NonZero` | kernel/kalloc.c:117 | the kalloc results that are pages: the run's results without the 0 of "no memory" |
| `KallocConservation.RunConserves` | kernel/kalloc.c:50-117 | over any interleaving of kfree and kalloc calls, with no page 0 freed, the pages still free plus the pages kalloc returned equal, as a multiset, the pages free at the start plus the pages freed: no page is lost, duplicated or invented |
| `KallocConservation.FreeAllConserves` | kernel/kalloc.c:67-68 | any run of kfrees, on any CPUs, adds exactly the freed pages to the free pages |
| `KallocConservation.AllocAllDrains` | kernel/kalloc.c:85-117 | as many kallocs as there are free pages, on any CPUs, return every free page exactly once and leave every list empty |
| `KallocConservation.Conservation` | kernel/kalloc.c:61-117 | from empty lists, freeing pages S and then calling kalloc |S| times returns exactly S, each page as often as it was freed; every further kalloc returns 0 |
| `KallocConservation.ExhaustionBoundary` | kernel/kalloc.c:26-117 | after kinit over K whole pages, K kallocs on any CPUs return K distinct valid pages, and the next kalloc returns 0 |
| `KallocConservation.StealsFromNeighbour` | kernel/kalloc.c:85-98 | with CPU 0's list empty and one page on CPU 1's list, kalloc on CPU 0 returns that page |

## Left out

- Spinlocks (`initlock`, `acquire`, `release`) are left out, and so is the `kinit` loop that only initialises them. The model has no concurrency: a whole `kfree` or `kalloc` call is atomic, the ring scan included. The C code holds one pool's lock at a time, so with concurrent calls a kfree onto a pool the scan has already passed can make kalloc return 0 while a page is free. `KallocFailsIffAllEmpty` and `Kalloc.Kmem.Kalloc`'s "returns 0 iff every list is empty" are therefore sequential properties.
- `push_off`/`pop_off` and `cpuid()` are left out. The CPU id is a parameter of `Kfree`, `Kalloc`, `Freerange` and `Kinit`.
- The page contents and the `memset` calls are left out. Only a ghost fill byte per page is kept.
- The use of a free page's first word as `struct run` is left out. Each list is a sequence of addresses.
- `panic` halting the machine is left out. In `Kalloc.Kmem.Kfree` it becomes a `false` result that changes nothing. `Kalloc.Kmem.Freerange` passes that `false` on and stops, and the pages before the failing one stay freed, as in the C code up to the panic.
- `end` is a parameter of `Kinit`, not the linker symbol. `PHYSTOP`, `NCPU` and `PGSIZE` are fixed at xv6's values, and the proofs are for those values: `FreerangeCoversManaged` uses that `PHYSTOP` is page aligned, and `StealsFromNeighbour` uses that `NCPU` is at least 2.
- `KallocConservation.Run`: a kfree step is only kfree's accepted path; the address check of kernel/kalloc.c:55-56 is not applied. A panicking kfree halts the machine, so runs that contain one are not modelled. `RunConserves` holds for every sequence of pages, so it also covers every run the C code completes.
- `KallocConservation.FreeAll`: as for `Run`, each kfree is only kfree's accepted path, and runs with a panicking kfree are not modelled. `FreeAllConserves` holds for every sequence of pages.
- Addresses are unbounded naturals, so 64-bit wrap-around in `PGROUNDUP` and in `p + PGSIZE` is not modelled. It cannot arise for ranges below `PHYSTOP`.
- `Kalloc.Kmem.Kfree`: a double free is not detected by the C code. Here "pa is not already free" is a precondition, not a checked outcome.
