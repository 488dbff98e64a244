/** Pure model of the xv6 physical page allocator with one LIFO free list per
    CPU (kernel/kalloc.c). A pool bank is a sequence of NCPU pools; a pool is
    the sequence of free page addresses on that CPU's list, head first. */
module FreeLists {

  /** Bytes per page (riscv.h). */
  const PGSIZE: nat := 4096
  /** Number of CPUs, hence of pools (param.h). */
  const NCPU: nat := 8
  /** Start of physical RAM (memlayout.h). */
  const KERNBASE: nat := 0x8000_0000
  /** First address past the RAM the allocator manages (memlayout.h). */
  const PHYSTOP: nat := KERNBASE + 128 * 1024 * 1024

  /** Byte written over a page when it is freed. */
  const FreedJunk: bv8 := 1
  /** Byte written over a page when it is handed out. */
  const AllocJunk: bv8 := 5

  datatype Option<T> = None | Some(value: T)

  /** One CPU's free list; element 0 is the head. */
  type Pool = seq<nat>
  /** All pools, indexed by CPU id. */
  type Bank = seq<Pool>

  /** The result of one kalloc: the new bank and the page (0 for none). */
  datatype Alloc = Alloc(bank: Bank, pa: nat)

  /** The result of several kallocs in a row. */
  datatype Allocs = Allocs(bank: Bank, pages: seq<nat>)

  predicate WellFormed(bank: Bank)
  {
    |bank| == NCPU
  }

  predicate AllEmpty(bank: Bank)
  {
    forall i :: 0 <= i < |bank| ==> bank[i] == []
  }

  function EmptyBank(): (b: Bank)
    ensures WellFormed(b) && AllEmpty(b)
  {
    seq(NCPU, _ => [])
  }

  // ---------------------------------------------------------------- addresses

  predicate Aligned(a: nat)
  {
    a % PGSIZE == 0
  }

  /** The address check at the top of kfree: aligned and in [end, PHYSTOP). */
  predicate ValidPa(pa: nat, kernelEnd: nat)
  {
    Aligned(pa) && kernelEnd <= pa < PHYSTOP
  }

  /** Every page kfree accepts, given the linker symbol `end`. */
  ghost function ManagedPages(kernelEnd: nat): set<nat>
  {
    set p: nat | p < PHYSTOP && ValidPa(p, kernelEnd)
  }

  /** PGROUNDUP: the first page boundary at or above `a`. */
  function PgRoundUp(a: nat): (r: nat)
    ensures Aligned(r) && a <= r < a + PGSIZE
  {
    (a + PGSIZE - 1) / PGSIZE * PGSIZE
  }

  lemma RoundUpIsLeast(a: nat, x: nat)
    requires Aligned(x)
    ensures a <= x <==> PgRoundUp(a) <= x
  {
  }

  // ------------------------------------------------------------ free pages

  /** Every free page of the bank, pool after pool. */
  function Flatten(bank: Bank): seq<nat>
  {
    if bank == [] then [] else bank[0] + Flatten(bank[1..])
  }

  /** Number of free pages in the bank. */
  function Count(bank: Bank): nat
  {
    |Flatten(bank)|
  }

  ghost predicate Distinct(s: seq<nat>)
  {
    forall p :: multiset(s)[p] <= 1
  }

  /** What kfree and kalloc keep true of the bank: the right number of pools,
      every free page one kfree accepts, and no page on two lists or twice
      on one. */
  ghost predicate BankOk(bank: Bank, kernelEnd: nat)
  {
    WellFormed(bank) &&
    (forall p :: p in Flatten(bank) ==> ValidPa(p, kernelEnd)) &&
    Distinct(Flatten(bank))
  }

  /** Replacing one pool swaps that pool's pages for the new ones in the
      multiset of free pages. */
  lemma {:induction false} FlattenUpdate(bank: Bank, i: nat, s: Pool)
    requires i < |bank|
    ensures multiset(Flatten(bank[i := s])) + multiset(bank[i])
         == multiset(Flatten(bank)) + multiset(s)
  {
    var b := bank[i := s];
    if i == 0 {
      assert b[1..] == bank[1..];
      assert multiset(Flatten(b)) == multiset(s) + multiset(Flatten(bank[1..]));
      assert multiset(Flatten(bank)) == multiset(bank[0]) + multiset(Flatten(bank[1..]));
    } else {
      FlattenUpdate(bank[1..], i - 1, s);
      assert b[1..] == bank[1..][i - 1 := s];
      assert b[0] == bank[0] && bank[1..][i - 1] == bank[i];
      calc {
        multiset(Flatten(b)) + multiset(bank[i]);
        multiset(bank[0]) + multiset(Flatten(b[1..])) + multiset(bank[i]);
        multiset(bank[0]) + (multiset(Flatten(b[1..])) + multiset(bank[i]));
        multiset(bank[0]) + (multiset(Flatten(bank[1..])) + multiset(s));
        multiset(bank[0]) + multiset(Flatten(bank[1..])) + multiset(s);
        multiset(Flatten(bank)) + multiset(s);
      }
    }
  }

  /** A strictly increasing sequence holds no page twice. */
  lemma {:induction false} IncreasingIsDistinct(s: seq<nat>)
    requires forall i, j :: 0 <= i < j < |s| ==> s[i] < s[j]
    ensures Distinct(s)
  {
    if s != [] {
      IncreasingIsDistinct(s[1..]);
      assert s == [s[0]] + s[1..];
      assert s[0] !in s[1..];
      forall p ensures multiset(s)[p] <= 1 {
        assert multiset(s)[p] == (multiset{s[0]} + multiset(s[1..]))[p];
      }
    }
  }

  /** A sequence with the pages of `b` and one more is one longer. */
  lemma OneMore(a: seq<nat>, b: seq<nat>, x: nat)
    requires multiset(a) == multiset(b) + multiset{x}
    ensures |a| == |b| + 1
  {
    assert |multiset(a)| == |a| && |multiset(b)| == |b|;
  }

  /** A run that gained exactly the page `x` holds the old pages and `x`. */
  lemma AddedOne(before: seq<nat>, after: seq<nat>, x: nat)
    requires multiset(after) == multiset(before) + multiset{x}
    ensures forall p :: p in after <==> p in before || p == x
  {
    forall p ensures p in after <==> p in before || p == x {
      assert multiset(after)[p] == (multiset(before) + multiset{x})[p];
    }
  }

  /** A run that lost exactly the page `x`, and no longer holds it, held `x`
      and keeps every other page. */
  lemma RemovedOne(before: seq<nat>, after: seq<nat>, x: nat)
    requires multiset(before) == multiset(after) + multiset{x} && x !in after
    ensures x in before
    ensures forall p :: p in after <==> p in before && p != x
  {
    assert multiset(before)[x] == (multiset(after) + multiset{x})[x];
    forall p ensures p in after <==> p in before && p != x {
      assert multiset(before)[p] == (multiset(after) + multiset{x})[p];
    }
  }

  /** Every page on a pool is a free page of the bank. */
  lemma PoolInFlatten(bank: Bank, i: nat, p: nat)
    requires i < |bank| && p in bank[i]
    ensures p in Flatten(bank)
  {
    var none: seq<nat> := [];
    FlattenUpdate(bank, i, none);
    assert multiset(bank[i])[p] > 0;
    assert multiset(none) == multiset{};
    assert (multiset(Flatten(bank[i := none])) + multiset(bank[i]))[p]
        == (multiset(Flatten(bank)) + multiset(none))[p];
  }

  /** The bank holds no free page exactly when every pool is empty. */
  lemma {:induction false} CountZeroIffAllEmpty(bank: Bank)
    ensures Count(bank) == 0 <==> AllEmpty(bank)
  {
    if bank != [] {
      CountZeroIffAllEmpty(bank[1..]);
      if AllEmpty(bank) {
        assert AllEmpty(bank[1..]) by {
          forall i | 0 <= i < |bank[1..]| ensures bank[1..][i] == [] {
            assert bank[1..][i] == bank[i + 1];
          }
        }
      }
      if Count(bank) == 0 {
        forall i | 0 <= i < |bank| ensures bank[i] == [] {
          if i > 0 { assert bank[i] == bank[1..][i - 1]; }
        }
      }
    }
  }

  // ------------------------------------------------------------------ kfree

  /** The list operation of kfree: `pa` becomes the head of pool `cid`. */
  function Push(bank: Bank, cid: nat, pa: nat): (b: Bank)
    requires WellFormed(bank) && cid < NCPU
    ensures WellFormed(b)
  {
    bank[cid := [pa] + bank[cid]]
  }

  /** kfree links `pa` in front of the old list of pool `cid` and leaves
      every other pool as it was. */
  lemma PushShape(bank: Bank, cid: nat, pa: nat)
    requires WellFormed(bank) && cid < NCPU
    ensures Push(bank, cid, pa)[cid][0] == pa
    ensures Push(bank, cid, pa)[cid][1..] == bank[cid]
    ensures forall i :: 0 <= i < NCPU && i != cid ==> Push(bank, cid, pa)[i] == bank[i]
  {
  }

  /** Pushing onto a pool that already holds `s` in front of its old list
      puts [pa] + s in front of that list. */
  lemma PushOnto(bank: Bank, cid: nat, s: Pool, pa: nat)
    requires WellFormed(bank) && cid < NCPU
    ensures Push(bank[cid := s + bank[cid]], cid, pa) == bank[cid := ([pa] + s) + bank[cid]]
  {
    assert [pa] + (s + bank[cid]) == ([pa] + s) + bank[cid];
  }

  /** kfree adds exactly one free page, `pa`. */
  lemma PushConserves(bank: Bank, cid: nat, pa: nat)
    requires WellFormed(bank) && cid < NCPU
    ensures multiset(Flatten(Push(bank, cid, pa))) == multiset(Flatten(bank)) + multiset{pa}
    ensures Count(Push(bank, cid, pa)) == Count(bank) + 1
  {
    var a, b, c := multiset(Flatten(Push(bank, cid, pa))), multiset(Flatten(bank)), multiset(bank[cid]);
    FlattenUpdate(bank, cid, [pa] + bank[cid]);
    assert multiset([pa] + bank[cid]) == multiset{pa} + c;
    assert a + c == (b + multiset{pa}) + c;
    forall x ensures a[x] == (b + multiset{pa})[x] {
      assert (a + c)[x] == ((b + multiset{pa}) + c)[x];
    }
    OneMore(Flatten(Push(bank, cid, pa)), Flatten(bank), pa);
  }

  /** Freeing a page kfree accepts and that is not already free keeps the
      bank well formed. */
  lemma PushKeepsOk(bank: Bank, cid: nat, pa: nat, kernelEnd: nat)
    requires BankOk(bank, kernelEnd) && cid < NCPU
    requires ValidPa(pa, kernelEnd) && pa !in Flatten(bank)
    ensures BankOk(Push(bank, cid, pa), kernelEnd)
  {
    PushConserves(bank, cid, pa);
    var b := Push(bank, cid, pa);
    forall p | p in Flatten(b) ensures ValidPa(p, kernelEnd) {
      assert multiset(Flatten(b))[p] > 0;
    }
  }

  // ------------------------------------------------------ the steal order

  /** The pools kalloc on CPU `cid` visits, in order: the k-th visit is to
      pool (cid + k) mod NCPU. */
  function RingOrder(cid: nat): (order: seq<nat>)
    requires cid < NCPU
    ensures |order| == NCPU
  {
    seq(NCPU, k requires 0 <= k < NCPU => (cid + k) % NCPU)
  }

  /** How many visits kalloc on CPU `cid` makes before it reaches pool `j`. */
  function RingDist(cid: nat, j: nat): (d: nat)
    requires cid < NCPU && j < NCPU
    ensures d < NCPU
  {
    (j - cid) % NCPU
  }

  /** RingDist without the modulus: pools above `cid` first, then the ones
      below it. */
  lemma RingDistValue(cid: nat, j: nat)
    requires cid < NCPU && j < NCPU
    ensures RingDist(cid, j) == if cid <= j then j - cid else j + NCPU - cid
  {
  }

  /** RingOrder lists every pool exactly once: it and RingDist are inverse
      bijections of [0, NCPU). */
  lemma RingOrderBijective(cid: nat)
    requires cid < NCPU
    ensures forall k :: 0 <= k < NCPU ==> RingOrder(cid)[k] < NCPU && RingDist(cid, RingOrder(cid)[k]) == k
    ensures forall j :: 0 <= j < NCPU ==> RingOrder(cid)[RingDist(cid, j)] == j
  {
    var order := RingOrder(cid);
    forall k | 0 <= k < NCPU
      ensures order[k] < NCPU && RingDist(cid, order[k]) == k
    {
      if cid + k < NCPU {
        assert order[k] == cid + k;
      } else {
        assert order[k] == cid + k - NCPU;
      }
    }
    forall j | 0 <= j < NCPU ensures order[RingDist(cid, j)] == j {
      if cid <= j {
        assert RingDist(cid, j) == j - cid;
      } else {
        assert RingDist(cid, j) == j - cid + NCPU;
      }
    }
  }

  /** The indices lo, lo+1, ..., hi-1. */
  function Range(lo: nat, hi: nat): (r: seq<nat>)
    requires lo <= hi
    ensures |r| == hi - lo
  {
    seq(hi - lo, k requires 0 <= k < hi - lo => lo + k)
  }

  /** The ring order is what kalloc's two loops walk: cid .. NCPU-1, then
      0 .. cid-1. */
  lemma RingOrderIsTwoLoops(cid: nat)
    requires cid < NCPU
    ensures RingOrder(cid) == Range(cid, NCPU) + Range(0, cid)
  {
    var order, loops := RingOrder(cid), Range(cid, NCPU) + Range(0, cid);
    forall k | 0 <= k < NCPU ensures order[k] == loops[k] {
      if k < NCPU - cid {
        assert loops[k] == Range(cid, NCPU)[k];
      } else {
        assert loops[k] == Range(0, cid)[k - (NCPU - cid)];
      }
    }
  }

  // ------------------------------------------------------------------ kalloc

  /** The position in `order` of the first non-empty pool, or |order| when
      every pool it names is empty. */
  function FirstNonEmpty(bank: Bank, order: seq<nat>): (k: nat)
    requires forall i :: 0 <= i < |order| ==> order[i] < |bank|
    ensures k <= |order|
    ensures forall j :: 0 <= j < k ==> bank[order[j]] == []
    ensures k < |order| ==> bank[order[k]] != []
  {
    if order == [] then 0
    else if bank[order[0]] != [] then 0
    else 1 + FirstNonEmpty(bank, order[1..])
  }

  /** The pool kalloc on CPU `cid` takes its page from, if any. */
  function Victim(bank: Bank, cid: nat): (v: Option<nat>)
    requires WellFormed(bank) && cid < NCPU
    ensures v.Some? ==> v.value < NCPU && bank[v.value] != []
  {
    RingOrderBijective(cid);
    var k := FirstNonEmpty(bank, RingOrder(cid));
    if k == NCPU then None else Some(RingOrder(cid)[k])
  }

  /** kalloc on CPU `cid`: pop the head of the first non-empty pool in ring
      order, or return 0 and change nothing. */
  function KallocPop(bank: Bank, cid: nat): (r: Alloc)
    requires WellFormed(bank) && cid < NCPU
    ensures WellFormed(r.bank)
  {
    match Victim(bank, cid)
    case None => Alloc(bank, 0)
    case Some(v) => Alloc(bank[v := bank[v][1..]], bank[v][0])
  }

  /** kalloc takes from pool `v` exactly when `v` is non-empty and every pool
      it visits before `v` is empty. */
  lemma VictimIsNearest(bank: Bank, cid: nat, v: nat)
    requires WellFormed(bank) && cid < NCPU && v < NCPU
    ensures Victim(bank, cid) == Some(v) <==>
            bank[v] != [] &&
            forall j :: 0 <= j < NCPU && RingDist(cid, j) < RingDist(cid, v) ==> bank[j] == []
  {
    RingOrderBijective(cid);
    var order := RingOrder(cid);
    var k := FirstNonEmpty(bank, order);
    var d := RingDist(cid, v);
    if Victim(bank, cid) == Some(v) {
      assert order[k] == v;
      forall j | 0 <= j < NCPU && RingDist(cid, j) < d ensures bank[j] == [] {
        assert bank[order[RingDist(cid, j)]] == [];
      }
    }
    if bank[v] != [] && forall j :: 0 <= j < NCPU && RingDist(cid, j) < d ==> bank[j] == [] {
      assert bank[order[d]] != [];
      assert RingDist(cid, order[k]) == k;
      assert k == d;
    }
  }

  /** kalloc fails exactly when every pool is empty; then nothing changes. */
  lemma KallocFailsIffAllEmpty(bank: Bank, cid: nat)
    requires WellFormed(bank) && cid < NCPU
    requires 0 !in Flatten(bank)
    ensures KallocPop(bank, cid).pa == 0 <==> AllEmpty(bank)
    ensures KallocPop(bank, cid).pa == 0 ==> KallocPop(bank, cid).bank == bank
  {
    RingOrderBijective(cid);
    var order := RingOrder(cid);
    var k := FirstNonEmpty(bank, order);
    if k < NCPU {
      var v := order[k];
      PoolInFlatten(bank, v, bank[v][0]);
    } else {
      forall j | 0 <= j < NCPU ensures bank[j] == [] {
        assert bank[order[RingDist(cid, j)]] == [];
      }
    }
  }

  /** A successful kalloc removes exactly the returned page, the old head of
      the pool it chose, leaves that pool its old tail, and leaves every
      other pool as it was. */
  lemma KallocPops(bank: Bank, cid: nat)
    requires WellFormed(bank) && cid < NCPU
    requires !AllEmpty(bank)
    ensures Victim(bank, cid).Some?
    ensures var v, r := Victim(bank, cid).value, KallocPop(bank, cid);
            r.pa == bank[v][0] && r.bank[v] == bank[v][1..] &&
            (forall i :: 0 <= i < NCPU && i != v ==> r.bank[i] == bank[i]) &&
            multiset(Flatten(bank)) == multiset(Flatten(r.bank)) + multiset{r.pa} &&
            Count(r.bank) + 1 == Count(bank)
  {
    RingOrderBijective(cid);
    var order := RingOrder(cid);
    if FirstNonEmpty(bank, order) == NCPU {
      forall j | 0 <= j < NCPU ensures bank[j] == [] {
        assert bank[order[RingDist(cid, j)]] == [];
      }
      assert false;
    }
    PopHead(bank, Victim(bank, cid).value);
  }

  /** Taking the head off pool `v` removes exactly that page from the bank. */
  lemma PopHead(bank: Bank, v: nat)
    requires v < |bank| && bank[v] != []
    ensures multiset(Flatten(bank)) == multiset(Flatten(bank[v := bank[v][1..]])) + multiset{bank[v][0]}
    ensures Count(bank[v := bank[v][1..]]) + 1 == Count(bank)
  {
    var after := bank[v := bank[v][1..]];
    var a, b, c, t := multiset(Flatten(after)), multiset(Flatten(bank)), multiset(bank[v]), multiset(bank[v][1..]);
    FlattenUpdate(bank, v, bank[v][1..]);
    assert bank[v] == [bank[v][0]] + bank[v][1..];
    assert c == multiset{bank[v][0]} + t;
    forall y ensures b[y] == (a + multiset{bank[v][0]})[y] {
      assert (a + c)[y] == (b + t)[y];
    }
    OneMore(Flatten(bank), Flatten(after), bank[v][0]);
  }

  /** kalloc keeps the bank well formed. */
  lemma KallocKeepsOk(bank: Bank, cid: nat, kernelEnd: nat)
    requires BankOk(bank, kernelEnd) && cid < NCPU
    ensures BankOk(KallocPop(bank, cid).bank, kernelEnd)
    ensures KallocPop(bank, cid).pa != 0 ==>
              KallocPop(bank, cid).pa in Flatten(bank) &&
              KallocPop(bank, cid).pa !in Flatten(KallocPop(bank, cid).bank)
  {
    var r := KallocPop(bank, cid);
    if !AllEmpty(bank) {
      KallocPops(bank, cid);
      var a, b := multiset(Flatten(r.bank)), multiset(Flatten(bank));
      forall p ensures a[p] <= 1 {
        assert b[p] == (a + multiset{r.pa})[p];
      }
      assert b[r.pa] == (a + multiset{r.pa})[r.pa];
      forall p | p in Flatten(r.bank) ensures ValidPa(p, kernelEnd) {
        assert multiset(Flatten(bank))[p] > 0;
      }
      assert multiset(Flatten(r.bank))[r.pa] == 0;
    } else {
      KallocFailsIffAllEmpty(bank, cid) by {
        CountZeroIffAllEmpty(bank);
      }
    }
  }

  /** kfree then kalloc on the same CPU gives the freed page back and
      restores the bank: each pool is a LIFO stack. */
  lemma PushThenPop(bank: Bank, cid: nat, pa: nat)
    requires WellFormed(bank) && cid < NCPU
    ensures KallocPop(Push(bank, cid, pa), cid) == Alloc(bank, pa)
  {
    var b := Push(bank, cid, pa);
    VictimIsNearest(b, cid, cid);
    assert RingDist(cid, cid) == 0;
    assert b[cid := b[cid][1..]] == bank;
  }

  // ----------------------------------------------------------- freerange

  /** Number of whole pages freerange(s, e) frees. */
  function PagesIn(s: nat, e: nat): nat
  {
    if PgRoundUp(s) + PGSIZE <= e then (e - PgRoundUp(s)) / PGSIZE else 0
  }

  /** The pages freerange(s, e) passes to kfree, in order. */
  function FreerangePages(s: nat, e: nat): (ps: seq<nat>)
    ensures |ps| == PagesIn(s, e)
  {
    seq(PagesIn(s, e), k requires 0 <= k < PagesIn(s, e) => PgRoundUp(s) + k * PGSIZE)
  }

  /** The freerange loop test `p + PGSIZE <= e` holds at the k-th page
      exactly when that page is one of FreerangePages(s, e). */
  lemma FreerangeLoopTest(s: nat, e: nat, k: nat)
    ensures PgRoundUp(s) + k * PGSIZE + PGSIZE <= e <==> k < PagesIn(s, e)
  {
    var r := PgRoundUp(s);
    if r + k * PGSIZE + PGSIZE <= e {
      assert (k + 1) * PGSIZE <= e - r;
      assert k + 1 <= (e - r) / PGSIZE;
    }
    if k < PagesIn(s, e) {
      assert (k + 1) * PGSIZE <= (e - r) / PGSIZE * PGSIZE <= e - r;
    }
  }

  /** freerange frees exactly the aligned pages that start at or above
      PGROUNDUP(s) and end at or below `e`. */
  lemma FreerangeMembership(s: nat, e: nat, x: nat)
    ensures x in FreerangePages(s, e) <==> Aligned(x) && PgRoundUp(s) <= x && x + PGSIZE <= e
  {
    var r, ps := PgRoundUp(s), FreerangePages(s, e);
    if x in ps {
      var k :| 0 <= k < |ps| && ps[k] == x;
      FreerangeLoopTest(s, e, k);
      assert x == r + k * PGSIZE;
      assert (r / PGSIZE + k) * PGSIZE == x;
    }
    if Aligned(x) && r <= x && x + PGSIZE <= e {
      var k := (x - r) / PGSIZE;
      assert x / PGSIZE * PGSIZE == x && r / PGSIZE * PGSIZE == r;
      assert x - r == (x / PGSIZE - r / PGSIZE) * PGSIZE;
      assert k == x / PGSIZE - r / PGSIZE;
      assert r + k * PGSIZE == x;
      FreerangeLoopTest(s, e, k);
      assert ps[k] == x;
    }
  }

  /** Every page freerange frees is aligned, and they strictly increase. */
  lemma FreerangeIncreasing(s: nat, e: nat)
    ensures forall k :: 0 <= k < PagesIn(s, e) ==> Aligned(FreerangePages(s, e)[k])
    ensures forall i, j :: 0 <= i < j < PagesIn(s, e) ==> FreerangePages(s, e)[i] < FreerangePages(s, e)[j]
  {
    var r, ps := PgRoundUp(s), FreerangePages(s, e);
    forall k | 0 <= k < |ps| ensures Aligned(ps[k]) {
      assert ps[k] == (r / PGSIZE + k) * PGSIZE;
    }
  }

  /** Over [end, PHYSTOP), freerange frees exactly the pages kfree accepts. */
  lemma FreerangeCoversManaged(kernelEnd: nat)
    requires kernelEnd <= PHYSTOP
    ensures forall x :: x in FreerangePages(kernelEnd, PHYSTOP) <==> ValidPa(x, kernelEnd)
  {
    forall x: nat ensures x in FreerangePages(kernelEnd, PHYSTOP) <==> ValidPa(x, kernelEnd) {
      FreerangeMembership(kernelEnd, PHYSTOP, x);
      if Aligned(x) {
        RoundUpIsLeast(kernelEnd, x);
        assert x < PHYSTOP <==> x + PGSIZE <= PHYSTOP by {
          assert PHYSTOP == (PHYSTOP / PGSIZE) * PGSIZE;
          assert x == (x / PGSIZE) * PGSIZE;
          if x < PHYSTOP { assert x / PGSIZE < PHYSTOP / PGSIZE; }
        }
      }
    }
  }

  /** Length of the longest prefix of `ps` whose every page kfree accepts:
      where a freerange over `ps` stops when kfree panics. */
  function ValidPrefix(ps: seq<nat>, kernelEnd: nat): (n: nat)
    ensures n <= |ps|
    ensures forall k :: 0 <= k < n ==> ValidPa(ps[k], kernelEnd)
    ensures n < |ps| ==> !ValidPa(ps[n], kernelEnd)
  {
    if ps == [] || !ValidPa(ps[0], kernelEnd) then 0
    else 1 + ValidPrefix(ps[1..], kernelEnd)
  }

  /** ValidPrefix is the one length whose pages all pass kfree's check and
      that ends at the end of `ps` or at a page that fails it. */
  lemma ValidPrefixAt(ps: seq<nat>, kernelEnd: nat, n: nat)
    requires n <= |ps|
    requires forall k :: 0 <= k < n ==> ValidPa(ps[k], kernelEnd)
    requires n == |ps| || !ValidPa(ps[n], kernelEnd)
    ensures ValidPrefix(ps, kernelEnd) == n
  {
  }

  /** The pages of `s` as a set. */
  ghost function Elems(s: seq<nat>): set<nat>
  {
    set x | x in s
  }

  /** The elements of `s`, last first. */
  function Reversed(s: seq<nat>): (r: seq<nat>)
    ensures |r| == |s|
  {
    if s == [] then [] else [s[|s| - 1]] + Reversed(s[..|s| - 1])
  }

  lemma {:induction false} ReversedMultiset(s: seq<nat>)
    ensures multiset(Reversed(s)) == multiset(s)
  {
    if s != [] {
      ReversedMultiset(s[..|s| - 1]);
      assert s == s[..|s| - 1] + [s[|s| - 1]];
    }
  }

  /** The empty bank holds no page. */
  lemma EmptyBankHasNoPages()
    ensures Flatten(EmptyBank()) == []
  {
    CountZeroIffAllEmpty(EmptyBank());
  }

  /** The bank kinit builds on CPU `cid`: every page of [end, PHYSTOP) on that
      CPU's list, highest address at the head. */
  function BootBank(kernelEnd: nat, cid: nat): (b: Bank)
    requires cid < NCPU
    ensures WellFormed(b)
  {
    EmptyBank()[cid := Reversed(FreerangePages(kernelEnd, PHYSTOP))]
  }
}
