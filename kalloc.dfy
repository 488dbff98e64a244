/** The allocator of kernel/kalloc.c as it runs: the global bank `kmem` of
    per-CPU free lists, and kinit, freerange, kfree and kalloc updating it in
    place. Locks and interrupt masking are not modelled: every operation is
    atomic, and the CPU id that cpuid() would read is a parameter. */
module Kalloc {
  import opened FreeLists

  class Kmem {
    /** The linker symbol `end`: the first address after the kernel. */
    const kernelEnd: nat
    /** kmem[i].freelist for every CPU i, as the pages on it, head first. */
    const pools: array<Pool>
    /** Pages kalloc handed out that kfree has not taken back. */
    ghost var inUse: set<nat>
    /** Pages that have entered the allocator through kfree. */
    ghost var managed: set<nat>
    /** The byte the last memset wrote over each page. */
    ghost var fill: map<nat, bv8>

    ghost predicate Valid()
      reads this, pools
    {
      pools.Length == NCPU && Inv(kernelEnd, pools[..], inUse, managed, fill)
    }

    /** kinit on CPU `cid`: empty lists, then freerange(end, PHYSTOP). */
    constructor Kinit(kernelEnd: nat, cid: nat)
      requires 0 < kernelEnd <= PHYSTOP && cid < NCPU
      ensures Valid() && fresh(pools)
      ensures this.kernelEnd == kernelEnd
      ensures pools[..] == BootBank(kernelEnd, cid)
      ensures inUse == {} && managed == ManagedPages(kernelEnd)
    {
      this.kernelEnd := kernelEnd;
      pools := new Pool[NCPU](_ => []);
      inUse, managed, fill := {}, {}, map[];
      new;
      assert pools[..] == EmptyBank();
      EmptyBankHasNoPages();
      BootFacts(kernelEnd, cid);
      ghost var freed := Elems(FreerangePages(kernelEnd, PHYSTOP));
      assert {} - freed == {} && {} + freed == freed;
      var ok := Freerange(kernelEnd, PHYSTOP, cid);
    }

    /** freerange(paStart, paEnd) on CPU `cid`: kfree every whole page from
        PGROUNDUP(paStart) up to paEnd, in increasing order. `ok` is false
        when one of those kfree calls panics; the pages before it have then
        been freed. */
    method Freerange(paStart: nat, paEnd: nat, cid: nat) returns (ok: bool)
      requires Valid() && cid < NCPU
      requires forall k :: 0 <= k < PagesIn(paStart, paEnd) ==>
                 FreerangePages(paStart, paEnd)[k] !in Flatten(pools[..])
      modifies this, pools
      ensures Valid()
      ensures var ps := FreerangePages(paStart, paEnd);
              var n := ValidPrefix(ps, kernelEnd);
              (ok <==> n == |ps|) &&
              pools[..] == old(pools[..])[cid := Reversed(ps[..n]) + old(pools[..])[cid]] &&
              inUse == old(inUse) - Elems(ps[..n]) &&
              managed == old(managed) + Elems(ps[..n]) &&
              JunkFilled(fill, old(fill), Elems(ps[..n]))
    {
      ghost var ps := FreerangePages(paStart, paEnd);
      ghost var b0 := pools[..];
      ghost var k := 0;
      FreerangeIncreasing(paStart, paEnd);
      var p := PgRoundUp(paStart);
      assert ps[..0] == [] && Reversed([]) == [];
      assert [] + b0[cid] == b0[cid];
      assert b0[cid := b0[cid]] == b0;
      while p + PGSIZE <= paEnd
        invariant Valid()
        invariant k <= |ps| && p == PgRoundUp(paStart) + k * PGSIZE
        invariant forall j :: 0 <= j < k ==> ValidPa(ps[j], kernelEnd)
        invariant pools[..] == b0[cid := Reversed(ps[..k]) + b0[cid]]
        invariant inUse == old(inUse) - Elems(ps[..k])
        invariant managed == old(managed) + Elems(ps[..k])
        invariant JunkFilled(fill, old(fill), Elems(ps[..k]))
        decreases paEnd - p
      {
        FreerangeLoopTest(paStart, paEnd, k);
        assert ps[k] == p;
        FreerangeNotYetFree(b0, cid, ps, k);
        ghost var before, fillBefore := pools[..], fill;
        ok := Kfree(p, cid);
        if !ok {
          ValidPrefixAt(ps, kernelEnd, k);
          return;
        }
        FreerangeStep(b0, cid, ps, k, before, old(inUse), old(managed));
        FillStep(fillBefore, old(fill), Elems(ps[..k]), ps[k]);
        p := p + PGSIZE;
        k := k + 1;
      }
      FreerangeLoopTest(paStart, paEnd, k);
      ValidPrefixAt(ps, kernelEnd, k);
      ok := true;
    }

    /** kfree(pa) on CPU `cid`. `ok` is false where the C code panics: `pa`
        is not page aligned, lies below `end`, or is at or above PHYSTOP; then
        nothing changes. Otherwise the page is filled with junk and pushed on
        CPU `cid`'s list. kfree does not detect a double free, so the caller
        must not pass a page that is already free. */
    method Kfree(pa: nat, cid: nat) returns (ok: bool)
      requires Valid() && cid < NCPU
      requires pa !in Flatten(pools[..])
      modifies this, pools
      ensures Valid()
      ensures ok <==> ValidPa(pa, kernelEnd)
      ensures ok ==> pools[..] == Push(old(pools[..]), cid, pa)
      ensures ok ==> inUse == old(inUse) - {pa} && managed == old(managed) + {pa}
      ensures ok ==> fill == old(fill)[pa := FreedJunk]
      ensures !ok ==> pools[..] == old(pools[..]) && inUse == old(inUse) &&
                      managed == old(managed) && fill == old(fill)
    {
      if pa % PGSIZE != 0 || pa < kernelEnd || pa >= PHYSTOP {
        return false;
      }
      PushKeepsInv(kernelEnd, pools[..], inUse, managed, fill, cid, pa);
      fill := fill[pa := FreedJunk];
      pools[cid] := [pa] + pools[cid];
      inUse := inUse - {pa};
      managed := managed + {pa};
      ok := true;
    }

    /** kalloc() on CPU `cid`: pop the head of this CPU's list; if it is empty,
        of the first non-empty list among CPUs cid+1 .. NCPU-1, then
        0 .. cid-1. The page is filled with junk. Returns 0, changing
        nothing, when every list is empty. */
    method Kalloc(cid: nat) returns (pa: nat)
      requires Valid() && cid < NCPU
      modifies this, pools
      ensures Valid()
      ensures pools[..] == KallocPop(old(pools[..]), cid).bank
      ensures pa == KallocPop(old(pools[..]), cid).pa
      ensures pa == 0 <==> AllEmpty(old(pools[..]))
      ensures pa != 0 ==> ValidPa(pa, kernelEnd) && pa in old(Flatten(pools[..]))
      ensures pa != 0 ==> inUse == old(inUse) + {pa} && fill == old(fill)[pa := AllocJunk]
      ensures pa == 0 ==> inUse == old(inUse) && fill == old(fill)
      ensures managed == old(managed)
    {
      ghost var bank := pools[..];
      KallocFailsIffAllEmpty(bank, cid);
      if !AllEmpty(bank) {
        PopKeepsInv(kernelEnd, bank, inUse, managed, fill, cid);
      }
      var i := cid;
      while i < NCPU
        invariant cid <= i <= NCPU
        invariant pools[..] == bank
        invariant inUse == old(inUse) && fill == old(fill) && managed == old(managed)
        invariant forall j :: cid <= j < i ==> bank[j] == []
      {
        var r := pools[i];
        if r != [] {
          pools[i] := r[1..];
          pa := r[0];
          fill := fill[pa := AllocJunk];
          inUse := inUse + {pa};
          FoundAbove(bank, cid, i);
          return;
        }
        i := i + 1;
      }
      i := 0;
      while i < cid
        invariant 0 <= i <= cid
        invariant pools[..] == bank
        invariant inUse == old(inUse) && fill == old(fill) && managed == old(managed)
        invariant forall j :: (cid <= j < NCPU || 0 <= j < i) ==> bank[j] == []
      {
        var r := pools[i];
        if r != [] {
          pools[i] := r[1..];
          pa := r[0];
          fill := fill[pa := AllocJunk];
          inUse := inUse + {pa};
          FoundBelow(bank, cid, i);
          return;
        }
        i := i + 1;
      }
      pa := 0;
    }
  }

  /** The first loop of kalloc stops at pool i when it is the first
      non-empty pool from cid up: that is the pool the ring order picks. */
  lemma FoundAbove(bank: Bank, cid: nat, i: nat)
    requires WellFormed(bank) && cid <= i < NCPU && bank[i] != []
    requires forall j :: cid <= j < i ==> bank[j] == []
    ensures Victim(bank, cid) == Some(i)
  {
    forall j | 0 <= j < NCPU && RingDist(cid, j) < RingDist(cid, i) ensures bank[j] == [] {
      RingDistValue(cid, i);
      RingDistValue(cid, j);
    }
    VictimIsNearest(bank, cid, i);
  }

  /** The second loop of kalloc stops at pool i when every pool from cid up
      and every pool below i is empty: that is the pool the ring order picks. */
  lemma FoundBelow(bank: Bank, cid: nat, i: nat)
    requires WellFormed(bank) && i < cid < NCPU && bank[i] != []
    requires forall j :: (cid <= j < NCPU || 0 <= j < i) ==> bank[j] == []
    ensures Victim(bank, cid) == Some(i)
  {
    forall j | 0 <= j < NCPU && RingDist(cid, j) < RingDist(cid, i) ensures bank[j] == [] {
      RingDistValue(cid, i);
      RingDistValue(cid, j);
    }
    VictimIsNearest(bank, cid, i);
  }

  /** What kinit's freerange(end, PHYSTOP) does to the empty bank on CPU
      `cid`: no kfree panics, the result is BootBank, and the pages freed are
      exactly the pages kfree accepts. */
  lemma BootFacts(kernelEnd: nat, cid: nat)
    requires 0 < kernelEnd <= PHYSTOP && cid < NCPU
    ensures var ps := FreerangePages(kernelEnd, PHYSTOP);
            ValidPrefix(ps, kernelEnd) == |ps| &&
            EmptyBank()[cid := Reversed(ps[..|ps|]) + EmptyBank()[cid]] == BootBank(kernelEnd, cid) &&
            Elems(ps[..|ps|]) == ManagedPages(kernelEnd)
  {
    var ps := FreerangePages(kernelEnd, PHYSTOP);
    FreerangeCoversManaged(kernelEnd);
    assert ps[..|ps|] == ps;
    ValidPrefixAt(ps, kernelEnd, |ps|);
    assert Reversed(ps) + [] == Reversed(ps);
  }

  /** In freerange, the next page is not free yet: it was not free before
      the loop, and the pages freed so far come before it. */
  lemma FreerangeNotYetFree(b0: Bank, cid: nat, ps: seq<nat>, k: nat)
    requires WellFormed(b0) && cid < NCPU
    requires k < |ps| && ps[k] !in Flatten(b0)
    requires forall i, j :: 0 <= i < j < |ps| ==> ps[i] < ps[j]
    ensures ps[k] !in Flatten(b0[cid := Reversed(ps[..k]) + b0[cid]])
  {
    var bank := b0[cid := Reversed(ps[..k]) + b0[cid]];
    FlattenUpdate(b0, cid, Reversed(ps[..k]) + b0[cid]);
    ReversedMultiset(ps[..k]);
    assert ps[k] !in ps[..k];
    assert multiset(Reversed(ps[..k]) + b0[cid]) == multiset(ps[..k]) + multiset(b0[cid]);
    assert (multiset(Flatten(bank)) + multiset(b0[cid]))[ps[k]]
        == (multiset(Flatten(b0)) + multiset(Reversed(ps[..k]) + b0[cid]))[ps[k]];
  }

  /** One freerange iteration: the k-th page goes in front of the pages freed
      so far on CPU `cid`'s list, leaves the pages in use and joins the
      pages that have entered. */
  lemma FreerangeStep(b0: Bank, cid: nat, ps: seq<nat>, k: nat, before: Bank,
                      inUse0: set<nat>, managed0: set<nat>)
    requires WellFormed(b0) && cid < NCPU && k < |ps|
    requires before == b0[cid := Reversed(ps[..k]) + b0[cid]]
    ensures Push(before, cid, ps[k]) == b0[cid := Reversed(ps[..k + 1]) + b0[cid]]
    ensures Elems(ps[..k + 1]) == Elems(ps[..k]) + {ps[k]}
    ensures inUse0 - Elems(ps[..k + 1]) == (inUse0 - Elems(ps[..k])) - {ps[k]}
    ensures managed0 + Elems(ps[..k + 1]) == (managed0 + Elems(ps[..k])) + {ps[k]}
  {
    assert ps[..k + 1] == ps[..k] + [ps[k]];
    assert Reversed(ps[..k + 1]) == [ps[k]] + Reversed(ps[..k]);
    PushOnto(b0, cid, Reversed(ps[..k]), ps[k]);
  }

  /** The allocator invariant over the free lists `bank`, the pages in use,
      the pages that have entered and the fill bytes: every free page is one
      kfree accepts and sits on exactly one list, once; a page in use is one
      kfree accepts and is not free; every page that entered is either free
      or in use; a free page holds the kfree junk, a page in use the kalloc
      junk. */
  /** `fill` is `fill0` after kfree filled exactly the pages of `freed`:
      those carry fill byte 1, and every other page keeps its old byte. */
  ghost predicate JunkFilled(fill: map<nat, bv8>, fill0: map<nat, bv8>, freed: set<nat>)
  {
    (forall x :: x in freed ==> x in fill && fill[x] == FreedJunk) &&
    (forall x :: x !in freed ==> (x in fill <==> x in fill0) && (x in fill ==> fill[x] == fill0[x]))
  }

  /** Filling one more page extends the set of filled pages by that page. */
  lemma FillStep(fill: map<nat, bv8>, fill0: map<nat, bv8>, freed: set<nat>, pa: nat)
    requires JunkFilled(fill, fill0, freed)
    ensures JunkFilled(fill[pa := FreedJunk], fill0, freed + {pa})
  {
  }

  ghost predicate Inv(kernelEnd: nat, bank: Bank, inUse: set<nat>, managed: set<nat>, fill: map<nat, bv8>)
  {
    0 < kernelEnd <= PHYSTOP &&
    BankOk(bank, kernelEnd) &&
    (forall p :: p in inUse ==> ValidPa(p, kernelEnd) && p !in Flatten(bank)) &&
    (forall p :: p in managed <==> p in inUse || p in Flatten(bank)) &&
    (forall p :: p in Flatten(bank) ==> p in fill && fill[p] == FreedJunk) &&
    (forall p :: p in inUse ==> p in fill && fill[p] == AllocJunk)
  }

  /** kfree of a page it accepts and that is not free keeps the invariant. */
  lemma PushKeepsInv(kernelEnd: nat, bank: Bank, inUse: set<nat>, managed: set<nat>, fill: map<nat, bv8>,
                     cid: nat, pa: nat)
    requires Inv(kernelEnd, bank, inUse, managed, fill) && cid < NCPU
    requires ValidPa(pa, kernelEnd) && pa !in Flatten(bank)
    ensures Inv(kernelEnd, Push(bank, cid, pa), inUse - {pa}, managed + {pa}, fill[pa := FreedJunk])
  {
    PushKeepsOk(bank, cid, pa, kernelEnd);
    PushConserves(bank, cid, pa);
    AddedOne(Flatten(bank), Flatten(Push(bank, cid, pa)), pa);
  }

  /** A successful kalloc keeps the invariant, returning a free page that
      kfree would accept. */
  lemma PopKeepsInv(kernelEnd: nat, bank: Bank, inUse: set<nat>, managed: set<nat>, fill: map<nat, bv8>,
                    cid: nat)
    requires Inv(kernelEnd, bank, inUse, managed, fill) && cid < NCPU
    requires !AllEmpty(bank)
    ensures var r := KallocPop(bank, cid);
            r.pa in Flatten(bank) && ValidPa(r.pa, kernelEnd) &&
            Inv(kernelEnd, r.bank, inUse + {r.pa}, managed, fill[r.pa := AllocJunk])
  {
    KallocPops(bank, cid);
    KallocKeepsOk(bank, cid, kernelEnd);
    var r := KallocPop(bank, cid);
    RemovedOne(Flatten(bank), Flatten(r.bank), r.pa);
  }
}
