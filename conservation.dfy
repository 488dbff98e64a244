/** Whole-run properties of the per-CPU allocator (kernel/kalloc.c): pages
    are neither lost, duplicated nor invented over any interleaving of kfree
    and kalloc calls, on any CPUs (RunConserves); a run of kfrees followed by
    a run of kallocs hands back exactly the freed pages (Conservation); boot
    followed by allocation runs out exactly at the boundary
    (ExhaustionBoundary). */
module KallocConservation {
  import opened FreeLists

  predicate CpuIds(cids: seq<nat>)
  {
    forall i :: 0 <= i < |cids| ==> cids[i] < NCPU
  }

  /** kfree(pages[i]) on CPU cids[i], for i = 0, 1, ... Each step is kfree's
      accepted path: a kfree that panics halts the machine, so a run that
      contains one is not modelled. */
  function FreeAll(bank: Bank, cids: seq<nat>, pages: seq<nat>): (b: Bank)
    requires WellFormed(bank) && CpuIds(cids) && |cids| == |pages|
    ensures WellFormed(b)
    decreases pages
  {
    if pages == [] then bank
    else FreeAll(Push(bank, cids[0], pages[0]), cids[1..], pages[1..])
  }

  /** kalloc() on CPU cids[i], for i = 0, 1, ...; the pages in call order. */
  function AllocAll(bank: Bank, cids: seq<nat>): (r: Allocs)
    requires WellFormed(bank) && CpuIds(cids)
    ensures WellFormed(r.bank) && |r.pages| == |cids|
    decreases cids
  {
    if cids == [] then Allocs(bank, [])
    else
      var a := KallocPop(bank, cids[0]);
      var rest := AllocAll(a.bank, cids[1..]);
      Allocs(rest.bank, [a.pa] + rest.pages)
  }

  /** A run of kfrees adds exactly the freed pages to the free pages. */
  lemma {:induction false} FreeAllConserves(bank: Bank, cids: seq<nat>, pages: seq<nat>)
    requires WellFormed(bank) && CpuIds(cids) && |cids| == |pages|
    ensures multiset(Flatten(FreeAll(bank, cids, pages))) == multiset(Flatten(bank)) + multiset(pages)
    decreases pages
  {
    if pages != [] {
      var b := Push(bank, cids[0], pages[0]);
      PushConserves(bank, cids[0], pages[0]);
      FreeAllConserves(b, cids[1..], pages[1..]);
      assert pages == [pages[0]] + pages[1..];
    }
  }

  /** As many kallocs as there are free pages, on any CPUs, hand out every
      free page exactly once and leave every pool empty. */
  lemma {:induction false} AllocAllDrains(bank: Bank, cids: seq<nat>)
    requires WellFormed(bank) && CpuIds(cids)
    requires 0 !in Flatten(bank) && |cids| == Count(bank)
    ensures multiset(AllocAll(bank, cids).pages) == multiset(Flatten(bank))
    ensures AllEmpty(AllocAll(bank, cids).bank)
    decreases cids
  {
    CountZeroIffAllEmpty(bank);
    if cids != [] {
      var a := KallocPop(bank, cids[0]);
      KallocPops(bank, cids[0]);
      var before, after := multiset(Flatten(bank)), multiset(Flatten(a.bank));
      assert 0 !in Flatten(a.bank) by {
        assert before[0] == (after + multiset{a.pa})[0];
      }
      AllocAllDrains(a.bank, cids[1..]);
      var rest := AllocAll(a.bank, cids[1..]);
      assert AllocAll(bank, cids).pages == [a.pa] + rest.pages;
    }
  }

  /** One call into the allocator: kfree(pa) or kalloc(), on CPU `cid`. */
  datatype Call = FreeCall(cid: nat, pa: nat) | AllocCall(cid: nat)

  predicate CallsOk(calls: seq<Call>)
  {
    forall i :: 0 <= i < |calls| ==> calls[i].cid < NCPU
  }

  /** The calls, one after another; the pages are kalloc's results, in call
      order, 0 included. A FreeCall is kfree's accepted path, as in FreeAll. */
  function Run(bank: Bank, calls: seq<Call>): (r: Allocs)
    requires WellFormed(bank) && CallsOk(calls)
    ensures WellFormed(r.bank)
    decreases calls
  {
    if calls == [] then Allocs(bank, [])
    else match calls[0]
      case FreeCall(c, pa) => Run(Push(bank, c, pa), calls[1..])
      case AllocCall(c) =>
        var a := KallocPop(bank, c);
        var rest := Run(a.bank, calls[1..]);
        Allocs(rest.bank, [a.pa] + rest.pages)
  }

  /** The pages the kfree calls pass, in call order. */
  function FreedPages(calls: seq<Call>): (s: seq<nat>)
    ensures |s| <= |calls|
  {
    if calls == [] then []
    else if calls[0].FreeCall? then [calls[0].pa] + FreedPages(calls[1..])
    else FreedPages(calls[1..])
  }

  /** `s` without its zeros: the kalloc results that are pages. */
  function NonZero(s: seq<nat>): (r: seq<nat>)
    ensures 0 !in r && |r| <= |s|
  {
    if s == [] then []
    else if s[0] == 0 then NonZero(s[1..])
    else [s[0]] + NonZero(s[1..])
  }

  /** Over any interleaving of kfree and kalloc calls, on any CPUs, no page is
      lost, duplicated or invented: the pages still free plus the pages kalloc
      handed out are exactly the pages free at the start plus the pages
      kfree took back. */
  lemma {:induction false} RunConserves(bank: Bank, calls: seq<Call>)
    requires WellFormed(bank) && CallsOk(calls)
    requires 0 !in Flatten(bank) && 0 !in FreedPages(calls)
    ensures var r := Run(bank, calls);
            multiset(Flatten(r.bank)) + multiset(NonZero(r.pages))
            == multiset(Flatten(bank)) + multiset(FreedPages(calls))
    decreases calls
  {
    if calls != [] {
      var rest := calls[1..];
      assert CallsOk(rest) by {
        forall i | 0 <= i < |rest| ensures rest[i].cid < NCPU {
          assert rest[i] == calls[i + 1];
        }
      }
      match calls[0]
      case FreeCall(c, pa) =>
        assert calls[0].cid < NCPU;
        var b := Push(bank, c, pa);
        PushConserves(bank, c, pa);
        assert FreedPages(calls) == [pa] + FreedPages(rest);
        assert 0 !in Flatten(b) by {
          assert multiset(Flatten(b))[0] == (multiset(Flatten(bank)) + multiset{pa})[0];
        }
        RunConserves(b, rest);
        var r := Run(b, rest);
        Regroup(multiset(Flatten(r.bank)) + multiset(NonZero(r.pages)), multiset(Flatten(b)),
                multiset(FreedPages(rest)), multiset(Flatten(bank)), multiset{pa});
      case AllocCall(c) =>
        assert calls[0].cid < NCPU;
        var a := KallocPop(bank, c);
        var r := Run(a.bank, rest);
        assert FreedPages(calls) == FreedPages(rest);
        assert Run(bank, calls).pages == [a.pa] + r.pages;
        KallocFailsIffAllEmpty(bank, c);
        if a.pa == 0 {
          assert NonZero([a.pa] + r.pages) == NonZero(r.pages);
          RunConserves(a.bank, rest);
        } else {
          KallocPops(bank, c);
          assert NonZero([a.pa] + r.pages) == [a.pa] + NonZero(r.pages);
          assert 0 !in Flatten(a.bank) by {
            assert multiset(Flatten(bank))[0] == (multiset(Flatten(a.bank)) + multiset{a.pa})[0];
          }
          RunConserves(a.bank, rest);
          HandOut(multiset(Flatten(r.bank)), multiset(NonZero(r.pages)), multiset(Flatten(a.bank)),
                  multiset(FreedPages(rest)), multiset(Flatten(bank)), a.pa);
        }
    }
  }

  /** Multiset regrouping for a kfree step of RunConserves. */
  lemma Regroup(lhs: multiset<nat>, b: multiset<nat>, fr: multiset<nat>, b0: multiset<nat>, x: multiset<nat>)
    requires lhs == b + fr && b == b0 + x
    ensures lhs == b0 + (x + fr)
  {
    forall p ensures lhs[p] == (b0 + (x + fr))[p] {
      assert lhs[p] == (b + fr)[p];
      assert b[p] == (b0 + x)[p];
    }
  }

  /** Multiset regrouping for a successful kalloc step of RunConserves. */
  lemma HandOut(f: multiset<nat>, n: multiset<nat>, b: multiset<nat>, fr: multiset<nat>, b0: multiset<nat>, pa: nat)
    requires f + n == b + fr && b0 == b + multiset{pa}
    ensures f + (multiset{pa} + n) == b0 + fr
  {
    forall p ensures (f + (multiset{pa} + n))[p] == (b0 + fr)[p] {
      assert (f + n)[p] == (b + fr)[p];
      assert b0[p] == (b + multiset{pa})[p];
    }
  }

  /** Starting from empty pools, freeing pages S (none of them 0) on any
      CPUs and then calling kalloc |S| times on any CPUs returns exactly the
      pages of S, each as often as it was freed; every further kalloc, on
      any CPU, returns 0. */
  lemma Conservation(pages: seq<nat>, freeCids: seq<nat>, allocCids: seq<nat>)
    requires 0 !in pages
    requires CpuIds(freeCids) && CpuIds(allocCids)
    requires |freeCids| == |pages| && |allocCids| == |pages|
    ensures var r := AllocAll(FreeAll(EmptyBank(), freeCids, pages), allocCids);
            multiset(r.pages) == multiset(pages) &&
            (Distinct(pages) ==> Distinct(r.pages)) &&
            forall c :: 0 <= c < NCPU ==> KallocPop(r.bank, c) == Alloc(r.bank, 0)
  {
    var e := EmptyBank();
    var b := FreeAll(e, freeCids, pages);
    EmptyBankHasNoPages();
    FreeAllConserves(e, freeCids, pages);
    assert multiset(Flatten(b)) == multiset(pages);
    assert |Flatten(b)| == |pages| by {
      assert |multiset(Flatten(b))| == |Flatten(b)|;
    }
    assert 0 !in Flatten(b) by {
      assert multiset(pages)[0] == 0;
    }
    AllocAllDrains(b, allocCids);
    var r := AllocAll(b, allocCids);
    assert multiset(r.pages) == multiset(pages);
    forall c | 0 <= c < NCPU ensures KallocPop(r.bank, c) == Alloc(r.bank, 0) {
      CountZeroIffAllEmpty(r.bank);
      KallocFailsIffAllEmpty(r.bank, c);
    }
  }

  /** A bank with only one non-empty pool holds that pool's pages. */
  lemma SinglePool(cid: nat, s: Pool)
    requires cid < NCPU
    ensures multiset(Flatten(EmptyBank()[cid := s])) == multiset(s)
  {
    var e := EmptyBank();
    EmptyBankHasNoPages();
    FlattenUpdate(e, cid, s);
    assert e[cid] == [];
    forall p ensures multiset(Flatten(e[cid := s]))[p] == multiset(s)[p] {
      assert (multiset(Flatten(e[cid := s])) + multiset(e[cid]))[p] == (multiset(Flatten(e)) + multiset(s))[p];
    }
  }

  /** After kinit over a range of K whole pages, K kallocs on any CPUs
      succeed and return K distinct pages, all of them pages kfree accepts;
      the next kalloc returns 0. */
  lemma ExhaustionBoundary(kernelEnd: nat, cid: nat, cids: seq<nat>)
    requires 0 < kernelEnd <= PHYSTOP && cid < NCPU && CpuIds(cids)
    requires |cids| == PagesIn(kernelEnd, PHYSTOP)
    ensures var r := AllocAll(BootBank(kernelEnd, cid), cids);
            Distinct(r.pages) &&
            (forall k :: 0 <= k < |r.pages| ==> r.pages[k] != 0 && ValidPa(r.pages[k], kernelEnd)) &&
            forall c :: 0 <= c < NCPU ==> KallocPop(r.bank, c).pa == 0
  {
    var ps := FreerangePages(kernelEnd, PHYSTOP);
    var b := BootBank(kernelEnd, cid);
    SinglePool(cid, Reversed(ps));
    ReversedMultiset(ps);
    FreerangeCoversManaged(kernelEnd);
    FreerangeIncreasing(kernelEnd, PHYSTOP);
    assert 0 !in Flatten(b) by {
      assert 0 !in ps;
      assert multiset(ps)[0] == 0;
    }
    assert |Flatten(b)| == |ps| by {
      assert |multiset(Flatten(b))| == |Flatten(b)|;
    }
    AllocAllDrains(b, cids);
    var r := AllocAll(b, cids);
    IncreasingIsDistinct(ps);
    forall k | 0 <= k < |r.pages| ensures r.pages[k] != 0 && ValidPa(r.pages[k], kernelEnd) {
      assert multiset(ps)[r.pages[k]] > 0;
    }
    forall c | 0 <= c < NCPU ensures KallocPop(r.bank, c).pa == 0 {
      CountZeroIffAllEmpty(r.bank);
      KallocFailsIffAllEmpty(r.bank, c);
    }
  }

  /** Work stealing: with CPU 0's list empty and one page on CPU 1's list,
      kalloc on CPU 0 still returns that page. */
  lemma StealsFromNeighbour(pa: nat)
    ensures KallocPop(EmptyBank()[1 := [pa]], 0) == Alloc(EmptyBank(), pa)
  {
    var b := EmptyBank()[1 := [pa]];
    VictimIsNearest(b, 0, 1);
    forall j | 0 <= j < NCPU && RingDist(0, j) < RingDist(0, 1) ensures b[j] == [] {
      assert RingDist(0, j) == j;
    }
    assert Victim(b, 0) == Some(1);
    assert b[1][1..] == [];
    assert forall i :: 0 <= i < NCPU ==> b[1 := []][i] == EmptyBank()[i];
  }
}
