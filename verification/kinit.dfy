/**
 Boot-time seeding of the allocator (kinit, init_ref_cnt, freerange in
 kernel/kalloc.c): every count is first set to 1, then every whole page
 between `end` and PHYSTOP goes through the ordinary kfree path, which
 drives its count to 0 and pushes it on the free list.
 */
module KallocInit {
  import opened Common
  import opened Kalloc

  /** init_ref_cnt: every one of the NPAGES counts becomes 1. */
  function InitRefCnt(): (c: seq<int>)
    ensures |c| == NPAGES
    ensures forall i :: 0 <= i < NPAGES ==> c[i] == 1
  {
    seq(NPAGES, _ => 1)
  }

  /** freerange: kfree every whole page from PGROUNDUP(start) up to `hi`. */
  function Freerange(s: Kmem, start: nat, hi: nat): (r: Result<Kmem>)
    requires Wf(s)
    ensures r.Ok? ==> Wf(r.value) && r.value.kend == s.kend
  {
    FreerangeFrom(s, PgRoundUp(start), hi)
  }

  function FreerangeFrom(s: Kmem, p: nat, hi: nat): (r: Result<Kmem>)
    requires Wf(s)
    ensures r.Ok? ==> Wf(r.value) && r.value.kend == s.kend
    decreases hi - p
  {
    if p + PGSIZE <= hi then
      match KFree(s, p)
      case Panic(why) => Panic(why)
      case Ok(s1) => FreerangeFrom(s1, p + PGSIZE, hi)
    else
      Ok(s)
  }

  /** The pages freerange pushes, in the order they end up on the list:
      the last page freed is the head. */
  function PagesDesc(p: nat, hi: nat): seq<nat>
    decreases hi - p
  {
    if p + PGSIZE <= hi then PagesDesc(p + PGSIZE, hi) + [p] else []
  }

  /** Which pages PagesDesc lists, and that it lists each once
      (strictly decreasing). */
  lemma {:induction false} PagesDescSpec(p: nat, hi: nat)
    ensures forall x :: x in PagesDesc(p, hi) <==> p <= x && x + PGSIZE <= hi && Aligned(x - p)
    ensures forall a, b :: 0 <= a < b < |PagesDesc(p, hi)| ==> PagesDesc(p, hi)[a] > PagesDesc(p, hi)[b]
    ensures forall a :: 0 <= a < |PagesDesc(p, hi)| ==> PagesDesc(p, hi)[a] >= p
    decreases hi - p
  {
    if p + PGSIZE <= hi {
      PagesDescSpec(p + PGSIZE, hi);
      var tail := PagesDesc(p + PGSIZE, hi);
      assert PagesDesc(p, hi) == tail + [p];
      forall x ensures x in PagesDesc(p, hi) <==> p <= x && x + PGSIZE <= hi && Aligned(x - p) {
        if p < x && Aligned(x - p) {
          assert Aligned(x - (p + PGSIZE));
        }
        if p + PGSIZE <= x && Aligned(x - (p + PGSIZE)) {
          assert Aligned(x - p);
        }
      }
    }
  }

  /** What freerange needs of the pages it has yet to free from `p` up to
      `hi`: all are managed and all still have the count 1 init_ref_cnt gave them. */
  ghost predicate FreshRange(s: Kmem, p: nat, hi: nat) {
    && Wf(s)
    && Aligned(p) && s.kend <= p && hi <= PHYSTOP
    && forall i :: 0 <= i < NPAGES && p <= PageAddr(i) && PageAddr(i) + PGSIZE <= hi ==> s.cnt[i] == 1
  }

  /** One freerange step: kfree of a fresh page drops its count to 0, pushes
      it with junk, and leaves the rest of the range fresh. */
  lemma FreshRangeStep(s: Kmem, p: nat, hi: nat)
    requires FreshRange(s, p, hi) && p + PGSIZE <= hi
    ensures KFree(s, p).Ok?
    ensures var s1 := KFree(s, p).value;
            && FreshRange(s1, p + PGSIZE, hi)
            && s1.freelist == [p] + s.freelist
            && s1.junk == s.junk[p := FREE_JUNK]
            && s1.cnt[RefIdx(p)] == 0 && PageAddr(RefIdx(p)) == p
            && forall i :: 0 <= i < NPAGES && i != RefIdx(p) ==> s1.cnt[i] == s.cnt[i]
  {
    PageAddrOfRefIdx(p);
    assert s.cnt[RefIdx(p)] == 1;
    var s1 := KFree(s, p).value;
    forall i | 0 <= i < NPAGES && p + PGSIZE <= PageAddr(i) && PageAddr(i) + PGSIZE <= hi
      ensures s1.cnt[i] == 1
    {
      assert i != RefIdx(p);
    }
  }

  /** freerange over fresh pages never panics. */
  lemma {:induction false} FreerangeFromOk(s: Kmem, p: nat, hi: nat)
    requires FreshRange(s, p, hi)
    ensures FreerangeFrom(s, p, hi).Ok?
    decreases hi - p
  {
    if p + PGSIZE <= hi {
      FreshRangeStep(s, p, hi);
      FreerangeFromOk(KFree(s, p).value, p + PGSIZE, hi);
    }
  }

  /** freerange over fresh pages pushes exactly those pages, the last one
      at the head. */
  lemma {:induction false} FreerangeFromSpec(s: Kmem, p: nat, hi: nat)
    requires FreshRange(s, p, hi)
    ensures FreerangeFrom(s, p, hi).Ok? ==>
              FreerangeFrom(s, p, hi).value.freelist == PagesDesc(p, hi) + s.freelist
    decreases hi - p
  {
    if p + PGSIZE <= hi {
      FreshRangeStep(s, p, hi);
      var s1 := KFree(s, p).value;
      FreerangeFromSpec(s1, p + PGSIZE, hi);
      var r := FreerangeFrom(s1, p + PGSIZE, hi);
      assert FreerangeFrom(s, p, hi) == r;
      if r.Ok? {
        PushOrder(p, hi, s.freelist, s1.freelist, r.value.freelist);
      }
    } else {
      assert PagesDesc(p, hi) == [];
    }
  }

  /** The free list after pushing `p` and then the pages above it. */
  lemma PushOrder(p: nat, hi: nat, before: seq<nat>, mid: seq<nat>, after: seq<nat>)
    requires p + PGSIZE <= hi
    requires mid == [p] + before
    requires after == PagesDesc(p + PGSIZE, hi) + mid
    ensures after == PagesDesc(p, hi) + before
  {
    var below := PagesDesc(p + PGSIZE, hi);
    assert PagesDesc(p, hi) == below + [p];
    assert below + ([p] + before) == (below + [p]) + before;
  }

  /** freerange over fresh pages zeroes exactly their counts. */
  lemma {:induction false} FreerangeFromCounts(s: Kmem, p: nat, hi: nat)
    requires FreshRange(s, p, hi)
    ensures FreerangeFrom(s, p, hi).Ok? ==>
              forall i :: 0 <= i < NPAGES ==>
                FreerangeFrom(s, p, hi).value.cnt[i] ==
                  (if p <= PageAddr(i) && PageAddr(i) + PGSIZE <= hi then 0 else s.cnt[i])
    decreases hi - p
  {
    if p + PGSIZE <= hi {
      FreshRangeStep(s, p, hi);
      var s1 := KFree(s, p).value;
      FreerangeFromCounts(s1, p + PGSIZE, hi);
      var r := FreerangeFrom(s1, p + PGSIZE, hi);
      if r.Ok? {
        ZeroedOrder(p, hi, RefIdx(p), s.cnt, s1.cnt, r.value.cnt);
      }
    } else {
    }
  }

  /** The counts after zeroing page `p` and then the pages above it. */
  lemma ZeroedOrder(p: nat, hi: nat, ip: int, before: seq<int>, mid: seq<int>, after: seq<int>)
    requires 0 <= ip < NPAGES && PageAddr(ip) == p && p + PGSIZE <= hi
    requires |before| == NPAGES && |mid| == NPAGES && |after| == NPAGES
    requires mid[ip] == 0 && forall i :: 0 <= i < NPAGES && i != ip ==> mid[i] == before[i]
    requires forall i :: 0 <= i < NPAGES ==>
               after[i] == (if p + PGSIZE <= PageAddr(i) && PageAddr(i) + PGSIZE <= hi then 0 else mid[i])
    ensures forall i :: 0 <= i < NPAGES ==>
              after[i] == (if p <= PageAddr(i) && PageAddr(i) + PGSIZE <= hi then 0 else before[i])
  {
    forall i | 0 <= i < NPAGES
      ensures after[i] == (if p <= PageAddr(i) && PageAddr(i) + PGSIZE <= hi then 0 else before[i])
    {
      if i < ip {
        assert PageAddr(i) + PGSIZE <= p by {
          assert PageAddr(ip) - PageAddr(i) == (ip - i) * PGSIZE;
        }
      } else if ip < i {
        assert p + PGSIZE <= PageAddr(i) by {
          assert PageAddr(i) - PageAddr(ip) == (i - ip) * PGSIZE;
        }
      }
    }
  }

  /** freerange over fresh pages fills each with junk and leaves the
      recorded contents of every other page alone. */
  lemma {:induction false} FreerangeFromJunk(s: Kmem, p: nat, hi: nat)
    requires FreshRange(s, p, hi)
    ensures FreerangeFrom(s, p, hi).Ok? ==>
              forall x :: x in PagesDesc(p, hi) ==>
                x in FreerangeFrom(s, p, hi).value.junk && FreerangeFrom(s, p, hi).value.junk[x] == FREE_JUNK
    ensures FreerangeFrom(s, p, hi).Ok? ==>
              forall x :: x !in PagesDesc(p, hi) && x in s.junk ==>
                x in FreerangeFrom(s, p, hi).value.junk && FreerangeFrom(s, p, hi).value.junk[x] == s.junk[x]
    decreases hi - p
  {
    if p + PGSIZE <= hi {
      FreshRangeStep(s, p, hi);
      var s1 := KFree(s, p).value;
      FreerangeFromJunk(s1, p + PGSIZE, hi);
      var r := FreerangeFrom(s1, p + PGSIZE, hi);
      if r.Ok? {
        JunkOrder(p, hi, s.junk, s1.junk, r.value.junk);
      }
    } else {
      assert PagesDesc(p, hi) == [];
    }
  }

  /** The recorded contents after scrubbing page `p` and then the pages above it. */
  lemma JunkOrder(p: nat, hi: nat, before: map<nat, int>, mid: map<nat, int>, after: map<nat, int>)
    requires p + PGSIZE <= hi
    requires mid == before[p := FREE_JUNK]
    requires forall x :: x in PagesDesc(p + PGSIZE, hi) ==> x in after && after[x] == FREE_JUNK
    requires forall x :: x !in PagesDesc(p + PGSIZE, hi) && x in mid ==> x in after && after[x] == mid[x]
    ensures forall x :: x in PagesDesc(p, hi) ==> x in after && after[x] == FREE_JUNK
    ensures forall x :: x !in PagesDesc(p, hi) && x in before ==> x in after && after[x] == before[x]
  {
    assert PagesDesc(p, hi) == PagesDesc(p + PGSIZE, hi) + [p];
  }

  /**
   kinit: after boot every page `kfree` accepts is on the free list exactly
   once with count 0, every other count is 1, and the allocator
   invariant holds.
   */
  function KInit(kend: nat): (r: Result<Kmem>)
    requires KERNBASE <= kend <= PHYSTOP
    ensures r.Ok? && Inv(r.value) && r.value.kend == kend
    ensures forall x :: x in r.value.freelist <==>
              Aligned(x) && PgRoundUp(kend) <= x && x + PGSIZE <= PHYSTOP
    ensures forall i :: 0 <= i < NPAGES ==>
              r.value.cnt[i] == (if PgRoundUp(kend) <= PageAddr(i) then 0 else 1)
    ensures forall x :: x in r.value.freelist ==> x in r.value.junk && r.value.junk[x] == FREE_JUNK
  {
    var s0 := Kmem(kend, [], InitRefCnt(), map[]);
    KInitFacts(kend);
    Freerange(s0, kend, PHYSTOP)
  }

  lemma KInitFacts(kend: nat)
    requires KERNBASE <= kend <= PHYSTOP
    ensures var r := Freerange(Kmem(kend, [], InitRefCnt(), map[]), kend, PHYSTOP);
            && r.Ok? && Inv(r.value) && r.value.kend == kend
            && (forall x :: x in r.value.freelist <==>
                  Aligned(x) && PgRoundUp(kend) <= x && x + PGSIZE <= PHYSTOP)
            && (forall i :: 0 <= i < NPAGES ==>
                  r.value.cnt[i] == (if PgRoundUp(kend) <= PageAddr(i) then 0 else 1))
            && (forall x :: x in r.value.freelist ==> x in r.value.junk && r.value.junk[x] == FREE_JUNK)
  {
    var s0 := Kmem(kend, [], InitRefCnt(), map[]);
    var p := PgRoundUp(kend);
    FreerangeFromOk(s0, p, PHYSTOP);
    FreerangeFromSpec(s0, p, PHYSTOP);
    FreerangeFromCounts(s0, p, PHYSTOP);
    FreerangeFromJunk(s0, p, PHYSTOP);
    var r := FreerangeFrom(s0, p, PHYSTOP).value;
    assert r.freelist == PagesDesc(p, PHYSTOP);
    PagesDescSpec(p, PHYSTOP);
    BootFreeList(p, r.freelist);
    BootCounts(kend, r);
    BootInv(kend, r);
  }

  lemma BootFreeList(p: nat, fl: seq<nat>)
    requires Aligned(p)
    requires forall x :: x in fl <==> p <= x && x + PGSIZE <= PHYSTOP && Aligned(x - p)
    ensures forall x {:trigger x in fl} :: x in fl <==> Aligned(x) && p <= x && x + PGSIZE <= PHYSTOP
  {
    forall x ensures x in fl <==> Aligned(x) && p <= x && x + PGSIZE <= PHYSTOP {
      if p <= x && Aligned(x - p) {
        assert Aligned(x);
      }
      if p <= x && Aligned(x) {
        assert Aligned(x - p);
      }
    }
  }

  lemma BootCounts(kend: nat, r: Kmem)
    requires |r.cnt| == NPAGES
    requires forall i :: 0 <= i < NPAGES ==>
               r.cnt[i] == (if PgRoundUp(kend) <= PageAddr(i) && PageAddr(i) + PGSIZE <= PHYSTOP then 0 else 1)
    ensures forall i :: 0 <= i < NPAGES ==> r.cnt[i] == (if PgRoundUp(kend) <= PageAddr(i) then 0 else 1)
  {
    forall i | 0 <= i < NPAGES
      ensures r.cnt[i] == (if PgRoundUp(kend) <= PageAddr(i) then 0 else 1)
    {
      assert PageAddr(i) + PGSIZE <= PHYSTOP;
    }
  }

  lemma BootInv(kend: nat, r: Kmem)
    requires Wf(r) && r.kend == kend
    requires forall x {:trigger x in r.freelist} :: x in r.freelist <==> Aligned(x) && PgRoundUp(kend) <= x && x + PGSIZE <= PHYSTOP
    requires forall i :: 0 <= i < NPAGES ==> r.cnt[i] == (if PgRoundUp(kend) <= PageAddr(i) then 0 else 1)
    requires forall a, b :: 0 <= a < b < |r.freelist| ==> r.freelist[a] > r.freelist[b]
    ensures Inv(r)
  {
    forall i | 0 <= i < NPAGES && kend <= PageAddr(i)
      ensures 0 <= r.cnt[i] && (PageAddr(i) in r.freelist <==> r.cnt[i] == 0)
    {
      assert Aligned(PageAddr(i));
      assert PgRoundUp(kend) <= PageAddr(i);
      assert PageAddr(i) + PGSIZE <= PHYSTOP;
    }
  }
}
