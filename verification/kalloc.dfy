/**
 The physical page allocator of kernel/kalloc.c: a LIFO free list of page
 addresses plus one reference count per physical page between KERNBASE and
 PHYSTOP. Locks are dropped: every operation is one atomic transition.
 Page contents are abstracted to the junk byte the allocator last filled
 the page with.
 */
module Kalloc {
  import opened Common

  const KERNBASE: nat := 0x8000_0000
  const PHYSTOP: nat := KERNBASE + 128 * 1024 * 1024

  /** Entries of the reference-count array: REF_CNT_IDX(PHYSTOP). */
  const NPAGES: nat := (PHYSTOP - KERNBASE) / PGSIZE

  /** Byte `kfree` fills a page with before enqueueing it. */
  const FREE_JUNK: int := 1
  /** Byte `kalloc` fills a page with before handing it out. */
  const ALLOC_JUNK: int := 5

  const INT_MAX: int := 0x7fff_ffff
  const INT_MIN: int := -0x8000_0000

  /**
   Allocator state. `kend` is the linker symbol `end` (first address after
   the kernel image); `freelist[0]` is the head of the free list; `cnt[i]`
   is the C `int` count of the page at PageAddr(i); `junk` records, per
   page address, the byte the allocator last filled that page with.
   */
  datatype Kmem = Kmem(kend: nat, freelist: seq<nat>, cnt: seq<int>, junk: map<nat, int>)

  function PageAddr(i: nat): nat {
    KERNBASE + i * PGSIZE
  }

  /** REF_CNT_IDX: the count slot of the page that contains `pa`. */
  function RefIdx(pa: nat): (i: nat)
    requires KERNBASE <= pa < PHYSTOP
    ensures i < NPAGES
    ensures PageAddr(i) <= pa < PageAddr(i) + PGSIZE
  {
    (pa - KERNBASE) / PGSIZE
  }

  /** A page `kfree` accepts: aligned, not below `end`, below PHYSTOP. */
  predicate Managed(kend: nat, pa: nat) {
    Aligned(pa) && kend <= pa < PHYSTOP
  }

  /** Structural well-formedness: the count array covers every page with
      a C `int` each, and every free-list entry is a page `kfree` would
      accept. */
  ghost predicate Wf(s: Kmem) {
    && |s.cnt| == NPAGES
    && (forall i :: 0 <= i < NPAGES ==> INT_MIN <= s.cnt[i] <= INT_MAX)
    && KERNBASE <= s.kend <= PHYSTOP
    && forall k :: 0 <= k < |s.freelist| ==> Managed(s.kend, s.freelist[k])
  }

  ghost predicate NoDup(xs: seq<nat>) {
    forall i, j :: 0 <= i < j < |xs| ==> xs[i] != xs[j]
  }

  /**
   The allocator invariant: for every managed page, the count is never
   negative, and the page is on the free list exactly when its count is
   0; the free list holds no page twice.
   */
  ghost predicate Inv(s: Kmem) {
    && Wf(s)
    && NoDup(s.freelist)
    && forall i :: 0 <= i < NPAGES && s.kend <= PageAddr(i) ==>
         && 0 <= s.cnt[i]
         && (PageAddr(i) in s.freelist <==> s.cnt[i] == 0)
  }

  function Refcnt(s: Kmem, pa: nat): int
    requires Wf(s)
    requires KERNBASE <= pa < PHYSTOP
  {
    s.cnt[RefIdx(pa)]
  }

  /** set_refcnt: stores `c` (a C `int`) into the slot of `pa`'s page. */
  function SetRefcnt(s: Kmem, pa: nat, c: int): (s': Kmem)
    requires Wf(s)
    requires KERNBASE <= pa < PHYSTOP
    ensures Wf(s') && s'.kend == s.kend && s'.freelist == s.freelist && s'.junk == s.junk
    ensures forall q :: KERNBASE <= q < PHYSTOP && PgRoundDown(q) == PgRoundDown(pa) ==>
              Refcnt(s', q) == Wrap32(c)
    ensures forall i :: 0 <= i < NPAGES && i != RefIdx(pa) ==> s'.cnt[i] == s.cnt[i]
  {
    s.(cnt := s.cnt[RefIdx(pa) := Wrap32(c)])
  }

  /** inc_refcnt: `++cnt`, returning the new count read as `uint64`. */
  function IncRefcnt(s: Kmem, pa: nat): (r: (Kmem, nat))
    requires Wf(s)
    requires KERNBASE <= pa < PHYSTOP
    ensures Wf(r.0) && r.0.kend == s.kend && r.0.freelist == s.freelist && r.0.junk == s.junk
    ensures forall i :: 0 <= i < NPAGES && i != RefIdx(pa) ==> r.0.cnt[i] == s.cnt[i]
    ensures Refcnt(s, pa) < INT_MAX ==> Refcnt(r.0, pa) == Refcnt(s, pa) + 1
    ensures r.1 == AsU64(Refcnt(r.0, pa))
    ensures 0 <= Refcnt(r.0, pa) ==> r.1 == Refcnt(r.0, pa)
  {
    var i := RefIdx(pa);
    var c := Wrap32(s.cnt[i] + 1);
    (s.(cnt := s.cnt[i := c]), AsU64(c))
  }

  /** dec_refcnt: `--cnt`, returning the new count read as `uint64`, so a
      count driven to -1 comes back as 2^64 - 1. */
  function DecRefcnt(s: Kmem, pa: nat): (r: (Kmem, nat))
    requires Wf(s)
    requires KERNBASE <= pa < PHYSTOP
    ensures Wf(r.0) && r.0.kend == s.kend && r.0.freelist == s.freelist && r.0.junk == s.junk
    ensures forall i :: 0 <= i < NPAGES && i != RefIdx(pa) ==> r.0.cnt[i] == s.cnt[i]
    ensures INT_MIN < Refcnt(s, pa) ==> Refcnt(r.0, pa) == Refcnt(s, pa) - 1
    ensures r.1 == AsU64(Refcnt(r.0, pa))
    ensures r.1 == 0 <==> Refcnt(r.0, pa) == 0
  {
    var i := RefIdx(pa);
    var c := Wrap32(s.cnt[i] - 1);
    (s.(cnt := s.cnt[i := c]), AsU64(c))
  }

  /**
   kfree: panics unless `pa` is a managed page; otherwise drops one
   reference and, only when the count reaches exactly 0, fills the page
   with junk and pushes it on the head of the free list.
   */
  function KFree(s: Kmem, pa: nat): (r: Result<Kmem>)
    requires Wf(s)
    ensures r.Panic? <==> !Managed(s.kend, pa)
    ensures r.Ok? ==> Wf(r.value) && r.value.kend == s.kend
    ensures r.Ok? ==> forall i :: 0 <= i < NPAGES && i != RefIdx(pa) ==> r.value.cnt[i] == s.cnt[i]
    ensures r.Ok? && INT_MIN < Refcnt(s, pa) ==> Refcnt(r.value, pa) == Refcnt(s, pa) - 1
    ensures r.Ok? && Refcnt(r.value, pa) != 0 ==>
              r.value.freelist == s.freelist && r.value.junk == s.junk
    ensures r.Ok? && Refcnt(r.value, pa) == 0 ==>
              r.value.freelist == [pa] + s.freelist && r.value.junk == s.junk[pa := FREE_JUNK]
  {
    if pa % PGSIZE != 0 || pa < s.kend || pa >= PHYSTOP then
      Panic("kfree")
    else
      var (s1, c) := DecRefcnt(s, pa);
      if c > 0 then
        Ok(s1)
      else
        Ok(s1.(junk := s1.junk[pa := FREE_JUNK], freelist := [pa] + s1.freelist))
  }

  /**
   kalloc: pops the head of the free list, sets its count to 1 and fills
   it with junk; returns 0 and changes nothing when the list is empty.
   */
  function KAlloc(s: Kmem): (r: (Kmem, nat))
    requires Wf(s)
    ensures Wf(r.0) && r.0.kend == s.kend
    ensures s.freelist == [] ==> r == (s, 0)
    ensures s.freelist != [] ==>
              && r.1 == s.freelist[0] && r.1 != 0
              && r.0.freelist == s.freelist[1..]
              && Refcnt(r.0, r.1) == 1
              && (forall i :: 0 <= i < NPAGES && i != RefIdx(r.1) ==> r.0.cnt[i] == s.cnt[i])
              && r.0.junk == s.junk[r.1 := ALLOC_JUNK]
  {
    if s.freelist == [] then
      (s, 0)
    else
      var pa := s.freelist[0];
      var s1 := s.(freelist := s.freelist[1..]);
      var s2 := SetRefcnt(s1, pa, 1);
      (s2.(junk := s2.junk[pa := ALLOC_JUNK]), pa)
  }

  /** A page's count slot maps back to the page itself. */
  lemma PageAddrOfRefIdx(pa: nat)
    requires KERNBASE <= pa < PHYSTOP && Aligned(pa)
    ensures PageAddr(RefIdx(pa)) == pa
    ensures forall i :: 0 <= i < NPAGES && i != RefIdx(pa) ==> PageAddr(i) != pa
  {
  }

  /** kalloc keeps the invariant, and the page it hands out was free
      (count 0) and is no longer on the free list: no double allocation. */
  lemma KAllocPreservesInv(s: Kmem)
    requires Inv(s)
    ensures Inv(KAlloc(s).0)
    ensures KAlloc(s).1 != 0 ==> Refcnt(s, KAlloc(s).1) == 0 && KAlloc(s).1 !in KAlloc(s).0.freelist
  {
    if s.freelist != [] {
      var (s', pa) := KAlloc(s);
      PageAddrOfRefIdx(pa);
      assert pa !in s'.freelist by {
        forall k | 0 <= k < |s'.freelist| ensures s'.freelist[k] != pa {
          assert s'.freelist[k] == s.freelist[k + 1];
        }
      }
      forall i | 0 <= i < NPAGES && s'.kend <= PageAddr(i)
        ensures 0 <= s'.cnt[i] && (PageAddr(i) in s'.freelist <==> s'.cnt[i] == 0)
      {
        if i != RefIdx(pa) {
          assert PageAddr(i) in s.freelist <==> PageAddr(i) in s'.freelist by {
            assert s.freelist == [pa] + s'.freelist;
          }
        }
      }
      assert s.cnt[RefIdx(pa)] == 0 by {
        assert PageAddr(RefIdx(pa)) in s.freelist;
      }
    }
  }

  /** kfree of a page the caller holds a reference to keeps the invariant. */
  lemma KFreePreservesInv(s: Kmem, pa: nat)
    requires Inv(s)
    requires Managed(s.kend, pa)
    requires Refcnt(s, pa) >= 1
    ensures KFree(s, pa).Ok?
    ensures Inv(KFree(s, pa).value)
  {
    var s' := KFree(s, pa).value;
    PageAddrOfRefIdx(pa);
    assert pa !in s.freelist;
    forall i | 0 <= i < NPAGES && s'.kend <= PageAddr(i)
      ensures 0 <= s'.cnt[i] && (PageAddr(i) in s'.freelist <==> s'.cnt[i] == 0)
    {
      if i != RefIdx(pa) {
        assert PageAddr(i) in s.freelist <==> PageAddr(i) in s'.freelist;
      }
    }
    if Refcnt(s', pa) == 0 {
      forall a, b | 0 <= a < b < |s'.freelist| ensures s'.freelist[a] != s'.freelist[b] {
        if a == 0 {
          assert s'.freelist[b] == s.freelist[b - 1];
        } else {
          assert s'.freelist[a] == s.freelist[a - 1] && s'.freelist[b] == s.freelist[b - 1];
        }
      }
    }
  }

  /** inc_refcnt on an allocated page (sharing it) keeps the invariant. */
  lemma IncRefcntPreservesInv(s: Kmem, pa: nat)
    requires Inv(s)
    requires Managed(s.kend, pa)
    requires 1 <= Refcnt(s, pa) < INT_MAX
    ensures Inv(IncRefcnt(s, pa).0)
    ensures IncRefcnt(s, pa).1 == Refcnt(s, pa) + 1
  {
    PageAddrOfRefIdx(pa);
  }

  /** dec_refcnt undoes inc_refcnt and inc_refcnt undoes dec_refcnt, for
      every count: even at INT_MAX and INT_MIN the 32-bit wrap-around of
      one step is reversed by the other. */
  lemma RefcntRoundTrip(s: Kmem, pa: nat)
    requires Wf(s)
    requires KERNBASE <= pa < PHYSTOP
    ensures DecRefcnt(IncRefcnt(s, pa).0, pa).0 == s
    ensures IncRefcnt(DecRefcnt(s, pa).0, pa).0 == s
  {
    var i := RefIdx(pa);
    var c := s.cnt[i];
    WrapBack(c, 1);
    WrapBack(c, -1);
    assert s.cnt[i := Wrap32(Wrap32(c + 1) - 1)] == s.cnt;
    assert s.cnt[i := Wrap32(Wrap32(c - 1) + 1)] == s.cnt;
  }

  /** Stepping a C `int` by `d` and back, each step wrapping, returns it. */
  lemma WrapBack(c: int, d: int)
    requires INT_MIN <= c <= INT_MAX
    ensures Wrap32(Wrap32(c + d) - d) == c
  {
    var m := Wrap32(c + d);
    var b := Wrap32(m - d);
    var k1 := (m - (c + d)) / U32;
    var k2 := (b - (m - d)) / U32;
    assert m - (c + d) == k1 * U32;
    assert b - (m - d) == k2 * U32;
    assert b - c == (k1 + k2) * U32;
  }

  /**
   Freeing a page that is already free (count 0) does not put it on the
   list a second time: the count becomes -1, which `dec_refcnt` returns as
   2^64 - 1 > 0, so `kfree` returns early. The invariant is lost (the
   page stays listed with a nonzero count).
   */
  lemma KFreeOfFreePage(s: Kmem, pa: nat)
    requires Inv(s)
    requires Managed(s.kend, pa)
    requires Refcnt(s, pa) == 0
    ensures KFree(s, pa).Ok?
    ensures DecRefcnt(s, pa).1 == U64 - 1
    ensures KFree(s, pa).value.freelist == s.freelist
    ensures Refcnt(KFree(s, pa).value, pa) == -1
    ensures pa in KFree(s, pa).value.freelist && !Inv(KFree(s, pa).value)
  {
    PageAddrOfRefIdx(pa);
    var s' := KFree(s, pa).value;
    assert PageAddr(RefIdx(pa)) in s'.freelist;
  }

  /**
   A page shared by two owners (count raised from 1 to 2) goes back to
   the pool only on the second kfree, never on the first.
   */
  lemma SharedPageFreedOnlyAtZero(s: Kmem, pa: nat)
    requires Inv(s)
    requires Managed(s.kend, pa)
    requires Refcnt(s, pa) == 1
    ensures var s1 := IncRefcnt(s, pa).0;
            && KFree(s1, pa).Ok?
            && var s2 := KFree(s1, pa).value;
            && Refcnt(s2, pa) == 1 && pa !in s2.freelist && s2.freelist == s.freelist
            && KFree(s2, pa).Ok?
            && var s3 := KFree(s2, pa).value;
            && Refcnt(s3, pa) == 0 && s3.freelist == [pa] + s.freelist && Inv(s3)
  {
    IncRefcntPreservesInv(s, pa);
    var s1 := IncRefcnt(s, pa).0;
    KFreePreservesInv(s1, pa);
    var s2 := KFree(s1, pa).value;
    PageAddrOfRefIdx(pa);
    assert PageAddr(RefIdx(pa)) !in s2.freelist;
    KFreePreservesInv(s2, pa);
  }

  /**
   kalloc, kfree, kalloc: the page comes back, and its contents are the
   allocator's own scrub byte, not whatever it held before.
   */
  lemma ScrubRoundTrip(s: Kmem)
    requires Inv(s)
    requires s.freelist != []
    ensures var (s1, p) := KAlloc(s);
            && KFree(s1, p).Ok?
            && KFree(s1, p).value.junk[p] == FREE_JUNK
            && KAlloc(KFree(s1, p).value).1 == p
            && KAlloc(KFree(s1, p).value).0.junk[p] == ALLOC_JUNK
            && KAlloc(KFree(s1, p).value).0.freelist == s.freelist[1..]
  {
    var (s1, p) := KAlloc(s);
    KAllocPreservesInv(s);
    assert Refcnt(s1, p) == 1;
    KFreePreservesInv(s1, p);
  }

  /** Two allocations in a row never return the same page. */
  lemma KAllocTwiceDistinct(s: Kmem)
    requires Inv(s)
    requires |s.freelist| >= 2
    ensures KAlloc(s).1 != KAlloc(KAlloc(s).0).1
    ensures KAlloc(KAlloc(s).0).1 != 0
  {
    KAllocPreservesInv(s);
  }
}
