/**
 The accessed-bit scan (sys_pgaccess in kernel/sysproc.c): for `num`
 consecutive pages starting at `base`, report in a 64-bit mask which of
 them the hardware has marked accessed (PTE_A), and clear that bit.

 The page table is the same abstract map as in SysFile: a page-aligned
 virtual address is a key exactly when `walk` finds its leaf entry. The
 outcome of `copyout` is a parameter. The uint64 mask is kept as its 64
 bits, bit `j` at index `j`, so `mask |= (uint64)1 << i` sets index `i`.
 */
module SysProc {
  import opened Common

  /** The largest `num` the call accepts: one bit of a uint64 mask per page. */
  const MAX_PAGES: int := 64

  /** The page `walk` resolves on iteration `i`: `base` advanced by `i`
      pages, as the uint64 `base += PGSIZE` does, wrapping at 2^64. */
  function PageAt(base: nat, i: nat): (pg: nat)
    ensures Aligned(pg) && pg < U64
    ensures pg <= (base + i * PGSIZE) % U64 < pg + PGSIZE
    ensures base + i * PGSIZE < U64 ==> pg == PgRoundDown(base) + i * PGSIZE
  {
    PgRoundDown((base + i * PGSIZE) % U64)
  }

  /** How many iterations the `for (i = 0; i < num; ++i)` loop runs. */
  function Visits(num: int): (n: nat)
    ensures num <= 0 ==> n == 0
    ensures 0 <= num ==> n == num
  {
    if num < 0 then 0 else num
  }

  /** A mask with no bit set: `uint64 mask = 0`, as its 64 bits. */
  function NoBits(n: nat): (r: seq<bool>)
    ensures |r| == n
    ensures forall j :: 0 <= j < n ==> !r[j]
  {
    if n == 0 then [] else NoBits(n - 1) + [false]
  }

  /** `*pte &= ~PTE_A`: the accessed bit goes, every other bit stays. */
  function ClearAccessed(pte: bv64): (r: bv64)
    ensures !PteAccessed(r)
    ensures r | PTE_A == pte | PTE_A
  {
    pte & !PTE_A
  }

  /** The pages visited by iterations `lo` up to (not including) `hi`. */
  ghost function Visited(base: nat, lo: nat, hi: nat): set<nat> {
    set j | lo <= j < hi :: PageAt(base, j)
  }

  /**
   How far the loop gets from iteration `i`: the first iteration below
   `num` whose page `walk` cannot resolve, or `num` when every page
   resolves.
   */
  function Reach(keys: set<nat>, base: nat, num: nat, i: nat): (k: nat)
    requires i <= num
    ensures i <= k <= num
    ensures forall j :: i <= j < k ==> PageAt(base, j) in keys
    ensures k < num ==> PageAt(base, k) !in keys
    decreases num - i
  {
    if i == num then i
    else if PageAt(base, i) !in keys then i
    else Reach(keys, base, num, i + 1)
  }

  /** The loop state when the scan stops: the page table, whether every
      page resolved, and the mask built so far. */
  datatype Scan = Scan(pt: map<nat, bv64>, ok: bool, mask: seq<bool>)

  /** The loop of sys_pgaccess from iteration `i` on. */
  function ScanFrom(pt: map<nat, bv64>, base: nat, num: nat, i: nat, mask: seq<bool>): (r: Scan)
    requires num <= MAX_PAGES && i <= num && |mask| == MAX_PAGES
    ensures r.pt.Keys == pt.Keys
    ensures |r.mask| == MAX_PAGES
    ensures r.ok <==> Reach(pt.Keys, base, num, i) == num
    decreases num - i
  {
    if i == num then
      Scan(pt, true, mask)
    else
      var q := PageAt(base, i);
      if q !in pt then
        Scan(pt, false, mask)
      else if PteAccessed(pt[q]) then
        var pt1 := pt[q := ClearAccessed(pt[q])];
        assert pt1.Keys == pt.Keys;
        ScanFrom(pt1, base, num, i + 1, mask[i := true])
      else
        ScanFrom(pt, base, num, i + 1, mask)
  }

  /**
   The result of sys_pgaccess: the page table afterwards, the return
   value, and the mask handed to `copyout` (None when the call returned
   before reaching it).
   */
  datatype AccessOut = AccessOut(pt: map<nat, bv64>, ret: int, copied: Option<seq<bool>>)

  /**
   sys_pgaccess. More than 64 pages is refused before any entry is
   looked at; a page `walk` cannot resolve ends the call with -1 and
   leaves the bits already cleared cleared; a failing `copyout` gives -1.
   */
  function PgAccess(pt: map<nat, bv64>, base: nat, num: int, copyOk: bool): (r: AccessOut)
    requires base < U64
    ensures num > MAX_PAGES ==> r == AccessOut(pt, -1, None)
    ensures r.pt.Keys == pt.Keys
    ensures r.ret == 0 || r.ret == -1
    ensures r.ret == 0 <==> r.copied.Some? && copyOk
    ensures num <= MAX_PAGES ==> (r.copied.Some? <==> Reach(pt.Keys, base, Visits(num), 0) == Visits(num))
    ensures num <= 0 ==> r.pt == pt && r.copied == Some(NoBits(MAX_PAGES))
  {
    if num > MAX_PAGES then
      AccessOut(pt, -1, None)
    else
      var s := ScanFrom(pt, base, Visits(num), 0, NoBits(MAX_PAGES));
      if !s.ok then AccessOut(s.pt, -1, None)
      else if copyOk then AccessOut(s.pt, 0, Some(s.mask))
      else AccessOut(s.pt, -1, Some(s.mask))
  }

  // ----- pages of the scan -----

  /** PageAt without the rounding: the page of `base`, advanced and wrapped. */
  lemma PageAtClosed(base: nat, i: nat)
    requires base < U64 && i <= MAX_PAGES
    ensures var b := PgRoundDown(base);
            PageAt(base, i) == if b + i * PGSIZE < U64 then b + i * PGSIZE else b + i * PGSIZE - U64
  {
    var b := PgRoundDown(base);
    var o := base % PGSIZE;
    assert base == b + o;
    var x := base + i * PGSIZE;
    if x < U64 {
      assert x % U64 == x;
      assert x == (b + i * PGSIZE) + o;
    } else {
      assert x % U64 == x - U64;
      assert x - U64 == (b + i * PGSIZE - U64) + o;
    }
  }

  /** At most 64 iterations never visit the same page twice, even when
      `base` wraps around the top of the address space. */
  lemma PageAtDistinct(base: nat, i: nat, j: nat)
    requires base < U64 && i < j <= MAX_PAGES
    ensures PageAt(base, i) != PageAt(base, j)
  {
    PageAtClosed(base, i);
    PageAtClosed(base, j);
  }

  // ----- what the scan does to the page table -----

  /** Clearing an accessed bit that is not set changes nothing. */
  lemma ClearAccessedNoop(pte: bv64)
    requires !PteAccessed(pte)
    ensures ClearAccessed(pte) == pte
  {
  }

  /** The scan leaves an entry it does not visit as it was. */
  lemma {:induction false} ScanLeavesAt(pt: map<nat, bv64>, base: nat, num: nat, i: nat, mask: seq<bool>, x: nat)
    requires num <= MAX_PAGES && i <= num && |mask| == MAX_PAGES
    requires x in pt && x !in Visited(base, i, Reach(pt.Keys, base, num, i))
    ensures ScanFrom(pt, base, num, i, mask).pt[x] == pt[x]
    decreases num - i
  {
    var k := Reach(pt.Keys, base, num, i);
    if i < num && PageAt(base, i) in pt {
      var q := PageAt(base, i);
      assert x != q;
      assert x !in Visited(base, i + 1, k);
      if PteAccessed(pt[q]) {
        var pt1 := pt[q := ClearAccessed(pt[q])];
        assert pt1.Keys == pt.Keys;
        ScanLeavesAt(pt1, base, num, i + 1, mask[i := true], x);
      } else {
        ScanLeavesAt(pt, base, num, i + 1, mask, x);
      }
    }
  }

  /** The scan clears the accessed bit of the page of iteration `j`, when
      the loop gets that far, leaving the entry's other bits alone. */
  lemma {:induction false} ScanClearsAt(pt: map<nat, bv64>, base: nat, num: nat, i: nat, mask: seq<bool>, j: nat)
    requires base < U64
    requires num <= MAX_PAGES && i <= num && |mask| == MAX_PAGES
    requires i <= j < Reach(pt.Keys, base, num, i)
    ensures ScanFrom(pt, base, num, i, mask).pt[PageAt(base, j)] == ClearAccessed(pt[PageAt(base, j)])
    decreases num - i, 1
  {
    if j == i {
      ScanClearsFirst(pt, base, num, i, mask);
    } else if PteAccessed(pt[PageAt(base, i)]) {
      ScanClearsLaterSet(pt, base, num, i, mask, j);
    } else {
      ScanClearsLaterClear(pt, base, num, i, mask, j);
    }
  }

  /** ScanClearsAt for a later page, when the first page was accessed. */
  lemma {:induction false} ScanClearsLaterSet(pt: map<nat, bv64>, base: nat, num: nat, i: nat, mask: seq<bool>, j: nat)
    requires base < U64
    requires num <= MAX_PAGES && i <= num && |mask| == MAX_PAGES
    requires i < j < Reach(pt.Keys, base, num, i) && PteAccessed(pt[PageAt(base, i)])
    ensures ScanFrom(pt, base, num, i, mask).pt[PageAt(base, j)] == ClearAccessed(pt[PageAt(base, j)])
    decreases num - i, 0
  {
    var q := PageAt(base, i);
    PageAtDistinct(base, i, j);
    var pt1 := pt[q := ClearAccessed(pt[q])];
    assert pt1.Keys == pt.Keys;
    assert pt1[PageAt(base, j)] == pt[PageAt(base, j)];
    ScanClearsAt(pt1, base, num, i + 1, mask[i := true], j);
  }

  /** ScanClearsAt for a later page, when the first page was not accessed. */
  lemma {:induction false} ScanClearsLaterClear(pt: map<nat, bv64>, base: nat, num: nat, i: nat, mask: seq<bool>, j: nat)
    requires base < U64
    requires num <= MAX_PAGES && i <= num && |mask| == MAX_PAGES
    requires i < j < Reach(pt.Keys, base, num, i) && !PteAccessed(pt[PageAt(base, i)])
    ensures ScanFrom(pt, base, num, i, mask).pt[PageAt(base, j)] == ClearAccessed(pt[PageAt(base, j)])
    decreases num - i, 0
  {
    ScanClearsAt(pt, base, num, i + 1, mask, j);
  }

  /** The first page of the scan: it is cleared now and never visited again. */
  lemma ScanClearsFirst(pt: map<nat, bv64>, base: nat, num: nat, i: nat, mask: seq<bool>)
    requires base < U64
    requires num <= MAX_PAGES && i <= num && |mask| == MAX_PAGES
    requires i < Reach(pt.Keys, base, num, i)
    ensures ScanFrom(pt, base, num, i, mask).pt[PageAt(base, i)] == ClearAccessed(pt[PageAt(base, i)])
  {
    var q := PageAt(base, i);
    var k := Reach(pt.Keys, base, num, i);
    assert q !in Visited(base, i + 1, k) by {
      forall j | i + 1 <= j < k ensures PageAt(base, j) != q {
        PageAtDistinct(base, i, j);
      }
    }
    if PteAccessed(pt[q]) {
      var pt1 := pt[q := ClearAccessed(pt[q])];
      assert pt1.Keys == pt.Keys;
      ScanLeavesAt(pt1, base, num, i + 1, mask[i := true], q);
    } else {
      ScanLeavesAt(pt, base, num, i + 1, mask, q);
      ClearAccessedNoop(pt[q]);
    }
  }

  // ----- the mask the scan builds -----

  /** Bit `j` of the mask the scan returns: bits below the starting
      iteration are kept, and a later bit is set exactly when the loop
      got to that iteration and its page had been accessed. */
  lemma {:induction false} ScanMaskAt(pt: map<nat, bv64>, base: nat, num: nat, i: nat, mask: seq<bool>, j: nat)
    requires base < U64
    requires num <= MAX_PAGES && i <= num && |mask| == MAX_PAGES
    requires j < MAX_PAGES && (i <= j ==> !mask[j])
    ensures ScanFrom(pt, base, num, i, mask).mask[j] <==>
              if j < i then mask[j]
              else j < Reach(pt.Keys, base, num, i) && PteAccessed(pt[PageAt(base, j)])
    decreases num - i, 1
  {
    if i < num && PageAt(base, i) in pt {
      if PteAccessed(pt[PageAt(base, i)]) {
        ScanMaskSet(pt, base, num, i, mask, j);
      } else {
        ScanMaskClear(pt, base, num, i, mask, j);
      }
    }
  }

  /** ScanMaskAt when the page of iteration `i` was accessed. */
  lemma {:induction false} ScanMaskSet(pt: map<nat, bv64>, base: nat, num: nat, i: nat, mask: seq<bool>, j: nat)
    requires base < U64
    requires num <= MAX_PAGES && i < num && |mask| == MAX_PAGES
    requires PageAt(base, i) in pt && PteAccessed(pt[PageAt(base, i)])
    requires j < MAX_PAGES && (i <= j ==> !mask[j])
    ensures ScanFrom(pt, base, num, i, mask).mask[j] <==>
              if j < i then mask[j]
              else j < Reach(pt.Keys, base, num, i) && PteAccessed(pt[PageAt(base, j)])
    decreases num - i, 0
  {
    var q := PageAt(base, i);
    var pt1 := pt[q := ClearAccessed(pt[q])];
    assert pt1.Keys == pt.Keys;
    ScanMaskAt(pt1, base, num, i + 1, mask[i := true], j);
    if i < j < Reach(pt.Keys, base, num, i) {
      PageAtDistinct(base, i, j);
      assert pt1[PageAt(base, j)] == pt[PageAt(base, j)];
    }
  }

  /** ScanMaskAt when the page of iteration `i` was not accessed. */
  lemma {:induction false} ScanMaskClear(pt: map<nat, bv64>, base: nat, num: nat, i: nat, mask: seq<bool>, j: nat)
    requires base < U64
    requires num <= MAX_PAGES && i < num && |mask| == MAX_PAGES
    requires PageAt(base, i) in pt && !PteAccessed(pt[PageAt(base, i)])
    requires j < MAX_PAGES && (i <= j ==> !mask[j])
    ensures ScanFrom(pt, base, num, i, mask).mask[j] <==>
              if j < i then mask[j]
              else j < Reach(pt.Keys, base, num, i) && PteAccessed(pt[PageAt(base, j)])
    decreases num - i, 0
  {
    ScanMaskAt(pt, base, num, i + 1, mask, j);
  }

  /** A scan over pages none of which is accessed changes nothing. */
  lemma {:induction false} ScanQuiet(pt: map<nat, bv64>, base: nat, num: nat, i: nat, mask: seq<bool>)
    requires num <= MAX_PAGES && i <= num && |mask| == MAX_PAGES
    requires forall j :: i <= j < Reach(pt.Keys, base, num, i) ==> !PteAccessed(pt[PageAt(base, j)])
    ensures ScanFrom(pt, base, num, i, mask).pt == pt
    ensures ScanFrom(pt, base, num, i, mask).mask == mask
    decreases num - i
  {
    if i < num && PageAt(base, i) in pt {
      ScanQuiet(pt, base, num, i + 1, mask);
    }
  }

  // ----- sys_pgaccess as a whole -----

  /** Every page the loop reaches loses its accessed bit and keeps the
      rest, even when a later page makes the call fail. */
  lemma PgAccessClears(pt: map<nat, bv64>, base: nat, num: int, copyOk: bool, j: nat)
    requires base < U64 && num <= MAX_PAGES
    requires j < Reach(pt.Keys, base, Visits(num), 0)
    ensures PgAccess(pt, base, num, copyOk).pt[PageAt(base, j)] == ClearAccessed(pt[PageAt(base, j)])
  {
    ScanClearsAt(pt, base, Visits(num), 0, NoBits(MAX_PAGES), j);
  }

  /** An entry the loop does not reach is left as it was. */
  lemma PgAccessLeaves(pt: map<nat, bv64>, base: nat, num: int, copyOk: bool, x: nat)
    requires base < U64
    requires x in pt && x !in Visited(base, 0, Reach(pt.Keys, base, Visits(num), 0))
    ensures PgAccess(pt, base, num, copyOk).pt[x] == pt[x]
  {
    if num <= MAX_PAGES {
      ScanLeavesAt(pt, base, Visits(num), 0, NoBits(MAX_PAGES), x);
    }
  }

  /** The mask handed to `copyout`: bit `j` is set exactly when `j` is
      below `num` and page `j` had been accessed on entry. */
  lemma PgAccessMask(pt: map<nat, bv64>, base: nat, num: int, copyOk: bool, j: nat)
    requires base < U64 && j < MAX_PAGES
    ensures var r := PgAccess(pt, base, num, copyOk);
            r.copied.Some? ==>
              |r.copied.value| == MAX_PAGES &&
              (r.copied.value[j] <==> j < Visits(num) && PteAccessed(pt[PageAt(base, j)]))
  {
    if num <= MAX_PAGES {
      ScanMaskAt(pt, base, Visits(num), 0, NoBits(MAX_PAGES), j);
    }
  }

  /** Up to 64 pages, the call gets to `copyout` exactly when `walk`
      resolves every page it visits. */
  lemma PgAccessWalkFails(pt: map<nat, bv64>, base: nat, num: int, copyOk: bool)
    requires base < U64 && num <= MAX_PAGES
    ensures PgAccess(pt, base, num, copyOk).copied.None? <==>
              exists j :: 0 <= j < Visits(num) && PageAt(base, j) !in pt
  {
    var n := Visits(num);
    var k := Reach(pt.Keys, base, n, 0);
    if k < n {
      assert PageAt(base, k) !in pt;
    }
  }

  /** Calling again right after a call that got to `copyout` reports no
      page and changes nothing: the first call cleared every bit it saw. */
  lemma PgAccessAgain(pt: map<nat, bv64>, base: nat, num: int, copyOk: bool, copyOk2: bool)
    requires base < U64
    requires PgAccess(pt, base, num, copyOk).copied.Some?
    ensures var r := PgAccess(pt, base, num, copyOk);
            var r2 := PgAccess(r.pt, base, num, copyOk2);
            r2.pt == r.pt && r2.copied == Some(NoBits(MAX_PAGES))
  {
    var n := Visits(num);
    var r := PgAccess(pt, base, num, copyOk);
    forall j | 0 <= j < Reach(r.pt.Keys, base, n, 0)
      ensures !PteAccessed(r.pt[PageAt(base, j)])
    {
      ScanClearsAt(pt, base, n, 0, NoBits(MAX_PAGES), j);
    }
    ScanQuiet(r.pt, base, n, 0, NoBits(MAX_PAGES));
  }
}
