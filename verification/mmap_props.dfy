/**
 Properties of the mmap/munmap model that relate several calls: the
 open-mode table, the fdalloc/argfd round trip, the VMA layout invariant
 both calls keep, munmap undoing a fresh mmap, and the behaviours the
 source shows for read-only shared mappings and interior holes.
 */
module MmapProps {
  import opened Common
  import opened SysFile

  /** The standard open modes decode as expected; O_WRONLY|O_RDWR reads as
      write-only; O_CREATE and O_TRUNC do not affect access. */
  lemma OpenModeTable(omode: bv32)
    ensures OpenModes(O_RDONLY) == Access(true, false)
    ensures OpenModes(O_WRONLY) == Access(false, true)
    ensures OpenModes(O_RDWR) == Access(true, true)
    ensures OpenModes(O_WRONLY | O_RDWR) == Access(false, true)
    ensures OpenModes(omode | O_CREATE) == OpenModes(omode)
    ensures OpenModes(omode | O_TRUNC) == OpenModes(omode)
  {
  }

  /** A file opened O_RDONLY may be mapped shared for reading and private
      for writing, but not shared for writing. */
  lemma ReadOnlyFileMappings(ref: int)
    ensures var f := OpenFile(OpenModes(O_RDONLY).readable, OpenModes(O_RDONLY).writable, ref);
            && MmapPermitted(f, PROT_READ, MAP_SHARED)
            && MmapPermitted(f, PROT_READ | PROT_WRITE, MAP_PRIVATE)
            && !MmapPermitted(f, PROT_WRITE, MAP_SHARED)
            && !MmapPermitted(f, PROT_READ | PROT_WRITE, MAP_SHARED)
  {
  }

  /** The descriptor fdalloc hands out resolves, through argfd, to the
      file it installed; every other descriptor resolves as before. */
  lemma FdAllocArgFd(ofile: seq<Option<FileId>>, f: FileId)
    ensures var (ofile', fd) := FdAlloc(ofile, f);
            && (fd != -1 ==> ArgFd(ofile', fd) == Some(f))
            && (forall d :: d != fd ==> ArgFd(ofile', d) == ArgFd(ofile, d))
  {
  }

  /** Two VMAs' page ranges do not overlap. */
  predicate Disjoint(a: Vma, b: Vma) {
    VmaEnd(a) <= b.addr || VmaEnd(b) <= a.addr
  }

  /**
   The layout mmap's bump-down placement guarantees: every used VMA starts
   on a page boundary at or above the watermark, and no two used VMAs
   overlap.
   */
  ghost predicate Layout(p: Proc) {
    && ProcWf(p)
    && (forall i :: 0 <= i < |p.vmas| && p.vmas[i].Some? ==>
          Aligned(p.vmas[i].value.addr) && p.vmas[i].value.addr >= p.mmapTop)
    && (forall i, j :: 0 <= i < |p.vmas| && 0 <= j < |p.vmas| && i != j && p.vmas[i].Some? && p.vmas[j].Some? ==>
          Disjoint(p.vmas[i].value, p.vmas[j].value))
  }

  lemma RoundUpBelow(x: nat, w: nat)
    requires Aligned(w) && x <= w
    ensures PgRoundUp(x) <= w
  {
  }

  /** mmap keeps the layout: the new VMA lies wholly below every existing one. */
  lemma MmapPreservesLayout(p: Proc, length: nat, prot: bv32, flags: bv32, fd: int, offset: nat)
    requires Layout(p)
    requires ArgFd(p.ofile, fd).Some? && ArgFd(p.ofile, fd).value in p.files
    requires length <= p.mmapTop
    ensures Layout(Mmap(p, length, prot, flags, fd, offset).proc)
  {
    var r := Mmap(p, length, prot, flags, fd, offset);
    if r.ret != -1 {
      var i := FreeSlot(p.vmas);
      var v := r.proc.vmas[i].value;
      forall j | 0 <= j < |p.vmas| && j != i && p.vmas[j].Some?
        ensures VmaEnd(v) <= p.vmas[j].value.addr
      {
        RoundUpBelow(v.addr + v.length, p.vmas[j].value.addr);
      }
    }
  }

  /** munmap keeps the layout: a trimmed VMA only shrinks, and its base
      stays on a page boundary. */
  lemma MunmapPreservesLayout(p: Proc, addr: nat, length: nat, short: set<int>)
    requires Layout(p)
    requires MunmapArgsFit(p, addr, length)
    ensures Munmap(p, addr, length, short).Ok? ==> Layout(Munmap(p, addr, length, short).value.proc)
  {
    var r := Munmap(p, addr, length, short);
    var b := PgRoundDown(addr);
    var e := PgRoundUp(addr + length);
    var i := SelectVma(p.vmas, b, e);
    MunmapEffectSlots(p, addr, length, short, b, e, i);
    if r.Ok? && r.value.ret == 0 {
      var v := p.vmas[i].value;
      var p' := r.value.proc;
      if Trim(v, b, e).value.Some? {
        var nv := Trim(v, b, e).value.value;
        forall j | 0 <= j < |p.vmas| && j != i && p.vmas[j].Some?
          ensures Disjoint(nv, p.vmas[j].value) && Disjoint(p.vmas[j].value, nv)
        {
          assert Disjoint(v, p.vmas[j].value);
        }
      }
    }
  }

  /** The conditions under which munmap of the whole of VMA `i` finds no
      resident page to write back or unmap. */
  ghost predicate WholeUnpopulated(p: Proc, i: nat, v: Vma) {
    && ProcWf(p)
    && i < |p.vmas| && p.vmas[i] == Some(v)
    && Aligned(v.addr)
    && SelectVma(p.vmas, v.addr, VmaEnd(v)) == i
    && MunmapArgsFit(p, v.addr, v.length)
    && (!Shared(v) || p.files[v.file].writable)
    && Walkable(p.pt, v.addr, VmaEnd(v))
    && ValidPagesIn(p.pt, v.addr, VmaEnd(v)) == []
  }

  lemma WholeUnpopulatedOutcome(p: Proc, i: nat, v: Vma, short: set<int>)
    requires WholeUnpopulated(p, i, v)
    ensures var r := Munmap(p, v.addr, v.length, short);
            && r.Ok? && r.value.ret == 0 && r.value.written == [] && r.value.released == []
            && r.value.proc.vmas == p.vmas[i := None]
  {
    WholeUnpopulatedReturns(p, i, v, short);
    WholeUnpopulatedWrites(p, i, v, short);
    WholeUnpopulatedReleases(p, i, v, short);
    WholeUnpopulatedSlot(p, i, v, short);
  }

  lemma WholeUnpopulatedReturns(p: Proc, i: nat, v: Vma, short: set<int>)
    requires WholeUnpopulated(p, i, v)
    ensures var r := Munmap(p, v.addr, v.length, short);
            r.Ok? && r.value.ret == 0
  {
    assert PgRoundDown(v.addr) == v.addr;
    assert Selects(p, v.addr, v.length, v.addr, VmaEnd(v), i);
    MunmapSucceeds(p, v.addr, v.length, short, v.addr, VmaEnd(v), i);
  }

  lemma WholeUnpopulatedWrites(p: Proc, i: nat, v: Vma, short: set<int>)
    requires WholeUnpopulated(p, i, v)
    ensures var r := Munmap(p, v.addr, v.length, short);
            r.Ok? && r.value.ret == 0 ==> r.value.written == []
  {
    assert PgRoundDown(v.addr) == v.addr;
    assert Selects(p, v.addr, v.length, v.addr, VmaEnd(v), i);
    MunmapWrites(p, v.addr, v.length, short, v.addr, VmaEnd(v), i);
    var r := Munmap(p, v.addr, v.length, short);
    if r.Ok? && r.value.ret == 0 && Shared(v) {
      assert |Vas(r.value.written)| == 0;
    }
  }

  lemma WholeUnpopulatedReleases(p: Proc, i: nat, v: Vma, short: set<int>)
    requires WholeUnpopulated(p, i, v)
    ensures var r := Munmap(p, v.addr, v.length, short);
            r.Ok? && r.value.ret == 0 ==> r.value.released == []
  {
    assert PgRoundDown(v.addr) == v.addr;
    MunmapEffectTable(p, v.addr, v.length, short, v.addr, VmaEnd(v));
  }

  lemma WholeUnpopulatedSlot(p: Proc, i: nat, v: Vma, short: set<int>)
    requires WholeUnpopulated(p, i, v)
    ensures var r := Munmap(p, v.addr, v.length, short);
            r.Ok? && r.value.ret == 0 ==> r.value.proc.vmas == p.vmas[i := None]
  {
    assert PgRoundDown(v.addr) == v.addr;
    assert Selects(p, v.addr, v.length, v.addr, VmaEnd(v), i);
    MunmapEffectSlots(p, v.addr, v.length, short, v.addr, VmaEnd(v), i);
    assert Trim(v, v.addr, VmaEnd(v)) == Ok(None);
  }

  lemma WholeUnpopulatedTable(p: Proc, i: nat, v: Vma, short: set<int>)
    requires WholeUnpopulated(p, i, v)
    ensures var r := Munmap(p, v.addr, v.length, short);
            r.Ok? && r.value.ret == 0 ==> r.value.proc.pt == p.pt
  {
    var b := v.addr;
    var e := VmaEnd(v);
    assert PgRoundDown(b) == b;
    MunmapEffectTable(p, b, v.length, short, b, e);
    var r := Munmap(p, b, v.length, short);
    if r.Ok? && r.value.ret == 0 {
      UnmapNothing(p.pt, r.value.proc.pt, b, e);
    }
  }

  /** A table whose entries are those of `pt` after unmapping a range with
      no resident page is `pt` itself. */
  lemma UnmapNothing(pt: map<nat, bv64>, pt': map<nat, bv64>, lo: nat, hi: nat)
    requires Aligned(lo) && ValidPagesIn(pt, lo, hi) == []
    requires pt'.Keys == pt.Keys
    requires forall q :: q in pt ==> pt'[q] == Unmapped(pt, lo, hi, q)
    ensures pt' == pt
  {
    NothingToUnmap(pt, lo, hi);
  }

  /** With no resident page in [lo, hi), unmapping that range changes no entry. */
  lemma NothingToUnmap(pt: map<nat, bv64>, lo: nat, hi: nat)
    requires Aligned(lo) && ValidPagesIn(pt, lo, hi) == []
    ensures forall q :: q in pt ==> Unmapped(pt, lo, hi, q) == pt[q]
  {
    ValidPagesInRange(pt, lo, hi);
  }

  /**
   munmap of the whole of a VMA none of whose pages is resident frees its
   slot, drops its file reference, and writes back and releases nothing.
   */
  lemma MunmapWholeUnpopulated(p: Proc, i: nat, v: Vma, short: set<int>)
    requires WholeUnpopulated(p, i, v)
    ensures var f := p.files[v.file];
            Munmap(p, v.addr, v.length, short) ==
              Ok(MunmapOut(p.(vmas := p.vmas[i := None], files := p.files[v.file := f.(ref := f.ref - 1)]), 0, [], []))
  {
    var f := p.files[v.file];
    WholeUnpopulatedOutcome(p, i, v, short);
    WholeUnpopulatedTable(p, i, v, short);
    WholeUnpopulatedFiles(p, i, v, short);
    var p' := Munmap(p, v.addr, v.length, short).value.proc;
    assert p' == Proc(p.ofile, p.files[v.file := f.(ref := f.ref - 1)], p.vmas[i := None], p.mmapTop, p.pt);
  }

  lemma WholeUnpopulatedFiles(p: Proc, i: nat, v: Vma, short: set<int>)
    requires WholeUnpopulated(p, i, v)
    ensures var f := p.files[v.file];
            var r := Munmap(p, v.addr, v.length, short);
            r.Ok? && r.value.ret == 0 ==>
              && r.value.proc.files == p.files[v.file := f.(ref := f.ref - 1)]
              && r.value.proc.ofile == p.ofile && r.value.proc.mmapTop == p.mmapTop
  {
    assert PgRoundDown(v.addr) == v.addr;
    assert Selects(p, v.addr, v.length, v.addr, VmaEnd(v), i);
    MunmapEffectSlots(p, v.addr, v.length, short, v.addr, VmaEnd(v), i);
    assert Trim(v, v.addr, VmaEnd(v)) == Ok(None);
  }

  /**
   `p1` is `p` after a successful mmap put VMA `v` into the empty slot
   `i`, lowered the watermark to the VMA's base and took a reference on
   its file.
   */
  ghost predicate Fresh(p: Proc, p1: Proc, i: nat, v: Vma) {
    && Layout(p)
    && i < |p.vmas| && p.vmas[i].None?
    && v.file in p.files
    && Aligned(v.addr) && 0 < v.length && v.addr + v.length <= p.mmapTop
    && p1 == p.(vmas := p.vmas[i := Some(v)], mmapTop := v.addr,
                files := p.files[v.file := p.files[v.file].(ref := p.files[v.file].ref + 1)])
  }

  /** A successful mmap leaves a Fresh state, with the new VMA in the first
      free slot. */
  lemma MmapFresh(p: Proc, length: nat, prot: bv32, flags: bv32, fd: int, offset: nat)
    requires Layout(p)
    requires ArgFd(p.ofile, fd).Some? && ArgFd(p.ofile, fd).value in p.files
    requires 0 < length <= p.mmapTop
    requires Mmap(p, length, prot, flags, fd, offset).ret != -1
    ensures var m := Mmap(p, length, prot, flags, fd, offset);
            var fid := ArgFd(p.ofile, fd).value;
            && m.ret >= 0 && FreeSlot(p.vmas) >= 0
            && Fresh(p, m.proc, FreeSlot(p.vmas), Vma(m.ret, length, prot, flags, fd, fid, offset))
            && p.files[fid].writable == m.proc.files[fid].writable
  {
  }

  /** In a Fresh state munmap selects the new VMA for any page range that
      starts on one of its pages and ends within it. */
  lemma FreshSelected(p: Proc, p1: Proc, i: nat, v: Vma, b: nat, e: nat)
    requires Fresh(p, p1, i, v)
    requires v.addr <= b < PgRoundUp(v.addr + v.length) && e <= PgRoundUp(v.addr + v.length)
    ensures SelectVma(p1.vmas, b, e) == i
  {
    forall j | 0 <= j < i
      ensures !Holds(p1.vmas[j], b, e)
    {
      assert p1.vmas[j] == p.vmas[j];
      if p.vmas[j].Some? {
        RoundUpBelow(v.addr + v.length, p.vmas[j].value.addr);
      }
    }
    assert Holds(p1.vmas[i], b, e);
  }

  /** A Fresh state keeps the layout. */
  lemma FreshLayout(p: Proc, p1: Proc, i: nat, v: Vma)
    requires Fresh(p, p1, i, v)
    ensures Layout(p1)
  {
    forall j | 0 <= j < |p.vmas| && j != i && p.vmas[j].Some?
      ensures VmaEnd(v) <= p.vmas[j].value.addr
    {
      RoundUpBelow(v.addr + v.length, p.vmas[j].value.addr);
    }
  }

  /**
   The VMA a successful mmap creates is the one munmap selects for any
   page range that starts on one of its pages and ends within the
   mapping: every other used VMA lies at or above the old watermark.
   */
  lemma FreshVmaSelected(p: Proc, length: nat, prot: bv32, flags: bv32, fd: int, offset: nat, b: nat, e: nat)
    requires Layout(p)
    requires ArgFd(p.ofile, fd).Some? && ArgFd(p.ofile, fd).value in p.files
    requires 0 < length <= p.mmapTop
    requires Mmap(p, length, prot, flags, fd, offset).ret != -1
    requires var a := Mmap(p, length, prot, flags, fd, offset).ret;
             a <= b < PgRoundUp(a + length) && e <= PgRoundUp(a + length)
    ensures var m := Mmap(p, length, prot, flags, fd, offset);
            var i := FreeSlot(p.vmas);
            && 0 <= i < |m.proc.vmas| && m.proc.vmas[i].Some?
            && m.proc.vmas[i].value == Vma(m.ret, length, prot, flags, fd, ArgFd(p.ofile, fd).value, offset)
            && SelectVma(m.proc.vmas, b, e) == i
  {
    var m := Mmap(p, length, prot, flags, fd, offset);
    var v := Vma(m.ret, length, prot, flags, fd, ArgFd(p.ofile, fd).value, offset);
    MmapFresh(p, length, prot, flags, fd, offset);
    FreshSelected(p, m.proc, FreeSlot(p.vmas), v, b, e);
  }

  /**
   munmap of exactly the range a fresh mmap returned, with none of its
   pages faulted in, frees the slot and drops the file reference, writes
   nothing back and releases no frame: every part of the process is as
   before the mmap except the watermark, which is never raised again.
   This needs every page of the range to have an entry `walk` can find
   (FreshUnwalkablePanics shows the panic otherwise), and, for a shared
   mapping, a writable file (SharedReadOnlyMappingStays shows the -1
   otherwise).
   */
  lemma MmapThenMunmap(p: Proc, length: nat, prot: bv32, flags: bv32, fd: int, offset: nat, short: set<int>)
    requires Layout(p)
    requires ArgFd(p.ofile, fd).Some? && ArgFd(p.ofile, fd).value in p.files
    requires 0 < length <= p.mmapTop
    requires Mmap(p, length, prot, flags, fd, offset).ret != -1
    requires flags & MAP_SHARED == 0 || p.files[ArgFd(p.ofile, fd).value].writable
    requires var m := Mmap(p, length, prot, flags, fd, offset);
             && Walkable(p.pt, m.ret, PgRoundUp(m.ret + length))
             && ValidPagesIn(p.pt, m.ret, PgRoundUp(m.ret + length)) == []
             && MunmapArgsFit(m.proc, m.ret, length)
    ensures var m := Mmap(p, length, prot, flags, fd, offset);
            Munmap(m.proc, m.ret, length, short) == Ok(MunmapOut(p.(mmapTop := m.ret), 0, [], []))
  {
    var m := Mmap(p, length, prot, flags, fd, offset);
    var i := FreeSlot(p.vmas);
    var v := Vma(m.ret, length, prot, flags, fd, ArgFd(p.ofile, fd).value, offset);
    MmapFresh(p, length, prot, flags, fd, offset);
    FreshThenMunmap(p, m.proc, i, v, short);
  }

  /** MmapThenMunmap on a Fresh state. */
  lemma FreshThenMunmap(p: Proc, p1: Proc, i: nat, v: Vma, short: set<int>)
    requires Fresh(p, p1, i, v)
    requires !Shared(v) || p.files[v.file].writable
    requires Walkable(p.pt, v.addr, VmaEnd(v)) && ValidPagesIn(p.pt, v.addr, VmaEnd(v)) == []
    requires MunmapArgsFit(p1, v.addr, v.length)
    ensures Munmap(p1, v.addr, v.length, short) == Ok(MunmapOut(p.(mmapTop := v.addr), 0, [], []))
  {
    FreshUnpopulated(p, p1, i, v);
    FreshUndo(p, p1, i, v);
    MunmapWholeUnpopulated(p1, i, v, short);
  }

  /** The state a fresh mmap leaves meets WholeUnpopulated for its slot,
      and freeing that slot and dropping the reference again gives back
      the state before the mmap, apart from the watermark. */
  lemma FreshMappingUnpopulated(p: Proc, length: nat, prot: bv32, flags: bv32, fd: int, offset: nat)
    requires Layout(p)
    requires ArgFd(p.ofile, fd).Some? && ArgFd(p.ofile, fd).value in p.files
    requires 0 < length <= p.mmapTop
    requires Mmap(p, length, prot, flags, fd, offset).ret != -1
    requires flags & MAP_SHARED == 0 || p.files[ArgFd(p.ofile, fd).value].writable
    requires var m := Mmap(p, length, prot, flags, fd, offset);
             && Walkable(p.pt, m.ret, PgRoundUp(m.ret + length))
             && ValidPagesIn(p.pt, m.ret, PgRoundUp(m.ret + length)) == []
             && MunmapArgsFit(m.proc, m.ret, length)
    ensures var m := Mmap(p, length, prot, flags, fd, offset);
            var i := FreeSlot(p.vmas);
            var v := Vma(m.ret, length, prot, flags, fd, ArgFd(p.ofile, fd).value, offset);
            var f := m.proc.files[v.file];
            && i >= 0
            && WholeUnpopulated(m.proc, i, v)
            && m.proc.(vmas := m.proc.vmas[i := None], files := m.proc.files[v.file := f.(ref := f.ref - 1)])
               == p.(mmapTop := m.ret)
  {
    var m := Mmap(p, length, prot, flags, fd, offset);
    var v := Vma(m.ret, length, prot, flags, fd, ArgFd(p.ofile, fd).value, offset);
    MmapFresh(p, length, prot, flags, fd, offset);
    FreshUnpopulated(p, m.proc, FreeSlot(p.vmas), v);
    FreshUndo(p, m.proc, FreeSlot(p.vmas), v);
  }

  /** A Fresh state meets WholeUnpopulated for the new slot when none of
      the mapping's pages is resident. */
  lemma FreshUnpopulated(p: Proc, p1: Proc, i: nat, v: Vma)
    requires Fresh(p, p1, i, v)
    requires !Shared(v) || p.files[v.file].writable
    requires Walkable(p.pt, v.addr, VmaEnd(v)) && ValidPagesIn(p.pt, v.addr, VmaEnd(v)) == []
    requires MunmapArgsFit(p1, v.addr, v.length)
    ensures WholeUnpopulated(p1, i, v)
  {
    FreshLayout(p, p1, i, v);
    FreshSelected(p, p1, i, v, v.addr, VmaEnd(v));
  }

  /** Freeing the new slot of a Fresh state and dropping the reference
      again gives back the state before the mmap, apart from the watermark. */
  lemma FreshUndo(p: Proc, p1: Proc, i: nat, v: Vma)
    requires Fresh(p, p1, i, v)
    ensures var f := p1.files[v.file];
            p1.(vmas := p1.vmas[i := None], files := p1.files[v.file := f.(ref := f.ref - 1)]) == p.(mmapTop := v.addr)
  {
    RefRoundTrip(p.files, v.file);
    SlotRoundTrip(p.vmas, i, v);
  }

  /** Raising a file's reference count and lowering it again restores the table. */
  lemma RefRoundTrip(files: map<FileId, OpenFile>, fid: FileId)
    requires fid in files
    ensures var f := files[fid];
            var f1 := f.(ref := f.ref + 1);
            files[fid := f1][fid := f1.(ref := f1.ref - 1)] == files
  {
  }

  /** Filling an empty VMA slot and emptying it again restores the table. */
  lemma SlotRoundTrip(vmas: seq<Option<Vma>>, i: nat, v: Vma)
    requires i < |vmas| && vmas[i].None?
    ensures vmas[i := Some(v)][i := None] == vmas
  {
  }

  /**
   A MAP_SHARED mapping of a file opened read-only is accepted when it
   asks only for PROT_READ, yet every munmap of a range within it returns
   -1 and changes nothing, because munmap refuses every shared VMA of an
   unwritable file before looking at its protection.
   */
  lemma SharedReadOnlyMappingStays(p: Proc, length: nat, fd: int, offset: nat, addr: nat, len: nat, short: set<int>)
    requires Layout(p)
    requires ArgFd(p.ofile, fd).Some? && ArgFd(p.ofile, fd).value in p.files
    requires p.files[ArgFd(p.ofile, fd).value].readable && !p.files[ArgFd(p.ofile, fd).value].writable
    requires 0 < length <= p.mmapTop
    requires FreeSlot(p.vmas) != -1
    requires var m := Mmap(p, length, PROT_READ, MAP_SHARED, fd, offset);
             var top := PgRoundUp(m.ret + length);
             && m.ret <= PgRoundDown(addr) < top && PgRoundUp(addr + len) <= top
             && MunmapArgsFit(m.proc, addr, len)
    ensures var m := Mmap(p, length, PROT_READ, MAP_SHARED, fd, offset);
            && m.ret != -1
            && Munmap(m.proc, addr, len, short) == Ok(MunmapOut(m.proc, -1, [], []))
  {
    var m := Mmap(p, length, PROT_READ, MAP_SHARED, fd, offset);
    assert m.ret != -1;
    var v := Vma(m.ret, length, PROT_READ, MAP_SHARED, fd, ArgFd(p.ofile, fd).value, offset);
    MmapFresh(p, length, PROT_READ, MAP_SHARED, fd, offset);
    FreshLayout(p, m.proc, FreeSlot(p.vmas), v);
    FreshSelected(p, m.proc, FreeSlot(p.vmas), v, PgRoundDown(addr), PgRoundUp(addr + len));
  }

  /**
   munmap of a fresh private mapping panics when some page of it has no
   entry `walk` can find, which is the state of a never-touched page
   outside the page-table pages already allocated: uvmunmap's walk fails
   before anything is unmapped.
   */
  lemma FreshUnwalkablePanics(p: Proc, length: nat, prot: bv32, fd: int, offset: nat, short: set<int>)
    requires Layout(p)
    requires ArgFd(p.ofile, fd).Some? && ArgFd(p.ofile, fd).value in p.files
    requires 0 < length <= p.mmapTop
    requires Mmap(p, length, prot, MAP_PRIVATE, fd, offset).ret != -1
    requires var m := Mmap(p, length, prot, MAP_PRIVATE, fd, offset);
             && !Walkable(p.pt, m.ret, PgRoundUp(m.ret + length))
             && MunmapArgsFit(m.proc, m.ret, length)
    ensures var m := Mmap(p, length, prot, MAP_PRIVATE, fd, offset);
            Munmap(m.proc, m.ret, length, short).Panic?
  {
    var m := Mmap(p, length, prot, MAP_PRIVATE, fd, offset);
    var v := Vma(m.ret, length, prot, MAP_PRIVATE, fd, ArgFd(p.ofile, fd).value, offset);
    MmapFresh(p, length, prot, MAP_PRIVATE, fd, offset);
    FreshUnwalkable(p, m.proc, FreeSlot(p.vmas), v, short);
  }

  /** FreshUnwalkablePanics on a Fresh state. */
  lemma FreshUnwalkable(p: Proc, p1: Proc, i: nat, v: Vma, short: set<int>)
    requires Fresh(p, p1, i, v) && !Shared(v)
    requires !Walkable(p.pt, v.addr, VmaEnd(v))
    requires MunmapArgsFit(p1, v.addr, v.length)
    ensures Munmap(p1, v.addr, v.length, short).Panic?
  {
    FreshLayout(p, p1, i, v);
    FreshSelected(p, p1, i, v, v.addr, VmaEnd(v));
    assert PgRoundDown(v.addr) == v.addr;
  }

  /** With an empty page table, munmap of any fresh private mapping panics. */
  lemma FreshEmptyTablePanics(p: Proc, length: nat, prot: bv32, fd: int, offset: nat, short: set<int>)
    requires Layout(p) && p.pt == map[]
    requires ArgFd(p.ofile, fd).Some? && ArgFd(p.ofile, fd).value in p.files
    requires 0 < length <= p.mmapTop
    requires Mmap(p, length, prot, MAP_PRIVATE, fd, offset).ret != -1
    requires var m := Mmap(p, length, prot, MAP_PRIVATE, fd, offset);
             MunmapArgsFit(m.proc, m.ret, length)
    ensures var m := Mmap(p, length, prot, MAP_PRIVATE, fd, offset);
            Munmap(m.proc, m.ret, length, short).Panic?
  {
    var a := Mmap(p, length, prot, MAP_PRIVATE, fd, offset).ret;
    assert a !in p.pt;
    FreshUnwalkablePanics(p, length, prot, fd, offset, short);
  }

  /**
   munmap of a range strictly inside a VMA (neither a prefix nor a suffix)
   does not fail gracefully: once every page in it could be walked, the
   kernel panics.
   */
  lemma MunmapHolePanics(p: Proc, addr: nat, length: nat, short: set<int>)
    requires ProcWf(p)
    requires MunmapArgsFit(p, addr, length)
    requires var b := PgRoundDown(addr);
             var e := PgRoundUp(addr + length);
             var i := SelectVma(p.vmas, b, e);
             && i != -1 && !Shared(p.vmas[i].value)
             && p.vmas[i].value.addr < b && e < VmaEnd(p.vmas[i].value)
             && Walkable(p.pt, b, e)
    ensures Munmap(p, addr, length, short).Panic?
  {
  }

  /** The conditions under which munmap of the first page of shared VMA `i`,
      a resident page whose write-back is not short, succeeds. */
  ghost predicate FirstPageResident(p: Proc, i: nat, short: set<int>) {
    && ProcWf(p)
    && i < |p.vmas| && p.vmas[i].Some?
    && var v := p.vmas[i].value;
       && Aligned(v.addr) && PGSIZE < v.length
       && SelectVma(p.vmas, v.addr, v.addr + PGSIZE) == i
       && MunmapArgsFit(p, v.addr, PGSIZE)
       && Shared(v) && p.files[v.file].writable
       && v.addr in p.pt && PteValid(p.pt[v.addr])
       && v.offset !in short
  }

  /** The only page boundary in [a, a + PGSIZE) is `a`. */
  lemma OnlyBoundary(a: nat, q: nat)
    requires Aligned(a)
    ensures a <= q < a + PGSIZE && Aligned(q) ==> q == a
  {
  }

  /** A single resident page is the only resident page of its own range,
      and that range can be walked. */
  lemma OnePageRange(pt: map<nat, bv64>, a: nat)
    requires Aligned(a) && a in pt && PteValid(pt[a])
    ensures ValidPagesIn(pt, a, a + PGSIZE) == [a]
    ensures Walkable(pt, a, a + PGSIZE)
    ensures PgRoundDown(a) == a && PgRoundUp(a + PGSIZE) == a + PGSIZE
    ensures Frames(pt, [a]) == [Pte2Pa(pt[a])]
  {
    assert ValidPagesIn(pt, a + PGSIZE, a + PGSIZE) == [];
    forall q | a <= q < a + PGSIZE && Aligned(q) ensures q in pt {
      assert q == a;
    }
  }

  lemma FirstPageOutcome(p: Proc, i: nat, short: set<int>)
    requires FirstPageResident(p, i, short)
    ensures var v := p.vmas[i].value;
            var r := Munmap(p, v.addr, PGSIZE, short);
            && r.Ok? && r.value.ret == 0
            && r.value.written == [PageWrite(v.file, v.offset, v.addr)]
            && r.value.released == [Pte2Pa(p.pt[v.addr])]
  {
    var v := p.vmas[i].value;
    var a := v.addr;
    OnePageRange(p.pt, a);
    assert Selects(p, a, PGSIZE, a, a + PGSIZE, i);
    MunmapSucceeds(p, a, PGSIZE, short, a, a + PGSIZE, i);
    MunmapWrites(p, a, PGSIZE, short, a, a + PGSIZE, i);
    MunmapEffectTable(p, a, PGSIZE, short, a, a + PGSIZE);
    var r := Munmap(p, a, PGSIZE, short);
    assert r.Ok? && r.value.ret == 0;
    var w := r.value.written;
    assert |w| == |Vas(w)| == 1;
    assert w[0].va == Vas(w)[0] == a;
    assert w[0].off == FileOffset(v, a) == v.offset;
    assert w[0] == PageWrite(v.file, v.offset, a);
  }

  lemma FirstPageVmas(p: Proc, i: nat, short: set<int>)
    requires FirstPageResident(p, i, short)
    ensures var v := p.vmas[i].value;
            var r := Munmap(p, v.addr, PGSIZE, short);
            r.Ok? && r.value.ret == 0 ==>
              r.value.proc.vmas ==
                p.vmas[i := Some(v.(addr := v.addr + PGSIZE, length := v.length - PGSIZE, offset := v.offset + PGSIZE))]
  {
    var v := p.vmas[i].value;
    OnePageRange(p.pt, v.addr);
    assert Selects(p, v.addr, PGSIZE, v.addr, v.addr + PGSIZE, i);
    TrimFirstPage(v);
    MunmapEffectSlots(p, v.addr, PGSIZE, short, v.addr, v.addr + PGSIZE, i);
  }

  /** Cutting the first page off a longer VMA keeps the VMA, so its file
      reference, the watermark and the descriptor table stay as they were. */
  lemma FirstPageKeepsFiles(p: Proc, i: nat, short: set<int>)
    requires FirstPageResident(p, i, short)
    ensures var v := p.vmas[i].value;
            var r := Munmap(p, v.addr, PGSIZE, short);
            r.Ok? && r.value.ret == 0 ==>
              r.value.proc.files == p.files && r.value.proc.mmapTop == p.mmapTop && r.value.proc.ofile == p.ofile
  {
    var v := p.vmas[i].value;
    OnePageRange(p.pt, v.addr);
    assert Selects(p, v.addr, PGSIZE, v.addr, v.addr + PGSIZE, i);
    TrimFirstPage(v);
    MunmapEffectSlots(p, v.addr, PGSIZE, short, v.addr, v.addr + PGSIZE, i);
  }

  /** Trimming the first page off a longer VMA moves its base and file
      offset up by a page. */
  lemma TrimFirstPage(v: Vma)
    requires Aligned(v.addr) && PGSIZE < v.length
    ensures Trim(v, v.addr, v.addr + PGSIZE) ==
              Ok(Some(v.(addr := v.addr + PGSIZE, length := v.length - PGSIZE, offset := v.offset + PGSIZE)))
  {
  }

  lemma FirstPageTable(p: Proc, i: nat, short: set<int>)
    requires FirstPageResident(p, i, short)
    ensures var v := p.vmas[i].value;
            var r := Munmap(p, v.addr, PGSIZE, short);
            r.Ok? && r.value.ret == 0 ==> r.value.proc.pt == p.pt[v.addr := 0]
  {
    var v := p.vmas[i].value;
    var a := v.addr;
    OnePageRange(p.pt, a);
    var r := Munmap(p, a, PGSIZE, short);
    MunmapEffectTable(p, a, PGSIZE, short, a, a + PGSIZE);
    if r.Ok? && r.value.ret == 0 {
      forall q | q in p.pt ensures r.value.proc.pt[q] == p.pt[a := 0][q] {
        OnlyBoundary(a, q);
      }
    }
  }

  /**
   munmap of the first page of a longer shared VMA of a writable file,
   when that page is resident and its write-back is not short: the page
   is written back at the VMA's file offset, its frame released and its
   entry cleared, and the VMA keeps its slot with base and file offset
   moved up by a page. Nothing else changes.
   */
  lemma FirstPageUnmap(p: Proc, i: nat, short: set<int>)
    requires FirstPageResident(p, i, short)
    ensures var v := p.vmas[i].value;
            var nv := v.(addr := v.addr + PGSIZE, length := v.length - PGSIZE, offset := v.offset + PGSIZE);
            Munmap(p, v.addr, PGSIZE, short) ==
              Ok(MunmapOut(p.(pt := p.pt[v.addr := 0], vmas := p.vmas[i := Some(nv)]), 0,
                           [PageWrite(v.file, v.offset, v.addr)], [Pte2Pa(p.pt[v.addr])]))
  {
    FirstPageOutcome(p, i, short);
    FirstPageVmas(p, i, short);
    FirstPageKeepsFiles(p, i, short);
    FirstPageTable(p, i, short);
  }

  /** A fresh two-page shared writable mapping whose first page has been
      faulted in meets FirstPageResident, so FirstPageUnmap says what
      munmap of that first page does. */
  lemma MmapSharedPrefix(p: Proc, fd: int, offset: nat, pte: bv64, short: set<int>)
    requires Layout(p)
    requires ArgFd(p.ofile, fd).Some? && ArgFd(p.ofile, fd).value in p.files
    requires p.files[ArgFd(p.ofile, fd).value].writable
    requires 2 * PGSIZE <= p.mmapTop <= U64 - 2 * PGSIZE
    requires FreeSlot(p.vmas) != -1
    requires PteValid(pte)
    requires offset !in short
    ensures var m := Mmap(p, 2 * PGSIZE, PROT_WRITE, MAP_SHARED, fd, offset);
            var p1 := m.proc.(pt := m.proc.pt[m.ret := pte]);
            var i := FreeSlot(p.vmas);
            && m.ret != -1
            && FirstPageResident(p1, i, short)
            && p1.vmas[i].value == Vma(m.ret, 2 * PGSIZE, PROT_WRITE, MAP_SHARED, fd, ArgFd(p.ofile, fd).value, offset)
  {
    var m := Mmap(p, 2 * PGSIZE, PROT_WRITE, MAP_SHARED, fd, offset);
    FreshVmaSelected(p, 2 * PGSIZE, PROT_WRITE, MAP_SHARED, fd, offset, m.ret, m.ret + PGSIZE);
  }
}
