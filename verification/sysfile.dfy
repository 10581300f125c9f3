/**
 The memory-mapping system calls of kernel/sysfile.c and the file-table
 helpers they rest on: argfd, fdalloc, the open-mode decode of sys_open,
 sys_mmap and sys_munmap.

 A process is a record holding its open-file table, the open files it can
 reach (with their external reference count), its VMA slots, its mmap
 watermark and an abstract page table: a map from page-aligned virtual
 address to the leaf entry `walk` finds there. An address missing from
 the map is one for which `walk` returns 0.
 */
module SysFile {
  import opened Common

  // kernel/fcntl.h
  const O_RDONLY: bv32 := 0x000
  const O_WRONLY: bv32 := 0x001
  const O_RDWR: bv32 := 0x002
  const O_CREATE: bv32 := 0x200
  const O_TRUNC: bv32 := 0x400

  const PROT_READ: bv32 := 0x1
  const PROT_WRITE: bv32 := 0x2
  const MAP_SHARED: bv32 := 0x01
  const MAP_PRIVATE: bv32 := 0x02

  /** Identity of a `struct file` in the kernel's file table. */
  type FileId = nat

  /** The parts of a `struct file` these calls look at; `ref` stands for
      the reference count that filedup raises and filered lowers. */
  datatype OpenFile = OpenFile(readable: bool, writable: bool, ref: int)

  /** A used VMA slot: base address, length in bytes (not necessarily a
      page multiple), protection and sharing bits, the descriptor it was
      created from, the file it holds a reference to, and the file offset
      of its base address. */
  datatype Vma = Vma(addr: nat, length: nat, prot: bv32, flags: bv32, fd: int, file: FileId, offset: nat)

  datatype Proc = Proc(
    ofile: seq<Option<FileId>>,
    files: map<FileId, OpenFile>,
    vmas: seq<Option<Vma>>,
    mmapTop: nat,
    pt: map<nat, bv64>)

  /** Every used VMA refers to a file the process can reach. */
  ghost predicate ProcWf(p: Proc) {
    forall i :: 0 <= i < |p.vmas| && p.vmas[i].Some? ==> p.vmas[i].value.file in p.files
  }

  // ---------------------------------------------------------------- files

  datatype Access = Access(readable: bool, writable: bool)

  /** The readable/writable decode sys_open applies to its `omode`. */
  function OpenModes(omode: bv32): (a: Access)
    ensures a.readable || a.writable
    ensures a.readable && a.writable <==> omode & (O_WRONLY | O_RDWR) == O_RDWR
  {
    Access(omode & O_WRONLY == 0, omode & O_WRONLY != 0 || omode & O_RDWR != 0)
  }

  /**
   argfd: the open file installed at descriptor `fd`, or None when `fd`
   is out of range or names an empty slot. `|ofile|` plays NOFILE.
   */
  function ArgFd(ofile: seq<Option<FileId>>, fd: int): (r: Option<FileId>)
    ensures r.Some? <==> 0 <= fd < |ofile| && ofile[fd].Some?
    ensures r.Some? ==> r == ofile[fd]
  {
    if fd < 0 || fd >= |ofile| || ofile[fd].None? then None else ofile[fd]
  }

  /**
   fdalloc: installs `f` in the lowest empty descriptor slot and returns
   its index; returns -1 and changes nothing when every slot is taken.
   */
  function FdAlloc(ofile: seq<Option<FileId>>, f: FileId): (r: (seq<Option<FileId>>, int))
    ensures r.1 == -1 <==> forall j :: 0 <= j < |ofile| ==> ofile[j].Some?
    ensures r.1 == -1 ==> r.0 == ofile
    ensures r.1 != -1 ==>
              && 0 <= r.1 < |ofile| && ofile[r.1].None?
              && (forall j :: 0 <= j < r.1 ==> ofile[j].Some?)
              && |r.0| == |ofile| && r.0[r.1] == Some(f)
              && (forall j :: 0 <= j < |ofile| && j != r.1 ==> r.0[j] == ofile[j])
  {
    var fd := FirstWhere(ofile, (e: Option<FileId>) => e.None?);
    if fd == -1 then (ofile, -1) else (ofile[fd := Some(f)], fd)
  }

  // ------------------------------------------------------------ geometry

  /** PGROUNDUP(addr + length): the end of the pages a VMA spans. */
  function VmaEnd(v: Vma): nat {
    PgRoundUp(v.addr + v.length)
  }

  /** The VMA's page range [addr, VmaEnd) contains `va`. */
  predicate Covers(v: Vma, va: nat) {
    v.addr <= va < VmaEnd(v)
  }

  /** The file offset that backs virtual address `va` of the VMA. */
  function FileOffset(v: Vma, va: nat): int {
    va - v.addr + v.offset
  }

  predicate Shared(v: Vma) {
    v.flags & MAP_SHARED != 0
  }

  // ---------------------------------------------------------------- mmap

  /** The capability check of sys_mmap: read access needs a readable file,
      shared write access needs a writable one. */
  predicate MmapPermitted(f: OpenFile, prot: bv32, flags: bv32) {
    && !(!f.readable && prot & PROT_READ != 0)
    && !(!f.writable && prot & PROT_WRITE != 0 && flags & MAP_SHARED != 0)
  }

  /** The first unused VMA slot, or -1. */
  function FreeSlot(vmas: seq<Option<Vma>>): (i: int)
    ensures i == -1 <==> forall j :: 0 <= j < |vmas| ==> vmas[j].Some?
    ensures i != -1 ==> 0 <= i < |vmas| && vmas[i].None? && forall j :: 0 <= j < i ==> vmas[j].Some?
  {
    FirstWhere(vmas, (o: Option<Vma>) => o.None?)
  }

  /** What mmap leaves behind: the new process state and the return value. */
  datatype MmapOut = MmapOut(proc: Proc, ret: int)

  /**
   sys_mmap. The descriptor is assumed valid (the source ignores argfd's
   result) and `length` no larger than the watermark (the source does not
   check the subtraction). Returns the new mapping's base or -1
   (MAP_FAILED).
   */
  function Mmap(p: Proc, length: nat, prot: bv32, flags: bv32, fd: int, offset: nat): (r: MmapOut)
    requires ArgFd(p.ofile, fd).Some? && ArgFd(p.ofile, fd).value in p.files
    requires length <= p.mmapTop
    ensures var fid := ArgFd(p.ofile, fd).value;
            var f := p.files[fid];
            && (!MmapPermitted(f, prot, flags) ==> r == MmapOut(p, -1))
            && (MmapPermitted(f, prot, flags) && FreeSlot(p.vmas) == -1 ==> r == MmapOut(p, -1))
            && (MmapPermitted(f, prot, flags) && FreeSlot(p.vmas) != -1 ==>
                  && r.ret >= 0 && Aligned(r.ret)
                  && r.ret + length <= p.mmapTop < r.ret + length + PGSIZE
                  && r.proc.mmapTop == r.ret
                  && r.proc.vmas == p.vmas[FreeSlot(p.vmas) := Some(Vma(r.ret, length, prot, flags, fd, fid, offset))]
                  && r.proc.files == p.files[fid := f.(ref := f.ref + 1)]
                  && r.proc.ofile == p.ofile && r.proc.pt == p.pt)
  {
    var fid := ArgFd(p.ofile, fd).value;
    var f := p.files[fid];
    if !f.readable && prot & PROT_READ != 0 then
      MmapOut(p, -1)
    else if !f.writable && prot & PROT_WRITE != 0 && flags & MAP_SHARED != 0 then
      MmapOut(p, -1)
    else
      var i := FreeSlot(p.vmas);
      if i == -1 then
        MmapOut(p, -1)
      else
        var addr := PgRoundDown(p.mmapTop - length);
        var v := Vma(addr, length, prot, flags, fd, fid, offset);
        MmapOut(p.(vmas := p.vmas[i := Some(v)], mmapTop := addr, files := p.files[fid := f.(ref := f.ref + 1)]), addr)
  }

  // -------------------------------------------------------------- munmap

  /** One page written back by munmap: `writei` of the user page at `va`
      into `file` at offset `off`. */
  datatype PageWrite = PageWrite(file: FileId, off: int, va: nat)

  /** What munmap leaves behind: the new process state, the return value,
      the pages written back (in order) and the physical frames uvmunmap
      released (in order). */
  datatype MunmapOut = MunmapOut(proc: Proc, ret: int, written: seq<PageWrite>, released: seq<nat>)

  /** Every page boundary in [lo, hi) has an entry `walk` can find. */
  ghost predicate Walkable(pt: map<nat, bv64>, lo: nat, hi: nat) {
    forall q {:trigger q in pt} :: lo <= q < hi && Aligned(q) ==> q in pt
  }

  /** The resident (PTE_V) pages in [lo, hi), lowest first: the reference
      definition of what munmap writes back and unmaps. */
  function ValidPagesIn(pt: map<nat, bv64>, lo: nat, hi: nat): seq<nat>
    decreases hi - lo
  {
    if lo >= hi then []
    else if lo in pt && PteValid(pt[lo]) then [lo] + ValidPagesIn(pt, lo + PGSIZE, hi)
    else ValidPagesIn(pt, lo + PGSIZE, hi)
  }

  function Vas(ws: seq<PageWrite>): seq<nat> {
    seq(|ws|, k requires 0 <= k < |ws| => ws[k].va)
  }

  /** The physical frames behind pages `qs`. */
  function Frames(pt: map<nat, bv64>, qs: seq<nat>): seq<nat> {
    seq(|qs|, k requires 0 <= k < |qs| => if qs[k] in pt then Pte2Pa(pt[qs[k]]) else 0)
  }

  /**
   The write-back loop of sys_munmap from page `va` up to `hi`. `short`
   is the set of file offsets at which writei comes back short. The
   boolean is true when the loop ran to the end, false when a short
   write stopped it.
   */
  function WritebackFrom(pt: map<nat, bv64>, v: Vma, va: nat, hi: nat, short: set<int>): (r: Result<(bool, seq<PageWrite>)>)
    requires Aligned(va)
    ensures r.Panic? ==> !Walkable(pt, va, hi)
    ensures Walkable(pt, va, hi) ==> r.Ok?
    decreases hi - va
  {
    if va >= hi then
      Ok((true, []))
    else if va !in pt then
      Panic("munmap: walk")
    else if !PteValid(pt[va]) then
      WalkableStep(pt, va, hi);
      WritebackFrom(pt, v, va + PGSIZE, hi, short)
    else
      var off := FileOffset(v, va);
      if off in short then
        Ok((false, []))
      else
        WalkableStep(pt, va, hi);
        match WritebackFrom(pt, v, va + PGSIZE, hi, short)
        case Panic(why) => Panic(why)
        case Ok((done, ws)) =>
          Ok((done, [PageWrite(v.file, off, va)] + ws))
  }

  /**
   The write-back loop writes resident pages only, lowest first, each at
   the file offset that backs it and never at an offset where the write
   came back short. When it runs to the end it has written every resident
   page; when it stops early, the next resident page is the one whose
   write came back short.
   */
  lemma {:induction false} WritebackFromWrites(pt: map<nat, bv64>, v: Vma, va: nat, hi: nat, short: set<int>)
    requires Aligned(va)
    ensures var r := WritebackFrom(pt, v, va, hi, short);
            r.Ok? ==>
              && Vas(r.value.1) <= ValidPagesIn(pt, va, hi)
              && (forall k :: 0 <= k < |r.value.1| ==>
                    && r.value.1[k].file == v.file
                    && r.value.1[k].off == FileOffset(v, r.value.1[k].va)
                    && r.value.1[k].off !in short)
              && (r.value.0 ==> Vas(r.value.1) == ValidPagesIn(pt, va, hi) && Walkable(pt, va, hi))
              && (!r.value.0 ==>
                    |r.value.1| < |ValidPagesIn(pt, va, hi)|
                    && FileOffset(v, ValidPagesIn(pt, va, hi)[|r.value.1|]) in short)
    decreases hi - va
  {
    if va < hi && va in pt {
      WalkableStep(pt, va, hi);
      WritebackFromWrites(pt, v, va + PGSIZE, hi, short);
      if PteValid(pt[va]) && FileOffset(v, va) !in short {
        var r := WritebackFrom(pt, v, va, hi, short);
        if r.Ok? {
          var rest := WritebackFrom(pt, v, va + PGSIZE, hi, short).value.1;
          assert r.value.1 == [PageWrite(v.file, FileOffset(v, va), va)] + rest;
          assert Vas(r.value.1) == [va] + Vas(rest);
        }
      }
    }
  }

  /** With every page walkable and no short write, the loop runs to the end. */
  lemma {:induction false} WritebackFromCompletes(pt: map<nat, bv64>, v: Vma, va: nat, hi: nat, short: set<int>)
    requires Aligned(va)
    ensures (&& Walkable(pt, va, hi)
             && forall k :: 0 <= k < |ValidPagesIn(pt, va, hi)| ==> FileOffset(v, ValidPagesIn(pt, va, hi)[k]) !in short)
            ==> WritebackFrom(pt, v, va, hi, short).Ok? && WritebackFrom(pt, v, va, hi, short).value.0
    decreases hi - va
  {
    if va < hi && Walkable(pt, va, hi)
       && forall k :: 0 <= k < |ValidPagesIn(pt, va, hi)| ==> FileOffset(v, ValidPagesIn(pt, va, hi)[k]) !in short
    {
      WalkableStep(pt, va, hi);
      var rest := ValidPagesIn(pt, va + PGSIZE, hi);
      if PteValid(pt[va]) {
        assert ValidPagesIn(pt, va, hi) == [va] + rest;
        assert FileOffset(v, ValidPagesIn(pt, va, hi)[0]) !in short;
        forall k | 0 <= k < |rest| ensures FileOffset(v, rest[k]) !in short {
          assert rest[k] == ValidPagesIn(pt, va, hi)[k + 1];
        }
      } else {
        assert ValidPagesIn(pt, va, hi) == rest;
      }
      WritebackFromCompletes(pt, v, va + PGSIZE, hi, short);
      assert WritebackFrom(pt, v, va + PGSIZE, hi, short).Ok?;
    }
  }

  /** Walkable over [va, hi) splits into the first page and the rest. */
  lemma WalkableStep(pt: map<nat, bv64>, va: nat, hi: nat)
    requires Aligned(va) && va < hi
    ensures Walkable(pt, va, hi) <==> va in pt && Walkable(pt, va + PGSIZE, hi)
  {
    if va in pt && Walkable(pt, va + PGSIZE, hi) {
      forall q | va <= q < hi && Aligned(q) ensures q in pt {
        if q != va {
          assert va + PGSIZE <= q;
        }
      }
    }
  }

  /** Entries below `lo` do not matter to ValidPagesIn or Walkable over [lo, hi). */
  lemma {:induction false} ValidPagesInFrame(pt: map<nat, bv64>, q: nat, x: bv64, lo: nat, hi: nat)
    requires q < lo
    ensures ValidPagesIn(pt[q := x], lo, hi) == ValidPagesIn(pt, lo, hi)
    ensures Walkable(pt[q := x], lo, hi) <==> Walkable(pt, lo, hi)
    decreases hi - lo
  {
    if lo < hi {
      ValidPagesInFrame(pt, q, x, lo + PGSIZE, hi);
      assert lo in pt[q := x] <==> lo in pt;
      assert lo in pt ==> pt[q := x][lo] == pt[lo];
    }
    assert Walkable(pt[q := x], lo, hi) <==> Walkable(pt, lo, hi) by {
      forall q' | lo <= q' < hi && Aligned(q') ensures q' in pt[q := x] <==> q' in pt {
        assert q' != q;
      }
    }
  }

  lemma {:induction false} ValidPagesInRange(pt: map<nat, bv64>, lo: nat, hi: nat)
    requires Aligned(lo)
    ensures forall k :: 0 <= k < |ValidPagesIn(pt, lo, hi)| ==>
              var q := ValidPagesIn(pt, lo, hi)[k];
              lo <= q < hi && Aligned(q) && q in pt && PteValid(pt[q])
    ensures forall q :: lo <= q < hi && Aligned(q) && q in pt && PteValid(pt[q]) ==>
              q in ValidPagesIn(pt, lo, hi)
    decreases hi - lo
  {
    if lo < hi {
      ValidPagesInRange(pt, lo + PGSIZE, hi);
      var rest := ValidPagesIn(pt, lo + PGSIZE, hi);
      if lo in pt && PteValid(pt[lo]) {
        assert ValidPagesIn(pt, lo, hi) == [lo] + rest;
        forall k | 1 <= k < |ValidPagesIn(pt, lo, hi)|
          ensures ValidPagesIn(pt, lo, hi)[k] == rest[k - 1]
        {
        }
      } else {
        assert ValidPagesIn(pt, lo, hi) == rest;
      }
      forall q | lo <= q < hi && Aligned(q) && q in pt && PteValid(pt[q])
        ensures q in ValidPagesIn(pt, lo, hi)
      {
        if q != lo {
          assert lo + PGSIZE <= q;
        }
      }
    }
  }

  /** A page-table entry after unmapping [lo, hi): cleared if it was a
      resident page of the range, untouched otherwise. */
  function Unmapped(pt: map<nat, bv64>, lo: nat, hi: nat, q: nat): bv64
    requires q in pt
  {
    if lo <= q < hi && Aligned(q) && PteValid(pt[q]) then 0 else pt[q]
  }

  /**
   The unmapping loop of sys_munmap from `va` up to `hi`: every resident
   page is passed to uvmunmap, which zeroes its entry and frees its frame.
   */
  function UnmapFrom(pt: map<nat, bv64>, va: nat, hi: nat): (r: Result<(map<nat, bv64>, seq<nat>)>)
    requires Aligned(va)
    ensures r.Panic? <==> !Walkable(pt, va, hi)
    ensures r.Ok? ==> r.value.0.Keys == pt.Keys
    decreases hi - va
  {
    WalkableStepIf(pt, va, hi);
    if va >= hi then
      Ok((pt, []))
    else if va !in pt then
      Panic("munmap: walk")
    else if !PteValid(pt[va]) then
      UnmapFrom(pt, va + PGSIZE, hi)
    else
      ValidPagesInFrame(pt, va, 0, va + PGSIZE, hi);
      match UnmapFrom(pt[va := 0], va + PGSIZE, hi)
      case Panic(why) => Panic(why)
      case Ok((pt', rel)) => Ok((pt', [Pte2Pa(pt[va])] + rel))
  }

  lemma WalkableStepIf(pt: map<nat, bv64>, va: nat, hi: nat)
    requires Aligned(va)
    ensures va < hi ==> (Walkable(pt, va, hi) <==> va in pt && Walkable(pt, va + PGSIZE, hi))
  {
    if va < hi {
      WalkableStep(pt, va, hi);
    }
  }

  /** Distinct page boundaries are at least a page apart. */
  lemma AlignedGap(a: nat, q: nat)
    requires Aligned(a) && Aligned(q) && a < q
    ensures a + PGSIZE <= q
  {
  }

  /** Unmapped over [va, hi) is the first page's update followed by
      Unmapped over the rest. */
  lemma UnmappedStep(pt: map<nat, bv64>, va: nat, hi: nat, q: nat)
    requires Aligned(va) && va < hi && va in pt && q in pt && q != va
    ensures var next := if PteValid(pt[va]) then pt[va := 0] else pt;
            q in next && Unmapped(next, va + PGSIZE, hi, q) == Unmapped(pt, va, hi, q)
  {
    if va < q && Aligned(q) {
      AlignedGap(va, q);
    }
  }

  /** UnmapFrom clears exactly the resident pages of [va, hi). */
  lemma {:induction false} UnmapFromEntries(pt: map<nat, bv64>, va: nat, hi: nat)
    requires Aligned(va)
    ensures UnmapFrom(pt, va, hi).Ok? ==>
              forall q :: q in pt ==> UnmapFrom(pt, va, hi).value.0[q] == Unmapped(pt, va, hi, q)
    decreases hi - va
  {
    if va < hi && va in pt {
      var next := if PteValid(pt[va]) then pt[va := 0] else pt;
      UnmapFromEntries(next, va + PGSIZE, hi);
      if UnmapFrom(pt, va, hi).Ok? {
        assert UnmapFrom(next, va + PGSIZE, hi).Ok?;
        assert UnmapFrom(pt, va, hi).value.0 == UnmapFrom(next, va + PGSIZE, hi).value.0;
        forall q | q in pt ensures UnmapFrom(pt, va, hi).value.0[q] == Unmapped(pt, va, hi, q) {
          if q != va {
            UnmappedStep(pt, va, hi, q);
          }
        }
      }
    }
  }

  /** UnmapFrom releases the frames of the resident pages of [va, hi),
      lowest page first. */
  lemma {:induction false} UnmapFromFrames(pt: map<nat, bv64>, va: nat, hi: nat)
    requires Aligned(va)
    ensures UnmapFrom(pt, va, hi).Ok? ==>
              UnmapFrom(pt, va, hi).value.1 == Frames(pt, ValidPagesIn(pt, va, hi))
    decreases hi - va
  {
    if va < hi && va in pt {
      if PteValid(pt[va]) {
        var next := pt[va := 0];
        UnmapFromFrames(next, va + PGSIZE, hi);
        ValidPagesInFrame(pt, va, 0, va + PGSIZE, hi);
        ValidPagesInRange(pt, va + PGSIZE, hi);
        var rest := ValidPagesIn(pt, va + PGSIZE, hi);
        assert ValidPagesIn(pt, va, hi) == [va] + rest;
        FramesCons(pt, va, rest);
        FramesOther(pt, va, rest);
      } else {
        UnmapFromFrames(pt, va + PGSIZE, hi);
      }
    }
  }

  lemma FramesCons(pt: map<nat, bv64>, q: nat, rest: seq<nat>)
    requires q in pt
    ensures Frames(pt, [q] + rest) == [Pte2Pa(pt[q])] + Frames(pt, rest)
  {
    assert forall k :: 1 <= k < |rest| + 1 ==> ([q] + rest)[k] == rest[k - 1];
  }

  /** Clearing the entry of a page not in `qs` leaves their frames alone. */
  lemma FramesOther(pt: map<nat, bv64>, q: nat, qs: seq<nat>)
    requires forall k :: 0 <= k < |qs| ==> qs[k] != q
    ensures Frames(pt[q := 0], qs) == Frames(pt, qs)
  {
  }

  /**
   The trimming step of sys_munmap: the whole VMA goes, a prefix moves the
   base (and file offset) up, a suffix shortens the length; any other
   shape panics.
   */
  function Trim(v: Vma, begin: nat, end: nat): (r: Result<Option<Vma>>)
    requires v.addr <= begin <= end <= VmaEnd(v)
    requires Aligned(begin) && Aligned(end)
    ensures r.Panic? <==> v.addr < begin && end < VmaEnd(v)
    ensures r.Ok? ==> forall va: nat :: (r.value.Some? && Covers(r.value.value, va)) <==>
                                   (Covers(v, va) && !(begin <= va < end))
    ensures r.Ok? && r.value.Some? ==>
              && (forall va: nat :: Covers(r.value.value, va) ==> FileOffset(r.value.value, va) == FileOffset(v, va))
              && r.value.value.prot == v.prot && r.value.value.flags == v.flags
              && r.value.value.file == v.file && r.value.value.fd == v.fd
              && v.addr <= r.value.value.addr && VmaEnd(r.value.value) <= VmaEnd(v)
              && (r.value.value.addr == v.addr || r.value.value.addr == end)
              && r.value.value.addr + r.value.value.length == (if end == VmaEnd(v) then begin else v.addr + v.length)
  {
    if begin == v.addr && end == VmaEnd(v) then
      Ok(None)
    else if begin == v.addr && end < VmaEnd(v) then
      BelowRoundUp(end, v.addr + v.length);
      Ok(Some(v.(addr := end, length := v.length - (end - begin), offset := v.offset + (end - begin))))
    else if begin > v.addr && end == VmaEnd(v) then
      Ok(Some(v.(length := begin - v.addr)))
    else
      Panic("munmap: range not supported")
  }

  /** A page boundary below PGROUNDUP(x) is below x. */
  lemma BelowRoundUp(a: nat, x: nat)
    requires Aligned(a) && a < PgRoundUp(x)
    ensures a < x
  {
  }

  /** The VMA munmap picks: the first used slot whose page range holds
      [begin, end), or -1. */
  function SelectVma(vmas: seq<Option<Vma>>, begin: nat, end: nat): (i: int)
    ensures i == -1 <==> forall j :: 0 <= j < |vmas| ==>
              !(vmas[j].Some? && begin >= vmas[j].value.addr && end <= VmaEnd(vmas[j].value))
    ensures i != -1 ==> 0 <= i < |vmas| && vmas[i].Some? && begin >= vmas[i].value.addr && end <= VmaEnd(vmas[i].value)
    ensures i != -1 ==> forall j :: 0 <= j < i ==>
              !(vmas[j].Some? && begin >= vmas[j].value.addr && end <= VmaEnd(vmas[j].value))
  {
    FirstWhere(vmas, (o: Option<Vma>) => Holds(o, begin, end))
  }

  /** Whether the used slot `o` holds [begin, end) in its page range. */
  predicate Holds(o: Option<Vma>, begin: nat, end: nat) {
    o.Some? && begin >= o.value.addr && end <= VmaEnd(o.value)
  }

  /** The uint64 arithmetic of sys_munmap does not wrap: PGROUNDUP(addr +
      length) fits. When the write-back loop runs (a shared VMA of a
      writable file), its 32-bit counter can also reach end - begin. */
  predicate MunmapArgsFit(p: Proc, addr: nat, length: nat) {
    && addr + length <= U64 - PGSIZE
    && var b := PgRoundDown(addr);
       var e := PgRoundUp(addr + length);
       var i := SelectVma(p.vmas, b, e);
       (&& i != -1 && Shared(p.vmas[i].value)
        && p.vmas[i].value.file in p.files && p.files[p.vmas[i].value.file].writable
        ==> e - b < U32)
  }

  /**
   sys_munmap. `short` is the set of file offsets at which writei comes
   back short. The contract states when munmap refuses, fails or panics;
   MunmapSucceeds states when it succeeds, and MunmapWrites and the
   MunmapEffect lemmas what it writes back and what it leaves behind.
   */
  function Munmap(p: Proc, addr: nat, length: nat, short: set<int>): (r: Result<MunmapOut>)
    requires ProcWf(p)
    requires MunmapArgsFit(p, addr, length)
    ensures var b := PgRoundDown(addr);
            var e := PgRoundUp(addr + length);
            var i := SelectVma(p.vmas, b, e);
            && (i == -1 ==> r == Ok(MunmapOut(p, -1, [], [])))
            && (i != -1 && Shared(p.vmas[i].value) && !p.files[p.vmas[i].value.file].writable ==>
                  r == Ok(MunmapOut(p, -1, [], [])))
            && (r.Ok? && r.value.ret != 0 ==>
                  r.value.ret == -1 && r.value.proc == p && r.value.released == [])
            && (r.Panic? ==> i != -1 && (!Walkable(p.pt, b, e) || (p.vmas[i].value.addr < b && e < VmaEnd(p.vmas[i].value))))
  {
    var b := PgRoundDown(addr);
    var e := PgRoundUp(addr + length);
    var i := SelectVma(p.vmas, b, e);
    if i == -1 then
      Ok(MunmapOut(p, -1, [], []))
    else
      var v := p.vmas[i].value;
      var f := p.files[v.file];
      if Shared(v) && !f.writable then
        Ok(MunmapOut(p, -1, [], []))
      else
        var wb := if Shared(v) then WritebackFrom(p.pt, v, b, e, short) else Ok((true, []));
        match wb
        case Panic(why) => Panic(why)
        case Ok((done, written)) =>
          if !done then
            Ok(MunmapOut(p, -1, written, []))
          else
            match UnmapFrom(p.pt, b, e)
            case Panic(why) => Panic(why)
            case Ok((pt', released)) =>
              match Trim(v, b, e)
              case Panic(why) => Panic(why)
              case Ok(nv) =>
                var files' := if nv.None? then p.files[v.file := f.(ref := f.ref - 1)] else p.files;
                Ok(MunmapOut(p.(pt := pt', vmas := p.vmas[i := nv], files := files'), 0, written, released))
  }

  /** munmap(addr, length) works on the page range [b, e) and picks slot `i`. */
  predicate Selects(p: Proc, addr: nat, length: nat, b: nat, e: nat, i: int) {
    b == PgRoundDown(addr) && e == PgRoundUp(addr + length) && i == SelectVma(p.vmas, b, e)
  }

  /**
   munmap succeeds when it found a VMA it may write back, every page of the
   range can be walked, the range is not an interior hole, and no
   write-back comes up short.
   */
  lemma MunmapSucceeds(p: Proc, addr: nat, length: nat, short: set<int>, b: nat, e: nat, i: int)
    requires ProcWf(p)
    requires MunmapArgsFit(p, addr, length)
    requires Selects(p, addr, length, b, e, i)
    ensures i != -1 ==>
              var v := p.vmas[i].value;
              (&& (!Shared(v) || p.files[v.file].writable)
               && Walkable(p.pt, b, e)
               && !(v.addr < b && e < VmaEnd(v))
               && (Shared(v) ==> forall k :: 0 <= k < |ValidPagesIn(p.pt, b, e)| ==>
                                   FileOffset(v, ValidPagesIn(p.pt, b, e)[k]) !in short))
              ==> Munmap(p, addr, length, short).Ok? && Munmap(p, addr, length, short).value.ret == 0
  {
    if i != -1 {
      WritebackFromCompletes(p.pt, p.vmas[i].value, b, e, short);
    }
  }

  /**
   What munmap writes back: only for a shared VMA, only resident pages of
   [begin, end), lowest first, each at the file offset that backs it. A
   failed munmap of a shared VMA of a writable file stopped at a short
   write, after writing every resident page below it.
   */
  lemma MunmapWrites(p: Proc, addr: nat, length: nat, short: set<int>, b: nat, e: nat, i: int)
    requires ProcWf(p)
    requires MunmapArgsFit(p, addr, length)
    requires Selects(p, addr, length, b, e, i)
    ensures var r := Munmap(p, addr, length, short);
            && (r.Ok? && r.value.written != [] ==>
                  && i != -1 && Shared(p.vmas[i].value)
                  && Vas(r.value.written) <= ValidPagesIn(p.pt, b, e)
                  && forall k :: 0 <= k < |r.value.written| ==>
                       && r.value.written[k].file == p.vmas[i].value.file
                       && r.value.written[k].off == FileOffset(p.vmas[i].value, r.value.written[k].va)
                       && r.value.written[k].off !in short)
            && (r.Ok? && r.value.ret != 0 && i != -1 && Shared(p.vmas[i].value) && p.files[p.vmas[i].value.file].writable ==>
                  && |r.value.written| < |ValidPagesIn(p.pt, b, e)|
                  && FileOffset(p.vmas[i].value, ValidPagesIn(p.pt, b, e)[|r.value.written|]) in short)
            && (r.Ok? && r.value.ret == 0 && i != -1 ==>
                  && (Shared(p.vmas[i].value) ==> Vas(r.value.written) == ValidPagesIn(p.pt, b, e))
                  && (!Shared(p.vmas[i].value) ==> r.value.written == []))
  {
    if i != -1 {
      WritebackFromWrites(p.pt, p.vmas[i].value, b, e, short);
    }
  }

  /**
   A successful munmap clears exactly the resident pages of [begin, end),
   leaves every other entry alone, and releases the frames of the pages
   it cleared, lowest first.
   */
  lemma MunmapEffectTable(p: Proc, addr: nat, length: nat, short: set<int>, b: nat, e: nat)
    requires ProcWf(p)
    requires MunmapArgsFit(p, addr, length)
    requires b == PgRoundDown(addr) && e == PgRoundUp(addr + length)
    ensures var r := Munmap(p, addr, length, short);
            r.Ok? && r.value.ret == 0 ==>
              && Walkable(p.pt, b, e)
              && r.value.proc.pt.Keys == p.pt.Keys
              && (forall q :: q in p.pt ==> r.value.proc.pt[q] == Unmapped(p.pt, b, e, q))
              && r.value.released == Frames(p.pt, ValidPagesIn(p.pt, b, e))
  {
    UnmapFromEntries(p.pt, b, e);
    UnmapFromFrames(p.pt, b, e);
  }

  /**
   A successful munmap trims the selected VMA (freeing its slot when the
   whole VMA went, dropping the file reference with it), and touches no
   other slot, the watermark or the descriptor table.
   */
  lemma MunmapEffectSlots(p: Proc, addr: nat, length: nat, short: set<int>, b: nat, e: nat, i: int)
    requires ProcWf(p)
    requires MunmapArgsFit(p, addr, length)
    requires Selects(p, addr, length, b, e, i)
    ensures var r := Munmap(p, addr, length, short);
            r.Ok? && r.value.ret == 0 ==>
              var v := p.vmas[i].value;
              var p' := r.value.proc;
              && i != -1
              && Trim(v, b, e).Ok? && p'.vmas == p.vmas[i := Trim(v, b, e).value]
              && p'.mmapTop == p.mmapTop && p'.ofile == p.ofile
              && (Trim(v, b, e).value.None? ==>
                    p'.files == p.files[v.file := p.files[v.file].(ref := p.files[v.file].ref - 1)])
              && (Trim(v, b, e).value.Some? ==> p'.files == p.files)
  {
  }
}
