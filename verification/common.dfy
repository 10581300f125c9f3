/**
 Definitions shared by the allocator, the mmap system calls and the
 accessed-bit scan: failure-carrying results, page geometry, unsigned
 64-bit conversion, page-table-entry flag bits and a first-match search
 over fixed-size slot tables.
 */
module Common {

  /** An empty slot (a null pointer in a table) or an occupied one. */
  datatype Option<+T> = None | Some(value: T)

  /** The outcome of a kernel operation that may end in `panic`. */
  datatype Result<+T> = Ok(value: T) | Panic(why: string)

  const PGSIZE: nat := 4096

  /** 2^64: unsigned 64-bit values are the naturals below this. */
  const U64: nat := 0x1_0000_0000_0000_0000

  /** 2^32: the range of a C `uint`. */
  const U32: nat := 0x1_0000_0000

  predicate Aligned(a: int) {
    a % PGSIZE == 0
  }

  /** PGROUNDDOWN: the page that contains `a`. */
  function PgRoundDown(a: nat): (r: nat)
    ensures Aligned(r)
    ensures r <= a < r + PGSIZE
  {
    a - a % PGSIZE
  }

  /** PGROUNDUP: the lowest page boundary at or above `a`. */
  function PgRoundUp(a: nat): (r: nat)
    ensures Aligned(r)
    ensures a <= r < a + PGSIZE
  {
    if Aligned(a) then a else a - a % PGSIZE + PGSIZE
  }

  /** The value a C integer `v` takes when converted to `uint64`. */
  function AsU64(v: int): (r: nat)
    ensures r < U64
    ensures -(U64 as int) < v < U64 ==> (r == 0 <==> v == 0)
    ensures 0 <= v < U64 ==> r == v
  {
    v % U64
  }

  /** The value of `x` stored into a C `int`: two's-complement wrap-around. */
  function Wrap32(x: int): (r: int)
    ensures -0x8000_0000 <= r < 0x8000_0000
    ensures (r - x) % U32 == 0
    ensures -0x8000_0000 <= x < 0x8000_0000 ==> r == x
  {
    var m := x % U32;
    if m >= 0x8000_0000 then m - U32 else m
  }

  // Sv39 page-table-entry flag bits.
  const PTE_V: bv64 := 1
  const PTE_A: bv64 := 1 << 6

  predicate PteValid(pte: bv64) {
    pte & PTE_V != 0
  }

  predicate PteAccessed(pte: bv64) {
    pte & PTE_A != 0
  }

  /** PTE2PA: the physical page a leaf entry points at; the shift left by 12
      is a 64-bit one, so the top bits of the page number fall off. */
  function Pte2Pa(pte: bv64): (pa: nat)
    ensures Aligned(pa) && pa < U64
  {
    ((pte >> 10) as nat * PGSIZE) % U64
  }

  /** Index of the first element of `s` that satisfies `p`, or -1 if none does. */
  function FirstWhere<T>(s: seq<T>, p: T -> bool): (r: int)
    ensures r == -1 <==> forall j :: 0 <= j < |s| ==> !p(s[j])
    ensures r != -1 ==> 0 <= r < |s| && p(s[r])
    ensures r != -1 ==> forall j :: 0 <= j < r ==> !p(s[j])
  {
    FirstWhereFrom(s, p, 0)
  }

  function FirstWhereFrom<T>(s: seq<T>, p: T -> bool, i: nat): (r: int)
    requires i <= |s|
    ensures r == -1 <==> forall j :: i <= j < |s| ==> !p(s[j])
    ensures r != -1 ==> i <= r < |s| && p(s[r])
    ensures r != -1 ==> forall j :: i <= j < r ==> !p(s[j])
    decreases |s| - i
  {
    if i == |s| then -1
    else if p(s[i]) then i
    else FirstWhereFrom(s, p, i + 1)
  }
}
