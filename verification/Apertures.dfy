/** Aperture arithmetic of src/device/Vma.cpp and src/device/MemMgr.cpp: an aligned area with guard space cut out of a
    larger mapping, and the search for a reservation that is split into two apertures. */
module Apertures {
  import opened Wrappers
  import opened Arithmetic

  const PAGE_SIZE := 4096
  const GPU_HUGE_PAGE_SIZE := 0x20_0000
  const SVM_MIN_VM_SIZE := 0x1_0000_0000
  const SVM_RESERVATION_LIMIT := 0xFF_FFFF_FFFF
  const TWO_TO_THE_64 := 0x1_0000_0000_0000_0000
  const COHERENT_ALIGN := 0x1_0000

  /** The bytes of a mapping. */
  function Bytes(base: int, length: int): set<int> {
    set x | base <= x < base + length && Within(x, base, length)
  }

  predicate Within(x: int, base: int, length: int) {
    base <= x < base + length
  }

  /** A mapping covers whole pages. */
  function Pages(length: nat): (r: nat)
    ensures length % PAGE_SIZE == 0 ==> r == length
  {
    AlignBounds(length, PAGE_SIZE);
    AlignUp(length, PAGE_SIZE)
  }

  /** munmap refuses an address inside a page. */
  predicate CanUnmap(addr: int, length: int) {
    addr % PAGE_SIZE == 0 && length > 0
  }

  /** What comes of a request for a new mapping: the system refuses it, or gives whole pages that were not mapped. */
  function Granted(mapped: set<int>, length: nat, answer: Option<nat>): Option<nat> {
    if answer.Some? && length > 0 && answer.value > 0 && answer.value % PAGE_SIZE == 0 &&
       Bytes(answer.value, Pages(length)) !! mapped
    then answer else None
  }

  // ------------------------------------------------------------------------------------------
  // Powers of two
  // ------------------------------------------------------------------------------------------

  function Pow2(k: nat): (r: nat)
    ensures r > 0
  {
    if k == 0 then 1 else 2 * Pow2(k - 1)
  }

  lemma {:induction false} Pow2Multiple(j: nat, k: nat)
    requires j <= k
    ensures Pow2(j) <= Pow2(k) && Pow2(k) % Pow2(j) == 0
    decreases k - j
  {
    if j == k {
      MultipleTimes(Pow2(j), Pow2(j), 1);
    } else {
      Pow2Multiple(j, k - 1);
      MultipleTimes(Pow2(k - 1), Pow2(j), 2);
    }
  }

  /** A power of two above half of another is not below it. */
  lemma Pow2Above(j: nat, k: nat)
    requires 2 * Pow2(j) > Pow2(k)
    ensures j >= k
  {
    if j < k {
      Pow2Multiple(j + 1, k);
    }
  }

  lemma PageIsPow2()
    ensures Pow2(12) == PAGE_SIZE
  {
    assert Pow2(3) == 8;
    assert Pow2(6) == 64;
    assert Pow2(9) == 512;
  }

  /** The step from a page-aligned address to the next multiple of a page multiple leaves room for at least a page. */
  lemma AlignStep(x: nat, align: nat)
    requires x % PAGE_SIZE == 0 && align >= PAGE_SIZE && align % PAGE_SIZE == 0
    ensures AlignUp(x, align) + PAGE_SIZE <= x + align && AlignUp(x, align) % PAGE_SIZE == 0
  {
    AlignBounds(x, align);
    AlignedIsPages(x, align);
    var d := AlignUp(x, align) - x;
    MultipleMinus(AlignUp(x, align), x, PAGE_SIZE);
    MultipleBelow(d, align, PAGE_SIZE);
  }

  lemma AlignedIsPages(x: nat, align: nat)
    requires align >= PAGE_SIZE && align % PAGE_SIZE == 0
    ensures AlignUp(x, align) % PAGE_SIZE == 0
  {
    MultipleTimes(align, PAGE_SIZE, (x + align - 1) / align);
  }

  // ------------------------------------------------------------------------------------------
  // An aligned area
  // ------------------------------------------------------------------------------------------

  class MmapVma {
    const base: nat
    const limit: nat
    const guardPages: nat
    const isCpuAccessible: bool
    /** Bytes of the process's address space that are mapped. */
    var mapped: set<int>

    constructor (base: nat, limit: nat, guardPages: nat, isCpuAccessible: bool, mapped: set<int>)
      ensures this.base == base && this.limit == limit && this.guardPages == guardPages
      ensures this.isCpuAccessible == isCpuAccessible && this.mapped == mapped
    {
      this.base, this.limit, this.guardPages, this.isCpuAccessible, this.mapped := base, limit, guardPages,
          isCpuAccessible, mapped;
    }

    /** A new mapping at a page the system chooses, or none. */
    method Mmap(length: nat, answer: Option<nat>) returns (r: Option<nat>)
      modifies this`mapped
      ensures r == Granted(old(mapped), length, answer)
      ensures mapped == if r.None? then old(mapped) else old(mapped) + Bytes(r.value, Pages(length))
    {
      r := Granted(mapped, length, answer);
      if r.Some? {
        mapped := mapped + Bytes(r.value, Pages(length));
      }
    }

    /** Unmap the pages from addr on; nothing happens when addr is inside a page. */
    method Munmap(addr: int, length: nat)
      modifies this`mapped
      ensures mapped == if CanUnmap(addr, length) then old(mapped) - Bytes(addr, Pages(length)) else old(mapped)
    {
      if CanUnmap(addr, length) {
        mapped := mapped - Bytes(addr, Pages(length));
      }
    }

    /** Alignment of big buffers grows in powers of two up to the huge page size. */
    method GrowAlign(size: nat, align: nat, k: nat) returns (a: nat, ghost j: nat)
      requires align == Pow2(k)
      ensures a == Pow2(j) && j >= k
      ensures a == align || (a <= GPU_HUGE_PAGE_SIZE && a <= size)
      ensures a >= GPU_HUGE_PAGE_SIZE || size < 2 * a
    {
      a, j := align, k;
      assert Pow2(21) == GPU_HUGE_PAGE_SIZE by { HugeIsPow2(); }
      while a < GPU_HUGE_PAGE_SIZE && size >= 2 * a
        invariant a == Pow2(j) && j >= k
        invariant a == align || (a <= GPU_HUGE_PAGE_SIZE && a <= size)
        decreases GPU_HUGE_PAGE_SIZE - a
      {
        if j > 20 { Pow2Multiple(21, j); }
        Pow2Multiple(j + 1, 21);
        a, j := 2 * a, j + 1;
      }
    }

    /** An area of the aperture that starts at a multiple of the grown alignment.  Nothing else of the mapping it was
        cut from stays mapped, and nothing was mapped in its guard space on either side.  There is none exactly when the
        system refuses the mapping or gives one whose first aligned area is out of range; `answer` is what it gives. */
    method AllocateAreaAligned(address: nat, size: nat, align: nat, k: nat, answer: Option<nat>)
      returns (r: Option<nat>, ghost a: nat)
      requires align == Pow2(k) && size > 0 && size % PAGE_SIZE == 0
      modifies this`mapped
      ensures a > 0 && (r.None? ==> mapped == old(mapped))
      ensures address != 0 || !isCpuAccessible ==> r.None?
      ensures address == 0 && isCpuAccessible ==>
              && a % align == 0 && (a == align || (a <= GPU_HUGE_PAGE_SIZE && a <= size))
              && (a >= GPU_HUGE_PAGE_SIZE || size < 2 * a)
              && (r.None? <==>
                  || Granted(old(mapped), PaddedSize(size, a), answer).None?
                  || OutOfRange(answer.value, size, a))
      ensures r.Some? ==>
              && r.value % a == 0 && FirstAligned(r.value, answer.value, a)
              && base <= r.value && r.value + size - 1 <= limit
              && mapped == old(mapped) + Bytes(r.value, size)
              && Bytes(r.value - guardPages * PAGE_SIZE, size + 2 * guardPages * PAGE_SIZE) !! old(mapped)
    {
      a := align;
      if address != 0 || !isCpuAccessible {
        Pow2Multiple(k, k);
        return None, a;
      }
      var grown, j := GrowAlign(size, align, k);
      a := grown;
      Pow2Multiple(k, j);
      GrownIsPages(size, align, k, a, j);
      r := AllocateGrown(size, grown, answer);
      return r, a;
    }

    /** Room for an aligned area with guard pages around it. */
    function PaddedSize(size: nat, a: nat): int {
      size + a + 2 * (guardPages * PAGE_SIZE) - PAGE_SIZE
    }

    /** The area starts at the first multiple of a behind the guard pages of the mapping. */
    ghost predicate FirstAligned(area: int, start: int, a: nat)
      requires a > 0
    {
      && area % a == 0 && start + guardPages * PAGE_SIZE <= area
      && forall x {:trigger x % a} | x % a == 0 && start + guardPages * PAGE_SIZE <= x :: area <= x
    }

    ghost predicate OutOfRange(start: nat, size: nat, a: nat)
      requires a > 0
    {
      exists area :: FirstAligned(area, start, a) && (area < base || area + size - 1 > limit)
    }

    /** Map enough for an aligned area with guard pages around it. */
    method AllocateGrown(size: nat, grown: nat, answer: Option<nat>) returns (r: Option<nat>)
      requires size > 0 && size % PAGE_SIZE == 0 && grown >= PAGE_SIZE && grown % PAGE_SIZE == 0
      modifies this`mapped
      ensures r.None? ==> mapped == old(mapped)
      ensures r.None? <==> Granted(old(mapped), PaddedSize(size, grown), answer).None?
                           || OutOfRange(answer.value, size, grown)
      ensures r.Some? ==>
              && r.value % grown == 0 && FirstAligned(r.value, answer.value, grown)
              && base <= r.value && r.value + size - 1 <= limit
              && mapped == old(mapped) + Bytes(r.value, size)
              && Bytes(r.value - guardPages * PAGE_SIZE, size + 2 * guardPages * PAGE_SIZE) !! old(mapped)
    {
      var guardSize := guardPages * PAGE_SIZE;
      PaddedIsPages(guardPages, guardSize, size, grown);
      var padded := size + grown + 2 * guardSize - PAGE_SIZE;
      var addr := Mmap(padded, answer);
      if addr.None? {
        return None;
      }
      r := KeepAligned(addr.value, padded, guardSize, size, grown, old(mapped));
    }

    /** The aligned area inside a fresh mapping is kept if it is inside the limits; otherwise everything is unmapped. */
    method KeepAligned(start: nat, padded: nat, guardSize: nat, size: nat, grown: nat, ghost before: set<int>)
      returns (r: Option<nat>)
      requires start % PAGE_SIZE == 0 && guardSize % PAGE_SIZE == 0 && size % PAGE_SIZE == 0 && start > 0
      requires grown >= PAGE_SIZE && grown % PAGE_SIZE == 0 && padded == size + grown + 2 * guardSize - PAGE_SIZE
      requires guardSize == guardPages * PAGE_SIZE
      requires Bytes(start, padded) !! before && mapped == before + Bytes(start, padded)
      modifies this`mapped
      ensures r.None? ==> mapped == before
      ensures r.None? <==> OutOfRange(start, size, grown)
      ensures r.Some? ==>
              && r.value % grown == 0 && FirstAligned(r.value, start, grown)
              && base <= r.value && r.value + size - 1 <= limit
              && mapped == before + Bytes(r.value, size)
              && Bytes(r.value - guardSize, size + 2 * guardSize) !! before
    {
      AreaInside(start, guardSize, size, grown);
      var alignedAddr := AlignUp(start + guardSize, grown);
      FirstAlignedIs(start, grown, alignedAddr, size);
      if alignedAddr < base || alignedAddr + size - 1 > limit {
        Munmap(start, padded);
        assert mapped == before;
        return None;
      }
      UnmapPadding(start, padded, alignedAddr, size, before);
      assert Bytes(alignedAddr - guardSize, size + 2 * guardSize) <= Bytes(start, padded);
      return Some(alignedAddr);
    }

    lemma FirstAlignedIs(start: nat, a: nat, area: nat, size: nat)
      requires a > 0 && area == AlignUp(start + guardPages * PAGE_SIZE, a)
      ensures FirstAligned(area, start, a)
      ensures OutOfRange(start, size, a) <==> area < base || area + size - 1 > limit
    {
      AlignUpLeast(start + guardPages * PAGE_SIZE, a);
      if OutOfRange(start, size, a) {
        var other :| FirstAligned(other, start, a) && (other < base || other + size - 1 > limit);
        assert area % a == 0 && other <= area;
        assert other % a == 0 && area <= other;
      } else {
        assert FirstAligned(area, start, a);
      }
    }

    /** Only the area in the middle of the mapping stays. */
    method UnmapPadding(start: nat, padded: nat, alignedAddr: nat, size: nat, ghost before: set<int>)
      requires start <= alignedAddr && alignedAddr + size <= start + padded
      requires start % PAGE_SIZE == 0 && padded % PAGE_SIZE == 0 && alignedAddr % PAGE_SIZE == 0 &&
               size % PAGE_SIZE == 0
      requires Bytes(start, padded) !! before && mapped == before + Bytes(start, padded)
      modifies this`mapped
      ensures mapped == before + Bytes(alignedAddr, size)
    {
      MultipleMinus(alignedAddr, start, PAGE_SIZE);
      PagesBetween(start + padded, alignedAddr + size, start, padded, alignedAddr, size);
      MiddleStays(start, alignedAddr, alignedAddr + size, start + padded, before);
      if alignedAddr > start {
        Munmap(start, alignedAddr - start);
      }
      var alignedEnd := alignedAddr + size;
      var mappingEnd := start + padded;
      if mappingEnd > alignedEnd {
        Munmap(alignedEnd, mappingEnd - alignedEnd);
      }
    }
  }

  lemma PagesBetween(top: nat, end: nat, start: nat, padded: nat, alignedAddr: nat, size: nat)
    requires top == start + padded && end == alignedAddr + size && end <= top
    requires start % PAGE_SIZE == 0 && padded % PAGE_SIZE == 0 && alignedAddr % PAGE_SIZE == 0 && size % PAGE_SIZE == 0
    ensures end % PAGE_SIZE == 0 && (top - end) % PAGE_SIZE == 0
  {
    MultiplePlus(start, padded, PAGE_SIZE);
    MultiplePlus(alignedAddr, size, PAGE_SIZE);
    MultipleMinus(top, end, PAGE_SIZE);
  }

  /** Taking both ends off a stretch leaves its middle. */
  lemma MiddleStays(start: int, lo: int, hi: int, end: int, before: set<int>)
    requires start <= lo <= hi <= end && Bytes(start, end - start) !! before
    ensures before + Bytes(start, end - start) - Bytes(start, lo - start) - Bytes(hi, end - hi)
            == before + Bytes(lo, hi - lo)
    ensures Bytes(start, 0) == {} && Bytes(hi, 0) == {}
  {
    var all := before + Bytes(start, end - start);
    forall x
      ensures x in all && x !in Bytes(start, lo - start) && x !in Bytes(hi, end - hi) <==>
              x in before || x in Bytes(lo, hi - lo)
    {
      assert x in Bytes(start, end - start) <==> Within(x, start, end - start);
      assert x in Bytes(start, lo - start) <==> Within(x, start, lo - start);
      assert x in Bytes(hi, end - hi) <==> Within(x, hi, end - hi);
      assert x in Bytes(lo, hi - lo) <==> Within(x, lo, hi - lo);
    }
  }

  /** The aligned area and its guard space lie inside the padded mapping, and all are whole pages. */
  lemma PaddedIsPages(guardPages: nat, guardSize: nat, size: nat, grown: nat)
    requires guardSize == guardPages * PAGE_SIZE && size % PAGE_SIZE == 0 && grown >= PAGE_SIZE &&
             grown % PAGE_SIZE == 0
    ensures guardSize % PAGE_SIZE == 0 && (size + grown + 2 * guardSize - PAGE_SIZE) % PAGE_SIZE == 0
  {
    MultipleTimes(PAGE_SIZE, PAGE_SIZE, guardPages);
    AreaInside(0, guardSize, size, grown);
  }

  lemma AreaInside(start: nat, guardSize: nat, size: nat, grown: nat)
    requires start % PAGE_SIZE == 0 && guardSize % PAGE_SIZE == 0 && size % PAGE_SIZE == 0
    requires grown >= PAGE_SIZE && grown % PAGE_SIZE == 0
    ensures var alignedAddr := AlignUp(start + guardSize, grown);
            && alignedAddr % grown == 0 && alignedAddr % PAGE_SIZE == 0
            && start + guardSize <= alignedAddr
            && alignedAddr + size + guardSize <= start + (size + grown + 2 * guardSize - PAGE_SIZE)
            && (size + grown + 2 * guardSize - PAGE_SIZE) % PAGE_SIZE == 0
  {
    MultiplePlus(start, guardSize, PAGE_SIZE);
    AlignStep(start + guardSize, grown);
    AlignBounds(start + guardSize, grown);
    MultiplePlus(size, grown, PAGE_SIZE);
    MultiplePlus(guardSize, guardSize, PAGE_SIZE);
    MultiplePlus(size + grown, guardSize + guardSize, PAGE_SIZE);
    MultipleMinus(size + grown + (guardSize + guardSize), PAGE_SIZE, PAGE_SIZE);
  }

  lemma HugeIsPow2()
    ensures Pow2(21) == GPU_HUGE_PAGE_SIZE
  {
    PageIsPow2();
    assert Pow2(15) == 8 * Pow2(12);
    assert Pow2(18) == 8 * Pow2(15);
  }

  lemma GrownIsPages(size: nat, align: nat, k: nat, a: nat, j: nat)
    requires align == Pow2(k) && a == Pow2(j) && j >= k && (align >= PAGE_SIZE || size >= PAGE_SIZE)
    requires a >= GPU_HUGE_PAGE_SIZE || size < 2 * a
    ensures a >= PAGE_SIZE && a % PAGE_SIZE == 0
  {
    PageIsPow2();
    Pow2Multiple(k, j);
    Pow2Above(j, 12);
    Pow2Multiple(12, j);
  }

  // ------------------------------------------------------------------------------------------
  // The SVM apertures
  // ------------------------------------------------------------------------------------------

  /** The limit rounded down to huge pages, in 64-bit arithmetic. */
  function AlignedLimit(limit: nat): nat {
    (AlignDown((limit + 1) % TWO_TO_THE_64, GPU_HUGE_PAGE_SIZE) + TWO_TO_THE_64 - 1) % TWO_TO_THE_64
  }

  /** A limit inside the first huge page wraps around to the top of the address space; every other one is kept. */
  lemma AlignedLimitKeeps(limit: nat)
    requires limit < TWO_TO_THE_64
    ensures AlignedLimit(limit) <= limit <==> limit + 1 >= GPU_HUGE_PAGE_SIZE
    ensures limit + 1 < GPU_HUGE_PAGE_SIZE ==> AlignedLimit(limit) == TWO_TO_THE_64 - 1
  {
    LimitDown(limit, TWO_TO_THE_64, GPU_HUGE_PAGE_SIZE, AlignedLimit(limit));
  }

  /** The end of every other range is the greatest multiple of the huge page size that is not above the limit's. */
  lemma AlignedLimitIsGreatest(limit: nat)
    requires GPU_HUGE_PAGE_SIZE - 1 <= limit < TWO_TO_THE_64
    ensures (AlignedLimit(limit) + 1) % GPU_HUGE_PAGE_SIZE == 0
    ensures AlignedLimit(limit) <= limit < AlignedLimit(limit) + GPU_HUGE_PAGE_SIZE
  {
    LimitDown(limit, TWO_TO_THE_64, GPU_HUGE_PAGE_SIZE, AlignedLimit(limit));
  }

  function AlignedBase(base: nat): nat {
    AlignDown((base + GPU_HUGE_PAGE_SIZE - 1) % TWO_TO_THE_64, GPU_HUGE_PAGE_SIZE)
  }

  /** The least multiple of the huge page size that is not below the base, or 0 if it does not fit in 64 bits. */
  lemma AlignedBaseIsLeast(base: nat)
    requires base < TWO_TO_THE_64
    ensures AlignedBase(base) % GPU_HUGE_PAGE_SIZE == 0
    ensures if base + GPU_HUGE_PAGE_SIZE - 1 < TWO_TO_THE_64
            then base <= AlignedBase(base) < base + GPU_HUGE_PAGE_SIZE else AlignedBase(base) == 0
  {
    BaseUp(base, TWO_TO_THE_64, GPU_HUGE_PAGE_SIZE, AlignedBase(base));
  }

  lemma TriesExactly(limit: nat)
    requires limit < TWO_TO_THE_64
    ensures Pow2(47) == 0x8000_0000_0000
    ensures AlignedLimit(limit) >= 0x8000_0000_0000 - 1 <==>
            limit >= 0x8000_0000_0000 - 1 || limit + 1 < GPU_HUGE_PAGE_SIZE
  {
    Pow47();
    AlignedLimitKeeps(limit);
    if GPU_HUGE_PAGE_SIZE <= limit + 1 {
      AlignedLimitIsGreatest(limit);
      MultipleTimes(GPU_HUGE_PAGE_SIZE, GPU_HUGE_PAGE_SIZE, 0x400_0000);
      if AlignedLimit(limit) + 1 < 0x8000_0000_0000 {
        MultipleBelow(AlignedLimit(limit) + 1, 0x8000_0000_0000, GPU_HUGE_PAGE_SIZE);
      }
    }
  }

  /** An aperture, with an inclusive limit. */
  datatype Aperture = Aperture(base: nat, limit: nat)

  /** Two non-empty adjacent apertures that end where the reservation ends; the lower one is coherent, starts in the
      first 64 KB, and its base and size are multiples of 64 KB, the size a quarter rounded up. */
  ghost predicate Splits(base: nat, limit: nat, coherent: Aperture, def: Aperture) {
    && base <= coherent.base < base + COHERENT_ALIGN && coherent.base % COHERENT_ALIGN == 0
    && coherent.base < coherent.limit && coherent.limit + 1 == def.base
    && (coherent.limit + 1 - coherent.base) % COHERENT_ALIGN == 0
    && (limit + 1 - base) / 4 <= coherent.limit + 1 - coherent.base < (limit + 1 - base) / 4 + COHERENT_ALIGN
    && def.base < def.limit && def.limit == limit
  }

  class MemMgr {
    const reserveSvm: bool
    /** What the system answers to a request for a mapping: to its number, the start asked for, and the length. */
    const system: (nat, nat, nat) -> Option<nat>
    var requests: nat
    /** Bytes of the process's address space that are mapped. */
    var mapped: set<int>
    var dgpuSharedApertureBase: nat
    var dgpuSharedApertureLimit: nat
    var svmDefault: Aperture
    var svmCoherent: Aperture

    constructor (reserveSvm: bool, mapped: set<int>, system: (nat, nat, nat) -> Option<nat>)
      ensures this.reserveSvm == reserveSvm && this.mapped == mapped && dgpuSharedApertureLimit == 0
      ensures this.system == system && requests == 0
      ensures svmDefault == Aperture(0, 0) && svmCoherent == Aperture(0, 0)
    {
      this.reserveSvm, this.mapped, this.system, requests := reserveSvm, mapped, system, 0;
      dgpuSharedApertureBase, dgpuSharedApertureLimit := 0, 0;
      svmDefault, svmCoherent := Aperture(0, 0), Aperture(0, 0);
    }

    /** What comes of the k-th request: a new mapping at the hint or anywhere else in the lower half of the address
        space, or none. */
    function Answer(mapped: set<int>, k: nat, hint: nat, length: nat): (r: Option<nat>)
      ensures r.Some? ==> 0 < r.value < TWO_TO_THE_64 / 2 && r.value % PAGE_SIZE == 0
      ensures r.Some? ==> Bytes(r.value, Pages(length)) !! mapped
    {
      var r := Granted(mapped, length, system(k, hint, length));
      if r.Some? && r.value < TWO_TO_THE_64 / 2 then r else None
    }

    method ReserveAddress(hint: nat, length: nat) returns (r: Option<nat>)
      requires length > 0
      modifies this`mapped, this`requests
      ensures r == Answer(old(mapped), old(requests), hint, length) && requests == old(requests) + 1
      ensures mapped == if r.None? then old(mapped) else old(mapped) + Bytes(r.value, Pages(length))
    {
      r := Answer(mapped, requests, hint, length);
      requests := requests + 1;
      if r.Some? {
        mapped := mapped + Bytes(r.value, Pages(length));
      }
    }

    /** Unmap the pages from addr on; nothing happens when addr is inside a page. */
    method Munmap(addr: int, length: nat)
      modifies this`mapped
      ensures mapped == if CanUnmap(addr, length) then old(mapped) - Bytes(addr, Pages(length)) else old(mapped)
    {
      if CanUnmap(addr, length) {
        mapped := mapped - Bytes(addr, Pages(length));
      }
    }

    /** init_allocator(): the arena of an aperture starts at its base.  The arena's constructor asserts that this is not
        null. */
    method InitAllocators() returns (nullBase: bool)
      ensures nullBase <==> svmDefault.base == 0 || svmCoherent.base == 0
    {
      return svmDefault.base == 0 || svmCoherent.base == 0;
    }

    /** One aperture over the whole range, without a reservation; `canMap` is whether a page can be allocated in it.
        The coherent aperture is empty, and an arena is built on it all the same. */
    method InitMmapApertures(base: nat, limit: nat, align: nat, canMap: bool) returns (ok: bool, nullBase: bool)
      modifies this`svmDefault, this`svmCoherent
      ensures ok <==> align <= PAGE_SIZE && canMap
      ensures nullBase <==> align <= PAGE_SIZE
      ensures ok ==> svmDefault == Aperture(base, limit) && svmCoherent == Aperture(0, 0)
    {
      if align > PAGE_SIZE {
        return false, false;
      }
      svmDefault := Aperture(base, limit);
      svmCoherent := Aperture(0, 0);
      nullBase := InitAllocators();
      ok := canMap;
    }

    /** As much of `len` bytes from the hint on as is below the limit, in whole pages. */
    function MapSize(hint: nat, limit: nat, len: nat): (r: nat)
      requires hint <= limit
      ensures r % PAGE_SIZE == 0 && r <= len && r <= limit + 1 - hint
      ensures len < r + PAGE_SIZE || limit + 1 - hint < r + PAGE_SIZE
    {
      var top := if hint + len < limit + 1 then hint + len else limit + 1;
      AlignBounds(top - hint, PAGE_SIZE);
      AlignDown(top - hint, PAGE_SIZE)
    }

    /** A start is worth a request when half of `len` bytes from it are below the limit, and enough for the minimum. */
    predicate Worth(hint: nat, limit: nat, len: nat)
      requires len > 0
    {
      hint + (len + 1) / 2 - 1 <= limit && MapSize(hint, limit, len) >= SVM_MIN_VM_SIZE
    }

    /** Not half of `len` bytes from a start are below the limit. */
    predicate TooHigh(start: nat, limit: nat, len: nat) {
      start + (len + 1) / 2 - 1 > limit
    }

    /** The answer to the request that is j after the k-th: for `len` bytes at the j-th huge page from the base on,
        which is worth it. */
    ghost predicate AnswerIs(mapped: set<int>, k: nat, j: nat, base: nat, limit: nat, len: nat, r: Option<nat>)
      requires len > 0
    {
      var hint := base + j * GPU_HUGE_PAGE_SIZE;
      Worth(hint, limit, len) && r == Answer(mapped, k + j, hint, MapSize(hint, limit, len))
    }

    ghost predicate Answers(mapped: set<int>, k: nat, base: nat, limit: nat, len: nat, rs: seq<Option<nat>>)
      requires len > 0
    {
      forall j {:trigger AnswerIs(mapped, k, j, base, limit, len, rs[j])} | 0 <= j < |rs| ::
        AnswerIs(mapped, k, j, base, limit, len, rs[j])
    }

    ghost predicate AllTooHigh(rs: seq<Option<nat>>, limit: nat, len: nat) {
      forall j | 0 <= j < |rs| :: rs[j].Some? && TooHigh(rs[j].value, limit, len)
    }

    /** The n requests from the k-th on, for `len` bytes at successive huge pages from the base on: each start but the
        last is too high, and the last is not. */
    ghost predicate Reserves(mapped: set<int>, k: nat, n: nat, base: nat, limit: nat, len: nat, start: nat,
                             mapSize: nat)
      requires len > 0
    {
      exists rs ::
        && |rs| + 1 == n && Answers(mapped, k, base, limit, len, rs) && AllTooHigh(rs, limit, len)
        && AnswerIs(mapped, k, n - 1, base, limit, len, Some(start)) && !TooHigh(start, limit, len)
        && mapSize == MapSize(base + (n - 1) * GPU_HUGE_PAGE_SIZE, limit, len)
    }

    /** They end with a refusal, or because no other start is worth a request. */
    ghost predicate Refused(mapped: set<int>, k: nat, n: nat, base: nat, limit: nat, len: nat)
      requires len > 0
    {
      exists rs ::
        && Answers(mapped, k, base, limit, len, rs) && AllTooHigh(rs, limit, len)
        && ((|rs| + 1 == n && AnswerIs(mapped, k, n - 1, base, limit, len, None))
            || (|rs| == n && !Worth(base + n * GPU_HUGE_PAGE_SIZE, limit, len)))
    }

    /** Try start addresses in huge-page steps, until a reservation has half of `len` below the limit. */
    method TryReserve(base: nat, limit: nat, len: nat) returns (r: Option<nat>, mapSize: nat)
      requires base < limit <= SVM_RESERVATION_LIMIT && SVM_MIN_VM_SIZE <= len <= limit + 1
      modifies this`mapped, this`requests
      ensures requests >= old(requests)
      ensures r.None? ==> mapped == old(mapped)
                          && Refused(old(mapped), old(requests), requests - old(requests), base, limit, len)
      ensures r.Some? ==>
                && Reserves(old(mapped), old(requests), requests - old(requests), base, limit, len, r.value, mapSize)
                && mapped == old(mapped) + Bytes(r.value, mapSize) && Bytes(r.value, mapSize) !! old(mapped)
                && r.value > 0 && r.value % PAGE_SIZE == 0
                && mapSize >= SVM_MIN_VM_SIZE && mapSize % PAGE_SIZE == 0
    {
      var addr := base;
      ghost var rs := [];
      r, mapSize := None, 0;
      while addr + (len + 1) / 2 - 1 <= limit
        invariant mapped == old(mapped) && requests == old(requests) + |rs|
        invariant addr == base + |rs| * GPU_HUGE_PAGE_SIZE
        invariant Answers(old(mapped), old(requests), base, limit, len, rs) && AllTooHigh(rs, limit, len)
        decreases limit - addr
      {
        mapSize := MapSize(addr, limit, len);
        if mapSize < SVM_MIN_VM_SIZE {
          break;
        }
        var again;
        r, again := RequestAt(addr, limit, len, mapSize);
        assert AnswerIs(old(mapped), old(requests), |rs|, base, limit, len, r);
        if !again {
          RequestEnds(old(mapped), old(requests), requests - old(requests), base, limit, len, rs, r);
          return;
        }
        MoreAnswers(old(mapped), old(requests), base, limit, len, rs, r);
        addr, rs := addr + GPU_HUGE_PAGE_SIZE, rs + [r];
      }
      NoOtherStart(old(mapped), old(requests), requests - old(requests), base, limit, len, rs);
      return None, mapSize;
    }

    /** One request; a start that is too high is given back, and the next one is to be tried. */
    method RequestAt(addr: nat, limit: nat, len: nat, mapSize: nat) returns (r: Option<nat>, again: bool)
      requires mapSize > 0 && mapSize % PAGE_SIZE == 0
      modifies this`mapped, this`requests
      ensures requests == old(requests) + 1 && r == Answer(old(mapped), old(requests), addr, mapSize)
      ensures r.Some? ==> r.value > 0 && r.value % PAGE_SIZE == 0 && Bytes(r.value, mapSize) !! old(mapped)
      ensures again <==> r.Some? && TooHigh(r.value, limit, len)
      ensures mapped == if r.Some? && !again then old(mapped) + Bytes(r.value, mapSize) else old(mapped)
    {
      r := ReserveAddress(addr, mapSize);
      again := r.Some? && r.value + (len + 1) / 2 - 1 > limit;
      if again {
        Munmap(r.value, mapSize);
        assert mapped == old(mapped);
      }
    }

    lemma MoreAnswers(mapped: set<int>, k: nat, base: nat, limit: nat, len: nat, rs: seq<Option<nat>>, r: Option<nat>)
      requires len > 0 && Answers(mapped, k, base, limit, len, rs) && AllTooHigh(rs, limit, len)
      requires AnswerIs(mapped, k, |rs|, base, limit, len, r) && r.Some? && TooHigh(r.value, limit, len)
      ensures Answers(mapped, k, base, limit, len, rs + [r]) && AllTooHigh(rs + [r], limit, len)
    {
      forall j | 0 <= j < |rs| + 1
        ensures AnswerIs(mapped, k, j, base, limit, len, (rs + [r])[j])
      {
        if j < |rs| { assert AnswerIs(mapped, k, j, base, limit, len, rs[j]); }
      }
    }

    lemma RequestEnds(mapped: set<int>, k: nat, n: nat, base: nat, limit: nat, len: nat, rs: seq<Option<nat>>,
                      r: Option<nat>)
      requires len > 0 && Answers(mapped, k, base, limit, len, rs) && AllTooHigh(rs, limit, len)
      requires n == |rs| + 1 && AnswerIs(mapped, k, n - 1, base, limit, len, r)
      requires r.Some? ==> !TooHigh(r.value, limit, len)
      ensures if r.None? then Refused(mapped, k, n, base, limit, len)
              else Reserves(mapped, k, n, base, limit, len, r.value,
                            MapSize(base + (n - 1) * GPU_HUGE_PAGE_SIZE, limit, len))
    {
    }

    lemma NoOtherStart(mapped: set<int>, k: nat, n: nat, base: nat, limit: nat, len: nat, rs: seq<Option<nat>>)
      requires len > 0 && Answers(mapped, k, base, limit, len, rs) && AllTooHigh(rs, limit, len)
      requires n == |rs| && !Worth(base + n * GPU_HUGE_PAGE_SIZE, limit, len)
      ensures Refused(mapped, k, n, base, limit, len)
    {
    }

    /** The sizes tried: each is half of the one before. */
    function Halved(len: nat, j: nat): nat {
      if j == 0 then len else (Halved(len, j - 1) + 1) / 2
    }

    /** No reservation of this size is of use: none is got, or less than the minimum of it is below the limit. */
    ghost predicate Useless(mapped: set<int>, k: nat, n: nat, base: nat, limit: nat, len: nat)
      requires len > 0
    {
      || Refused(mapped, k, n, base, limit, len)
      || exists start: nat, mapSize: nat ::
           Reserves(mapped, k, n, base, limit, len, start, mapSize) && start + SVM_MIN_VM_SIZE - 1 > limit
    }

    /** Requests starts[j] to starts[j + 1] are for the j-th size, and no reservation of it is of use. */
    ghost predicate AllUseless(mapped: set<int>, base: nat, limit: nat, starts: seq<nat>)
      requires base < limit
    {
      && starts != []
      && (forall j: nat | j + 1 < |starts| :: UselessSize(mapped, starts[j], starts[j + 1], base, limit, j))
    }

    /** The j-th size is large enough to be tried, and the requests from the k-th to before the k1-th are for it. */
    ghost predicate UselessSize(mapped: set<int>, k: nat, k1: nat, base: nat, limit: nat, j: nat)
      requires base < limit
    {
      && Halved(limit - base + 1, j) >= SVM_MIN_VM_SIZE && k <= k1
      && Useless(mapped, k, k1 - k, base, limit, Halved(limit - base + 1, j))
    }

    /** Halve the size until a reservation has the minimum size below the limit.  It fails exactly when no size down
        to the minimum gives one of use, and otherwise takes the first one of use. */
    method Search(base: nat, limit: nat) returns (r: Option<nat>, mapSize: nat, ghost starts: seq<nat>)
      requires base < limit <= SVM_RESERVATION_LIMIT
      modifies this`mapped, this`requests
      ensures AllUseless(old(mapped), base, limit, starts) && starts[0] == old(requests)
      ensures r.None? ==> mapped == old(mapped) && starts[|starts| - 1] == requests
      ensures r.None? ==> Halved(limit - base + 1, |starts| - 1) < SVM_MIN_VM_SIZE
      ensures r.Some? ==>
                var k, len := starts[|starts| - 1], Halved(limit - base + 1, |starts| - 1);
                && k <= requests && len >= SVM_MIN_VM_SIZE
                && Reserves(old(mapped), k, requests - k, base, limit, len, r.value, mapSize)
      ensures r.Some? ==> r.value > 0 && r.value + SVM_MIN_VM_SIZE - 1 <= limit && mapSize >= SVM_MIN_VM_SIZE
      ensures r.Some? ==> r.value % PAGE_SIZE == 0 && mapSize % PAGE_SIZE == 0
      ensures r.Some? ==> Bytes(r.value, mapSize) !! old(mapped) && mapped == old(mapped) + Bytes(r.value, mapSize)
    {
      var len := limit - base + 1;
      r, mapSize, starts := None, 0, [requests];
      while len >= SVM_MIN_VM_SIZE
        invariant r.None? && mapped == old(mapped)
        invariant AllUseless(mapped, base, limit, starts) && starts[0] == old(requests)
        invariant starts[|starts| - 1] == requests && len == Halved(limit - base + 1, |starts| - 1) <= limit - base + 1
        decreases len
      {
        r, mapSize := TrySize(base, limit, len);
        if r.Some? {
          return;
        }
        assert UselessSize(old(mapped), starts[|starts| - 1], requests, base, limit, |starts| - 1);
        UselessToo(old(mapped), base, limit, starts, requests);
        starts := starts + [requests];
        len := (len + 1) / 2;
      }
    }

    /** A reservation with less than the minimum size below the limit is given back. */
    method TrySize(base: nat, limit: nat, len: nat) returns (r: Option<nat>, mapSize: nat)
      requires base < limit <= SVM_RESERVATION_LIMIT && SVM_MIN_VM_SIZE <= len <= limit + 1
      modifies this`mapped, this`requests
      ensures requests >= old(requests)
      ensures r.None? ==> mapped == old(mapped)
                          && Useless(old(mapped), old(requests), requests - old(requests), base, limit, len)
      ensures r.Some? ==>
                Reserves(old(mapped), old(requests), requests - old(requests), base, limit, len, r.value, mapSize)
      ensures r.Some? ==> r.value > 0 && r.value + SVM_MIN_VM_SIZE - 1 <= limit && mapSize >= SVM_MIN_VM_SIZE
      ensures r.Some? ==> r.value % PAGE_SIZE == 0 && mapSize % PAGE_SIZE == 0
      ensures r.Some? ==> Bytes(r.value, mapSize) !! old(mapped) && mapped == old(mapped) + Bytes(r.value, mapSize)
    {
      r, mapSize := TryReserve(base, limit, len);
      if r.Some? && r.value + SVM_MIN_VM_SIZE - 1 > limit {
        Munmap(r.value, mapSize);
        assert mapped == old(mapped);
        r := None;
      }
    }

    lemma UselessToo(mapped: set<int>, base: nat, limit: nat, starts: seq<nat>, k: nat)
      requires base < limit && AllUseless(mapped, base, limit, starts)
      requires UselessSize(mapped, starts[|starts| - 1], k, base, limit, |starts| - 1)
      ensures AllUseless(mapped, base, limit, starts + [k])
    {
      var more := starts + [k];
      forall j: nat | j + 1 < |more|
        ensures UselessSize(mapped, more[j], more[j + 1], base, limit, j)
      {
        if j + 1 < |starts| {
          assert more[j] == starts[j] && more[j + 1] == starts[j + 1];
        } else {
          assert more[j] == starts[|starts| - 1] && more[j + 1] == k;
        }
      }
    }

    /** The caller does not insist on a reservation, and the limit, rounded to huge pages, has at least 47 bits. */
    predicate TriesUnreserved(limit: nat, align: nat) {
      (limit >= Pow2(47) - 1 || limit + 1 < GPU_HUGE_PAGE_SIZE) && !reserveSvm && align <= PAGE_SIZE
    }

    /** No size down to the minimum gives a reservation of use. */
    ghost predicate NoneOfUse(mapped: set<int>, k: nat, base: nat, limit: nat) {
      base >= limit || exists starts ::
        && AllUseless(mapped, base, limit, starts) && starts[0] == k
        && Halved(limit - base + 1, |starts| - 1) < SVM_MIN_VM_SIZE
    }

    /** On success one reservation is left, of at least the minimum size and below the limit, and the apertures split
        it; on failure none is, and none is to be had.  Address spaces of 47 bits and more are used without a
        reservation if the caller does not insist on one; an arena gets a null base exactly when that is tried. */
    method InitSvmApertures(base: nat, limit: nat, align: nat, canMap: bool) returns (ok: bool, nullBase: bool)
      requires base < TWO_TO_THE_64 && limit < TWO_TO_THE_64
      modifies this
      ensures old(dgpuSharedApertureLimit) != 0 ==> ok && unchanged(this)
      ensures !ok ==> mapped == old(mapped) && dgpuSharedApertureLimit == 0
      ensures !ok ==> NoneOfUse(mapped, old(requests), AlignedBase(base), ReservedLimit(limit))
      ensures ok && old(dgpuSharedApertureLimit) == 0 ==>
                (dgpuSharedApertureLimit == 0 <==> TriesUnreserved(limit, align) && canMap)
      ensures ok && old(dgpuSharedApertureLimit) == 0 && dgpuSharedApertureLimit == 0 ==>
              && mapped == old(mapped) && svmCoherent == Aperture(0, 0)
              && svmDefault.base % GPU_HUGE_PAGE_SIZE == 0
              && (if base + GPU_HUGE_PAGE_SIZE - 1 < TWO_TO_THE_64
                  then base <= svmDefault.base < base + GPU_HUGE_PAGE_SIZE else svmDefault.base == 0)
              && (svmDefault.limit + 1) % GPU_HUGE_PAGE_SIZE == 0
              && (if limit + 1 >= GPU_HUGE_PAGE_SIZE
                  then svmDefault.limit <= limit < svmDefault.limit + GPU_HUGE_PAGE_SIZE
                  else svmDefault.limit == TWO_TO_THE_64 - 1)
      ensures ok && old(dgpuSharedApertureLimit) == 0 && dgpuSharedApertureLimit != 0 ==>
              ReservedAndSplit(old(mapped), limit)
      ensures nullBase <==> old(dgpuSharedApertureLimit) == 0 && TriesUnreserved(limit, align)
    {
      if dgpuSharedApertureLimit != 0 {
        return true, false;
      }
      TriesExactly(limit);
      AlignedBaseIsLeast(base);
      AlignedLimitKeeps(limit);
      if limit + 1 >= GPU_HUGE_PAGE_SIZE {
        AlignedLimitIsGreatest(limit);
      }
      var lo, hi := AlignedBase(base), AlignedLimit(limit);
      nullBase := false;
      if hi >= 0x8000_0000_0000 - 1 && !reserveSvm {
        ok, nullBase := InitMmapApertures(lo, hi, align, canMap);
        if ok {
          return;
        }
      }
      ok := InitReservedApertures(lo, limit);
    }

    /** The limit of a reservation. */
    function ReservedLimit(limit: nat): (hi: nat)
      ensures hi <= SVM_RESERVATION_LIMIT && hi <= AlignedLimit(limit)
      ensures hi == SVM_RESERVATION_LIMIT || hi == AlignedLimit(limit)
    {
      if AlignedLimit(limit) > SVM_RESERVATION_LIMIT then SVM_RESERVATION_LIMIT else AlignedLimit(limit)
    }

    /** The reservation is all that is newly mapped, and the apertures split it. */
    ghost predicate ReservedAndSplit(before: set<int>, limit: nat)
      reads this
    {
      var lo, hi := dgpuSharedApertureBase, dgpuSharedApertureLimit;
      && lo > 0 && lo + SVM_MIN_VM_SIZE - 1 <= hi <= SVM_RESERVATION_LIMIT
      && (limit + 1 >= GPU_HUGE_PAGE_SIZE ==> hi <= limit)
      && Bytes(lo, hi + 1 - lo) !! before && mapped == before + Bytes(lo, hi + 1 - lo)
      && Splits(lo, hi, svmCoherent, svmDefault)
      && svmDefault.base in Bytes(svmCoherent.base, svmCoherent.limit)
      && svmDefault.base != 0 && svmCoherent.base != 0
    }

    method InitReservedApertures(base: nat, limit: nat) returns (ok: bool)
      requires dgpuSharedApertureLimit == 0 && limit < TWO_TO_THE_64
      modifies this
      ensures !ok ==> mapped == old(mapped) && dgpuSharedApertureLimit == 0
      ensures !ok ==> NoneOfUse(mapped, old(requests), base, ReservedLimit(limit))
      ensures ok ==> ReservedAndSplit(old(mapped), limit) && dgpuSharedApertureLimit != 0
    {
      var hi := ReservedLimit(limit);
      if base >= hi {
        return false;
      }
      var r, mapSize;
      ghost var starts;
      r, mapSize, starts := Search(base, hi);
      if r.None? {
        return false;
      }
      var lo := r.value;
      LimitIsPages(limit);
      AlignedLimitKeeps(limit);
      hi := TrimTail(lo, mapSize, hi, old(mapped));
      dgpuSharedApertureBase, dgpuSharedApertureLimit := lo, hi;
      SplitReservation();
      ArenasOverlap(lo, hi, svmCoherent, svmDefault);
      var nullBase := InitAllocators();
      assert !nullBase;
      return true;
    }

    /** Unmap what lies above the limit; returns the last byte that stays. */
    method TrimTail(lo: nat, mapSize: nat, limit: nat, ghost before: set<int>) returns (hi: nat)
      requires lo <= limit && mapSize > 0 && lo % PAGE_SIZE == 0 && mapSize % PAGE_SIZE == 0 &&
               (limit + 1) % PAGE_SIZE == 0
      requires Bytes(lo, mapSize) !! before && mapped == before + Bytes(lo, mapSize)
      modifies this`mapped
      ensures hi == if lo + mapSize - 1 > limit then limit else lo + mapSize - 1
      ensures mapped == before + Bytes(lo, hi + 1 - lo) && Bytes(lo, hi + 1 - lo) !! before
    {
      hi := limit;
      if lo + mapSize - 1 > limit {
        MultiplePlus(lo, mapSize, PAGE_SIZE);
        MultipleMinus(lo + mapSize, limit + 1, PAGE_SIZE);
        MiddleStays(lo, lo, limit + 1, lo + mapSize, before);
        Munmap(limit + 1, lo + mapSize - 1 - limit);
      } else {
        hi := lo + mapSize - 1;
      }
    }

    /** The first quarter of the reservation is the aperture for coherent access, the rest the default one. */
    method SplitReservation()
      requires dgpuSharedApertureBase + SVM_MIN_VM_SIZE - 1 <= dgpuSharedApertureLimit
      modifies this`svmDefault, this`svmCoherent
      ensures Splits(dgpuSharedApertureBase, dgpuSharedApertureLimit, svmCoherent, svmDefault)
    {
      var lo, hi := dgpuSharedApertureBase, dgpuSharedApertureLimit;
      var altBase := AlignUp(lo, COHERENT_ALIGN);
      var altSize := AlignUp((hi - lo + 1) / 4, COHERENT_ALIGN);
      AlignBounds(lo, COHERENT_ALIGN);
      AlignBounds((hi - lo + 1) / 4, COHERENT_ALIGN);
      svmCoherent := Aperture(altBase, altBase + altSize - 1);
      svmDefault := Aperture(svmCoherent.limit + 1, hi);
    }
  }

  /** The limit that a reservation is cut at is the last byte of a page. */
  lemma LimitIsPages(limit: nat)
    requires limit < TWO_TO_THE_64
    ensures (AlignedLimit(limit) + 1) % PAGE_SIZE == 0 && (SVM_RESERVATION_LIMIT + 1) % PAGE_SIZE == 0
  {
    var x := (limit + 1) % TWO_TO_THE_64;
    AlignBounds(x, GPU_HUGE_PAGE_SIZE);
    var d := AlignDown(x, GPU_HUGE_PAGE_SIZE);
    MultipleTimes(GPU_HUGE_PAGE_SIZE, PAGE_SIZE, d / GPU_HUGE_PAGE_SIZE);
    assert AlignedLimit(limit) == if d == 0 then TWO_TO_THE_64 - 1 else d - 1;
  }

  lemma Pow47()
    ensures Pow2(47) == 0x8000_0000_0000
  {
    HugeIsPow2();
    assert Pow2(26) == 32 * Pow2(21);
    assert Pow2(31) == 32 * Pow2(26);
    assert Pow2(36) == 32 * Pow2(31);
    assert Pow2(41) == 32 * Pow2(36);
    assert Pow2(47) == 64 * Pow2(41);
  }

  /** init_allocator() passes an aperture's limit as the length of its arena.  Whatever the reservation, the apertures
      are disjoint but the arena of the coherent one holds the first byte of the default one. */
  lemma ArenasOverlap(base: nat, limit: nat, coherent: Aperture, def: Aperture)
    requires base > 0 && Splits(base, limit, coherent, def)
    ensures Bytes(coherent.base, coherent.limit + 1 - coherent.base) !! Bytes(def.base, def.limit + 1 - def.base)
    ensures def.base in Bytes(coherent.base, coherent.limit)
  {
    assert coherent.base >= COHERENT_ALIGN;
    assert Within(def.base, coherent.base, coherent.limit);
  }
}
