/** The class that edits the page table in place, through one scratch buffer per level, and the
    buffer-object map that drives it. */
module ProcessVM {
  import opened Arithmetic
  import opened PageTable
  import opened PageTableProofs
  import opened AddressSpace

  class ProcessVM {
    const g: Geo
    const supply: Supply
    const devVaBase: nat
    /** Host memory that follows the root table. */
    const beyond: nat -> Entry
    var perms: Perms
    /** Table pages in device memory, and the pages BlockAlloc has handed out. */
    var dev: Dev
    /** Device copy of the root table. */
    var devRoot: seq<Entry>
    const pd0Page: array<Entry>
    const pd1Page: array<Entry>
    const pdePage: array<Entry>
    const ptePage: array<Entry>

    /** The buffers are whole pages and no two of them are the same. */
    ghost predicate Buffers() {
      && pd0Page.Length == 2 * g.entries
      && pd1Page.Length == pdePage.Length == ptePage.Length == g.entries
      && pd0Page != pd1Page && pd0Page != pdePage && pd0Page != ptePage
      && pd1Page != pdePage && pd1Page != ptePage && pdePage != ptePage
    }

    ghost function Table(): Vm
      reads this, pd0Page
    {
      Vm(dev, pd0Page[..])
    }

    ghost predicate Valid()
      reads this, pd0Page
    {
      && Buffers()
      && devVaBase % g.pageSize == 0
      && |devRoot| == 2 * g.entries
      && ValidVm(g, supply, Table())
    }

    constructor (g: Geo, supply: Supply, devVaBase: nat, beyond: nat -> Entry)
      requires devVaBase % g.pageSize == 0
      requires forall i: nat, j: nat | i < j :: supply(i) != supply(j)
      ensures Valid() && fresh(pd0Page) && fresh(pd1Page) && fresh(pdePage) && fresh(ptePage)
      ensures this.g == g && this.supply == supply && this.devVaBase == devVaBase && this.beyond == beyond
      ensures Table() == Empty(g) && devRoot == Empty(g).root
    {
      this.g := g;
      this.supply := supply;
      this.devVaBase := devVaBase;
      this.beyond := beyond;
      perms := ZERO_ENTRY.perms;
      dev := Empty(g).dev;
      devRoot := Empty(g).root;
      pd0Page := new Entry[2 * g.entries](_ => ZERO_ENTRY);
      pd1Page := new Entry[g.entries](_ => ZERO_ENTRY);
      pdePage := new Entry[g.entries](_ => ZERO_ENTRY);
      ptePage := new Entry[g.entries](_ => ZERO_ENTRY);
      new;
      assert pd0Page[..] == Empty(g).root;
      TableIsLastCover(g, supply, []);
    }

    method BlockAlloc() returns (frame: nat)
      modifies this`dev
      ensures (frame, dev) == Alloc(supply, old(dev))
    {
      frame := supply(dev.next);
      dev := dev.(used := dev.used + {frame}, next := dev.next + 1);
    }

    /** Fill a scratch buffer from a page in device memory, or clear it. */
    method LoadPage(page: array<Entry>, frame: nat, isNew: bool)
      requires page.Length == g.entries
      modifies page
      ensures page[..] == if isNew then ZeroPage(g) else ReadPage(g, dev.mem, frame)
    {
      var from := if isNew then ZeroPage(g) else ReadPage(g, dev.mem, frame);
      forall i | 0 <= i < page.Length {
        page[i] := from[i];
      }
      assert page[..] == from;
    }

    method ClipRange(base: nat, top: nat, vaStart0: nat, vaEnd0: nat, paStart0: nat) returns (c: Range)
      ensures c == Clip(Range(vaStart0, vaEnd0, paStart0, perms), base, top)
    {
      var vaStart, vaEnd, paStart := vaStart0, vaEnd0, paStart0;
      if base > vaStart {
        paStart := paStart + (base - vaStart);
        vaStart := base;
      }
      if top < vaEnd {
        vaEnd := top;
      }
      c := Range(vaStart, vaEnd, paStart, perms);
    }

    method SetupPtePage(base: nat, top: nat, vaStart: nat, vaEnd: nat, paStart: nat, frame: nat, isNew: bool)
      requires Buffers()
      modifies this`dev, ptePage
      ensures dev == MapPage(g, supply, 0, old(dev), frame, isNew, base, top, Range(vaStart, vaEnd, paStart, perms))
    {
      var c := ClipRange(base, top, vaStart, vaEnd, paStart);
      var first := c.first / Span(g, 0);
      var last := c.last / Span(g, 0);
      LoadPage(ptePage, frame, isNew);
      SetupPteEntries(first, last, base, c);
      dev := dev.(mem := dev.mem[frame := ptePage[..]]);
    }

    method SetupPteEntries(first: nat, last: nat, base: nat, c: Range)
      requires Buffers() && c.perms == perms && c.first / Span(g, 0) <= first
      modifies this`dev, ptePage
      ensures (dev, ptePage[..]) == MapEntries(g, supply, 0, old(dev), old(ptePage[..]), first, last, base, c)
    {
      ghost var done := MapEntries(g, supply, 0, dev, ptePage[..], first, last, base, c);
      var i := first;
      while i <= last
        invariant first <= i
        invariant done == MapEntries(g, supply, 0, dev, ptePage[..], i, last, base, c)
      {
        SetupPteEntry(i, base, c);
        i := i + 1;
      }
    }

    method SetupPteEntry(i: nat, base: nat, c: Range)
      requires Buffers() && c.perms == perms && c.first / Span(g, 0) <= i
      modifies this`dev, ptePage
      ensures (dev, ptePage[..]) == MapEntry(g, supply, 0, old(dev), old(ptePage[..]), i, base, c)
    {
      var entryInPage := i % ptePage.Length;
      ptePage[entryInPage] := Entry(true, c.pa / g.pageSize + (i - c.first / g.pageSize), perms, 3);
    }

    method SetupPdePage(base: nat, top: nat, vaStart: nat, vaEnd: nat, paStart: nat, frame: nat, isNew: bool)
      requires Buffers()
      modifies this`dev, pdePage, ptePage
      ensures dev == MapPage(g, supply, 1, old(dev), frame, isNew, base, top, Range(vaStart, vaEnd, paStart, perms))
    {
      var c := ClipRange(base, top, vaStart, vaEnd, paStart);
      var first := c.first / Span(g, 1);
      var last := c.last / Span(g, 1);
      LoadPage(pdePage, frame, isNew);
      SetupPdeEntries(first, last, base, c);
      dev := dev.(mem := dev.mem[frame := pdePage[..]]);
    }

    method SetupPdeEntries(first: nat, last: nat, base: nat, c: Range)
      requires Buffers() && c.perms == perms && c.first / Span(g, 1) <= first
      modifies this`dev, pdePage, ptePage
      ensures (dev, pdePage[..]) == MapEntries(g, supply, 1, old(dev), old(pdePage[..]), first, last, base, c)
    {
      ghost var done := MapEntries(g, supply, 1, dev, pdePage[..], first, last, base, c);
      var i := first;
      while i <= last
        invariant first <= i
        invariant done == MapEntries(g, supply, 1, dev, pdePage[..], i, last, base, c)
      {
        SetupPdeEntry(i, base, c);
        i := i + 1;
      }
    }

    method SetupPdeEntry(i: nat, base: nat, c: Range)
      requires Buffers() && c.perms == perms && c.first / Span(g, 1) <= i
      modifies this`dev, pdePage, ptePage
      ensures (dev, pdePage[..]) == MapEntry(g, supply, 1, old(dev), old(pdePage[..]), i, base, c)
    {
      var entryInPage := i % pdePage.Length;
      var newPage := false;
      var address := pdePage[entryInPage].address;
      if !pdePage[entryInPage].valid {
        address := BlockAlloc();
        newPage := true;
      }
      SetupPtePage(EntryBase(g, 1, base, entryInPage), EntryTop(g, 1, base, entryInPage),
                   c.first, c.last, c.pa, address, newPage);
      pdePage[entryInPage] := Entry(true, address, perms, 2);
    }

    method SetupPd1Page(base: nat, top: nat, vaStart: nat, vaEnd: nat, paStart: nat, frame: nat, isNew: bool)
      requires Buffers()
      modifies this`dev, pd1Page, pdePage, ptePage
      ensures dev == MapPage(g, supply, 2, old(dev), frame, isNew, base, top, Range(vaStart, vaEnd, paStart, perms))
    {
      var c := ClipRange(base, top, vaStart, vaEnd, paStart);
      var first := c.first / Span(g, 2);
      var last := c.last / Span(g, 2);
      LoadPage(pd1Page, frame, isNew);
      SetupPd1Entries(first, last, base, c);
      dev := dev.(mem := dev.mem[frame := pd1Page[..]]);
    }

    method SetupPd1Entries(first: nat, last: nat, base: nat, c: Range)
      requires Buffers() && c.perms == perms && c.first / Span(g, 2) <= first
      modifies this`dev, pd1Page, pdePage, ptePage
      ensures (dev, pd1Page[..]) == MapEntries(g, supply, 2, old(dev), old(pd1Page[..]), first, last, base, c)
    {
      ghost var done := MapEntries(g, supply, 2, dev, pd1Page[..], first, last, base, c);
      var i := first;
      while i <= last
        invariant first <= i
        invariant done == MapEntries(g, supply, 2, dev, pd1Page[..], i, last, base, c)
      {
        SetupPd1Entry(i, base, c);
        i := i + 1;
      }
    }

    method SetupPd1Entry(i: nat, base: nat, c: Range)
      requires Buffers() && c.perms == perms && c.first / Span(g, 2) <= i
      modifies this`dev, pd1Page, pdePage, ptePage
      ensures (dev, pd1Page[..]) == MapEntry(g, supply, 2, old(dev), old(pd1Page[..]), i, base, c)
    {
      var entryInPage := i % pd1Page.Length;
      var newPage := false;
      var address := pd1Page[entryInPage].address;
      if !pd1Page[entryInPage].valid {
        address := BlockAlloc();
        newPage := true;
      }
      SetupPdePage(EntryBase(g, 2, base, entryInPage), EntryTop(g, 2, base, entryInPage),
                   c.first, c.last, c.pa, address, newPage);
      pd1Page[entryInPage] := Entry(true, address, perms, 1);
    }

    /** The root keeps its host copy across calls, and is flushed to the device at the end. */
    method SetupPd0Page(vaStart: nat, vaEnd: nat, paStart: nat)
      requires Buffers() && |devRoot| == 2 * g.entries
      requires vaEnd < VaLimit(g)
      modifies this`dev, this`devRoot, pd0Page, pd1Page, pdePage, ptePage
      ensures Table() == MapRange(g, supply, old(Table()), Range(vaStart, vaEnd, paStart, perms))
      ensures devRoot == Flush(g, pd0Page[..], beyond, old(devRoot), RootEntry(g, vaStart), RootEntry(g, vaEnd))
    {
      var pd0Start := RootEntry(g, vaStart);
      var pd0End := RootEntry(g, vaEnd);
      var r := Range(vaStart, vaEnd, paStart, perms);
      InRoot(g, vaEnd);
      SetupPd0Entries(pd0Start, pd0End, r);
      devRoot := Flush(g, pd0Page[..], beyond, devRoot, pd0Start, pd0End);
    }

    method SetupPd0Entries(first: nat, last: nat, r: Range)
      requires Buffers() && r.perms == perms && r.first / Span(g, 3) <= first && last < pd0Page.Length
      modifies this`dev, pd0Page, pd1Page, pdePage, ptePage
      ensures (dev, pd0Page[..]) == MapEntries(g, supply, 3, old(dev), old(pd0Page[..]), first, last, 0, r)
    {
      ghost var done := MapEntries(g, supply, 3, dev, pd0Page[..], first, last, 0, r);
      var i := first;
      while i <= last
        invariant first <= i
        invariant done == MapEntries(g, supply, 3, dev, pd0Page[..], i, last, 0, r)
      {
        SetupPd0Entry(i, r);
        i := i + 1;
      }
    }

    method SetupPd0Entry(i: nat, r: Range)
      requires Buffers() && r.perms == perms && r.first / Span(g, 3) <= i < pd0Page.Length
      modifies this`dev, pd0Page, pd1Page, pdePage, ptePage
      ensures (dev, pd0Page[..]) == MapEntry(g, supply, 3, old(dev), old(pd0Page[..]), i, 0, r)
    {
      EntryInPage(i, pd0Page.Length, 0);
      var newPage := false;
      var address := pd0Page[i].address;
      if !pd0Page[i].valid {
        address := BlockAlloc();
        newPage := true;
      }
      SetupPd1Page(EntryBase(g, 3, 0, i), EntryTop(g, 3, 0, i), r.first, r.last, r.pa, address, newPage);
      pd0Page[i] := Entry(true, address, perms, 0);
    }

    /** Map then walk, for any base, size and physical address: exactly the pages of the rounded
        request change, each to its frame and exactly the given permissions. */
    method Mmap(vaBase: nat, vaSize: nat, paBase: nat, perms: Perms)
      requires Valid()
      requires devVaBase <= vaBase && vaSize > 0 && paBase != 0
      requires devVaBase <= AlignDown(vaBase, g.pageSize) < RoundedEnd(vaBase, vaSize, g.pageSize)
      requires RoundedEnd(vaBase, vaSize, g.pageSize) <= devVaBase + VaLimit(g)
      modifies this`perms, this`dev, this`devRoot, pd0Page, pd1Page, pdePage, ptePage
      ensures Valid()
      ensures Remapped(g, old(Table()), Table(), devVaBase, vaBase, vaSize, paBase, perms)
      ensures var r := Rounded(g, devVaBase, vaBase, vaSize, paBase, perms);
              && Table() == MapRange(g, supply, old(Table()), r)
              && devRoot == Flush(g, pd0Page[..], beyond, old(devRoot), RootEntry(g, r.first), RootEntry(g, r.last))
    {
      MapThenTranslate(g, supply, Table(), devVaBase, vaBase, vaSize, paBase, perms);
      var vaStart := AlignDown(vaBase, g.pageSize);
      var vaEnd := AlignUp(vaBase + vaSize - 1, g.pageSize) - 1;
      var paStart := AlignDown(paBase, g.pageSize);
      this.perms := perms;
      vaStart := vaStart - devVaBase;
      vaEnd := vaEnd - devVaBase;
      SetupPd0Page(vaStart, vaEnd, paStart);
    }
  }

  /** What the caller asked for when it allocated a buffer, and the physical address it got. */
  datatype BufferObject = BufferObject(handle: nat, vaAddr: nat, size: nat, writable: bool, executable: bool,
      userptr: bool)

  function PermsOf(bo: BufferObject): Perms {
    Perms(bo.userptr, bo.executable, true, bo.writable)
  }

  class ModelCmdio {
    const vm: ProcessVM
    var boMap: map<nat, BufferObject>

    constructor (vm: ProcessVM)
      ensures this.vm == vm && boMap == map[]
    {
      this.vm := vm;
      boMap := map[];
    }

    ghost predicate Valid()
      reads this, vm, vm.pd0Page
    {
      vm.Valid() && forall h | h in boMap :: boMap[h].handle == h
    }

    /** `handle` is what the device heap returned; std::map::insert keeps an entry that is there. */
    method AllocMemory(vaAddr: nat, size: nat, writable: bool, executable: bool, userptr: bool, handle: nat)
      requires Valid()
      modifies this
      ensures Valid()
      ensures boMap == map[handle := BufferObject(handle, vaAddr, size, writable, executable, userptr)] + old(boMap)
    {
      if handle !in boMap {
        boMap := boMap[handle := BufferObject(handle, vaAddr, size, writable, executable, userptr)];
      }
    }

    /** The buffer is forgotten, but what it was mapped to stays in the table. */
    method FreeMemory(handle: nat)
      requires Valid()
      modifies this`boMap
      ensures Valid() && boMap == old(boMap) - {handle} && vm.Table() == old(vm.Table())
    {
      if handle in boMap {
        boMap := boMap - {handle};
      }
    }

    ghost predicate WholePages(handle: nat)
      requires handle in boMap
      reads this
    {
      var p := vm.g.pageSize;
      p > 0 && boMap[handle].vaAddr % p == 0 && boMap[handle].size % p == 0 && handle % p == 0
    }

    /** Exactly the pages of the rounded buffer change, each to its frame with the permissions of the buffer's flags.
        For a buffer of whole pages every byte translates to the byte at the same offset from its handle, and every
        byte outside as before. */
    method MapVA(handle: nat)
      requires Valid() && handle in boMap && handle != 0
      requires var bo := boMap[handle];
               && vm.devVaBase <= bo.vaAddr && bo.size > 0
               && vm.devVaBase <= AlignDown(bo.vaAddr, vm.g.pageSize)
               && AlignDown(bo.vaAddr, vm.g.pageSize) < RoundedEnd(bo.vaAddr, bo.size, vm.g.pageSize)
               && RoundedEnd(bo.vaAddr, bo.size, vm.g.pageSize) <= vm.devVaBase + VaLimit(vm.g)
      modifies vm`perms, vm`dev, vm`devRoot, vm.pd0Page, vm.pd1Page, vm.pdePage, vm.ptePage
      ensures Valid() && boMap == old(boMap)
      ensures var bo := boMap[handle];
              Remapped(vm.g, old(vm.Table()), vm.Table(), vm.devVaBase, bo.vaAddr, bo.size, handle, PermsOf(bo))
      ensures var bo := boMap[handle];
              forall u: nat {:trigger Lookup(vm.g, vm.Table(), u)} | u < VaLimit(vm.g) ::
                InRounded(bo.vaAddr, bo.size, vm.g.pageSize, vm.devVaBase + u) ==>
                  var leaf := Lookup(vm.g, vm.Table(), u);
                  && leaf.Some? && leaf.value.perms.readable && leaf.value.perms.writeable == bo.writable
                  && leaf.value.perms.executable == bo.executable && leaf.value.perms.system == bo.userptr
      ensures WholePages(handle) ==>
              var bo := boMap[handle];
              MovedTo(vm.g, old(vm.Table()), vm.Table(), vm.devVaBase, bo.vaAddr, bo.size, handle, PermsOf(bo))
    {
      var bo := boMap[handle];
      ghost var before := vm.Table();
      vm.Mmap(bo.vaAddr, bo.size, bo.handle, PermsOf(bo));
      if WholePages(handle) {
        WholePagesMove(vm.g, before, vm.Table(), vm.devVaBase, bo.vaAddr, bo.size, handle, PermsOf(bo));
      }
    }
  }

  /** A buffer that is allocated and mapped can be read, and written or executed exactly as asked for, at every byte of
      its pages. */
  method MapNewBuffer(c: ModelCmdio, vaAddr: nat, size: nat, writable: bool, executable: bool, userptr: bool,
                      handle: nat)
    requires c.Valid() && handle !in c.boMap && handle != 0 && size > 0 && c.vm.devVaBase <= vaAddr
    requires var p := c.vm.g.pageSize;
             && c.vm.devVaBase <= AlignDown(vaAddr, p) < RoundedEnd(vaAddr, size, p)
             && RoundedEnd(vaAddr, size, p) <= c.vm.devVaBase + VaLimit(c.vm.g)
    modifies c, c.vm, c.vm.pd0Page, c.vm.pd1Page, c.vm.pdePage, c.vm.ptePage
    ensures c.Valid()
    ensures forall u: nat {:trigger Lookup(c.vm.g, c.vm.Table(), u)} | u < VaLimit(c.vm.g) ::
              InRounded(vaAddr, size, c.vm.g.pageSize, c.vm.devVaBase + u) ==>
                var leaf := Lookup(c.vm.g, c.vm.Table(), u);
                && leaf.Some? && leaf.value.perms.readable && leaf.value.perms.writeable == writable
                && leaf.value.perms.executable == executable && leaf.value.perms.system == userptr
  {
    c.AllocMemory(vaAddr, size, writable, executable, userptr, handle);
    c.MapVA(handle);
  }
}
