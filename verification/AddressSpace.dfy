/** The whole address space: runs of mmap as a flat last-writer-wins map, the rounding done by
    mmap's entry point, and the flush of the root table. */
module AddressSpace {
  import opened Arithmetic
  import opened Wrappers
  import opened PageTable
  import opened PageTableProofs

  /** The device state and the host copy of the root table (two pages). */
  datatype Vm = Vm(dev: Dev, root: seq<Entry>)

  function VaLimit(g: Geo): nat {
    Span(g, 3) * (2 * g.entries)
  }

  ghost predicate ValidVm(g: Geo, s: Supply, vm: Vm) {
    && |vm.root| == 2 * g.entries
    && Fresh(s, vm.dev)
    && Tree(g, vm.dev.mem, 3, vm.root)
  }

  function Lookup(g: Geo, vm: Vm, v: nat): Option<Leaf>
    requires |vm.root| > 0
  {
    Walk(g, vm.dev.mem, 3, vm.root, v)
  }

  /** The root entry that covers v. */
  function RootEntry(g: Geo, v: nat): nat {
    v / Span(g, 3)
  }

  function MapRange(g: Geo, s: Supply, vm: Vm, r: Range): (vm1: Vm)
    requires |vm.root| > 0
    ensures |vm1.root| == |vm.root|
  {
    var done := MapEntries(g, s, 3, vm.dev, vm.root, RootEntry(g, r.first), RootEntry(g, r.last), 0, r);
    Vm(done.0, done.1)
  }

  ghost predicate Mappable(g: Geo, r: Range) {
    Aligned(g, r) && r.last < VaLimit(g)
  }

  /** Map then walk: every byte of the range finds its leaf; every other byte finds what it found before. */
  lemma MapThenWalk(g: Geo, s: Supply, vm: Vm, r: Range)
    requires ValidVm(g, s, vm) && Mappable(g, r)
    ensures ValidVm(g, s, MapRange(g, s, vm, r))
    ensures forall v: nat {:trigger Lookup(g, MapRange(g, s, vm, r), v)} | v < VaLimit(g) ::
              Lookup(g, MapRange(g, s, vm, r), v) ==
              if r.first <= v <= r.last then Some(Target(g, r, v)) else Lookup(g, vm, v)
  {
    var sp, n := Span(g, 3), 2 * g.entries;
    InRoot(g, r.last);
    DivMono(r.first, r.last, sp);
    EntriesCorrect(g, s, 3, vm.dev, vm.root, RootEntry(g, r.first), RootEntry(g, r.last), 0, 0, r);
    var vm1 := MapRange(g, s, vm, r);
    forall v: nat | v < VaLimit(g)
      ensures Lookup(g, vm1, v) == if r.first <= v <= r.last then Some(Target(g, r, v)) else Lookup(g, vm, v)
    {
      InRoot(g, v);
      if r.first <= v { DivMono(r.first, v, sp); }
      if v <= r.last { DivMono(v, r.last, sp); }
    }
  }

  lemma InRoot(g: Geo, v: nat)
    requires v < VaLimit(g)
    ensures v / Span(g, 3) < 2 * g.entries && v / Span(g, 3) / (2 * g.entries) == 0
  {
    var sp, n := Span(g, 3), 2 * g.entries;
    DivDiv(v, sp, n);
    DivUnique(v, sp * n, 0);
    DivBounds(v / sp, n, 0);
  }

  // ------------------------------------------------------------------------------------------
  // Runs
  // ------------------------------------------------------------------------------------------

  /** A fresh address space: a cleared root and no table page. */
  function Empty(g: Geo): (vm: Vm)
    ensures |vm.root| == 2 * g.entries
  {
    Vm(Dev(map[], {}, 0), seq(2 * g.entries, _ => ZERO_ENTRY))
  }

  function MapAll(g: Geo, s: Supply, rs: seq<Range>): (vm: Vm)
    ensures |vm.root| == 2 * g.entries
  {
    if rs == [] then Empty(g) else MapRange(g, s, MapAll(g, s, rs[..|rs| - 1]), rs[|rs| - 1])
  }

  /** The reference: the leaf given by the latest request that covers v. */
  function LastCover(g: Geo, rs: seq<Range>, v: nat): Option<Leaf> {
    if rs == [] then None
    else
      var r := rs[|rs| - 1];
      if r.first <= v <= r.last then Some(Target(g, r, v)) else LastCover(g, rs[..|rs| - 1], v)
  }

  /** After any run of mmaps the four-level table is a tree and answers like the flat map. */
  lemma {:induction false} TableIsLastCover(g: Geo, s: Supply, rs: seq<Range>)
    requires forall i: nat, j: nat | i < j :: s(i) != s(j)
    requires forall r | r in rs :: Mappable(g, r)
    ensures ValidVm(g, s, MapAll(g, s, rs))
    ensures forall v: nat {:trigger Lookup(g, MapAll(g, s, rs), v)} | v < VaLimit(g) ::
              Lookup(g, MapAll(g, s, rs), v) == LastCover(g, rs, v)
  {
    if rs == [] {
      var root := Empty(g).root;
      assert forall i | 0 <= i < |root| :: Below(map[], 3, root[i]) == {};
    } else {
      TableIsLastCover(g, s, rs[..|rs| - 1]);
      MapThenWalk(g, s, MapAll(g, s, rs[..|rs| - 1]), rs[|rs| - 1]);
    }
  }

  // ------------------------------------------------------------------------------------------
  // Rounding
  // ------------------------------------------------------------------------------------------

  /** The first byte after a request, as the entry point of mmap computes it. */
  function RoundedEnd(vaBase: nat, vaSize: nat, p: nat): nat
    requires p >= 1 && vaSize > 0
  {
    AlignUp(vaBase + vaSize - 1, p)
  }

  predicate InRounded(vaBase: nat, vaSize: nat, p: nat, v: nat)
    requires p >= 1 && vaSize > 0
  {
    AlignDown(vaBase, p) <= v < RoundedEnd(vaBase, vaSize, p)
  }

  /** mmap covers all the bytes it was asked for exactly when the last one does not sit on a page boundary;
      otherwise the last byte, and only that one, is left out. */
  lemma RoundingCovers(vaBase: nat, vaSize: nat, p: nat)
    requires p >= 1 && vaSize > 0
    ensures (forall v: nat | vaBase <= v < vaBase + vaSize :: InRounded(vaBase, vaSize, p, v))
            <==> (vaBase + vaSize - 1) % p != 0
    ensures (vaBase + vaSize - 1) % p == 0 ==> RoundedEnd(vaBase, vaSize, p) == vaBase + vaSize - 1
  {
    var x := vaBase + vaSize - 1;
    AlignBounds(vaBase, p);
    AlignBounds(x, p);
    assert InRounded(vaBase, vaSize, p, x) <==> x % p != 0;
  }

  /** For a whole number of pages the rounded request is the request itself. */
  lemma RoundingOfWholePages(vaBase: nat, vaSize: nat, p: nat)
    requires p >= 2 && vaSize > 0 && vaBase % p == 0 && vaSize % p == 0
    ensures AlignDown(vaBase, p) == vaBase && RoundedEnd(vaBase, vaSize, p) == vaBase + vaSize
  {
    var x := vaBase + vaSize;
    MultiplePlus(vaBase, vaSize, p);
    AlignBounds(vaBase, p);
    assert x / p * p == x;
    DivUnique(x - 1 + p - 1, p, x / p);
  }

  /** The range mmap hands to the table: relative to the device base, as first and last byte. */
  function Rounded(g: Geo, devVaBase: nat, vaBase: nat, vaSize: nat, paBase: nat, perms: Perms): Range
    requires vaSize > 0 && devVaBase <= AlignDown(vaBase, g.pageSize) < RoundedEnd(vaBase, vaSize, g.pageSize)
  {
    Range(AlignDown(vaBase, g.pageSize) - devVaBase, RoundedEnd(vaBase, vaSize, g.pageSize) - 1 - devVaBase,
          AlignDown(paBase, g.pageSize), perms)
  }

  lemma RoundedRange(g: Geo, devVaBase: nat, vaBase: nat, vaSize: nat, paBase: nat, perms: Perms)
    requires devVaBase % g.pageSize == 0 && devVaBase <= vaBase && vaSize > 0
    requires AlignDown(vaBase, g.pageSize) < RoundedEnd(vaBase, vaSize, g.pageSize) <= devVaBase + VaLimit(g)
    ensures devVaBase <= AlignDown(vaBase, g.pageSize)
    ensures Mappable(g, Rounded(g, devVaBase, vaBase, vaSize, paBase, perms))
  {
    var p := g.pageSize;
    AlignBounds(vaBase, p);
    AlignBounds(vaBase + vaSize - 1, p);
    AlignBounds(paBase, p);
    AlignDownMono(devVaBase, vaBase, p);
    MultipleMinus(AlignDown(vaBase, p), devVaBase, p);
    MultipleMinus(RoundedEnd(vaBase, vaSize, p), devVaBase, p);
  }

  /** The leaf a byte of the rounded request must find: its frame is as many pages after the
      physical base as its page is after the first page of the request. */
  function RequestedLeaf(g: Geo, vaBase: nat, vaSize: nat, paBase: nat, perms: Perms, v: nat): Leaf
    requires vaSize > 0 && InRounded(vaBase, vaSize, g.pageSize, v)
  {
    FirstPage(g, vaBase, v);
    DivNotNegative(paBase, g.pageSize);
    Leaf(paBase / g.pageSize + (v / g.pageSize - vaBase / g.pageSize), perms)
  }

  lemma FirstPage(g: Geo, vaBase: nat, v: nat)
    requires AlignDown(vaBase, g.pageSize) <= v
    ensures vaBase / g.pageSize <= v / g.pageSize
    ensures AlignDown(vaBase, g.pageSize) / g.pageSize == vaBase / g.pageSize
  {
    DivUnique(AlignDown(vaBase, g.pageSize), g.pageSize, vaBase / g.pageSize);
    DivMono(AlignDown(vaBase, g.pageSize), v, g.pageSize);
  }

  lemma RoundedTarget(g: Geo, devVaBase: nat, vaBase: nat, vaSize: nat, paBase: nat, perms: Perms, v: nat)
    requires devVaBase % g.pageSize == 0 && devVaBase <= vaBase && devVaBase <= v && vaSize > 0
    requires devVaBase <= AlignDown(vaBase, g.pageSize) && InRounded(vaBase, vaSize, g.pageSize, v)
    ensures Target(g, Rounded(g, devVaBase, vaBase, vaSize, paBase, perms), v - devVaBase)
            == RequestedLeaf(g, vaBase, vaSize, paBase, perms, v)
  {
    var p := g.pageSize;
    FirstPage(g, vaBase, v);
    MinusMultiple(v, devVaBase, p);
    MinusMultiple(AlignDown(vaBase, p), devVaBase, p);
    DivUnique(AlignDown(paBase, p), p, paBase / p);
  }

  /** From vm to vm1 exactly the pages of the rounded request change, each to its frame and
      exactly the given permissions. */
  ghost predicate Remapped(g: Geo, vm: Vm, vm1: Vm, devVaBase: nat, vaBase: nat, vaSize: nat, paBase: nat, perms: Perms)
    requires |vm.root| > 0 && |vm1.root| > 0 && vaSize > 0
  {
    forall u: nat {:trigger Lookup(g, vm1, u)} | u < VaLimit(g) ::
      Lookup(g, vm1, u) ==
      if InRounded(vaBase, vaSize, g.pageSize, devVaBase + u)
      then Some(RequestedLeaf(g, vaBase, vaSize, paBase, perms, devVaBase + u))
      else Lookup(g, vm, u)
  }

  /** Map then walk in the caller's terms, for any base, size and physical address. */
  lemma MapThenTranslate(g: Geo, s: Supply, vm: Vm, devVaBase: nat, vaBase: nat, vaSize: nat, paBase: nat, perms: Perms)
    requires ValidVm(g, s, vm)
    requires devVaBase % g.pageSize == 0 && devVaBase <= vaBase && vaSize > 0
    requires AlignDown(vaBase, g.pageSize) < RoundedEnd(vaBase, vaSize, g.pageSize) <= devVaBase + VaLimit(g)
    ensures devVaBase <= AlignDown(vaBase, g.pageSize)
    ensures var vm1 := MapRange(g, s, vm, Rounded(g, devVaBase, vaBase, vaSize, paBase, perms));
            && ValidVm(g, s, vm1)
            && Remapped(g, vm, vm1, devVaBase, vaBase, vaSize, paBase, perms)
  {
    RoundedRange(g, devVaBase, vaBase, vaSize, paBase, perms);
    var r := Rounded(g, devVaBase, vaBase, vaSize, paBase, perms);
    var vm1 := MapRange(g, s, vm, r);
    MapThenWalk(g, s, vm, r);
    forall u: nat | u < VaLimit(g)
      ensures Lookup(g, vm1, u) ==
              if InRounded(vaBase, vaSize, g.pageSize, devVaBase + u)
              then Some(RequestedLeaf(g, vaBase, vaSize, paBase, perms, devVaBase + u))
              else Lookup(g, vm, u)
    {
      if InRounded(vaBase, vaSize, g.pageSize, devVaBase + u) {
        RoundedTarget(g, devVaBase, vaBase, vaSize, paBase, perms, devVaBase + u);
      }
    }
  }

  /** The frame that holds physical byte x. */
  function FrameOf(g: Geo, x: nat): nat {
    x / g.pageSize
  }

  /** Offsets are from the device base.  From vm to vm1 every byte of [vaBase, vaBase + vaSize) comes to translate to
      the byte at the same offset from paBase, with these permissions, and no other byte changes. */
  ghost predicate MovedTo(g: Geo, vm: Vm, vm1: Vm, devVaBase: nat, vaBase: nat, vaSize: nat, paBase: nat, perms: Perms)
    requires |vm.root| > 0 && |vm1.root| > 0
  {
    forall u: nat {:trigger Lookup(g, vm1, u)} | u < VaLimit(g) ::
      Lookup(g, vm1, u) ==
      if vaBase <= devVaBase + u < vaBase + vaSize
      then Some(Leaf(FrameOf(g, paBase + (devVaBase + u - vaBase)), perms))
      else Lookup(g, vm, u)
  }

  /** For whole pages a remapping is that. */
  lemma WholePagesMove(g: Geo, vm: Vm, vm1: Vm, devVaBase: nat, vaBase: nat, vaSize: nat, paBase: nat, perms: Perms)
    requires |vm.root| > 0 && |vm1.root| > 0
    requires vaSize > 0 && vaBase % g.pageSize == 0 && vaSize % g.pageSize == 0 && paBase % g.pageSize == 0
    requires Remapped(g, vm, vm1, devVaBase, vaBase, vaSize, paBase, perms)
    ensures MovedTo(g, vm, vm1, devVaBase, vaBase, vaSize, paBase, perms)
  {
    PageHasTwoBytes(g);
    RoundingOfWholePages(vaBase, vaSize, g.pageSize);
    forall u: nat | u < VaLimit(g)
      ensures Lookup(g, vm1, u) ==
              if vaBase <= devVaBase + u < vaBase + vaSize
              then Some(Leaf(FrameOf(g, paBase + (devVaBase + u - vaBase)), perms))
              else Lookup(g, vm, u)
    {
      if vaBase <= devVaBase + u < vaBase + vaSize {
        LeafOfWholePages(g, vaBase, vaSize, paBase, perms, devVaBase + u);
      }
    }
  }

  lemma LeafOfWholePages(g: Geo, vaBase: nat, vaSize: nat, paBase: nat, perms: Perms, v: nat)
    requires vaSize > 0 && vaBase % g.pageSize == 0 && paBase % g.pageSize == 0
    requires vaBase <= v && InRounded(vaBase, vaSize, g.pageSize, v)
    ensures RequestedLeaf(g, vaBase, vaSize, paBase, perms, v) == Leaf(FrameOf(g, paBase + (v - vaBase)), perms)
  {
    FirstPage(g, vaBase, v);
    MinusMultiple(v, vaBase, g.pageSize);
    MinusMultiple(paBase + (v - vaBase), paBase, g.pageSize);
  }

  lemma PageHasTwoBytes(g: Geo)
    ensures g.pageSize >= 2
  {
    TimesMono(1, g.entries, g.entryBytes);
  }

  /** Subtracting whole pages subtracts their number from the page number. */
  lemma MinusMultiple(v: nat, b: nat, p: nat)
    requires p >= 1 && b % p == 0 && b <= v
    ensures b / p <= v / p && (v - b) / p == v / p - b / p
  {
    DivMono(b, v, p);
    DivBounds(v, p, v / p);
    assert (v / p - b / p) * p == v / p * p - b / p * p;
    DivUnique(v - b, p, v / p - b / p);
  }

  // ------------------------------------------------------------------------------------------
  // The root flush
  // ------------------------------------------------------------------------------------------

  /** The host memory that starts at the root table: the table, then whatever follows it. */
  function HostEntry(root: seq<Entry>, beyond: nat -> Entry, i: nat): Entry {
    if i < |root| then root[i] else beyond(i - |root|)
  }

  /** The write of root entries first..last to the device.  The source pointer is advanced
      by first * entryBytes entries instead of first entries. */
  function Flush(g: Geo, root: seq<Entry>, beyond: nat -> Entry, devRoot: seq<Entry>, first: nat, last: nat)
    : (r: seq<Entry>)
    ensures |r| == |devRoot|
  {
    seq(|devRoot|, j requires 0 <= j < |devRoot| =>
      if first <= j <= last then HostEntry(root, beyond, first * g.entryBytes + (j - first)) else devRoot[j])
  }

  /** The device root equals the host root after the flush, whatever lies beyond the host table,
      exactly when the range starts in the first root entry. */
  lemma FlushMirrors(g: Geo, mem: Memory, root: seq<Entry>, devRoot: seq<Entry>, first: nat, last: nat)
    requires Tree(g, mem, 3, root) && |devRoot| == |root| && first <= last < |root|
    requires root[first].valid
    requires forall j | 0 <= j < |root| && !(first <= j <= last) :: devRoot[j] == root[j]
    ensures (forall beyond: nat -> Entry :: Flush(g, root, beyond, devRoot, first, last) == root) <==> first == 0
  {
    if first == 0 {
      forall beyond: nat -> Entry
        ensures Flush(g, root, beyond, devRoot, first, last) == root
      {
        var flushed := Flush(g, root, beyond, devRoot, first, last);
        assert first * g.entryBytes == 0;
        forall j | 0 <= j < |root|
          ensures flushed[j] == root[j]
        {
          if j <= last {
            assert flushed[j] == HostEntry(root, beyond, 0 * g.entryBytes + j);
          }
        }
      }
    } else {
      var beyond: nat -> Entry := _ => ZERO_ENTRY;
      var from := first * g.entryBytes;
      TimesMono(2, g.entryBytes, first);
      assert from > first;
      assert HostEntry(root, beyond, from) != root[first] by {
        if from < |root| {
          assert Below(mem, 3, root[first]) !! Below(mem, 3, root[from]);
          assert root[first].address in Below(mem, 3, root[first]);
        }
      }
      assert Flush(g, root, beyond, devRoot, first, last)[first] != root[first];
    }
  }

  /** The root entries an update writes, and those it leaves alone. */
  lemma {:induction false} RootEntriesChanged(g: Geo, s: Supply, d: Dev, root: seq<Entry>, i: nat, last: nat, r: Range)
    requires 0 < |root| && last < |root| && RootEntry(g, r.first) <= i
    ensures var root1 := MapEntries(g, s, 3, d, root, i, last, 0, r).1;
            forall j | 0 <= j < |root| :: if i <= j <= last then root1[j].valid else root1[j] == root[j]
    decreases if i <= last then last - i + 1 else 0
  {
    if i <= last {
      EntryInPage(i, |root|, 0);
      var (d1, root1) := MapEntry(g, s, 3, d, root, i, 0, r);
      RootEntriesChanged(g, s, d1, root1, i + 1, last, r);
    }
  }

  /** The root after an update differs in the entries of the range alone. */
  lemma RootAfter(g: Geo, s: Supply, vm: Vm, r: Range)
    requires ValidVm(g, s, vm) && Mappable(g, r)
    ensures var root1, first, last := MapRange(g, s, vm, r).root, RootEntry(g, r.first), RootEntry(g, r.last);
            && |root1| == |vm.root| && first <= last < |vm.root| && root1[first].valid
            && forall j | 0 <= j < |vm.root| && !(first <= j <= last) :: vm.root[j] == root1[j]
  {
    var first, last := RootEntry(g, r.first), RootEntry(g, r.last);
    InRoot(g, r.last);
    DivMono(r.first, r.last, Span(g, 3));
    RootEntriesChanged(g, s, vm.dev, vm.root, first, last, r);
    var root1 := MapRange(g, s, vm, r).root;
    assert root1 == MapEntries(g, s, 3, vm.dev, vm.root, first, last, 0, r).1;
    assert root1[first].valid;
    forall j | 0 <= j < |root1| && !(first <= j <= last)
      ensures vm.root[j] == root1[j]
    {
    }
  }

  /** From a device root that equals the host root, mmap leaves an equal one, whatever lies beyond
      the host table, exactly when the range starts below the span of the first root entry. */
  lemma DeviceRootMirrors(g: Geo, s: Supply, vm: Vm, r: Range)
    requires ValidVm(g, s, vm) && Mappable(g, r)
    ensures var root1 := MapRange(g, s, vm, r).root;
            (forall beyond: nat -> Entry ::
               Flush(g, root1, beyond, vm.root, RootEntry(g, r.first), RootEntry(g, r.last)) == root1)
            <==> r.first < Span(g, 3)
  {
    var vm1 := MapRange(g, s, vm, r);
    MapThenWalk(g, s, vm, r);
    RootAfter(g, s, vm, r);
    FlushMirrors(g, vm1.dev.mem, vm1.root, vm.root, RootEntry(g, r.first), RootEntry(g, r.last));
    DivBounds(r.first, Span(g, 3), 0);
  }
}
