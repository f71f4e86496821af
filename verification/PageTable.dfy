/** The four-level device page table of src/cmdio/emu/ProcessVM.*: its entries, the walk the
    MMU performs, and the table update as a pure function that the class ProcessVM implements.

    Levels are counted from the leaf: level 0 is the PTE page, 1 the PDE page, 2 the PD1 page
    and 3 the two-page PD0 root.  A shift by a level's bit count is a division by its span. */
module PageTable {
  import opened Wrappers

  /** Page and entry sizes: a page of `pageSize` bytes holds `entries` entries of `entryBytes` bytes. */
  datatype Geometry = Geometry(pageSize: nat, entries: nat, entryBytes: nat)

  type Geo = g: Geometry | g.entries >= 1 && g.entryBytes >= 2 && g.pageSize == g.entries * g.entryBytes
    witness Geometry(2, 1, 2)

  datatype Perms = Perms(system: bool, executable: bool, readable: bool, writeable: bool)

  /** One PDE or PTE.  `address` is a frame number, that is a byte address shifted by the page bits. */
  datatype Entry = Entry(valid: bool, address: nat, perms: Perms, level: int)

  const ZERO_ENTRY := Entry(false, 0, Perms(false, false, false, false), 0)

  datatype Leaf = Leaf(frame: nat, perms: Perms)

  type Memory = map<nat, seq<Entry>>

  /** Device memory as the page tables see it.  `mem` holds the table pages by frame number,
      `used` every frame handed out so far, and `next` counts the pages BlockAlloc has returned. */
  datatype Dev = Dev(mem: Memory, used: set<nat>, next: nat)

  /** The n-th page that BlockAlloc returns, as a frame number. */
  type Supply = nat -> nat

  /** A mapping request after rounding: first and last byte, first physical byte, leaf permissions. */
  datatype Range = Range(first: nat, last: nat, pa: nat, perms: Perms)

  /** Bytes covered by one entry of a table page at level k. */
  function Span(g: Geo, k: nat): (s: nat)
    ensures s >= 1
  {
    if k == 0 then g.pageSize else Span(g, k - 1) * g.entries
  }

  function ZeroPage(g: Geo): (p: seq<Entry>)
    ensures |p| == g.entries
  {
    seq(g.entries, _ => ZERO_ENTRY)
  }

  function ReadPage(g: Geo, mem: Memory, frame: nat): (p: seq<Entry>)
    ensures |p| == g.entries
  {
    if frame in mem && |mem[frame]| == g.entries then mem[frame] else ZeroPage(g)
  }

  /** What the MMU finds for byte address v, starting from the contents of a page at level k. */
  function Walk(g: Geo, mem: Memory, k: nat, page: seq<Entry>, v: nat): Option<Leaf>
    requires |page| > 0
    decreases k
  {
    var e := page[v / Span(g, k) % |page|];
    if !e.valid then None
    else if k == 0 then Some(Leaf(e.address, e.perms))
    else if e.address in mem && |mem[e.address]| == g.entries then Walk(g, mem, k - 1, mem[e.address], v)
    else None
  }

  // ------------------------------------------------------------------------------------------
  // The tree shape
  // ------------------------------------------------------------------------------------------

  /** Table frames reachable from a page at level k. */
  ghost function Reach(mem: Memory, k: nat, page: seq<Entry>): set<nat>
    decreases k, 1
  {
    if k == 0 then {} else set i, f | 0 <= i < |page| && f in Below(mem, k, page[i]) :: f
  }

  /** Table frames reachable through one entry of a page at level k. */
  ghost function Below(mem: Memory, k: nat, e: Entry): set<nat>
    requires k > 0
    decreases k, 0
  {
    if !e.valid then {}
    else if e.address in mem then {e.address} + Reach(mem, k - 1, mem[e.address])
    else {e.address}
  }

  /** No table frame is reachable through two entries, and every reachable one is a whole page. */
  ghost predicate Tree(g: Geo, mem: Memory, k: nat, page: seq<Entry>)
    decreases k, 1
  {
    k > 0 ==>
      && (forall i | 0 <= i < |page| :: SubTree(g, mem, k, page[i]))
      && (forall i, j | 0 <= i < j < |page| :: Below(mem, k, page[i]) !! Below(mem, k, page[j]))
  }

  ghost predicate SubTree(g: Geo, mem: Memory, k: nat, e: Entry)
    requires k > 0
    decreases k, 0
  {
    e.valid ==>
      && e.address in mem
      && |mem[e.address]| == g.entries
      && e.address !in Reach(mem, k - 1, mem[e.address])
      && Tree(g, mem, k - 1, mem[e.address])
  }

  /** BlockAlloc returns pages that are new: never one in use, never the same one twice. */
  ghost predicate Fresh(s: Supply, d: Dev) {
    && d.mem.Keys <= d.used
    && (forall n: nat | n >= d.next :: s(n) !in d.used)
    && (forall m: nat, n: nat | d.next <= m < n :: s(m) != s(n))
  }

  // ------------------------------------------------------------------------------------------
  // The update
  // ------------------------------------------------------------------------------------------

  function Alloc(s: Supply, d: Dev): (nat, Dev) {
    (s(d.next), d.(used := d.used + {s(d.next)}, next := d.next + 1))
  }

  /** First and last byte covered by entry idx of a page at level k that starts at `base`. */
  function EntryBase(g: Geo, k: nat, base: nat, idx: nat): nat {
    base + idx * Span(g, k)
  }

  function EntryTop(g: Geo, k: nat, base: nat, idx: nat): nat {
    base + (idx + 1) * Span(g, k) - 1
  }

  /** The part of a request that falls on the page that starts at `base` and ends at `top`. */
  function Clip(r: Range, base: nat, top: nat): Range
  {
    var r1 := if base > r.first then r.(pa := r.pa + (base - r.first), first := base) else r;
    if top < r1.last then r1.(last := top) else r1
  }

  /** Update one table page at level k: clip, read (or clear), rewrite the entries, write back. */
  function MapPage(g: Geo, s: Supply, k: nat, d: Dev, frame: nat, isNew: bool, base: nat, top: nat, r: Range): Dev
    decreases k, 1, 0
  {
    var c := Clip(r, base, top);
    var buf := if isNew then ZeroPage(g) else ReadPage(g, d.mem, frame);
    var (d1, buf1) := MapEntries(g, s, k, d, buf, c.first / Span(g, k), c.last / Span(g, k), base, c);
    d1.(mem := d1.mem[frame := buf1])
  }

  /** Update the entries with absolute numbers i..last of a page at level k that starts at `base`. */
  function MapEntries(g: Geo, s: Supply, k: nat, d: Dev, buf: seq<Entry>, i: nat, last: nat, base: nat, r: Range)
    : (res: (Dev, seq<Entry>))
    requires |buf| > 0
    requires r.first / Span(g, k) <= i
    ensures |res.1| == |buf|
    decreases k, 0, if i <= last then last - i + 1 else 0
  {
    if i > last then (d, buf)
    else
      var (d1, buf1) := MapEntry(g, s, k, d, buf, i, base, r);
      MapEntries(g, s, k, d1, buf1, i + 1, last, base, r)
  }

  function MapEntry(g: Geo, s: Supply, k: nat, d: Dev, buf: seq<Entry>, i: nat, base: nat, r: Range)
    : (res: (Dev, seq<Entry>))
    requires |buf| > 0
    requires r.first / Span(g, k) <= i
    ensures |res.1| == |buf|
    decreases k, 0, 0
  {
    var idx := i % |buf|;
    if k == 0 then
      (d, buf[idx := Entry(true, r.pa / g.pageSize + (i - r.first / g.pageSize), r.perms, 3)])
    else
      var isNew := !buf[idx].valid;
      var (address, d1) := if isNew then Alloc(s, d) else (buf[idx].address, d);
      var d2 := MapPage(g, s, k - 1, d1, address, isNew, EntryBase(g, k, base, idx), EntryTop(g, k, base, idx), r);
      (d2, buf[idx := Entry(true, address, r.perms, 3 - k)])
  }
}
