/** Map-then-walk and the frame condition for one update of the page table, level by level. */
module PageTableProofs {
  import opened Arithmetic
  import opened Wrappers
  import opened PageTable

  /** Every span is a whole number of pages. */
  lemma {:induction false} SpanIsPages(g: Geo, k: nat)
    ensures Span(g, k) % g.pageSize == 0
  {
    if k == 0 {
      DivUnique(g.pageSize, g.pageSize, 1);
    } else {
      SpanIsPages(g, k - 1);
      MultipleTimes(Span(g, k - 1), g.pageSize, g.entries);
    }
  }

  // ------------------------------------------------------------------------------------------
  // Reachable pages
  // ------------------------------------------------------------------------------------------

  lemma {:induction false} ReachInMemory(g: Geo, mem: Memory, k: nat, page: seq<Entry>)
    requires Tree(g, mem, k, page)
    ensures Reach(mem, k, page) <= mem.Keys
    decreases k
  {
    if k > 0 {
      forall i | 0 <= i < |page|
        ensures Below(mem, k, page[i]) <= mem.Keys
      {
        BelowInMemory(g, mem, k, page[i]);
      }
    }
  }

  lemma {:induction false} BelowInMemory(g: Geo, mem: Memory, k: nat, e: Entry)
    requires k > 0 && SubTree(g, mem, k, e)
    ensures Below(mem, k, e) <= mem.Keys
    decreases k, 0
  {
    if e.valid {
      ReachInMemory(g, mem, k - 1, mem[e.address]);
    }
  }

  ghost predicate Agrees(mem: Memory, mem1: Memory, fs: set<nat>) {
    forall f | f in fs :: f in mem && f in mem1 && mem1[f] == mem[f]
  }

  ghost predicate SameWalks(g: Geo, mem: Memory, mem1: Memory, k: nat, page: seq<Entry>)
    requires |page| > 0
  {
    forall v: nat :: Walk(g, mem1, k, page, v) == Walk(g, mem, k, page, v)
  }

  /** The page an entry points to is still there, with the same contents and the same walks. */
  ghost predicate SameBelow(g: Geo, mem: Memory, mem1: Memory, k: nat, e: Entry)
    requires k > 0
  {
    e.valid ==>
      && e.address in mem && e.address in mem1
      && mem1[e.address] == mem[e.address]
      && |mem[e.address]| == g.entries
      && SameWalks(g, mem, mem1, k - 1, mem[e.address])
  }

  /** A walk, the tree shape and the reachable set depend on the reachable pages only. */
  lemma {:induction false} SameTree(g: Geo, mem: Memory, mem1: Memory, k: nat, page: seq<Entry>)
    requires Tree(g, mem, k, page) && |page| > 0
    requires Agrees(mem, mem1, Reach(mem, k, page))
    ensures Tree(g, mem1, k, page)
    ensures Reach(mem1, k, page) == Reach(mem, k, page)
    ensures SameWalks(g, mem, mem1, k, page)
    decreases k, 1
  {
    if k > 0 {
      forall i | 0 <= i < |page|
        ensures SubTree(g, mem1, k, page[i])
        ensures Below(mem1, k, page[i]) == Below(mem, k, page[i])
        ensures SameBelow(g, mem, mem1, k, page[i])
      {
        assert Below(mem, k, page[i]) <= Reach(mem, k, page);
        SameSubTree(g, mem, mem1, k, page[i]);
      }
    }
  }

  lemma {:induction false} SameSubTree(g: Geo, mem: Memory, mem1: Memory, k: nat, e: Entry)
    requires k > 0 && SubTree(g, mem, k, e)
    requires Agrees(mem, mem1, Below(mem, k, e))
    ensures SubTree(g, mem1, k, e)
    ensures Below(mem1, k, e) == Below(mem, k, e)
    ensures SameBelow(g, mem, mem1, k, e)
    decreases k, 0
  {
    if e.valid {
      SameTree(g, mem, mem1, k - 1, mem[e.address]);
    }
  }

  // ------------------------------------------------------------------------------------------
  // What one update does
  // ------------------------------------------------------------------------------------------

  ghost predicate Aligned(g: Geo, r: Range) {
    && r.first <= r.last
    && r.first % g.pageSize == 0
    && (r.last + 1) % g.pageSize == 0
    && r.pa % g.pageSize == 0
  }

  /** The leaf a request asks for at byte v. */
  function Target(g: Geo, r: Range, v: nat): Leaf
    requires r.first <= v
  {
    DivMono(r.first, v, g.pageSize);
    Leaf(r.pa / g.pageSize + (v / g.pageSize - r.first / g.pageSize), r.perms)
  }

  /** Clipping keeps the physical offset of every byte that is left. */
  lemma ClipKeepsTarget(g: Geo, r: Range, base: nat, top: nat, v: nat)
    requires Aligned(g, r) && base % g.pageSize == 0 && (top + 1) % g.pageSize == 0
    requires base <= r.last && r.first <= top && base <= top
    ensures var c := Clip(r, base, top);
            && Aligned(g, c)
            && c.first == (if base > r.first then base else r.first)
            && c.last == (if top < r.last then top else r.last)
            && (c.first <= v ==> Target(g, c, v) == Target(g, r, v))
  {
    if base > r.first {
      MultipleMinus(base, r.first, g.pageSize);
      MultiplePlus(r.pa, base - r.first, g.pageSize);
    }
  }

  /** Table pages outside `own` are as they were. */
  ghost predicate Untouched(mem: Memory, mem1: Memory, own: set<nat>) {
    forall f | f in mem && f !in own :: f in mem1 && mem1[f] == mem[f]
  }

  /** The table below a page stays a tree; it gains only pages that were never in use. */
  ghost predicate Grown(g: Geo, s: Supply, k: nat, d: Dev, page: seq<Entry>, d1: Dev, page1: seq<Entry>) {
    && |page1| == |page|
    && Fresh(s, d1)
    && d.used <= d1.used
    && d.next <= d1.next
    && Tree(g, d1.mem, k, page1)
    && (forall f | f in Reach(d1.mem, k, page1) :: f in Reach(d.mem, k, page) || f !in d.used)
  }

  /** On the q-th stretch, walks through entries lo..hi inside the request find its leaf;
      every other walk finds what it found before. */
  ghost predicate Rewalked(g: Geo, k: nat, mem: Memory, page: seq<Entry>, mem1: Memory, page1: seq<Entry>,
                           q: nat, lo: int, hi: int, r: Range)
    requires |page| > 0 && |page1| > 0
  {
    forall v: nat {:trigger Walk(g, mem1, k, page1, v)} | v / Span(g, k) / |page| == q ::
      Walk(g, mem1, k, page1, v) ==
      if lo <= v / Span(g, k) <= hi && r.first <= v <= r.last then Some(Target(g, r, v))
      else Walk(g, mem, k, page, v)
  }

  // ------------------------------------------------------------------------------------------
  // One entry
  // ------------------------------------------------------------------------------------------

  lemma LeafEntry(g: Geo, s: Supply, d: Dev, buf: seq<Entry>, i: nat, base: nat, q: nat, r: Range)
    requires |buf| > 0 && Fresh(s, d) && Aligned(g, r)
    requires q * |buf| <= i < q * |buf| + |buf|
    requires r.first / g.pageSize <= i <= r.last / g.pageSize
    ensures var (d1, buf1) := MapEntry(g, s, 0, d, buf, i, base, r);
            && Grown(g, s, 0, d, buf, d1, buf1)
            && Untouched(d.mem, d1.mem, Reach(d.mem, 0, buf))
            && Rewalked(g, 0, d.mem, buf, d1.mem, buf1, q, i, i, r)
  {
    var (d1, buf1) := MapEntry(g, s, 0, d, buf, i, base, r);
    EntryInPage(i, |buf|, q);
    forall v: nat | v / Span(g, 0) / |buf| == q
      ensures Walk(g, d1.mem, 0, buf1, v) ==
              if i <= v / Span(g, 0) <= i && r.first <= v <= r.last then Some(Target(g, r, v))
              else Walk(g, d.mem, 0, buf, v)
    {
      var j := v / Span(g, 0);
      DivBounds(j, |buf|, q);
      EntryInPage(j, |buf|, q);
      if j == i {
        PageInRange(g, r, v);
      }
    }
  }

  /** A byte whose page number lies between those of the first and last byte is in the range. */
  lemma PageInRange(g: Geo, r: Range, v: nat)
    requires Aligned(g, r)
    requires r.first / g.pageSize <= v / g.pageSize <= r.last / g.pageSize
    ensures r.first <= v <= r.last
  {
    var p, a, b, j := g.pageSize, r.first / g.pageSize, (r.last + 1) / g.pageSize, v / g.pageSize;
    DivBounds(r.first, p, a);
    DivBounds(r.last + 1, p, b);
    DivBounds(v, p, j);
    TimesMono(a, j, p);
    LastOfStretch(r.last, p);
    TimesMono(j + 1, b, p);
  }

  /** The place of the i-th stretch of `span` bytes inside a page that starts at `base`. */
  lemma ChildPlace(g: Geo, k: nat, n: nat, q: nat, i: nat, base: nat)
    requires n >= 1 && base == q * (Span(g, k) * n)
    requires q * n <= i < q * n + n
    ensures i % n == i - q * n
    ensures EntryBase(g, k, base, i % n) == i * Span(g, k)
    ensures EntryTop(g, k, base, i % n) == i * Span(g, k) + Span(g, k) - 1
    ensures i * Span(g, k) % g.pageSize == 0 && (i * Span(g, k) + Span(g, k)) % g.pageSize == 0
  {
    var sp := Span(g, k);
    EntryInPage(i, n, q);
    ChildBytes(sp, n, q, i, i % n);
    SpanIsPages(g, k);
    MultipleTimes(sp, g.pageSize, i);
    MultiplePlus(i * sp, sp, g.pageSize);
  }

  lemma ChildBytes(sp: nat, n: nat, q: nat, i: nat, idx: nat)
    requires i == q * n + idx
    ensures q * (sp * n) + idx * sp == i * sp
    ensures q * (sp * n) + (idx + 1) * sp == i * sp + sp
  {
    Regroup(q, n, sp);
    TimesSum(q * n, idx, sp);
    TimesSum(idx, 1, sp);
  }

  /** Replacing the page below one entry keeps the tree, provided the new page
      grew only by pages that were never in use. */
  lemma ReplaceBelow(g: Geo, k: nat, d: Dev, buf: seq<Entry>, d1: Dev, idx: nat, e: Entry)
    requires k > 0 && idx < |buf| && d.mem.Keys <= d.used
    requires Tree(g, d.mem, k, buf)
    requires SubTree(g, d1.mem, k, e)
    requires forall f | f in Below(d1.mem, k, e) :: f in Below(d.mem, k, buf[idx]) || f !in d.used
    requires Untouched(d.mem, d1.mem, Below(d.mem, k, buf[idx]))
    ensures Tree(g, d1.mem, k, buf[idx := e])
    ensures forall j | 0 <= j < |buf| && j != idx :: SameBelow(g, d.mem, d1.mem, k, buf[j])
    ensures forall f | f in Reach(d1.mem, k, buf[idx := e]) :: f in Reach(d.mem, k, buf) || f !in d.used
  {
    var buf1 := buf[idx := e];
    forall j | 0 <= j < |buf| && j != idx
      ensures SubTree(g, d1.mem, k, buf[j])
      ensures Below(d1.mem, k, buf[j]) == Below(d.mem, k, buf[j])
      ensures Below(d1.mem, k, buf[j]) <= d.used
      ensures Below(d1.mem, k, buf[j]) !! Below(d1.mem, k, e)
      ensures SameBelow(g, d.mem, d1.mem, k, buf[j])
    {
      BelowInMemory(g, d.mem, k, buf[j]);
      assert Below(d.mem, k, buf[j]) !! Below(d.mem, k, buf[idx]);
      SameSubTree(g, d.mem, d1.mem, k, buf[j]);
    }
    forall i, j | 0 <= i < j < |buf1|
      ensures Below(d1.mem, k, buf1[i]) !! Below(d1.mem, k, buf1[j])
    {
      assert Below(d.mem, k, buf[i]) !! Below(d.mem, k, buf[j]);
    }
    forall f | f in Reach(d1.mem, k, buf1)
      ensures f in Reach(d.mem, k, buf) || f !in d.used
    {
      var j :| 0 <= j < |buf1| && f in Below(d1.mem, k, buf1[j]);
      assert j != idx ==> f in Below(d.mem, k, buf[j]);
    }
  }

  lemma {:induction false} EntryCorrect(g: Geo, s: Supply, k: nat, d: Dev, buf: seq<Entry>, i: nat, base: nat, q: nat,
                                        r: Range)
    requires |buf| > 0 && Fresh(s, d) && Aligned(g, r) && Tree(g, d.mem, k, buf)
    requires base == q * (Span(g, k) * |buf|)
    requires q * |buf| <= i < q * |buf| + |buf|
    requires r.first / Span(g, k) <= i <= r.last / Span(g, k)
    ensures var (d1, buf1) := MapEntry(g, s, k, d, buf, i, base, r);
            && Grown(g, s, k, d, buf, d1, buf1)
            && Untouched(d.mem, d1.mem, Reach(d.mem, k, buf))
            && Rewalked(g, k, d.mem, buf, d1.mem, buf1, q, i, i, r)
    decreases k, 0, 0
  {
    if k == 0 {
      LeafEntry(g, s, d, buf, i, base, q, r);
      return;
    }
    var sp := Span(g, k);
    var idx := i % |buf|;
    ChildPlace(g, k, |buf|, q, i, base);
    ChildMeetsRange(r, sp, i);
    var isNew := !buf[idx].valid;
    var (address, d1) := if isNew then Alloc(s, d) else (buf[idx].address, d);
    assert Below(d.mem, k, buf[idx]) <= d.used by { BelowInMemory(g, d.mem, k, buf[idx]); }
    assert SubTree(g, d.mem, k, buf[idx]);
    assert Span(g, k - 1 + 1) == sp;
    PageCorrect(g, s, k - 1, d1, address, isNew, i * sp, i * sp + sp - 1, i, r);
    var d2 := MapPage(g, s, k - 1, d1, address, isNew, i * sp, i * sp + sp - 1, r);
    EntryFromPage(g, s, k, d, buf, i, q, r, address, d1, d2);
  }

  /** The i-th stretch meets the request when i lies between its first and last stretch. */
  lemma ChildMeetsRange(r: Range, sp: nat, i: nat)
    requires sp >= 1 && r.first / sp <= i <= r.last / sp
    ensures i * sp <= r.last && r.first <= i * sp + sp - 1
  {
    DivBounds(r.first, sp, r.first / sp);
    DivBounds(r.last, sp, r.last / sp);
    TimesMono(r.first / sp, i, sp);
    TimesMono(i, r.last / sp, sp);
  }

  /** From the updated child page to the updated entry. */
  lemma EntryFromPage(g: Geo, s: Supply, k: nat, d: Dev, buf: seq<Entry>, i: nat, q: nat, r: Range, address: nat,
                      d1: Dev, d2: Dev)
    requires k > 0 && |buf| > 0 && Fresh(s, d) && Tree(g, d.mem, k, buf)
    requires q * |buf| <= i < q * |buf| + |buf|
    requires var e := buf[i % |buf|];
             (address, d1) == if !e.valid then Alloc(s, d) else (e.address, d)
    requires PageUpdated(g, s, k - 1, d1, address, !buf[i % |buf|].valid, i, r, d2)
    ensures var buf1 := buf[i % |buf| := Entry(true, address, r.perms, 3 - k)];
            && Grown(g, s, k, d, buf, d2, buf1)
            && Untouched(d.mem, d2.mem, Reach(d.mem, k, buf))
            && Rewalked(g, k, d.mem, buf, d2.mem, buf1, q, i, i, r)
  {
    var idx := i % |buf|;
    EntryInPage(i, |buf|, q);
    ZeroPageIsEmpty(g, d.mem, k - 1);
    BelowInMemory(g, d.mem, k, buf[idx]);
    var e := Entry(true, address, r.perms, 3 - k);
    assert Below(d2.mem, k, e) == {address} + Reach(d2.mem, k - 1, d2.mem[address]);
    ReplaceBelow(g, k, d, buf, d2, idx, e);
    EntryRewalked(g, s, k, d, buf, i, q, r, address, d1, d2);
  }

  lemma EntryRewalked(g: Geo, s: Supply, k: nat, d: Dev, buf: seq<Entry>, i: nat, q: nat, r: Range, address: nat,
                      d1: Dev, d2: Dev)
    requires k > 0 && |buf| > 0 && q * |buf| <= i < q * |buf| + |buf|
    requires var e := buf[i % |buf|];
             (address, d1) == if !e.valid then Alloc(s, d) else (e.address, d)
    requires PageUpdated(g, s, k - 1, d1, address, !buf[i % |buf|].valid, i, r, d2)
    requires forall j | 0 <= j < |buf| && j != i % |buf| :: SameBelow(g, d.mem, d2.mem, k, buf[j])
    requires buf[i % |buf|].valid ==> buf[i % |buf|].address in d.mem && |d.mem[buf[i % |buf|].address]| == g.entries
    ensures Rewalked(g, k, d.mem, buf, d2.mem, buf[i % |buf| := Entry(true, address, r.perms, 3 - k)], q, i, i, r)
  {
    var buf1 := buf[i % |buf| := Entry(true, address, r.perms, 3 - k)];
    EntryInPage(i, |buf|, q);
    forall v: nat | v / Span(g, k) / |buf| == q
      ensures Walk(g, d2.mem, k, buf1, v) ==
              if i <= v / Span(g, k) <= i && r.first <= v <= r.last then Some(Target(g, r, v))
              else Walk(g, d.mem, k, buf, v)
    {
      var j := v / Span(g, k);
      DivBounds(j, |buf|, q);
      EntryInPage(j, |buf|, q);
      if j != i {
        assert buf1[j % |buf|] == buf[j % |buf|];
        OtherEntryWalked(g, k, d.mem, buf, d2.mem, buf1, v);
      } else {
        EntryWalked(g, s, k, d, buf, i, r, address, d1, d2, buf1, v);
      }
    }
  }

  lemma OtherEntryWalked(g: Geo, k: nat, mem: Memory, buf: seq<Entry>, mem1: Memory, buf1: seq<Entry>, v: nat)
    requires k > 0 && |buf| == |buf1| > 0 && buf1[v / Span(g, k) % |buf|] == buf[v / Span(g, k) % |buf|]
    requires SameBelow(g, mem, mem1, k, buf[v / Span(g, k) % |buf|])
    ensures Walk(g, mem1, k, buf1, v) == Walk(g, mem, k, buf, v)
  {
  }

  lemma EntryWalked(g: Geo, s: Supply, k: nat, d: Dev, buf: seq<Entry>, i: nat, r: Range, address: nat, d1: Dev,
                    d2: Dev, buf1: seq<Entry>, v: nat)
    requires k > 0 && |buf| == |buf1| > 0 && v / Span(g, k) == i
    requires var e := buf[i % |buf|];
             (address, d1) == if !e.valid then Alloc(s, d) else (e.address, d)
    requires PageUpdated(g, s, k - 1, d1, address, !buf[i % |buf|].valid, i, r, d2)
    requires buf[i % |buf|].valid ==> buf[i % |buf|].address in d.mem && |d.mem[buf[i % |buf|].address]| == g.entries
    requires buf1[i % |buf|] == Entry(true, address, r.perms, 3 - k)
    ensures Walk(g, d2.mem, k, buf1, v) ==
            if r.first <= v <= r.last then Some(Target(g, r, v)) else Walk(g, d.mem, k, buf, v)
  {
    ZeroPageIsEmpty(g, d.mem, k - 1);
    assert v / Span(g, k - 1 + 1) == i;
    assert Walk(g, d2.mem, k, buf1, v) == Walk(g, d2.mem, k - 1, d2.mem[address], v);
  }

  /** The page contents a update starts from. */
  function Before(g: Geo, mem: Memory, frame: nat, isNew: bool): (p: seq<Entry>)
    ensures |p| == g.entries
  {
    if isNew then ZeroPage(g) else ReadPage(g, mem, frame)
  }

  lemma ZeroPageIsEmpty(g: Geo, mem: Memory, k: nat)
    ensures Tree(g, mem, k, ZeroPage(g)) && Reach(mem, k, ZeroPage(g)) == {}
    ensures forall v: nat :: Walk(g, mem, k, ZeroPage(g), v) == None
  {
    var z := ZeroPage(g);
    if k > 0 {
      assert forall i | 0 <= i < |z| :: Below(mem, k, z[i]) == {};
    }
  }

  lemma {:induction false} PageCorrect(g: Geo, s: Supply, k: nat, d: Dev, frame: nat, isNew: bool, base: nat, top: nat,
                                       q: nat, r: Range)
    requires Fresh(s, d) && Aligned(g, r) && frame in d.used
    requires isNew ==> frame !in d.mem
    requires !isNew ==> frame in d.mem && |d.mem[frame]| == g.entries
    requires !isNew ==> Tree(g, d.mem, k, d.mem[frame]) && frame !in Reach(d.mem, k, d.mem[frame])
    requires base == q * Span(g, k + 1) && top == base + Span(g, k + 1) - 1
    requires base <= r.last && r.first <= top
    ensures PageUpdated(g, s, k, d, frame, isNew, q, r, MapPage(g, s, k, d, frame, isNew, base, top, r))
    decreases k, 1, 0
  {
    var sp, n := Span(g, k), g.entries;
    var c := Clip(r, base, top);
    var buf := Before(g, d.mem, frame, isNew);
    ZeroPageIsEmpty(g, d.mem, k);
    ClippedEntries(g, k, base, top, q, r);
    EntriesCorrect(g, s, k, d, buf, c.first / sp, c.last / sp, base, q, c);
    var (d1, buf1) := MapEntries(g, s, k, d, buf, c.first / sp, c.last / sp, base, c);
    PageFromEntries(g, s, k, d, frame, isNew, base, top, q, r, d1, buf1);
  }

  /** From the updated entries, written back, to the updated page. */
  lemma PageFromEntries(g: Geo, s: Supply, k: nat, d: Dev, frame: nat, isNew: bool, base: nat, top: nat, q: nat,
                        r: Range, d1: Dev, buf1: seq<Entry>)
    requires Fresh(s, d) && Aligned(g, r) && frame in d.used
    requires base == q * Span(g, k + 1) && top == base + Span(g, k + 1) - 1
    requires base <= r.last && r.first <= top
    requires |buf1| == g.entries
    requires var before := Before(g, d.mem, frame, isNew);
             var c := Clip(r, base, top);
             && frame !in Reach(d.mem, k, before)
             && Grown(g, s, k, d, before, d1, buf1)
             && Untouched(d.mem, d1.mem, Reach(d.mem, k, before))
             && Rewalked(g, k, d.mem, before, d1.mem, buf1, q, c.first / Span(g, k), c.last / Span(g, k), c)
    ensures PageUpdated(g, s, k, d, frame, isNew, q, r, d1.(mem := d1.mem[frame := buf1]))
  {
    var before := Before(g, d.mem, frame, isNew);
    var mem2 := d1.mem[frame := buf1];
    assert frame !in Reach(d1.mem, k, buf1);
    ReachInMemory(g, d1.mem, k, buf1);
    SameTree(g, d1.mem, mem2, k, buf1);
    forall v: nat | v / Span(g, k + 1) == q
      ensures Walk(g, mem2, k, buf1, v) ==
              if r.first <= v <= r.last then Some(Target(g, r, v)) else Walk(g, d.mem, k, before, v)
    {
      WalkFromEntries(g, k, d.mem, before, d1.mem, buf1, base, top, q, r, v);
    }
  }

  lemma WalkFromEntries(g: Geo, k: nat, mem: Memory, before: seq<Entry>, mem1: Memory, buf1: seq<Entry>,
                        base: nat, top: nat, q: nat, r: Range, v: nat)
    requires Aligned(g, r)
    requires base == q * Span(g, k + 1) && top == base + Span(g, k + 1) - 1
    requires base <= r.last && r.first <= top
    requires |before| == g.entries && |buf1| == g.entries
    requires var c := Clip(r, base, top);
             Rewalked(g, k, mem, before, mem1, buf1, q, c.first / Span(g, k), c.last / Span(g, k), c)
    requires v / Span(g, k + 1) == q
    ensures Walk(g, mem1, k, buf1, v) ==
            if r.first <= v <= r.last then Some(Target(g, r, v)) else Walk(g, mem, k, before, v)
  {
    DivDiv(v, Span(g, k), g.entries);
    ClippedByte(g, k, base, top, q, r, v);
  }

  /** What one call of MapPage leaves behind at `frame`, for the q-th page at level k. */
  ghost predicate PageUpdated(g: Geo, s: Supply, k: nat, d: Dev, frame: nat, isNew: bool, q: nat, r: Range, d1: Dev) {
    var before := Before(g, d.mem, frame, isNew);
    && frame in d1.mem
    && frame !in Reach(d1.mem, k, d1.mem[frame])
    && Grown(g, s, k, d, before, d1, d1.mem[frame])
    && Untouched(d.mem, d1.mem, Reach(d.mem, k, before) + {frame})
    && forall v: nat {:trigger Walk(g, d1.mem, k, d1.mem[frame], v)} | v / Span(g, k + 1) == q ::
         Walk(g, d1.mem, k, d1.mem[frame], v) ==
         if r.first <= v <= r.last then Some(Target(g, r, v)) else Walk(g, d.mem, k, before, v)
  }

  /** The clipped request stays inside the q-th page, and starts and ends in its entries. */
  lemma ClippedEntries(g: Geo, k: nat, base: nat, top: nat, q: nat, r: Range)
    requires Aligned(g, r)
    requires base == q * Span(g, k + 1) && top == base + Span(g, k + 1) - 1
    requires base <= r.last && r.first <= top
    ensures base == q * (Span(g, k) * g.entries)
    ensures var c := Clip(r, base, top);
            && Aligned(g, c)
            && q * g.entries <= c.first / Span(g, k)
            && c.last / Span(g, k) < q * g.entries + g.entries
            && c.first / Span(g, k) <= c.last / Span(g, k)
  {
    var sp, n := Span(g, k), g.entries;
    var c := Clip(r, base, top);
    PageIsAligned(g, k, q);
    ClipKeepsTarget(g, r, base, top, c.first);
    forall x: nat | base <= x <= top
      ensures q * n <= x / sp < q * n + n
    {
      DivBounds(x, sp * n, q);
      DivDiv(x, sp, n);
      DivBounds(x / sp, n, q);
    }
    DivMono(c.first, c.last, sp);
  }

  lemma PageIsAligned(g: Geo, k: nat, q: nat)
    ensures q * Span(g, k + 1) % g.pageSize == 0
    ensures (q * Span(g, k + 1) + Span(g, k + 1)) % g.pageSize == 0
  {
    var big := Span(g, k + 1);
    SpanIsPages(g, k + 1);
    MultipleTimes(big, g.pageSize, q);
    MultiplePlus(q * big, big, g.pageSize);
  }

  /** A byte of the page lies in the request exactly when it lies in the clipped one, and then
      its entry is one of those updated. */
  lemma ClippedByte(g: Geo, k: nat, base: nat, top: nat, q: nat, r: Range, v: nat)
    requires Aligned(g, r)
    requires base == q * Span(g, k + 1) && top == base + Span(g, k + 1) - 1
    requires base <= r.last && r.first <= top
    requires v / Span(g, k + 1) == q
    ensures var c := Clip(r, base, top);
            && (r.first <= v <= r.last <==> c.first <= v <= c.last)
            && (c.first <= v <= c.last ==>
                  Target(g, c, v) == Target(g, r, v) && c.first / Span(g, k) <= v / Span(g, k) <= c.last / Span(g, k))
  {
    var c := Clip(r, base, top);
    PageIsAligned(g, k, q);
    DivBounds(v, Span(g, k + 1), q);
    ClipKeepsTarget(g, r, base, top, v);
    if c.first <= v <= c.last {
      DivMono(c.first, v, Span(g, k));
      DivMono(v, c.last, Span(g, k));
    }
  }

  lemma {:induction false} EntriesCorrect(g: Geo, s: Supply, k: nat, d: Dev, buf: seq<Entry>, i: nat, last: nat,
                                          base: nat, q: nat, r: Range)
    requires |buf| > 0 && Fresh(s, d) && Aligned(g, r) && Tree(g, d.mem, k, buf)
    requires base == q * (Span(g, k) * |buf|)
    requires q * |buf| <= i && last < q * |buf| + |buf|
    requires r.first / Span(g, k) <= i && last <= r.last / Span(g, k)
    ensures var (d1, buf1) := MapEntries(g, s, k, d, buf, i, last, base, r);
            && Grown(g, s, k, d, buf, d1, buf1)
            && Untouched(d.mem, d1.mem, Reach(d.mem, k, buf))
            && Rewalked(g, k, d.mem, buf, d1.mem, buf1, q, i, last, r)
    decreases k, 0, 1, if i <= last then last - i + 1 else 0
  {
    if i <= last {
      EntryCorrect(g, s, k, d, buf, i, base, q, r);
      var (d1, buf1) := MapEntry(g, s, k, d, buf, i, base, r);
      EntriesCorrect(g, s, k, d1, buf1, i + 1, last, base, q, r);
      var (d2, buf2) := MapEntries(g, s, k, d1, buf1, i + 1, last, base, r);
      ReachInMemory(g, d.mem, k, buf);
      ReachInMemory(g, d1.mem, k, buf1);
    }
  }
}