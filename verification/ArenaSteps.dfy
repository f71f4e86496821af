/** The invariant of the Allocator of src/device/MemObj.cpp, and that what its operations do to the node map is
    what they do to the row of tiles. */
module ArenaSteps {
  import opened ArenaTiles
  import opened FreeNodes

  ghost predicate Arena(base: nat, end: nat, m: NodeMap, ts: Tiles) {
    0 < base && end < TOP && Tiling(ts, base, end) && Mirrors(m, ts)
  }

  ghost predicate UsedAt(ts: Tiles, a: nat) {
    exists i :: 0 <= i < |ts| && ts[i].addr == a && !ts[i].free
  }

  /** The set holds the top guard and otherwise only addresses in use. */
  ghost predicate HighOk(high: set<nat>, ts: Tiles) {
    TOP in high && forall a {:trigger UsedAt(ts, a)} | a in high && a != TOP :: UsedAt(ts, a)
  }

  ghost predicate ArenaOk(base: nat, end: nat, m: NodeMap, high: set<nat>, ts: Tiles) {
    Arena(base, end, m, ts) && NoMergeable(ts) && HighOk(high, ts)
  }

  lemma WholeArena(base: nat, length: nat)
    requires 0 < base && base + length < TOP
    ensures var m := map[0 := Node(0, At(base), End), base := Node(length, At(TOP), At(0)),
            TOP := Node(0, End, At(base))];
            ArenaOk(base, base + length, m, {TOP}, [Tile(base, length, true)])
    ensures FreeBytes([Tile(base, length, true)]) == length
  {
    var ts := [Tile(base, length, true)];
    assert ts[1..] == [] && FreeAddrs(ts) == [base];
    assert FreeList(ts) == [0, base, TOP];
    assert Addrs(ts) == {base} by { assert ts[0].addr == base; }
  }

  ghost predicate NoneFits(ts: Tiles, bytes: nat) {
    forall i | 0 <= i < |ts| :: !Fits(ts[i], bytes)
  }

  ghost predicate NoneFitsIn(ts: Tiles, lo: nat, hi: nat, bytes: nat)
    requires hi <= |ts|
  {
    forall i | lo <= i < hi :: !Fits(ts[i], bytes)
  }

  /** A walk up passes tiles that do not fit. */
  lemma NoneFitsUp(ts: Tiles, i: nat, k: nat, bytes: nat)
    requires i < k <= |ts| && NoneFitsIn(ts, 0, i, bytes) && !Fits(ts[i], bytes) && forall j | i < j < k :: !ts[j].free
    ensures NoneFitsIn(ts, 0, k, bytes)
  {
  }

  lemma NoneFitsDown(ts: Tiles, i: nat, k: nat, bytes: nat)
    requires k <= i < |ts| && NoneFitsIn(ts, i + 1, |ts|, bytes) && !Fits(ts[i], bytes) && forall j | k <= j < i ::
             !ts[j].free
    ensures NoneFitsIn(ts, k, |ts|, bytes)
  {
  }

  lemma NoneFitsTotal(ts: Tiles, bytes: nat)
    requires bytes > FreeBytes(ts) || bytes == 0
    ensures bytes == 0 || NoneFits(ts, bytes)
  {
    forall i | 0 <= i < |ts| && ts[i].free
      ensures ts[i].len <= FreeBytes(ts)
    {
      FitsInTotal(ts, i);
    }
  }

  // ------------------------------------------------------------------------------------------
  // Walking
  // ------------------------------------------------------------------------------------------

  /** The walk is at the free tile i, or at the top guard when i is the number of tiles. */
  ghost predicate FreeNodeAt(m: NodeMap, ts: Tiles, p: nat, i: nat)
    requires i <= |ts|
  {
    && p in m
    && p == AddrFrom(ts, i)
    && (m[p].next == End <==> i == |ts|)
    && (i < |ts| ==> ts[i].free && m[p].len == ts[i].len && m[p].next.addr in m && p > 0)
  }

  /** The walk is at the free tile below k, or at the bottom guard when k is 0. */
  ghost predicate FreeNodeBelow(m: NodeMap, ts: Tiles, p: nat, k: nat)
    requires k <= |ts|
  {
    && p in m
    && p == AddrBelow(ts, k)
    && (m[p].prior == End <==> k == 0)
    && (k > 0 ==> ts[k - 1].free && m[p].len == ts[k - 1].len && m[p].prior.addr in m && p > 0)
  }

  lemma NextInMap(m: NodeMap, ts: Tiles, i: nat)
    requires Mirrors(m, ts) && i < |ts| && ts[i].free
    ensures ts[i].addr in m && m[ts[i].addr].next.At? && m[ts[i].addr].next.addr in m
  {
    SeamLink(m, ts, i + 1);
    assert PrevFree(ts, i + 1) == i + 1;
  }

  lemma PriorInMap(m: NodeMap, ts: Tiles, i: nat)
    requires Mirrors(m, ts) && i < |ts| && ts[i].free
    ensures ts[i].addr in m && m[ts[i].addr].prior.At? && m[ts[i].addr].prior.addr in m
  {
    SeamLink(m, ts, i);
    assert NextFree(ts, i) == i;
  }

  lemma FreeNodeIs(base: nat, end: nat, m: NodeMap, ts: Tiles, i: nat)
    requires Arena(base, end, m, ts) && i <= |ts| && (i < |ts| ==> ts[i].free)
    ensures FreeNodeAt(m, ts, AddrFrom(ts, i), i)
  {
    if i < |ts| {
      NodeIs(m, ts, base, end, i);
      NextInMap(m, ts, i);
      Inside(ts, base, end, i);
    } else {
      Guards(m, ts);
    }
  }

  lemma FreeNodeBelowIs(base: nat, end: nat, m: NodeMap, ts: Tiles, k: nat)
    requires Arena(base, end, m, ts) && k <= |ts| && (k > 0 ==> ts[k - 1].free)
    ensures FreeNodeBelow(m, ts, AddrBelow(ts, k), k)
  {
    if k > 0 {
      NodeIs(m, ts, base, end, k - 1);
      PriorInMap(m, ts, k - 1);
      Inside(ts, base, end, k - 1);
    } else {
      Guards(m, ts);
    }
  }

  lemma FirstNode(base: nat, end: nat, m: NodeMap, ts: Tiles) returns (i: nat)
    requires Arena(base, end, m, ts)
    ensures 0 in m && m[0].next.At? && i <= |ts| && FreeNodeAt(m, ts, m[0].next.addr, i) && forall j | 0 <= j < i ::
            !ts[j].free
  {
    SeamLink(m, ts, 0);
    i := NextFree(ts, 0);
    FreeNodeIs(base, end, m, ts, i);
  }

  lemma NextNode(base: nat, end: nat, m: NodeMap, ts: Tiles, i: nat) returns (k: nat)
    requires Arena(base, end, m, ts) && i < |ts| && ts[i].free
    ensures ts[i].addr in m && m[ts[i].addr].next.At?
    ensures i < k <= |ts| && FreeNodeAt(m, ts, m[ts[i].addr].next.addr, k) && forall j | i < j < k :: !ts[j].free
  {
    SeamLink(m, ts, i + 1);
    k := NextFree(ts, i + 1);
    FreeNodeIs(base, end, m, ts, k);
  }

  lemma LastNode(base: nat, end: nat, m: NodeMap, ts: Tiles) returns (k: nat)
    requires Arena(base, end, m, ts)
    ensures TOP in m && m[TOP].prior.At? && k <= |ts| && FreeNodeBelow(m, ts, m[TOP].prior.addr, k) &&
            forall j | k <= j < |ts| :: !ts[j].free
  {
    k := PrevFree(ts, |ts|);
    PriorOfTop(m, ts);
    FreeNodeBelowIs(base, end, m, ts, k);
  }

  lemma PriorOfTop(m: NodeMap, ts: Tiles)
    requires Mirrors(m, ts)
    ensures TOP in m && m[TOP].prior == At(AddrBelow(ts, PrevFree(ts, |ts|)))
  {
    SeamLink(m, ts, |ts|);
    assert AddrFrom(ts, NextFree(ts, |ts|)) == TOP;
  }

  lemma PriorNode(base: nat, end: nat, m: NodeMap, ts: Tiles, i: nat) returns (k: nat)
    requires Arena(base, end, m, ts) && i < |ts| && ts[i].free
    ensures ts[i].addr in m && m[ts[i].addr].prior.At?
    ensures k <= i && FreeNodeBelow(m, ts, m[ts[i].addr].prior.addr, k) && forall j | k <= j < i :: !ts[j].free
  {
    SeamLink(m, ts, i);
    k := PrevFree(ts, i);
    FreeNodeBelowIs(base, end, m, ts, k);
  }

  /** One more free node does not fit: the walk goes on at the next one below. */
  lemma StepDown(base: nat, end: nat, m: NodeMap, ts: Tiles, i: nat, bytes: nat) returns (k: nat)
    requires Arena(base, end, m, ts) && i < |ts| && ts[i].free
    requires NoneFitsIn(ts, i + 1, |ts|, bytes) && !Fits(ts[i], bytes)
    ensures ts[i].addr in m && m[ts[i].addr].prior.At?
    ensures k <= i && FreeNodeBelow(m, ts, m[ts[i].addr].prior.addr, k) && NoneFitsIn(ts, k, |ts|, bytes)
  {
    k := PriorNode(base, end, m, ts, i);
    NoneFitsDown(ts, i, k, bytes);
  }

  /** The same on the way up. */
  lemma StepUp(base: nat, end: nat, m: NodeMap, ts: Tiles, i: nat, bytes: nat) returns (k: nat)
    requires Arena(base, end, m, ts) && i < |ts| && ts[i].free
    requires NoneFitsIn(ts, 0, i, bytes) && !Fits(ts[i], bytes)
    ensures ts[i].addr in m && m[ts[i].addr].next.At?
    ensures i < k <= |ts| && FreeNodeAt(m, ts, m[ts[i].addr].next.addr, k) && NoneFitsIn(ts, 0, k, bytes)
  {
    k := NextNode(base, end, m, ts, i);
    NoneFitsUp(ts, i, k, bytes);
  }

  // ------------------------------------------------------------------------------------------
  // Allocating
  // ------------------------------------------------------------------------------------------

  ghost predicate InsertReady(m: NodeMap, place: nat, node: nat) {
    place in m && node in m && m[place].next.At? && m[place].next.addr in m
  }

  ghost predicate RemoveReady(m: NodeMap, node: nat) {
    && node in m && m[node].prior.At? && m[node].next.At?
    && m[node].prior.addr in m && m[node].next.addr in m
    && m[node].prior.addr != node && m[node].next.addr != node
  }

  /** What splitting leaves of node p. */
  ghost predicate SplitReady(m: NodeMap, p: nat, bytes: nat) {
    p in m && 0 < bytes <= m[p].len && (bytes < m[p].len ==> InsertReady(SplitLow(m, p, bytes), p, p + bytes))
  }

  ghost function SplitLow(m: NodeMap, p: nat, bytes: nat): NodeMap
    requires p in m && bytes < m[p].len
  {
    Cutting(m, p, bytes, m[p].len - bytes, Node(0, End, End))
  }

  ghost function AfterSplit(m: NodeMap, p: nat, bytes: nat): NodeMap
    requires SplitReady(m, p, bytes)
  {
    if bytes < m[p].len then LinkIn(SplitLow(m, p, bytes), p, p + bytes) else m
  }

  ghost predicate TakeLowReady(m: NodeMap, p: nat, bytes: nat) {
    SplitReady(m, p, bytes) && RemoveReady(AfterSplit(m, p, bytes), p)
  }

  ghost function TakeLow(m: NodeMap, p: nat, bytes: nat): NodeMap
    requires TakeLowReady(m, p, bytes)
  {
    LinkOut(AfterSplit(m, p, bytes), p)
  }

  ghost predicate TakeHighReady(m: NodeMap, p: nat, bytes: nat) {
    p in m && 0 < bytes <= m[p].len && (bytes == m[p].len ==> RemoveReady(m, p))
  }

  ghost function TakeHigh(m: NodeMap, p: nat, bytes: nat): NodeMap
    requires TakeHighReady(m, p, bytes)
  {
    if bytes < m[p].len then Cutting(m, p, m[p].len - bytes, bytes, Node(0, At(0), End)) else LinkOut(m, p)
  }

  /** Tile i is split as alloc does, but still free. */
  function SplitTiles(ts: Tiles, i: nat, bytes: nat): (r: Tiles)
    requires i < |ts| && bytes <= ts[i].len
    ensures i < |r|
  {
    if bytes < ts[i].len then Cut(ts, i, bytes, true) else ts
  }

  /** alloc splits first and unlinks then, alloc_high does one or the other. */
  lemma AllocTiles(ts: Tiles, i: nat, bytes: nat)
    requires i < |ts| && Fits(ts[i], bytes)
    ensures AllocLow(ts, i, bytes) == Flip(SplitTiles(ts, i, bytes), i, false)
    ensures AllocHigh(ts, i, bytes) == HighTiles(ts, i, bytes)
  {
  }

  function HighTiles(ts: Tiles, i: nat, bytes: nat): Tiles
    requires i < |ts| && bytes <= ts[i].len
  {
    if bytes < ts[i].len then Cut(ts, i, ts[i].len - bytes, false) else Flip(ts, i, false)
  }

  lemma SplitOk(base: nat, end: nat, m: NodeMap, ts: Tiles, i: nat, bytes: nat)
    requires Arena(base, end, m, ts) && i < |ts| && Fits(ts[i], bytes) && bytes > 0
    ensures ts[i].addr in m && m[ts[i].addr].len == ts[i].len && SplitReady(m, ts[i].addr, bytes)
    ensures Arena(base, end, AfterSplit(m, ts[i].addr, bytes), SplitTiles(ts, i, bytes))
  {
    NodeIs(m, ts, base, end, i);
    if bytes < ts[i].len {
      CutStep(m, ts, base, end, i, bytes, Node(0, End, End));
      CutTiling(ts, base, end, i, bytes, true);
    }
  }

  lemma UnlinkOk(base: nat, end: nat, m: NodeMap, ts: Tiles, i: nat)
    requires Arena(base, end, m, ts) && i < |ts| && ts[i].free && ts[i].len > 0
    ensures RemoveReady(m, ts[i].addr) && Arena(base, end, LinkOut(m, ts[i].addr), Flip(ts, i, false))
  {
    RemoveStep(m, ts, i);
    BelowLast(ts, base, end, i);
    AboveFirst(ts, base, end, i + 1);
    FlipTiling(ts, base, end, i, false);
  }

  lemma TakeLowOk(base: nat, end: nat, m: NodeMap, ts: Tiles, i: nat, bytes: nat)
    requires Arena(base, end, m, ts) && i < |ts| && Fits(ts[i], bytes) && bytes > 0
    ensures TakeLowReady(m, ts[i].addr, bytes) &&
            Arena(base, end, TakeLow(m, ts[i].addr, bytes), AllocLow(ts, i, bytes))
  {
    SplitOk(base, end, m, ts, i, bytes);
    UnlinkOk(base, end, AfterSplit(m, ts[i].addr, bytes), SplitTiles(ts, i, bytes), i);
    AllocTiles(ts, i, bytes);
  }

  lemma CutHighOk(base: nat, end: nat, m: NodeMap, ts: Tiles, i: nat, bytes: nat)
    requires Arena(base, end, m, ts) && i < |ts| && ts[i].free && 0 < bytes < ts[i].len
    ensures ts[i].addr in m
    ensures Arena(base, end, Cutting(m, ts[i].addr, ts[i].len - bytes, bytes, Node(0, At(0), End)),
            HighTiles(ts, i, bytes))
  {
    var len: nat := ts[i].len - bytes;
    assert bytes == ts[i].len - len;
    NodeIs(m, ts, base, end, i);
    CutHighStep(m, ts, base, end, i, len, Node(0, At(0), End));
    CutTiling(ts, base, end, i, len, false);
  }

  lemma TakeHighOk(base: nat, end: nat, m: NodeMap, ts: Tiles, i: nat, bytes: nat)
    requires Arena(base, end, m, ts) && i < |ts| && Fits(ts[i], bytes) && bytes > 0
    ensures TakeHighReady(m, ts[i].addr, bytes) && ts[i].addr > 0
    ensures Arena(base, end, TakeHigh(m, ts[i].addr, bytes), HighTiles(ts, i, bytes))
  {
    var p := ts[i].addr;
    NodeIs(m, ts, base, end, i);
    if bytes < ts[i].len {
      assert TakeHigh(m, p, bytes) == Cutting(m, p, ts[i].len - bytes, bytes, Node(0, At(0), End));
      CutHighOk(base, end, m, ts, i, bytes);
    } else {
      UnlinkOk(base, end, m, ts, i);
      assert TakeHigh(m, p, bytes) == LinkOut(m, p);
      assert HighTiles(ts, i, bytes) == Flip(ts, i, false);
    }
  }

  lemma AllocLowOk(base: nat, end: nat, m: NodeMap, high: set<nat>, ts: Tiles, i: nat, bytes: nat)
    requires ArenaOk(base, end, m, high, ts) && i < |ts| && Fits(ts[i], bytes) && bytes > 0
    ensures TakeLowReady(m, ts[i].addr, bytes)
    ensures ArenaOk(base, end, TakeLow(m, ts[i].addr, bytes), high, AllocLow(ts, i, bytes))
    ensures FreeBytes(AllocLow(ts, i, bytes)) + bytes == FreeBytes(ts)
  {
    TakeLowOk(base, end, m, ts, i, bytes);
    LowTilesOk(high, ts, i, bytes);
  }

  lemma LowTilesOk(high: set<nat>, ts: Tiles, i: nat, bytes: nat)
    requires NoMergeable(ts) && HighOk(high, ts) && i < |ts| && Fits(ts[i], bytes) && bytes > 0
    ensures NoMergeable(AllocLow(ts, i, bytes)) && HighOk(high, AllocLow(ts, i, bytes))
    ensures FreeBytes(AllocLow(ts, i, bytes)) + bytes == FreeBytes(ts)
  {
    PartOk(ts, high, i, LowPart(ts[i], bytes));
    PartBytes(ts[i], bytes);
  }

  lemma AllocHighOk(base: nat, end: nat, m: NodeMap, high: set<nat>, ts: Tiles, i: nat, bytes: nat)
    requires ArenaOk(base, end, m, high, ts) && i < |ts| && Fits(ts[i], bytes) && bytes > 0
    ensures TakeHighReady(m, ts[i].addr, bytes) && ts[i].addr > 0
    ensures ArenaOk(base, end, TakeHigh(m, ts[i].addr, bytes), high + {ts[i].addr + ts[i].len - bytes},
            AllocHigh(ts, i, bytes))
    ensures FreeBytes(AllocHigh(ts, i, bytes)) + bytes == FreeBytes(ts)
  {
    TakeHighOk(base, end, m, ts, i, bytes);
    AllocTiles(ts, i, bytes);
    HighTilesOk(high, ts, i, bytes);
  }

  lemma HighTilesOk(high: set<nat>, ts: Tiles, i: nat, bytes: nat)
    requires NoMergeable(ts) && HighOk(high, ts) && i < |ts| && Fits(ts[i], bytes) && bytes > 0
    ensures NoMergeable(AllocHigh(ts, i, bytes))
    ensures HighOk(high + {ts[i].addr + ts[i].len - bytes}, AllocHigh(ts, i, bytes))
    ensures FreeBytes(AllocHigh(ts, i, bytes)) + bytes == FreeBytes(ts)
  {
    PartOk(ts, high, i, HighPart(ts[i], bytes));
    PartBytes(ts[i], bytes);
    HighIsUsed(ts, i, bytes);
  }

  lemma HighReady(base: nat, end: nat, m: NodeMap, high: set<nat>, ts: Tiles, i: nat, bytes: nat)
    requires ArenaOk(base, end, m, high, ts) && i < |ts| && Fits(ts[i], bytes) && bytes > 0
    ensures TakeHighReady(m, ts[i].addr, bytes) && ts[i].addr > 0
  {
    AllocHighOk(base, end, m, high, ts, i, bytes);
  }

  /** The same about the state that alloc_high leaves. */
  lemma AllocHighDone(base: nat, end: nat, m: NodeMap, high: set<nat>, ts: Tiles, i: nat, bytes: nat, m1: NodeMap,
                      high1: set<nat>, ts1: Tiles)
    requires ArenaOk(base, end, m, high, ts) && i < |ts| && Fits(ts[i], bytes) && bytes > 0 &&
             TakeHighReady(m, ts[i].addr, bytes)
    requires m1 == TakeHigh(m, ts[i].addr, bytes) && high1 == high + {ts[i].addr + ts[i].len - bytes} &&
             ts1 == AllocHigh(ts, i, bytes)
    ensures ArenaOk(base, end, m1, high1, ts1) && FreeBytes(ts1) + bytes == FreeBytes(ts)
  {
    AllocHighOk(base, end, m, high, ts, i, bytes);
  }

  lemma HighIsUsed(ts: Tiles, i: nat, bytes: nat)
    requires i < |ts| && Fits(ts[i], bytes)
    ensures UsedAt(AllocHigh(ts, i, bytes), ts[i].addr + ts[i].len - bytes)
  {
    assert AllocHigh(ts, i, bytes)[HighIndex(ts, i, bytes)] == Tile(ts[i].addr + ts[i].len - bytes, bytes, false);
  }

  lemma PartBytes(t: Tile, bytes: nat)
    requires bytes <= t.len
    ensures FreeBytes(LowPart(t, bytes)) == t.len - bytes && FreeBytes(HighPart(t, bytes)) == t.len - bytes
    ensures NoMergeable(LowPart(t, bytes)) && NoMergeable(HighPart(t, bytes))
  {
    if bytes < t.len {
      FreeBytesConcat([Tile(t.addr, bytes, false)], [Tile(t.addr + bytes, t.len - bytes, true)]);
      FreeBytesConcat([Tile(t.addr, t.len - bytes, true)], [Tile(t.addr + t.len - bytes, bytes, false)]);
    }
    forall u: Tile
      ensures FreeBytes([u]) == if u.free then u.len else 0
    {
      assert [u][1..] == [];
    }
  }

  /** Replacing a free tile keeps the used ones. */
  lemma PartOk(ts: Tiles, high: set<nat>, i: nat, mid: Tiles)
    requires NoMergeable(ts) && HighOk(high, ts) && i < |ts| && ts[i].free && mid != []
    ensures HighOk(high, ts[..i] + mid + ts[i + 1..])
    ensures NoMergeable(mid) ==> NoMergeable(ts[..i] + mid + ts[i + 1..])
    ensures FreeBytes(ts[..i] + mid + ts[i + 1..]) + ts[i].len == FreeBytes(ts) + FreeBytes(mid)
  {
    if NoMergeable(mid) {
      ReplaceApart(ts, i, mid);
    }
    ReplaceBytes(ts, i, mid);
    ReplaceHigh(ts, high, i, mid);
  }

  lemma ReplaceHigh(ts: Tiles, high: set<nat>, i: nat, mid: Tiles)
    requires HighOk(high, ts) && i < |ts| && ts[i].free
    ensures HighOk(high, ts[..i] + mid + ts[i + 1..])
  {
    var r := ts[..i] + mid + ts[i + 1..];
    forall a | a in high && a != TOP
      ensures UsedAt(r, a)
    {
      assert UsedAt(ts, a);
      var j :| 0 <= j < |ts| && ts[j].addr == a && !ts[j].free;
      assert r[if j < i then j else j - 1 + |mid|] == ts[j];
    }
  }

  // ------------------------------------------------------------------------------------------
  // Freeing
  // ------------------------------------------------------------------------------------------

  /** merge() needs nothing of its arguments when they do not touch. */
  ghost predicate Mergeable(m: NodeMap, low: nat, upper: nat) {
    && low in m && upper in m && low != upper
    && (low + m[low].len == upper ==> m[upper].next.At? && m[upper].next.addr in m && m[upper].next.addr != upper)
  }

  ghost function Merged(m: NodeMap, low: nat, upper: nat): NodeMap
    requires Mergeable(m, low, upper)
  {
    if low + m[low].len == upper then MergeNodes(m, low, upper) else m
  }

  ghost function Merger(m: NodeMap, low: nat, upper: nat): nat
    requires Mergeable(m, low, upper)
  {
    if low + m[low].len == upper then low else upper
  }

  ghost predicate LinkReady(m: NodeMap, before: nat, p: nat) {
    InsertReady(m, before, p) && Mergeable(LinkIn(m, before, p), before, p)
  }

  ghost function LinkedBelow(m: NodeMap, before: nat, p: nat): NodeMap
    requires LinkReady(m, before, p)
  {
    Merged(LinkIn(m, before, p), before, p)
  }

  ghost predicate AboveReady(m: NodeMap, node: nat) {
    node in m && m[node].next.At? && Mergeable(m, node, m[node].next.addr)
  }

  ghost predicate FreeReady(m: NodeMap, before: nat, p: nat) {
    LinkReady(m, before, p) && AboveReady(LinkedBelow(m, before, p), Merger(LinkIn(m, before, p), before, p))
  }

  /** Link node p in after `before` and merge it with what it touches. */
  ghost function PutBack(m: NodeMap, before: nat, p: nat): NodeMap
    requires FreeReady(m, before, p)
  {
    var m1, node := LinkedBelow(m, before, p), Merger(LinkIn(m, before, p), before, p);
    Merged(m1, node, m1[node].next.addr)
  }

  lemma InsertOk(base: nat, end: nat, m: NodeMap, ts: Tiles, i: nat)
    requires Arena(base, end, m, ts) && i < |ts| && !ts[i].free
    ensures var q := AddrBelow(ts, PrevFree(ts, i));
            && InsertReady(m, q, ts[i].addr) && Arena(base, end, LinkIn(m, q, ts[i].addr), Flip(ts, i, true))
  {
    BelowIs(ts, i);
    InsertStep(m, ts, base, end, i);
    assert TileOk(ts, i);
    FlipTiling(ts, base, end, i, true);
  }

  lemma MergeOk(base: nat, end: nat, m: NodeMap, ts: Tiles, i: nat)
    requires Arena(base, end, m, ts) && i + 1 < |ts| && ts[i].free && ts[i + 1].free
    ensures var low, upper := ts[i].addr, ts[i + 1].addr;
            && Joint(m, low, upper) && low < upper && m[low].len == ts[i].len && low + m[low].len == upper
            && Mergeable(m, low, upper) && Arena(base, end, MergeNodes(m, low, upper), Join(ts, i))
  {
    NodeIs(m, ts, base, end, i);
    assert TileOk(ts, i) && TileOk(ts, i + 1);
    Inside(ts, base, end, i + 1);
    MergeStep(m, ts, base, end, i);
    AboveFirst(ts, base, end, i + 2);
    JoinTiling(ts, base, end, i);
  }

  lemma CompactBelowOk(base: nat, end: nat, m: NodeMap, ts: Tiles, i: nat)
    requires Arena(base, end, m, ts) && i < |ts| && ts[i].free
    ensures var q := AddrBelow(ts, PrevFree(ts, i));
            && Mergeable(m, q, ts[i].addr) && Arena(base, end, Merged(m, q, ts[i].addr), JoinBelow(ts, i))
            && BelowIndex(ts, i) < |JoinBelow(ts, i)| && JoinBelow(ts, i)[BelowIndex(ts, i)].free
            && JoinBelow(ts, i)[BelowIndex(ts, i)].addr == Merger(m, q, ts[i].addr)
  {
    if i > 0 && ts[i - 1].free {
      CompactBelowTouching(base, end, m, ts, i);
    } else {
      CompactBelowApart(base, end, m, ts, i);
    }
  }

  lemma CompactBelowTouching(base: nat, end: nat, m: NodeMap, ts: Tiles, i: nat)
    requires Arena(base, end, m, ts) && 0 < i < |ts| && ts[i].free && ts[i - 1].free
    ensures var q := AddrBelow(ts, PrevFree(ts, i));
            && Mergeable(m, q, ts[i].addr) && Arena(base, end, Merged(m, q, ts[i].addr), JoinBelow(ts, i))
            && BelowIndex(ts, i) < |JoinBelow(ts, i)| && JoinBelow(ts, i)[BelowIndex(ts, i)].free
            && JoinBelow(ts, i)[BelowIndex(ts, i)].addr == Merger(m, q, ts[i].addr)
  {
    assert PrevFree(ts, i) == i;
    MergeOk(base, end, m, ts, i - 1);
  }

  lemma CompactBelowApart(base: nat, end: nat, m: NodeMap, ts: Tiles, i: nat)
    requires Arena(base, end, m, ts) && i < |ts| && ts[i].free && (i > 0 ==> !ts[i - 1].free)
    ensures var q := AddrBelow(ts, PrevFree(ts, i));
            && Mergeable(m, q, ts[i].addr) && Arena(base, end, Merged(m, q, ts[i].addr), JoinBelow(ts, i))
            && BelowIndex(ts, i) < |JoinBelow(ts, i)| && JoinBelow(ts, i)[BelowIndex(ts, i)].free
            && JoinBelow(ts, i)[BelowIndex(ts, i)].addr == Merger(m, q, ts[i].addr)
  {
    TouchesBelow(m, ts, base, end, i);
    BelowApart(base, end, m, ts, i);
  }

  lemma BelowApart(base: nat, end: nat, m: NodeMap, ts: Tiles, i: nat)
    requires Arena(base, end, m, ts) && i < |ts|
    ensures AddrBelow(ts, PrevFree(ts, i)) < ts[i].addr && ts[i].addr in m
  {
    BelowLast(ts, base, end, i);
    BelowIs(ts, i);
    NodeIs(m, ts, base, end, i);
  }

  lemma CompactAboveOk(base: nat, end: nat, m: NodeMap, ts: Tiles, i: nat)
    requires Arena(base, end, m, ts) && i < |ts| && ts[i].free
    ensures AboveReady(m, ts[i].addr) &&
            Arena(base, end, Merged(m, ts[i].addr, m[ts[i].addr].next.addr), JoinAbove(ts, i))
  {
    AboveLink(base, end, m, ts, i);
    TouchesAbove(ts, base, end, i);
    if i + 1 < |ts| && ts[i + 1].free {
      MergeOk(base, end, m, ts, i);
    }
  }

  lemma AboveLink(base: nat, end: nat, m: NodeMap, ts: Tiles, i: nat)
    requires Arena(base, end, m, ts) && i < |ts| && ts[i].free
    ensures Joint(m, ts[i].addr, AddrFrom(ts, NextFree(ts, i + 1))) && m[ts[i].addr].len == ts[i].len
    ensures ts[i].addr < AddrFrom(ts, NextFree(ts, i + 1))
  {
    NodeIs(m, ts, base, end, i);
    SeamLink(m, ts, i + 1);
    AboveIs(ts, i + 1);
    AboveFirst(ts, base, end, i + 1);
  }

  lemma PutBackOk(base: nat, end: nat, m: NodeMap, ts: Tiles, i: nat)
    requires Arena(base, end, m, ts) && i < |ts| && !ts[i].free
    ensures var q := AddrBelow(ts, PrevFree(ts, i));
            FreeReady(m, q, ts[i].addr) && Arena(base, end, PutBack(m, q, ts[i].addr), FreeTile(ts, i))
  {
    var q, p := AddrBelow(ts, PrevFree(ts, i)), ts[i].addr;
    InsertOk(base, end, m, ts, i);
    PrevFreeFlip(ts, i);
    CompactBelowOk(base, end, LinkIn(m, q, p), Flip(ts, i, true), i);
    CompactAboveOk(base, end, LinkedBelow(m, q, p), JoinBelow(Flip(ts, i, true), i), BelowIndex(Flip(ts, i, true), i));
  }

  lemma FreeOk(base: nat, end: nat, m: NodeMap, high: set<nat>, ts: Tiles, i: nat)
    requires ArenaOk(base, end, m, high, ts) && i < |ts| && !ts[i].free
    ensures FreeReady(m, AddrBelow(ts, PrevFree(ts, i)), ts[i].addr)
    ensures ArenaOk(base, end, PutBack(m, AddrBelow(ts, PrevFree(ts, i)), ts[i].addr), high - {ts[i].addr},
            FreeTile(ts, i))
    ensures FreeBytes(FreeTile(ts, i)) == FreeBytes(ts) + ts[i].len && ts[i].len > 0
  {
    PutBackOk(base, end, m, ts, i);
    NodeIs(m, ts, base, end, i);
    assert TileOk(ts, i);
    FreeTileApart(ts, i);
    FreeTileBytes(ts, i);
    FreeTileHigh(ts, high, i);
  }

  /** The same about the state that free leaves. */
  lemma FreeDone(base: nat, end: nat, m: NodeMap, high: set<nat>, ts: Tiles, i: nat, m1: NodeMap, high1: set<nat>,
                 ts1: Tiles)
    requires ArenaOk(base, end, m, high, ts) && i < |ts| && !ts[i].free &&
             FreeReady(m, AddrBelow(ts, PrevFree(ts, i)), ts[i].addr)
    requires m1 == PutBack(m, AddrBelow(ts, PrevFree(ts, i)), ts[i].addr) && high1 == high - {ts[i].addr} &&
             ts1 == FreeTile(ts, i)
    ensures ArenaOk(base, end, m1, high1, ts1)
  {
    FreeOk(base, end, m, high, ts, i);
  }

  lemma JoinHigh(ts: Tiles, high: set<nat>, i: nat)
    requires HighOk(high, ts) && i + 1 < |ts| && ts[i].free && ts[i + 1].free
    ensures HighOk(high, Join(ts, i))
  {
    var r := Join(ts, i);
    forall a | a in high && a != TOP
      ensures UsedAt(r, a)
    {
      assert UsedAt(ts, a);
      var j :| 0 <= j < |ts| && ts[j].addr == a && !ts[j].free;
      assert r[if j < i then j else j - 1] == ts[j];
    }
  }

  lemma FreeTileHigh(ts: Tiles, high: set<nat>, i: nat)
    requires HighOk(high, ts) && i < |ts| && !ts[i].free && ts[i].addr != TOP
    ensures HighOk(high - {ts[i].addr}, FreeTile(ts, i))
  {
    var high1, ts1 := high - {ts[i].addr}, Flip(ts, i, true);
    forall a | a in high1 && a != TOP
      ensures UsedAt(ts1, a)
    {
      assert UsedAt(ts, a);
      var j :| 0 <= j < |ts| && ts[j].addr == a && !ts[j].free;
      assert ts1[j] == ts[j];
    }
    if i > 0 && ts1[i - 1].free {
      JoinHigh(ts1, high1, i - 1);
    }
    var lo, b := JoinBelow(ts1, i), BelowIndex(ts1, i);
    if b + 1 < |lo| && lo[b + 1].free {
      JoinHigh(lo, high1, b);
    }
  }

  lemma UsedNode(base: nat, end: nat, m: NodeMap, high: set<nat>, ts: Tiles, p: nat) returns (i: nat)
    requires ArenaOk(base, end, m, high, ts) && p in m && !IsFree(m[p])
    ensures i < |ts| && ts[i].addr == p && !ts[i].free && ts[i].len == m[p].len
  {
    Guards(m, ts);
    assert p in Addrs(ts);
    i :| 0 <= i < |ts| && ts[i].addr == p;
    NodeIs(m, ts, base, end, i);
  }

  lemma HasPrevious(base: nat, end: nat, m: NodeMap, high: set<nat>, ts: Tiles, i: nat)
    requires ArenaOk(base, end, m, high, ts) && i < |ts|
    ensures 0 in m && 0 < ts[i].addr
  {
    NodeIs(m, ts, base, end, i);
  }

  /** The walk down the keys is at the tile below k, or at the bottom guard when k is 0. */
  ghost predicate KeyOf(m: NodeMap, ts: Tiles, q: nat, k: nat)
    requires k <= |ts|
  {
    q in m && q == AddrBelow(ts, k) && (if k > 0 then 0 < q && IsFree(m[q]) == ts[k - 1].free else IsFree(m[q]))
  }

  lemma KeyBelow(base: nat, end: nat, m: NodeMap, high: set<nat>, ts: Tiles, i: nat, q: nat)
    requires ArenaOk(base, end, m, high, ts) && i < |ts|
    requires q in m && q < ts[i].addr && forall k | k in m && k < ts[i].addr :: k <= q
    ensures KeyOf(m, ts, q, i)
  {
    PreviousKey(m, ts, base, end, i, q);
    if i > 0 {
      NodeIs(m, ts, base, end, i - 1);
    } else {
      Guards(m, ts);
    }
  }

  lemma PrevFreeIs(ts: Tiles, i: nat, k: nat)
    requires k <= i <= |ts| && (k > 0 ==> ts[k - 1].free) && forall j | k <= j < i :: !ts[j].free
    ensures PrevFree(ts, i) == k
  {
  }

  lemma PrevFreeFlip(ts: Tiles, i: nat)
    requires i < |ts|
    ensures PrevFree(Flip(ts, i, true), i) == PrevFree(ts, i)
    ensures AddrBelow(Flip(ts, i, true), PrevFree(ts, i)) == AddrBelow(ts, PrevFree(ts, i))
  {
    PrevFreeIs(Flip(ts, i, true), i, PrevFree(ts, i));
  }

  // ------------------------------------------------------------------------------------------
  // Freeing a part of a node
  // ------------------------------------------------------------------------------------------

  /** A node is linked before the bottom guard. */
  predicate Broken(m: NodeMap) {
    0 in m && m[0].prior != End
  }

  /** No row of tiles has such a map. */
  lemma BrokenIsNoRow(m: NodeMap, ts: Tiles)
    requires Broken(m)
    ensures !Mirrors(m, ts)
  {
  }

  /** The rest of node p is split off and linked in behind p, and then p behind q: the bottom guard has a node before
      it in both maps.  When nothing is to be freed the rest is node p itself, which is linked in behind itself. */
  ghost predicate PartialFreeRuins(m: NodeMap, p: nat, q: nat, bytes: nat, len: nat, blank: Node)
    requires bytes <= len
  {
    && p in m && InsertReady(Cutting(m, p, bytes, len - bytes, blank), p, p + bytes)
    && var m1 := LinkIn(Cutting(m, p, bytes, len - bytes, blank), p, p + bytes);
       Broken(m1) && InsertReady(m1, q, p) && Broken(LinkIn(m1, q, p))
  }

  /** free() of fewer bytes than a node has links the rest behind the node, which is used: its next link is the begin
      of the map, so the bottom guard gets a node before it, and keeps it when the node itself is linked in;
      BrokenIsNoRow says what that means. */
  lemma PartialFreeBreaks(base: nat, end: nat, m: NodeMap, ts: Tiles, i: nat, p: nat, q: nat, bytes: nat, blank: Node)
    requires Arena(base, end, m, ts) && i < |ts| && !ts[i].free && bytes < ts[i].len
    requires p == ts[i].addr && q == AddrBelow(ts, PrevFree(ts, i))
    ensures PartialFreeRuins(m, p, q, bytes, ts[i].len, blank)
  {
    AroundUsed(base, end, m, ts, i, bytes);
    LinkedToTheGuard(m, p, bytes, ts[i].len, q, AddrFrom(ts, NextFree(ts, i)), blank);
  }

  /** free() of a null pointer does not return: it looks the pointer up and finds the bottom guard, which is free. */
  lemma NullFindsTheGuard(base: nat, end: nat, m: NodeMap, ts: Tiles)
    requires Arena(base, end, m, ts)
    ensures 0 in m && IsFree(m[0]) && m[0].len == 0
  {
    Guards(m, ts);
  }

  /** Node p is used, and q and n are list neighbours around it. */
  ghost predicate UsedBetween(m: NodeMap, q: nat, p: nat, n: nat) {
    0 in m && p in m && m[p].next == At(0) && q in m && n in m && m[q].next == At(n) && q < p < n
  }

  lemma AroundUsed(base: nat, end: nat, m: NodeMap, ts: Tiles, i: nat, bytes: nat)
    requires Arena(base, end, m, ts) && i < |ts| && !ts[i].free && bytes < ts[i].len
    ensures UsedBetween(m, AddrBelow(ts, PrevFree(ts, i)), ts[i].addr, AddrFrom(ts, NextFree(ts, i)))
    ensures bytes > 0 ==> ts[i].addr + bytes !in m
  {
    NodeIs(m, ts, base, end, i);
    Guards(m, ts);
    if bytes > 0 {
      CutIsNew(m, ts, base, end, i, bytes);
    }
    SeamLink(m, ts, i);
    SeamAround(base, end, m, ts, i);
  }

  lemma LinkedToTheGuard(m: NodeMap, p: nat, bytes: nat, len: nat, q: nat, n: nat, blank: Node)
    requires UsedBetween(m, q, p, n) && bytes <= len && (bytes > 0 ==> p + bytes !in m)
    ensures PartialFreeRuins(m, p, q, bytes, len, blank)
  {
    var m1 := LinkIn(Cutting(m, p, bytes, len - bytes, blank), p, p + bytes);
    assert m1[q].next == At(n);
  }

  /** The free nodes on both sides of a used tile are other nodes, and the upper is not the bottom guard. */
  lemma SeamAround(base: nat, end: nat, m: NodeMap, ts: Tiles, i: nat)
    requires Arena(base, end, m, ts) && i < |ts| && !ts[i].free
    ensures AddrBelow(ts, PrevFree(ts, i)) < ts[i].addr < AddrFrom(ts, NextFree(ts, i))
  {
    Inside(ts, base, end, i);
    NextAbove(ts, base, end, i);
    PrevBelow(ts, base, end, i);
  }

  lemma PrevBelow(ts: Tiles, base: nat, end: nat, i: nat)
    requires Tiling(ts, base, end) && 0 < base && i < |ts|
    ensures AddrBelow(ts, PrevFree(ts, i)) < ts[i].addr
  {
    var j := PrevFree(ts, i);
    if j > 0 {
      TilesOrdered(ts, base, end, j - 1, i);
    } else {
      Inside(ts, base, end, i);
    }
  }

  lemma NextAbove(ts: Tiles, base: nat, end: nat, i: nat)
    requires Tiling(ts, base, end) && end < TOP && i < |ts| && !ts[i].free
    ensures ts[i].addr < AddrFrom(ts, NextFree(ts, i))
  {
    var k := NextFree(ts, i);
    if k < |ts| {
      TilesOrdered(ts, base, end, i, k);
    } else {
      Inside(ts, base, end, i);
    }
  }
}
