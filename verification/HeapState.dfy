/** The three coupled indexes of a SimpleHeap as values: the block list, the free list and the block cache,
    with the blocks held from the block allocator and the allocations that callers hold. */
module HeapState {
  import opened Wrappers
  import opened HeapBlocks

  datatype Block = Block(base: nat, length: nat)

  type BlockList = map<nat, Fragments>

  predicate Discarded(fs: Fragments) {
    fs != [] && fs[0].discard
  }

  /** The block allocator lends blocks of at least block_size() bytes that do not overlap; 0 is the null pointer. */
  ghost predicate Apart(held: map<nat, nat>, blockSize: nat) {
    && (forall b | b in held :: b > 0 && held[b] >= blockSize)
    && (forall b, c | b in held && c in held && b < c :: b + held[b] <= c)
  }

  /** Every listed block is held and good; one that is not discarded has an allocated fragment. */
  ghost predicate BlocksOk(blocks: BlockList, held: map<nat, nat>) {
    forall b | b in blocks :: b in held && BlockOk(blocks[b], b, b + held[b])
  }

  ghost predicate BlockOk(fs: Fragments, base: nat, end: nat) {
    && GoodBlock(fs, base, end, Discarded(fs))
    && (!Discarded(fs) && |fs| == 1 ==> !fs[0].free)
  }

  /** The free list holds exactly the records of the free, non-discarded fragments. */
  ghost predicate FreeListOk(freeList: set<FreeKey>, blocks: BlockList) {
    && (forall k {:trigger ListedIn(blocks, k)} | k in freeList :: ListedIn(blocks, k))
    && (forall b, k | b in blocks && k in Published(blocks[b]) :: k in freeList)
  }

  ghost predicate ListedIn(blocks: BlockList, k: FreeKey) {
    exists b | b in blocks :: k in Published(blocks[b])
  }

  /** Every block is either listed or cached once. */
  ghost predicate CacheOk(cache: seq<Block>, blocks: BlockList, held: map<nat, nat>) {
    && (forall i | 0 <= i < |cache| ::
        cache[i].base in held && held[cache[i].base] == cache[i].length && cache[i].base !in blocks)
    && (forall i, j | 0 <= i < j < |cache| :: cache[i].base != cache[j].base)
    && (forall b {:trigger CachedAt(cache, b)} | b in held :: b in blocks || CachedAt(cache, b))
  }

  ghost predicate CachedAt(cache: seq<Block>, b: nat) {
    exists i :: 0 <= i < |cache| && cache[i].base == b
  }

  /** Every allocation a caller holds is an allocated fragment of a listed block, and in blocks
      that are not discarded there are no others. */
  ghost predicate LiveOk(live: map<nat, nat>, blocks: BlockList) {
    && (forall p {:trigger Allocated(blocks, p, live[p])} | p in live :: Allocated(blocks, p, live[p]))
    && (forall b, p, n | b in blocks && !Discarded(blocks[b]) && UsedIn(blocks[b], p, n) :: p in live && live[p] == n)
  }

  ghost predicate Allocated(blocks: BlockList, p: nat, n: nat) {
    exists b | b in blocks :: UsedIn(blocks[b], p, n)
  }

  // ------------------------------------------------------------------------------------------
  // Where things are
  // ------------------------------------------------------------------------------------------

  lemma UsedInside(fs: Fragments, base: nat, end: nat, p: nat, n: nat)
    requires Tiled(fs, base, end) && UsedIn(fs, p, n)
    ensures base <= p && p + n <= end && n > 0
  {
    var i :| 0 <= i < |fs| && fs[i].base == p && fs[i].size == n && !fs[i].free;
    Ordered(fs, base, end, i);
  }

  /** The block that starts at the greatest listed address not above p is the only one that can contain p. */
  lemma OneBlock(held: map<nat, nat>, blockSize: nat, b: nat, c: nat, p: nat)
    requires Apart(held, blockSize) && b in held && c in held
    requires b <= p < b + held[b] && c <= p < c + held[c]
    ensures b == c
  {
  }

  lemma WhereLive(live: map<nat, nat>, blocks: BlockList, held: map<nat, nat>, p: nat) returns (b: nat)
    requires BlocksOk(blocks, held) && LiveOk(live, blocks) && p in live
    ensures b in blocks && b in held && Tiled(blocks[b], b, b + held[b]) && UsedIn(blocks[b], p, live[p])
    ensures b <= p && p + live[p] <= b + held[b] && live[p] > 0
  {
    assert Allocated(blocks, p, live[p]);
    b :| b in blocks && UsedIn(blocks[b], p, live[p]);
    assert BlockOk(blocks[b], b, b + held[b]);
    UsedInside(blocks[b], b, b + held[b], p, live[p]);
  }

  /** Two callers never hold overlapping memory, and all of it lies in a listed block. */
  lemma LiveDisjoint(live: map<nat, nat>, blocks: BlockList, held: map<nat, nat>, blockSize: nat, p: nat, q: nat)
    requires Apart(held, blockSize) && BlocksOk(blocks, held) && LiveOk(live, blocks)
    requires p in live && q in live && p < q
    ensures p + live[p] <= q
    ensures exists b | b in blocks :: b <= p && p + live[p] <= b + held[b]
  {
    var b := WhereLive(live, blocks, held, p);
    var c := WhereLive(live, blocks, held, q);
    if b == c {
      UsedApart(blocks[b], b, b + held[b], p, live[p], q, live[q]);
    }
  }

  lemma UsedApart(fs: Fragments, base: nat, end: nat, p: nat, n: nat, q: nat, m: nat)
    requires Tiled(fs, base, end) && UsedIn(fs, p, n) && UsedIn(fs, q, m) && p < q
    ensures p + n <= q
  {
    var i :| 0 <= i < |fs| && fs[i].base == p && fs[i].size == n && !fs[i].free;
    var j :| 0 <= j < |fs| && fs[j].base == q && fs[j].size == m && !fs[j].free;
    Ordered(fs, base, end, i);
    Ordered(fs, base, end, j);
  }

  lemma KeyInside(blocks: BlockList, held: map<nat, nat>, b: nat, k: FreeKey)
    requires BlocksOk(blocks, held) && b in blocks && k in Published(blocks[b])
    ensures b <= k.base < b + held[b] && !Discarded(blocks[b])
  {
    PublishedInside(blocks[b], b, b + held[b], Discarded(blocks[b]), k);
  }

  /** A record of the free list names a free fragment of the block found below its address. */
  lemma LocateKey(freeList: set<FreeKey>, blocks: BlockList, held: map<nat, nat>, blockSize: nat, k: FreeKey, b: nat)
    requires Apart(held, blockSize) && BlocksOk(blocks, held) && FreeListOk(freeList, blocks) && k in freeList
    requires (b in blocks && b <= k.base && forall c | c in blocks && c <= k.base :: c <= b) ||
             forall c | c in blocks :: c > k.base
    ensures b in blocks && b in held && k in Published(blocks[b]) && b <= k.base < b + held[b] && !Discarded(blocks[b])
    ensures exists i :: 0 <= i < |blocks[b]| && blocks[b][i].base == k.base
    ensures forall i | 0 <= i < |blocks[b]| && blocks[b][i].base == k.base ::
            blocks[b][i].size == k.size && blocks[b][i].free
  {
    assert ListedIn(blocks, k);
    var c :| c in blocks && k in Published(blocks[c]);
    KeyInside(blocks, held, c, k);
    assert b == c;
    var fs := blocks[b];
    assert BlockOk(fs, b, b + held[b]);
    var j :| 0 <= j < |fs| && fs[j].entry == Some(k);
    assert TrueEntry(fs[j]);
    forall i | 0 <= i < |fs| && fs[i].base == k.base
      ensures fs[i].size == k.size && fs[i].free
    {
      SameBase(fs, b, b + held[b], i, j);
    }
  }

  // ------------------------------------------------------------------------------------------
  // One block changes
  // ------------------------------------------------------------------------------------------

  lemma BlocksUpdate(blocks: BlockList, held: map<nat, nat>, b: nat, fs1: Fragments)
    requires BlocksOk(blocks, held) && b in blocks && b in held && BlockOk(fs1, b, b + held[b])
    ensures BlocksOk(blocks[b := fs1], held)
    ensures ListedLengths(blocks[b := fs1], held) == ListedLengths(blocks, held)
  {
  }

  /** When one listed block trades some of its records for others, so does the free list. */
  lemma FreeListUpdate(freeList: set<FreeKey>, blocks: BlockList, held: map<nat, nat>, blockSize: nat,
                       b: nat, fs1: Fragments, removed: set<FreeKey>, added: set<FreeKey>)
    requires Apart(held, blockSize) && BlocksOk(blocks, held) && FreeListOk(freeList, blocks)
    requires b in blocks && removed <= Published(blocks[b])
    requires Published(fs1) == Published(blocks[b]) - removed + added
    ensures FreeListOk(freeList - removed + added, blocks[b := fs1])
  {
    var blocks1 := blocks[b := fs1];
    forall k | k in freeList - removed + added
      ensures ListedIn(blocks1, k)
    {
      if k in added {
        assert k in Published(blocks1[b]);
      } else {
        assert ListedIn(blocks, k);
        var c :| c in blocks && k in Published(blocks[c]);
        assert k in Published(blocks1[c]);
      }
    }
    forall c, k | c in blocks1 && k in Published(blocks1[c])
      ensures k in freeList - removed + added
    {
      if c != b && k in removed {
        KeyInside(blocks, held, b, k);
        KeyInside(blocks, held, c, k);
        OneBlock(held, blockSize, b, c, k.base);
      }
    }
  }

  lemma FreeListInsert(freeList: set<FreeKey>, blocks: BlockList, b: nat, fs1: Fragments)
    requires FreeListOk(freeList, blocks) && b !in blocks
    ensures FreeListOk(freeList + Published(fs1), blocks[b := fs1])
  {
    var blocks1 := blocks[b := fs1];
    forall k | k in freeList + Published(fs1)
      ensures ListedIn(blocks1, k)
    {
      if k in Published(fs1) {
        assert k in Published(blocks1[b]);
      } else {
        assert ListedIn(blocks, k);
        var c :| c in blocks && k in Published(blocks[c]);
        assert k in Published(blocks1[c]);
      }
    }
  }

  lemma FreeListRemove(freeList: set<FreeKey>, blocks: BlockList, held: map<nat, nat>, blockSize: nat, b: nat)
    requires Apart(held, blockSize) && BlocksOk(blocks, held) && FreeListOk(freeList, blocks) && b in blocks
    ensures FreeListOk(freeList - Published(blocks[b]), blocks - {b})
  {
    var blocks1 := blocks - {b};
    forall k | k in freeList - Published(blocks[b])
      ensures ListedIn(blocks1, k)
    {
      assert ListedIn(blocks, k);
      var c :| c in blocks && k in Published(blocks[c]);
      assert k in Published(blocks1[c]);
    }
    forall c, k | c in blocks1 && k in Published(blocks1[c])
      ensures k in freeList - Published(blocks[b])
    {
      if k in Published(blocks[b]) {
        KeyInside(blocks, held, b, k);
        KeyInside(blocks, held, c, k);
        OneBlock(held, blockSize, b, c, k.base);
      }
    }
  }

  /** An address is in use in one block only, at one size. */
  lemma UsedOnce(blocks: BlockList, held: map<nat, nat>, blockSize: nat, b: nat, c: nat, p: nat, n: nat, m: nat)
    requires Apart(held, blockSize) && BlocksOk(blocks, held)
    requires b in blocks && c in blocks && UsedIn(blocks[b], p, n) && UsedIn(blocks[c], p, m)
    ensures b == c && n == m
  {
    UsedInside(blocks[b], b, b + held[b], p, n);
    UsedInside(blocks[c], c, c + held[c], p, m);
    OneBlock(held, blockSize, b, c, p);
    var i :| 0 <= i < |blocks[b]| && blocks[b][i].base == p && blocks[b][i].size == n && !blocks[b][i].free;
    var j :| 0 <= j < |blocks[b]| && blocks[b][j].base == p && blocks[b][j].size == m && !blocks[b][j].free;
    SameBase(blocks[b], b, b + held[b], i, j);
  }

  lemma FreeIsNotUsed(fs: Fragments, base: nat, end: nat, i: nat, n: nat)
    requires Tiled(fs, base, end) && i < |fs| && fs[i].free
    ensures !UsedIn(fs, fs[i].base, n)
  {
    if UsedIn(fs, fs[i].base, n) {
      var j :| 0 <= j < |fs| && fs[j].base == fs[i].base && fs[j].size == n && !fs[j].free;
      SameBase(fs, base, end, i, j);
    }
  }

  lemma FragmentDiscard(blocks: BlockList, held: map<nat, nat>, b: nat, i: nat)
    requires BlocksOk(blocks, held) && b in blocks && i < |blocks[b]|
    ensures blocks[b][i].discard == Discarded(blocks[b]) && TrueEntry(blocks[b][i])
  {
    assert BlockOk(blocks[b], b, b + held[b]);
  }

  lemma NoBlockBelow(blocks: BlockList, held: map<nat, nat>, p: nat)
    requires BlocksOk(blocks, held) && forall b | b in blocks :: b > p
    ensures forall n :: !Allocated(blocks, p, n)
  {
    forall n: nat
      ensures !Allocated(blocks, p, n)
    {
      if Allocated(blocks, p, n) {
        var c := WhereAllocated(blocks, held, p, n);
      }
    }
  }

  lemma WhereAllocated(blocks: BlockList, held: map<nat, nat>, p: nat, n: nat) returns (b: nat)
    requires BlocksOk(blocks, held) && Allocated(blocks, p, n)
    ensures b in blocks && b in held && Tiled(blocks[b], b, b + held[b]) && UsedIn(blocks[b], p, n)
    ensures b <= p && p + n <= b + held[b] && n > 0
  {
    b :| b in blocks && UsedIn(blocks[b], p, n);
    assert BlockOk(blocks[b], b, b + held[b]);
    UsedInside(blocks[b], b, b + held[b], p, n);
  }

  /** An address that is not that of an allocated fragment in the block below it is not allocated. */
  lemma NotAllocated(blocks: BlockList, held: map<nat, nat>, blockSize: nat, b: nat, p: nat)
    requires Apart(held, blockSize) && BlocksOk(blocks, held)
    requires b in blocks && b <= p && forall c | c in blocks && c <= p :: c <= b
    requires (forall i | 0 <= i < |blocks[b]| :: blocks[b][i].base != p)
             || exists i :: 0 <= i < |blocks[b]| && blocks[b][i].base == p && blocks[b][i].free
    ensures forall n :: !Allocated(blocks, p, n)
  {
    forall n: nat
      ensures !Allocated(blocks, p, n)
    {
      if Allocated(blocks, p, n) {
        var c := WhereAllocated(blocks, held, p, n);
        assert c == b;
        if i :| 0 <= i < |blocks[b]| && blocks[b][i].base == p && blocks[b][i].free {
          FreeIsNotUsed(blocks[b], b, b + held[b], i, n);
        }
      }
    }
  }

  lemma NullIsNotLive(live: map<nat, nat>, blocks: BlockList, held: map<nat, nat>, blockSize: nat)
    requires Apart(held, blockSize) && BlocksOk(blocks, held) && LiveOk(live, blocks)
    ensures 0 !in live && live - {0} == live
  {
    if 0 in live {
      var b := WhereLive(live, blocks, held, 0);
    }
  }

  /** A free fragment is nobody's allocation. */
  lemma FreeIsNotLive(live: map<nat, nat>, blocks: BlockList, held: map<nat, nat>, blockSize: nat, b: nat, i: nat)
    requires Apart(held, blockSize) && BlocksOk(blocks, held) && LiveOk(live, blocks)
    requires b in blocks && i < |blocks[b]| && blocks[b][i].free
    ensures blocks[b][i].base !in live
  {
    var fs, p := blocks[b], blocks[b][i].base;
    if p in live {
      var c := WhereLive(live, blocks, held, p);
      assert BlockOk(fs, b, b + held[b]);
      Ordered(fs, b, b + held[b], i);
      OneBlock(held, blockSize, b, c, p);
      FreeIsNotUsed(fs, b, b + held[b], i, live[p]);
    }
  }

  /** An address outside the listed blocks is nobody's allocation. */
  lemma OutsideIsNotLive(live: map<nat, nat>, blocks: BlockList, held: map<nat, nat>, blockSize: nat, b: nat)
    requires Apart(held, blockSize) && BlocksOk(blocks, held) && LiveOk(live, blocks)
    requires b in held && b !in blocks && held[b] > 0
    ensures b !in live
  {
    if b in live {
      var c := WhereLive(live, blocks, held, b);
      OneBlock(held, blockSize, b, c, b);
    }
  }

  /** Replacing a block so that exactly the allocation at p0 appears. */
  lemma LiveGrow(live: map<nat, nat>, blocks: BlockList, b: nat, fs1: Fragments, p0: nat, n0: nat)
    requires LiveOk(live, blocks) && p0 !in live && !Discarded(fs1)
    requires b in blocks ==> !Discarded(blocks[b])
    requires forall p: nat, n: nat :: UsedIn(fs1, p, n) <==>
             (b in blocks && UsedIn(blocks[b], p, n)) || (p == p0 && n == n0)
    ensures LiveOk(live[p0 := n0], blocks[b := fs1])
  {
    var blocks1, live1 := blocks[b := fs1], live[p0 := n0];
    forall p | p in live1
      ensures Allocated(blocks1, p, live1[p])
    {
      if p == p0 {
        assert UsedIn(blocks1[b], p, live1[p]);
      } else {
        assert Allocated(blocks, p, live[p]);
        var c :| c in blocks && UsedIn(blocks[c], p, live[p]);
        assert UsedIn(blocks1[c], p, live1[p]);
      }
    }
  }

  /** Replacing a block so that exactly the allocation at p0 may disappear. */
  lemma LiveShrink(live: map<nat, nat>, blocks: BlockList, held: map<nat, nat>, blockSize: nat,
                   b: nat, fs1: Fragments, p0: nat, n0: nat)
    requires Apart(held, blockSize) && BlocksOk(blocks, held) && LiveOk(live, blocks)
    requires b in blocks && UsedIn(blocks[b], p0, n0) && Discarded(fs1) == Discarded(blocks[b])
    requires forall p: nat, n: nat | p != p0 :: UsedIn(fs1, p, n) <==> UsedIn(blocks[b], p, n)
    requires !Discarded(fs1) ==> forall n: nat :: !UsedIn(fs1, p0, n)
    ensures LiveOk(live - {p0}, blocks[b := fs1])
  {
    var blocks1, live1 := blocks[b := fs1], live - {p0};
    forall p | p in live1
      ensures Allocated(blocks1, p, live1[p])
    {
      assert Allocated(blocks, p, live[p]);
      var c :| c in blocks && UsedIn(blocks[c], p, live[p]);
      assert UsedIn(blocks1[c], p, live1[p]);
    }
    forall c, p, n | c in blocks1 && !Discarded(blocks1[c]) && UsedIn(blocks1[c], p, n)
      ensures p in live1 && live1[p] == n
    {
      assert UsedIn(blocks[c], p, n);
      if p == p0 {
        UsedOnce(blocks, held, blockSize, b, c, p, n0, n);
      }
    }
  }

  /** Dropping a block whose only allocation is the one at p0. */
  lemma LiveDrop(live: map<nat, nat>, blocks: BlockList, held: map<nat, nat>, blockSize: nat, b: nat, p0: nat, n0: nat)
    requires Apart(held, blockSize) && BlocksOk(blocks, held) && LiveOk(live, blocks)
    requires b in blocks && UsedIn(blocks[b], p0, n0)
    requires forall p: nat, n: nat | UsedIn(blocks[b], p, n) :: p == p0
    ensures LiveOk(live - {p0}, blocks - {b})
  {
    var blocks1, live1 := blocks - {b}, live - {p0};
    forall p | p in live1
      ensures Allocated(blocks1, p, live1[p])
    {
      assert Allocated(blocks, p, live[p]);
      var c :| c in blocks && UsedIn(blocks[c], p, live[p]);
      assert UsedIn(blocks1[c], p, live1[p]);
    }
    forall c, p, n | c in blocks1 && !Discarded(blocks1[c]) && UsedIn(blocks1[c], p, n)
      ensures p in live1 && live1[p] == n
    {
      assert UsedIn(blocks[c], p, n);
      if p == p0 {
        UsedOnce(blocks, held, blockSize, b, c, p, n0, n);
      }
    }
  }

  /** Discarding a block moves no allocation. */
  lemma LiveDiscard(live: map<nat, nat>, blocks: BlockList, b: nat, fs1: Fragments)
    requires LiveOk(live, blocks) && b in blocks && Discarded(fs1)
    requires forall p: nat, n: nat :: UsedIn(fs1, p, n) <==> UsedIn(blocks[b], p, n)
    ensures LiveOk(live, blocks[b := fs1])
  {
    var blocks1 := blocks[b := fs1];
    forall p | p in live
      ensures Allocated(blocks1, p, live[p])
    {
      assert Allocated(blocks, p, live[p]);
      var c :| c in blocks && UsedIn(blocks[c], p, live[p]);
      assert UsedIn(blocks1[c], p, live[p]);
    }
  }

  // ------------------------------------------------------------------------------------------
  // Byte accounting
  // ------------------------------------------------------------------------------------------

  ghost function SumOver(ks: set<nat>, m: map<nat, nat>): nat
    requires ks <= m.Keys
  {
    if ks == {} then 0
    else
      var k :| k in ks;
      m[k] + SumOver(ks - {k}, m)
  }

  ghost function Total(m: map<nat, nat>): nat {
    SumOver(m.Keys, m)
  }

  lemma {:induction false} SumRemove(ks: set<nat>, m: map<nat, nat>, k: nat)
    requires ks <= m.Keys && k in ks
    ensures SumOver(ks, m) == m[k] + SumOver(ks - {k}, m)
  {
    var j :| j in ks && SumOver(ks, m) == m[j] + SumOver(ks - {j}, m);
    if j != k {
      SumRemove(ks - {j}, m, k);
      SumRemove(ks - {k}, m, j);
      assert ks - {j} - {k} == ks - {k} - {j};
    }
  }

  lemma {:induction false} SumSame(ks: set<nat>, m: map<nat, nat>, m1: map<nat, nat>)
    requires ks <= m.Keys && ks <= m1.Keys && forall k | k in ks :: m[k] == m1[k]
    ensures SumOver(ks, m) == SumOver(ks, m1)
  {
    if ks != {} {
      var k :| k in ks;
      SumRemove(ks, m, k);
      SumRemove(ks, m1, k);
      SumSame(ks - {k}, m, m1);
    }
  }

  lemma TotalRemove(m: map<nat, nat>, k: nat)
    requires k in m
    ensures Total(m) == m[k] + Total(m - {k})
  {
    SumRemove(m.Keys, m, k);
    assert (m - {k}).Keys == m.Keys - {k};
    SumSame(m.Keys - {k}, m, m - {k});
  }

  lemma TotalInsert(m: map<nat, nat>, k: nat, n: nat)
    requires k !in m
    ensures Total(m[k := n]) == n + Total(m)
  {
    TotalRemove(m[k := n], k);
    assert m[k := n] - {k} == m;
  }

  function CacheBytes(cache: seq<Block>): nat {
    if cache == [] then 0 else cache[0].length + CacheBytes(cache[1..])
  }

  lemma {:induction false} CacheBytesAppend(cache: seq<Block>, b: Block)
    ensures CacheBytes(cache + [b]) == CacheBytes(cache) + b.length
  {
    if cache == [] {
      assert cache + [b] == [b];
    } else {
      assert (cache + [b])[1..] == cache[1..] + [b];
      CacheBytesAppend(cache[1..], b);
    }
  }

  /** Lengths of the listed blocks. */
  function ListedLengths(blocks: BlockList, held: map<nat, nat>): map<nat, nat> {
    map b | b in blocks && b in held :: held[b]
  }

  // ------------------------------------------------------------------------------------------
  // The whole state
  // ------------------------------------------------------------------------------------------

  datatype Heap = Heap(freeList: set<FreeKey>, blocks: BlockList, cache: seq<Block>,
                       inUseSize: nat, cacheSize: nat, held: map<nat, nat>)

  /** in_use_size_ and cache_size_ are the bytes of the listed and of the cached blocks,
      and together all bytes taken from the block allocator and not given back. */
  ghost predicate CountsOk(h: Heap) {
    && h.inUseSize == Total(ListedLengths(h.blocks, h.held))
    && h.cacheSize == CacheBytes(h.cache)
    && Total(h.held) == h.inUseSize + h.cacheSize
  }

  ghost predicate HeapOk(h: Heap, live: map<nat, nat>, blockSize: nat) {
    && blockSize > 0
    && Apart(h.held, blockSize)
    && BlocksOk(h.blocks, h.held)
    && FreeListOk(h.freeList, h.blocks)
    && CacheOk(h.cache, h.blocks, h.held)
    && LiveOk(live, h.blocks)
    && CountsOk(h)
  }

  ghost function DiscardedBlocks(blocks: BlockList): set<nat> {
    set b | b in blocks && Discarded(blocks[b])
  }

  /** No discarded block contains p. */
  ghost predicate OutsideDiscarded(h: Heap, p: nat) {
    forall c | c in DiscardedBlocks(h.blocks) && c in h.held :: !(c <= p < c + h.held[c])
  }

  /** A record of the free list whose address lies in a held block is that of a free fragment of this block. */
  lemma ListedFragment(h: Heap, blockSize: nat, k: FreeKey, b: nat) returns (i: nat)
    requires Apart(h.held, blockSize) && BlocksOk(h.blocks, h.held) && FreeListOk(h.freeList, h.blocks)
    requires k in h.freeList && b in h.held && b <= k.base < b + h.held[b]
    ensures b in h.blocks && i < |h.blocks[b]| && h.blocks[b][i].base == k.base && h.blocks[b][i].size == k.size &&
            h.blocks[b][i].free
  {
    assert ListedIn(h.blocks, k);
    var c :| c in h.blocks && k in Published(h.blocks[c]);
    KeyInside(h.blocks, h.held, c, k);
    OneBlock(h.held, blockSize, b, c, k.base);
    assert BlockOk(h.blocks[b], b, b + h.held[b]);
    i :| 0 <= i < |h.blocks[b]| && h.blocks[b][i].entry == Some(k);
    assert TrueEntry(h.blocks[b][i]);
  }

  /** The rest of a split fragment is not listed yet. */
  lemma RestIsNew(h: Heap, blockSize: nat, b: nat, i: nat, bytes: nat)
    requires Apart(h.held, blockSize) && BlocksOk(h.blocks, h.held) && FreeListOk(h.freeList, h.blocks)
    requires b in h.blocks && i < |h.blocks[b]| && 0 < bytes <= h.blocks[b][i].size
    ensures RestKey(h.blocks[b][i].base, h.blocks[b][i].size, bytes) !! h.freeList
  {
    var fs := h.blocks[b];
    assert BlockOk(fs, b, b + h.held[b]);
    Ordered(fs, b, b + h.held[b], i);
    var k := FreeKey(fs[i].size - bytes, fs[i].base + bytes);
    if fs[i].size > bytes && k in h.freeList {
      var j := ListedFragment(h, blockSize, k, b);
      Ordered(fs, b, b + h.held[b], j);
    }
  }

  /** Neither is that of a new block. */
  lemma OpenedIsNew(h: Heap, blockSize: nat, block: Block, bytes: nat)
    requires BlocksOk(h.blocks, h.held) && FreeListOk(h.freeList, h.blocks) && block.base !in h.held
    requires Apart(h.held[block.base := block.length], blockSize) && 0 < bytes <= block.length
    ensures RestKey(block.base, block.length, bytes) !! h.freeList
  {
    var k, held1 := FreeKey(block.length - bytes, block.base + bytes), h.held[block.base := block.length];
    if block.length > bytes && k in h.freeList {
      assert ListedIn(h.blocks, k);
      var c :| c in h.blocks && k in Published(h.blocks[c]);
      KeyInside(h.blocks, h.held, c, k);
      OneBlock(held1, blockSize, block.base, c, k.base);
    }
  }

  /** Neither is the fragment that a freed one is joined into, once the records of its neighbours are gone. */
  lemma JoinedIsNew(h: Heap, blockSize: nat, b: nat, i: nat)
    requires Apart(h.held, blockSize) && BlocksOk(h.blocks, h.held) && FreeListOk(h.freeList, h.blocks)
    requires b in h.blocks && i < |h.blocks[b]| && !h.blocks[b][i].free
    ensures EntryOf(Settled(Joined(h.blocks[b], i))) !! h.freeList
  {
    var fs, m := h.blocks[b], Settled(Joined(h.blocks[b], i));
    var lo := Lowest(fs, i);
    assert BlockOk(fs, b, b + h.held[b]);
    Ordered(fs, b, b + h.held[b], lo);
    Ordered(fs, b, b + h.held[b], i);
    if k :| k in EntryOf(m) && k in h.freeList {
      var j := ListedFragment(h, blockSize, k, b);
      SameBase(fs, b, b + h.held[b], lo, j);
    }
  }

  /** Sub-allocate from the free fragment i of block b. */
  function Allocating(h: Heap, b: nat, i: nat, bytes: nat): Heap
    requires b in h.blocks && i < |h.blocks[b]| && bytes <= h.blocks[b][i].size
  {
    var f := h.blocks[b][i];
    h.(freeList := h.freeList - {FreeKey(f.size, f.base)} + RestKey(f.base, f.size, bytes),
       blocks := h.blocks[b := Split(h.blocks[b], i, bytes)])
  }

  lemma AllocatingOk(h: Heap, live: map<nat, nat>, blockSize: nat, b: nat, i: nat, bytes: nat)
    requires HeapOk(h, live, blockSize)
    requires b in h.blocks && i < |h.blocks[b]| && h.blocks[b][i].free && !Discarded(h.blocks[b])
    requires 0 < bytes <= h.blocks[b][i].size
    ensures HeapOk(Allocating(h, b, i, bytes), live[h.blocks[b][i].base := bytes], blockSize)
    ensures h.blocks[b][i].base !in live
    ensures DiscardedBlocks(Allocating(h, b, i, bytes).blocks) == DiscardedBlocks(h.blocks)
    ensures RestKey(h.blocks[b][i].base, h.blocks[b][i].size, bytes) !! h.freeList
  {
    RestIsNew(h, blockSize, b, i, bytes);
    AllocatingLists(h, blockSize, b, i, bytes);
    AllocatingLive(h, live, blockSize, b, i, bytes);
    CacheSameKeys(h.cache, h.blocks, Allocating(h, b, i, bytes).blocks, h.held);
  }

  lemma AllocatingLists(h: Heap, blockSize: nat, b: nat, i: nat, bytes: nat)
    requires Apart(h.held, blockSize) && BlocksOk(h.blocks, h.held) && FreeListOk(h.freeList, h.blocks)
    requires b in h.blocks && i < |h.blocks[b]| && h.blocks[b][i].free && !Discarded(h.blocks[b])
    requires 0 < bytes <= h.blocks[b][i].size
    ensures var h1 := Allocating(h, b, i, bytes);
            && BlocksOk(h1.blocks, h.held) && FreeListOk(h1.freeList, h1.blocks)
            && ListedLengths(h1.blocks, h.held) == ListedLengths(h.blocks, h.held)
            && DiscardedBlocks(h1.blocks) == DiscardedBlocks(h.blocks)
  {
    var fs, f := h.blocks[b], h.blocks[b][i];
    var fs1 := Split(fs, i, bytes);
    AllocatingBlock(fs, b, b + h.held[b], i, bytes);
    FreeListUpdate(h.freeList, h.blocks, h.held, blockSize, b, fs1, {FreeKey(f.size, f.base)},
        RestKey(f.base, f.size, bytes));
    BlocksUpdate(h.blocks, h.held, b, fs1);
    DiscardedSame(h.blocks, b, fs1);
  }

  lemma AllocatingLive(h: Heap, live: map<nat, nat>, blockSize: nat, b: nat, i: nat, bytes: nat)
    requires Apart(h.held, blockSize) && BlocksOk(h.blocks, h.held) && LiveOk(live, h.blocks)
    requires b in h.blocks && i < |h.blocks[b]| && h.blocks[b][i].free && !Discarded(h.blocks[b])
    requires 0 < bytes <= h.blocks[b][i].size
    ensures h.blocks[b][i].base !in live
    ensures LiveOk(live[h.blocks[b][i].base := bytes], Allocating(h, b, i, bytes).blocks)
  {
    var fs := h.blocks[b];
    AllocatingBlock(fs, b, b + h.held[b], i, bytes);
    FreeIsNotLive(live, h.blocks, h.held, blockSize, b, i);
    LiveGrow(live, h.blocks, b, Split(fs, i, bytes), fs[i].base, bytes);
  }

  lemma AllocatingBlock(fs: Fragments, base: nat, end: nat, i: nat, bytes: nat)
    requires BlockOk(fs, base, end) && !Discarded(fs)
    requires i < |fs| && fs[i].free && 0 < bytes <= fs[i].size
    ensures var f := fs[i];
            var fs1 := Split(fs, i, bytes);
            && BlockOk(fs1, base, end) && !Discarded(fs1)
            && FreeKey(f.size, f.base) in Published(fs)
            && Published(fs1) == Published(fs) - {FreeKey(f.size, f.base)} + RestKey(f.base, f.size, bytes)
            && (forall p: nat, n: nat :: UsedIn(fs1, p, n) <==> UsedIn(fs, p, n) || (p == f.base && n == bytes))
  {
    SplitGood(fs, base, end, i, bytes);
    SplitHasUsed(fs, i, bytes);
    assert TrueEntry(fs[i]);
  }

  lemma DiscardedSame(blocks: BlockList, b: nat, fs1: Fragments)
    requires !Discarded(fs1) && (b in blocks ==> !Discarded(blocks[b]))
    ensures DiscardedBlocks(blocks[b := fs1]) == DiscardedBlocks(blocks)
  {
  }

  /** An address in a held block that is not discarded lies outside every discarded one. */
  lemma KeptApart(h: Heap, blockSize: nat, b: nat, p: nat)
    requires Apart(h.held, blockSize) && b in h.held && b <= p < b + h.held[b]
    requires b !in DiscardedBlocks(h.blocks)
    ensures OutsideDiscarded(h, p)
  {
  }

  lemma SplitHasUsed(fs: Fragments, i: nat, bytes: nat)
    requires i < |fs| && bytes <= fs[i].size
    ensures |Split(fs, i, bytes)| == 1 ==> !Split(fs, i, bytes)[0].free
    ensures TrueEntries(Split(fs, i, bytes), false) ==> !Discarded(Split(fs, i, bytes))
  {
  }

  lemma CacheSameKeys(cache: seq<Block>, blocks: BlockList, blocks1: BlockList, held: map<nat, nat>)
    requires CacheOk(cache, blocks, held) && blocks1.Keys == blocks.Keys
    ensures CacheOk(cache, blocks1, held)
  {
  }

  /** Sub-allocate from a whole block that joins the list. */
  function Opening(h: Heap, block: Block, bytes: nat): Heap
    requires bytes <= block.length
  {
    Heap(h.freeList + RestKey(block.base, block.length, bytes),
         h.blocks[block.base := Carve(block.base, block.length, bytes)],
         h.cache, h.inUseSize + block.length, h.cacheSize, h.held[block.base := block.length])
  }

  lemma OpeningOk(h: Heap, live: map<nat, nat>, blockSize: nat, block: Block, bytes: nat)
    requires HeapOk(h, live, blockSize) && block.base !in h.held
    requires Apart(h.held[block.base := block.length], blockSize) && 0 < bytes <= block.length
    ensures HeapOk(Opening(h, block, bytes), live[block.base := bytes], blockSize)
    ensures block.base !in live
    ensures DiscardedBlocks(Opening(h, block, bytes).blocks) == DiscardedBlocks(h.blocks)
    ensures RestKey(block.base, block.length, bytes) !! h.freeList
  {
    OpenedIsNew(h, blockSize, block, bytes);
    var base, length := block.base, block.length;
    var fs, held1 := Carve(base, length, bytes), h.held[base := length];
    OpeningBlock(base, length, bytes);
    BlocksInsert(h.blocks, h.held, base, length, fs);
    OutsideIsNotLive(live, h.blocks, held1, blockSize, base);
    FreeListInsert(h.freeList, h.blocks, base, fs);
    LiveGrow(live, h.blocks, base, fs, base, bytes);
    OpeningCounts(h, block, bytes);
    CacheAfterOpening(h.cache, h.blocks, h.held, base, length, fs);
    DiscardedSame(h.blocks, base, fs);
  }

  lemma OpeningBlock(base: nat, length: nat, bytes: nat)
    requires 0 < bytes <= length
    ensures var fs := Carve(base, length, bytes);
            && BlockOk(fs, base, base + length) && !Discarded(fs)
            && Published(fs) == RestKey(base, length, bytes)
            && (forall p: nat, n: nat :: UsedIn(fs, p, n) <==> p == base && n == bytes)
  {
    CarveGood(base, length, bytes);
  }

  lemma OpeningCounts(h: Heap, block: Block, bytes: nat)
    requires CountsOk(h) && block.base !in h.held && block.base !in h.blocks && bytes <= block.length
    ensures CountsOk(Opening(h, block, bytes))
  {
    var base, length := block.base, block.length;
    TotalInsert(h.held, base, length);
    TotalInsert(ListedLengths(h.blocks, h.held), base, length);
    assert ListedLengths(Opening(h, block, bytes).blocks, h.held[base := length])
        == ListedLengths(h.blocks, h.held)[base := length];
  }

  lemma BlocksInsert(blocks: BlockList, held: map<nat, nat>, base: nat, length: nat, fs: Fragments)
    requires BlocksOk(blocks, held) && base !in held && BlockOk(fs, base, base + length)
    ensures BlocksOk(blocks, held[base := length])
    ensures BlocksOk(blocks[base := fs], held[base := length])
  {
    forall b | b in blocks
      ensures b in held && b != base && BlockOk(blocks[b], b, b + held[b])
    {
    }
  }

  lemma CacheAfterOpening(cache: seq<Block>, blocks: BlockList, held: map<nat, nat>, base: nat, length: nat,
                          fs: Fragments)
    requires CacheOk(cache, blocks, held) && base !in held
    ensures CacheOk(cache, blocks[base := fs], held[base := length])
  {
  }

  /** A block leaves the cache and is no longer held. */
  function Dropping(h: Heap, block: Block, cache1: seq<Block>): Heap
    requires block.length <= h.cacheSize
  {
    h.(cache := cache1, cacheSize := h.cacheSize - block.length, held := h.held - {block.base})
  }

  lemma DroppingOk(h: Heap, live: map<nat, nat>, blockSize: nat, pre: seq<Block>, block: Block, post: seq<Block>)
    requires HeapOk(h, live, blockSize) && h.cache == pre + [block] + post
    ensures block.length <= h.cacheSize && block.base in h.held && h.held[block.base] == block.length
    ensures HeapOk(Dropping(h, block, pre + post), live, blockSize)
  {
    CacheDrop(pre, block, post, h.blocks, h.held);
    CacheBytesDrop(pre, block, post);
    DropCounts(h, block, pre + post);
    DropHeld(h, blockSize, block.base);
  }

  /** Sub-allocating from the block at the back of the cache: it leaves the cache and joins the list. */
  function Reopening(h: Heap, bytes: nat): Heap
    requires h.cache != [] && bytes <= h.cache[|h.cache| - 1].length <= h.cacheSize
  {
    var n := |h.cache| - 1;
    Opening(h.(cache := h.cache[..n], cacheSize := h.cacheSize - h.cache[n].length), h.cache[n], bytes)
  }

  lemma ReopeningOk(h: Heap, live: map<nat, nat>, blockSize: nat, bytes: nat)
    requires HeapOk(h, live, blockSize) && h.cache != [] && 0 < bytes <= blockSize
    ensures bytes <= h.cache[|h.cache| - 1].length <= h.cacheSize
    ensures h.cache[|h.cache| - 1].base in h.held &&
            h.held[h.cache[|h.cache| - 1].base] == h.cache[|h.cache| - 1].length
    ensures var p := h.cache[|h.cache| - 1].base;
            && HeapOk(Reopening(h, bytes), live[p := bytes], blockSize)
            && Reopening(h, bytes).held == h.held
            && p !in live
            && DiscardedBlocks(Reopening(h, bytes).blocks) == DiscardedBlocks(h.blocks)
            && OutsideDiscarded(h, p)
  {
    var n := |h.cache| - 1;
    var block := h.cache[n];
    LastSplit(h.cache);
    DroppingOk(h, live, blockSize, h.cache[..n], block, []);
    PutBack(h.held, block.base);
    var before := Dropping(h, block, h.cache[..n]);
    OpeningOk(before, live, blockSize, block, bytes);
    ReopeningSteps(h, bytes);
    CachedIsOpen(h, n);
    KeptApart(h, blockSize, block.base, block.base);
  }

  lemma ReopeningSteps(h: Heap, bytes: nat)
    requires h.cache != [] && bytes <= h.cache[|h.cache| - 1].length <= h.cacheSize
    ensures var n := |h.cache| - 1;
            Opening(Dropping(h, h.cache[n], h.cache[..n]), h.cache[n], bytes) == Reopening(h, bytes)
  {
  }

  lemma NewIsOutside(h: Heap, blockSize: nat, block: Block)
    requires block.base !in h.held && block.length > 0 && Apart(h.held[block.base := block.length], blockSize)
    ensures OutsideDiscarded(h, block.base)
  {
    var held1 := h.held[block.base := block.length];
    forall c | c in h.held
      ensures !(c <= block.base < c + h.held[c])
    {
      assert c in held1 && held1[c] == h.held[c] && block.base in held1 && c != block.base;
    }
  }

  lemma CachedIsOpen(h: Heap, i: nat)
    requires CacheOk(h.cache, h.blocks, h.held) && i < |h.cache|
    ensures h.cache[i].base !in DiscardedBlocks(h.blocks)
  {
  }

  lemma LastSplit(s: seq<Block>)
    requires s != []
    ensures s == s[..|s| - 1] + [s[|s| - 1]] + [] && s[..|s| - 1] + [] == s[..|s| - 1]
  {
  }

  lemma FirstSplit(s: seq<Block>)
    requires s != []
    ensures s == [] + [s[0]] + s[1..] && [] + s[1..] == s[1..]
  {
  }

  lemma PutBack(m: map<nat, nat>, k: nat)
    requires k in m
    ensures (m - {k})[k := m[k]] == m
  {
  }

  lemma {:induction false} CacheBytesDrop(pre: seq<Block>, block: Block, post: seq<Block>)
    ensures CacheBytes(pre + [block] + post) == CacheBytes(pre + post) + block.length
  {
    if pre == [] {
      assert pre + [block] + post == [block] + post;
      assert pre + post == post;
    } else {
      assert (pre + [block] + post)[1..] == pre[1..] + [block] + post;
      assert (pre + post)[1..] == pre[1..] + post;
      CacheBytesDrop(pre[1..], block, post);
    }
  }

  /** The counters after a cached block is given up. */
  lemma DropCounts(h: Heap, block: Block, cache1: seq<Block>)
    requires CountsOk(h) && block.base in h.held && h.held[block.base] == block.length && block.base !in h.blocks
    requires CacheBytes(h.cache) == CacheBytes(cache1) + block.length
    ensures block.length <= h.cacheSize
    ensures CountsOk(Dropping(h, block, cache1))
  {
    TotalRemove(h.held, block.base);
    assert ListedLengths(h.blocks, h.held - {block.base}) == ListedLengths(h.blocks, h.held);
  }

  /** Taking one block out of the cache. */
  lemma CacheDrop(pre: seq<Block>, block: Block, post: seq<Block>, blocks: BlockList, held: map<nat, nat>)
    requires CacheOk(pre + [block] + post, blocks, held)
    ensures CacheOk(pre + post, blocks, held - {block.base})
    ensures block.base in held && held[block.base] == block.length && block.base !in blocks
  {
    var cache, cache1 := pre + [block] + post, pre + post;
    assert cache[|pre|] == block;
    forall i | 0 <= i < |cache1|
      ensures cache1[i] == cache[if i < |pre| then i else i + 1]
    {
    }
    forall b | b in held - {block.base}
      ensures b in blocks || CachedAt(cache1, b)
    {
      if b !in blocks {
        assert CachedAt(cache, b);
        var i :| 0 <= i < |cache| && cache[i].base == b;
        assert cache1[if i < |pre| then i else i - 1].base == b;
      }
    }
  }

  /** A held block that is not listed can be given up without touching the listed ones. */
  lemma DropHeld(h: Heap, blockSize: nat, b: nat)
    requires Apart(h.held, blockSize) && BlocksOk(h.blocks, h.held) && b !in h.blocks
    ensures Apart(h.held - {b}, blockSize) && BlocksOk(h.blocks, h.held - {b})
  {
  }

  // ------------------------------------------------------------------------------------------
  // Freeing
  // ------------------------------------------------------------------------------------------

  /** The records that leave the free list when fragment i is freed. */
  ghost function Unlisted(fs: Fragments, i: nat): set<FreeKey>
    requires i < |fs|
  {
    Published(fs[Lowest(fs, i)..Highest(fs, i) + 1])
  }

  /** They are those of its free neighbours. */
  lemma UnlistedEntries(fs: Fragments, i: nat)
    requires i < |fs| && fs[i].entry == None
    ensures Unlisted(fs, i) == (if Lowest(fs, i) < i then EntryOf(fs[i - 1]) else {})
                               + (if i < Highest(fs, i) then EntryOf(fs[i + 1]) else {})
  {
    var lo, hi := Lowest(fs, i), Highest(fs, i);
    var mid := fs[lo..hi + 1];
    assert forall j | 0 <= j < |mid| :: mid[j] == fs[lo + j];
    if lo < i { assert mid[0] == fs[i - 1]; }
    if i < hi { assert mid[hi - lo] == fs[i + 1]; }
  }

  /** Free fragment i of block b, which keeps other fragments. */
  ghost function Freeing(h: Heap, b: nat, i: nat): Heap
    requires b in h.blocks && i < |h.blocks[b]|
  {
    var fs := h.blocks[b];
    var m := Settled(Joined(fs, i));
    h.(freeList := h.freeList - Unlisted(fs, i) + EntryOf(m), blocks := h.blocks[b := Coalesced(fs, i, m)])
  }

  lemma FreeingOk(h: Heap, live: map<nat, nat>, blockSize: nat, b: nat, i: nat)
    requires HeapOk(h, live, blockSize)
    requires b in h.blocks && i < |h.blocks[b]| && !h.blocks[b][i].free
    requires Highest(h.blocks[b], i) - Lowest(h.blocks[b], i) < |h.blocks[b]| - 1
    ensures HeapOk(Freeing(h, b, i), live - {h.blocks[b][i].base}, blockSize)
    ensures DiscardedBlocks(Freeing(h, b, i).blocks) == DiscardedBlocks(h.blocks)
    ensures EntryOf(Settled(Joined(h.blocks[b], i))) !! h.freeList
  {
    JoinedIsNew(h, blockSize, b, i);
    FreeingLists(h, blockSize, b, i);
    FreeingLive(h, live, blockSize, b, i);
    CacheSameKeys(h.cache, h.blocks, Freeing(h, b, i).blocks, h.held);
  }

  lemma FreeingLists(h: Heap, blockSize: nat, b: nat, i: nat)
    requires Apart(h.held, blockSize) && BlocksOk(h.blocks, h.held) && FreeListOk(h.freeList, h.blocks)
    requires b in h.blocks && i < |h.blocks[b]| && !h.blocks[b][i].free
    requires Highest(h.blocks[b], i) - Lowest(h.blocks[b], i) < |h.blocks[b]| - 1
    ensures var h1 := Freeing(h, b, i);
            && BlocksOk(h1.blocks, h.held) && FreeListOk(h1.freeList, h1.blocks)
            && ListedLengths(h1.blocks, h.held) == ListedLengths(h.blocks, h.held)
            && DiscardedBlocks(h1.blocks) == DiscardedBlocks(h.blocks)
  {
    var fs := h.blocks[b];
    var m := Settled(Joined(fs, i));
    var fs1 := Coalesced(fs, i, m);
    FreeingBlock(fs, b, b + h.held[b], i);
    FreeListUpdate(h.freeList, h.blocks, h.held, blockSize, b, fs1, Unlisted(fs, i), EntryOf(m));
    BlocksUpdate(h.blocks, h.held, b, fs1);
    DiscardedKept(h.blocks, b, fs1);
  }

  lemma FreeingLive(h: Heap, live: map<nat, nat>, blockSize: nat, b: nat, i: nat)
    requires Apart(h.held, blockSize) && BlocksOk(h.blocks, h.held) && LiveOk(live, h.blocks)
    requires b in h.blocks && i < |h.blocks[b]| && !h.blocks[b][i].free
    ensures LiveOk(live - {h.blocks[b][i].base}, Freeing(h, b, i).blocks)
  {
    var fs := h.blocks[b];
    FreeingBlock(fs, b, b + h.held[b], i);
    UsedHere(fs, i);
    LiveShrink(live, h.blocks, h.held, blockSize, b, Coalesced(fs, i, Settled(Joined(fs, i))), fs[i].base, fs[i].size);
  }

  lemma UsedHere(fs: Fragments, i: nat)
    requires i < |fs| && !fs[i].free
    ensures UsedIn(fs, fs[i].base, fs[i].size)
  {
  }

  lemma DiscardedKept(blocks: BlockList, b: nat, fs1: Fragments)
    requires b in blocks && Discarded(fs1) == Discarded(blocks[b])
    ensures DiscardedBlocks(blocks[b := fs1]) == DiscardedBlocks(blocks)
  {
  }

  lemma FreeingBlock(fs: Fragments, base: nat, end: nat, i: nat)
    requires BlockOk(fs, base, end) && i < |fs| && !fs[i].free
    ensures var m := Settled(Joined(fs, i));
            var fs1 := Coalesced(fs, i, m);
            && GoodBlock(fs1, base, end, Discarded(fs)) && Discarded(fs1) == Discarded(fs)
            && (|fs1| > 1 ==> BlockOk(fs1, base, end))
            && Unlisted(fs, i) <= Published(fs)
            && Published(fs1) == Published(fs) - Unlisted(fs, i) + EntryOf(m)
            && (forall p: nat, n: nat | p != fs[i].base :: UsedIn(fs1, p, n) <==> UsedIn(fs, p, n))
            && (!Discarded(fs) ==> forall n: nat :: !UsedIn(fs1, fs[i].base, n))
  {
    FreeGood(fs, base, end, Discarded(fs), i);
    forall n: nat | !Discarded(fs)
      ensures !UsedIn(Coalesced(fs, i, Settled(Joined(fs, i))), fs[i].base, n)
    {
      FreedIsGone(fs, base, end, i, n);
    }
    SlicePublished(fs, Lowest(fs, i), Highest(fs, i) + 1);
  }

  lemma SlicePublished(fs: Fragments, lo: nat, hi: nat)
    requires lo <= hi <= |fs|
    ensures Published(fs[lo..hi]) <= Published(fs)
  {
    assert fs == fs[..lo] + fs[lo..hi] + fs[hi..];
    PublishedConcat(fs[..lo] + fs[lo..hi], fs[hi..]);
    PublishedConcat(fs[..lo], fs[lo..hi]);
  }

  /** Free the last allocated fragment of block b: the block leaves the list, for the allocator if it
      is discarded and for the cache if it is not. */
  function Releasing(h: Heap, b: nat): Heap
    requires b in h.blocks && b in h.held && h.held[b] <= h.inUseSize
  {
    var h1 := h.(blocks := h.blocks - {b}, inUseSize := h.inUseSize - h.held[b]);
    if Discarded(h.blocks[b]) then h1.(held := h.held - {b})
    else h1.(cache := h.cache + [Block(b, h.held[b])], cacheSize := h.cacheSize + h.held[b])
  }

  lemma ReleasingOk(h: Heap, live: map<nat, nat>, blockSize: nat, b: nat, i: nat, freeList1: set<FreeKey>)
    requires HeapOk(h, live, blockSize)
    requires b in h.blocks && i < |h.blocks[b]| && !h.blocks[b][i].free
    requires Highest(h.blocks[b], i) - Lowest(h.blocks[b], i) == |h.blocks[b]| - 1
    requires freeList1 == h.freeList - Unlisted(h.blocks[b], i)
    ensures b in h.held && h.held[b] <= h.inUseSize
    ensures Joined(h.blocks[b], i).base == b && Joined(h.blocks[b], i).size == h.held[b]
    ensures HeapOk(Releasing(h.(freeList := freeList1), b), live - {h.blocks[b][i].base}, blockSize)
    ensures DiscardedBlocks(Releasing(h.(freeList := freeList1), b).blocks) == DiscardedBlocks(h.blocks) - {b}
    ensures var h1 := Releasing(h.(freeList := freeList1), b);
            if b in DiscardedBlocks(h.blocks) then h1.held == h.held - {b} && h1.cache == h.cache
            else h1.held == h.held && h1.cache == h.cache + [Block(b, h.held[b])]
  {
    ReleasedCounts(h.(freeList := freeList1), b);
    ReleasedLists(h, live, blockSize, b, i);
    if Discarded(h.blocks[b]) {
      ReturnedPlaces(h, blockSize, b);
    } else {
      CachedPlaces(h, b);
    }
  }

  lemma ReleasedLists(h: Heap, live: map<nat, nat>, blockSize: nat, b: nat, i: nat)
    requires Apart(h.held, blockSize) && BlocksOk(h.blocks, h.held) && FreeListOk(h.freeList, h.blocks) &&
             LiveOk(live, h.blocks)
    requires b in h.blocks && i < |h.blocks[b]| && !h.blocks[b][i].free
    requires Highest(h.blocks[b], i) - Lowest(h.blocks[b], i) == |h.blocks[b]| - 1
    ensures b in h.held && Joined(h.blocks[b], i).base == b && Joined(h.blocks[b], i).size == h.held[b]
    ensures FreeListOk(h.freeList - Unlisted(h.blocks[b], i), h.blocks - {b})
    ensures LiveOk(live - {h.blocks[b][i].base}, h.blocks - {b})
    ensures BlocksOk(h.blocks - {b}, h.held)
    ensures DiscardedBlocks(h.blocks - {b}) == DiscardedBlocks(h.blocks) - {b}
  {
    var fs := h.blocks[b];
    ReleasedBlock(fs, b, b + h.held[b], i);
    UsedHere(fs, i);
    FreeListRemove(h.freeList, h.blocks, h.held, blockSize, b);
    LiveDrop(live, h.blocks, h.held, blockSize, b, fs[i].base, fs[i].size);
  }

  lemma ReleasedBlock(fs: Fragments, base: nat, end: nat, i: nat)
    requires BlockOk(fs, base, end) && i < |fs| && !fs[i].free
    requires Highest(fs, i) - Lowest(fs, i) == |fs| - 1
    ensures Unlisted(fs, i) == Published(fs)
    ensures base <= end && Joined(fs, i).base == base && Joined(fs, i).size == end - base
    ensures forall p: nat, n: nat | UsedIn(fs, p, n) :: p == fs[i].base
  {
    FreeGood(fs, base, end, Discarded(fs), i);
    assert fs[Lowest(fs, i)..Highest(fs, i) + 1] == fs;
    var m := Settled(Joined(fs, i));
    assert Coalesced(fs, i, m) == [m];
    TiledSize([m], base, end);
    assert [m][1..] == [];
    forall p: nat, n: nat | UsedIn(fs, p, n)
      ensures p == fs[i].base
    {
      if p != fs[i].base {
        UsedInJoined(fs, i, p, n);
      }
    }
  }

  lemma ReleasedCounts(h: Heap, b: nat)
    requires CountsOk(h) && b in h.blocks && b in h.held
    ensures h.held[b] <= h.inUseSize && CountsOk(Releasing(h, b))
  {
    var lens := ListedLengths(h.blocks, h.held);
    TotalRemove(lens, b);
    TotalRemove(h.held, b);
    assert ListedLengths(h.blocks - {b}, h.held) == lens - {b};
    assert ListedLengths(h.blocks - {b}, h.held - {b}) == lens - {b};
    CacheBytesAppend(h.cache, Block(b, h.held[b]));
  }

  lemma ReturnedPlaces(h: Heap, blockSize: nat, b: nat)
    requires Apart(h.held, blockSize) && BlocksOk(h.blocks - {b}, h.held) && CacheOk(h.cache, h.blocks, h.held)
    requires b in h.blocks
    ensures Apart(h.held - {b}, blockSize) && BlocksOk(h.blocks - {b}, h.held - {b})
    ensures CacheOk(h.cache, h.blocks - {b}, h.held - {b})
  {
  }

  lemma CachedPlaces(h: Heap, b: nat)
    requires CacheOk(h.cache, h.blocks, h.held) && b in h.blocks && b in h.held
    ensures CacheOk(h.cache + [Block(b, h.held[b])], h.blocks - {b}, h.held)
  {
    var cache1 := h.cache + [Block(b, h.held[b])];
    assert cache1[|h.cache|].base == b;
    forall c | c in h.held
      ensures c in h.blocks - {b} || CachedAt(cache1, c)
    {
      if c !in h.blocks {
        assert CachedAt(h.cache, c);
        var i :| 0 <= i < |h.cache| && h.cache[i].base == c;
        assert cache1[i].base == c;
      }
    }
  }

  // ------------------------------------------------------------------------------------------
  // Discarding
  // ------------------------------------------------------------------------------------------

  /** Close block b: none of its fragments is listed any more. */
  ghost function Discarding(h: Heap, b: nat): Heap
    requires b in h.blocks
  {
    h.(freeList := h.freeList - Published(h.blocks[b]), blocks := h.blocks[b := DiscardAll(h.blocks[b])])
  }

  lemma DiscardingOk(h: Heap, live: map<nat, nat>, blockSize: nat, b: nat)
    requires HeapOk(h, live, blockSize) && b in h.blocks
    ensures HeapOk(Discarding(h, b), live, blockSize)
    ensures DiscardedBlocks(Discarding(h, b).blocks) == DiscardedBlocks(h.blocks) + {b}
  {
    DiscardingLists(h, live, blockSize, b);
    CacheSameKeys(h.cache, h.blocks, Discarding(h, b).blocks, h.held);
  }

  lemma DiscardingLists(h: Heap, live: map<nat, nat>, blockSize: nat, b: nat)
    requires Apart(h.held, blockSize) && BlocksOk(h.blocks, h.held) && FreeListOk(h.freeList, h.blocks) &&
             LiveOk(live, h.blocks)
    requires b in h.blocks
    ensures var h1 := Discarding(h, b);
            && BlocksOk(h1.blocks, h.held) && FreeListOk(h1.freeList, h1.blocks) && LiveOk(live, h1.blocks)
            && ListedLengths(h1.blocks, h.held) == ListedLengths(h.blocks, h.held)
            && DiscardedBlocks(h1.blocks) == DiscardedBlocks(h.blocks) + {b}
  {
    var fs := h.blocks[b];
    var fs1 := DiscardAll(fs);
    DiscardingBlock(fs, b, b + h.held[b]);
    FreeListUpdate(h.freeList, h.blocks, h.held, blockSize, b, fs1, Published(fs), {});
    assert h.freeList - Published(fs) + {} == h.freeList - Published(fs);
    LiveDiscard(live, h.blocks, b, fs1);
    BlocksUpdate(h.blocks, h.held, b, fs1);
  }

  lemma DiscardingBlock(fs: Fragments, base: nat, end: nat)
    requires BlockOk(fs, base, end)
    ensures BlockOk(DiscardAll(fs), base, end) && Discarded(DiscardAll(fs)) && Published(DiscardAll(fs)) == {}
    ensures forall p: nat, n: nat :: UsedIn(DiscardAll(fs), p, n) <==> UsedIn(fs, p, n)
  {
    DiscardGood(fs, base, end, Discarded(fs));
  }
}
