/** The best-fit sub-allocator of src/common/simple_heap.h. */
module SimpleHeap {
  import opened Wrappers
  import opened HeapBlocks
  import opened HeapState

  class SimpleHeap {
    const blockSize: nat
    /** The free multimap.  No record is inserted that it holds already (AllocatingOk, OpeningOk, FreeingOk), so a set
        carries it. */
    var freeList: set<FreeKey>
    var blocks: BlockList
    var cache: seq<Block>
    var inUseSize: nat
    var cacheSize: nat
    /** Blocks taken from the block allocator and not given back. */
    var held: map<nat, nat>
    /** Allocations that callers hold. */
    ghost var live: map<nat, nat>

    ghost function State(): Heap
      reads this
    {
      Heap(freeList, blocks, cache, inUseSize, cacheSize, held)
    }

    ghost predicate Valid()
      reads this
    {
      HeapOk(State(), live, blockSize)
    }

    constructor (blockSize: nat)
      requires blockSize > 0
      ensures Valid() && this.blockSize == blockSize && live == map[] && State() == Heap({}, map[], [], 0, 0, map[])
    {
      this.blockSize := blockSize;
      freeList, blocks, cache, inUseSize, cacheSize, held, live := {}, map[], [], 0, 0, map[], map[];
    }

    // ----------------------------------------------------------------------------------------
    // The block allocator
    // ----------------------------------------------------------------------------------------

    /** Take a block; None when the allocator throws. */
    method TakeBlock(lent: Option<Block>) returns (r: Option<Block>)
      requires Apart(held, blockSize) && blockSize > 0
      modifies this`held
      ensures r == Lent(old(held), blockSize, lent)
      ensures held == if r.None? then old(held) else old(held)[r.value.base := r.value.length]
      ensures r.Some? ==> r.value.base !in old(held) && r.value.length >= blockSize && Apart(held, blockSize)
    {
      r := Lent(held, blockSize, lent);
      if r.Some? {
        LendApart(held, blockSize, r.value.base, r.value.length);
        held := held[r.value.base := r.value.length];
      }
    }

    method ReturnBlock(b: Block)
      requires b.base in held && held[b.base] == b.length
      modifies this`held
      ensures held == old(held) - {b.base}
    {
      held := held - {b.base};
    }

    // ----------------------------------------------------------------------------------------
    // Lookups in the ordered maps
    // ----------------------------------------------------------------------------------------

    /** free_list_.lower_bound: a smallest record that is large enough. */
    method LowerBound(bytes: nat) returns (r: Option<FreeKey>)
      ensures r.Some? ==> BestFit(freeList, bytes, r.value)
      ensures r.None? ==> forall k | k in freeList :: k.size < bytes
    {
      var candidates := set k | k in freeList && k.size >= bytes;
      assert forall k | k in freeList && k.size >= bytes :: k in candidates;
      if candidates == {} {
        return None;
      }
      var best :| best in candidates;
      var rest := candidates - {best};
      while rest != {}
        invariant best in candidates && rest <= candidates
        invariant forall k | k in candidates && k !in rest :: best.size <= k.size
        decreases rest
      {
        var k :| k in rest;
        if k.size < best.size {
          best := k;
        }
        rest := rest - {k};
      }
      return Some(best);
    }

    /** block_list_.upper_bound, one back: the listed block with the greatest address not above p. */
    method BlockBelow(p: nat) returns (r: Option<nat>)
      ensures r.Some? ==> r.value in blocks && r.value <= p && forall b | b in blocks && b <= p :: b <= r.value
      ensures r.None? ==> forall b | b in blocks :: b > p
    {
      var below := set b | b in blocks && b <= p;
      assert forall b | b in blocks && b <= p :: b in below;
      if below == {} {
        return None;
      }
      var best :| best in below;
      var rest := below - {best};
      while rest != {}
        invariant best in below && rest <= below
        invariant forall b | b in below && b !in rest :: b <= best
        decreases rest
      {
        var b :| b in rest;
        if b > best {
          best := b;
        }
        rest := rest - {b};
      }
      return Some(best);
    }

    /** frag_map.find. */
    method FindFragment(fs: Fragments, p: nat) returns (r: Option<nat>)
      ensures r.Some? ==> r.value < |fs| && fs[r.value].base == p
      ensures r.None? ==> forall i | 0 <= i < |fs| :: fs[i].base != p
    {
      if i: nat :| i < |fs| && fs[i].base == p {
        return Some(i);
      }
      return None;
    }

    // ----------------------------------------------------------------------------------------
    // alloc
    // ----------------------------------------------------------------------------------------

    method AllocFromFragment(k: FreeKey, bytes: nat)
      requires Valid() && k in freeList && 0 < bytes <= k.size
      modifies this`freeList, this`blocks, this`live
      ensures Valid()
      ensures k.base !in old(live) && live == old(live)[k.base := bytes]
      ensures exists b, i :: CarvedAt(old(State()), b, i, k, bytes, State())
      ensures DiscardedBlocks(blocks) == old(DiscardedBlocks(blocks)) && OutsideDiscarded(old(State()), k.base)
    {
      var below := BlockBelow(k.base);
      LocateKey(freeList, blocks, held, blockSize, k, if below.Some? then below.value else 0);
      var b := below.value;
      var fs := blocks[b];
      var found := FindFragment(fs, k.base);
      var i := found.value;
      AllocatingOk(State(), live, blockSize, b, i, bytes);
      KeptApart(State(), blockSize, b, k.base);
      SplitFragment(b, i, k, bytes);
      assert CarvedAt(old(State()), b, i, k, bytes, State());
    }

    /** Take the record off the list, shrink the fragment, and record what remains. */
    method SplitFragment(b: nat, i: nat, k: FreeKey, bytes: nat)
      requires b in blocks && i < |blocks[b]| && bytes <= k.size
      requires blocks[b][i].base == k.base && blocks[b][i].size == k.size
      modifies this`freeList, this`blocks, this`live
      ensures State() == Allocating(old(State()), b, i, bytes)
      ensures live == old(live)[k.base := bytes]
    {
      freeList := freeList - {k} + RestKey(k.base, k.size, bytes);
      blocks := blocks[b := Split(blocks[b], i, bytes)];
      live := live[k.base := bytes];
    }

    /** Sub-allocate from a whole block that is held; `before` is the state up to that. */
    method OpenBlock(block: Block, bytes: nat, ghost before: Heap)
      requires 0 < bytes <= block.length
      requires State() == before.(held := before.held[block.base := block.length])
      modifies this`freeList, this`blocks, this`live, this`inUseSize
      ensures State() == Opening(before, block, bytes)
      ensures live == old(live)[block.base := bytes]
    {
      inUseSize := inUseSize + block.length;
      freeList := freeList + RestKey(block.base, block.length, bytes);
      blocks := blocks[block.base := Carve(block.base, block.length, bytes)];
      live := live[block.base := bytes];
    }

    method AllocFromCache(bytes: nat) returns (p: nat)
      requires Valid() && cache != [] && 0 < bytes <= blockSize
      modifies this
      ensures Valid() && held == old(held) && ReopenedBy(old(State()), p, bytes, State())
      ensures p == old(cache)[|old(cache)| - 1].base && cache == old(cache)[..|old(cache)| - 1]
      ensures p !in old(live) && live == old(live)[p := bytes]
      ensures DiscardedBlocks(blocks) == old(DiscardedBlocks(blocks)) && OutsideDiscarded(old(State()), p)
    {
      ReopeningOk(State(), live, blockSize, bytes);
      p := PopCache(bytes);
    }

    method PopCache(bytes: nat) returns (p: nat)
      requires cache != [] && 0 < bytes <= cache[|cache| - 1].length <= cacheSize
      requires cache[|cache| - 1].base in held && held[cache[|cache| - 1].base] == cache[|cache| - 1].length
      modifies this
      ensures State() == Reopening(old(State()), bytes)
      ensures p == old(cache)[|old(cache)| - 1].base && live == old(live)[p := bytes]
    {
      var n := |cache| - 1;
      var block := cache[n];
      cache := cache[..n];
      cacheSize := cacheSize - block.length;
      PutBack(held, block.base);
      OpenBlock(block, bytes, State().(held := held - {block.base}));
      p := block.base;
    }

    method AllocFromNew(bytes: nat, lent: Option<Block>) returns (r: Option<nat>)
      requires Valid() && 0 < bytes <= blockSize
      modifies this
      ensures Valid()
      ensures r.None? ==> State() == old(State()) && live == old(live)
      ensures r.None? <==> Lent(old(held), blockSize, lent).None?
      ensures r.Some? ==> r.value == lent.value.base && OpenedBy(old(State()), lent.value, bytes, State())
      ensures r.Some? ==> r.value !in old(live) && live == old(live)[r.value := bytes]
      ensures DiscardedBlocks(blocks) == old(DiscardedBlocks(blocks))
      ensures r.Some? ==> OutsideDiscarded(old(State()), r.value)
    {
      ghost var h := State();
      var taken := TakeBlock(lent);
      if taken.None? {
        return None;
      }
      OpeningOk(h, live, blockSize, taken.value, bytes);
      NewIsOutside(h, blockSize, taken.value);
      OpenBlock(taken.value, bytes, h);
      assert OpenedBy(h, taken.value, bytes, State());
      return Some(taken.value.base);
    }

    /** Best fit first, then the most recently cached block, then a new one.  `lent` is what the block allocator gives
        if it is asked, or None if it throws. */
    method Alloc(bytes: nat, lent: Option<Block>) returns (r: Option<nat>)
      requires Valid() && bytes > 0
      modifies this
      ensures Valid()
      ensures r.None? ==> State() == old(State()) && live == old(live)
      ensures r.None? <==>
                || bytes > blockSize
                || (NoneFits(old(freeList), bytes) && old(cache) == [] && Lent(old(held), blockSize, lent).None?)
      ensures r.Some? ==> r.value !in old(live) && live == old(live)[r.value := bytes]
      ensures r.Some? ==> AllocatedFrom(old(State()), bytes, lent, r.value, State())
      ensures cache == if r.Some? && NoneFits(old(freeList), bytes) && old(cache) != []
                       then old(cache)[..|old(cache)| - 1] else old(cache)
      ensures held == if r.Some? && NoneFits(old(freeList), bytes) && old(cache) == []
                      then old(held)[lent.value.base := lent.value.length] else old(held)
      ensures DiscardedBlocks(blocks) == old(DiscardedBlocks(blocks))
      ensures r.Some? ==> OutsideDiscarded(old(State()), r.value)
    {
      if bytes > blockSize {
        return None;
      }
      var fit := LowerBound(bytes);
      if fit.Some? {
        AllocFromFragment(fit.value, bytes);
        return Some(fit.value.base);
      }
      if cache != [] {
        var p := AllocFromCache(bytes);
        return Some(p);
      }
      r := AllocFromNew(bytes, lent);
    }

    // ----------------------------------------------------------------------------------------
    // free, trim, discardBlock
    // ----------------------------------------------------------------------------------------

    /** Merge a fragment with its free neighbours; their records leave the free list. */
    method MergeNeighbours(fs0: Fragments, i: nat) returns (fs: Fragments, j: nat)
      requires i < |fs0| && fs0[i].entry == None
      modifies this`freeList
      ensures j == Lowest(fs0, i) && fs == Coalesced(fs0, i, Joined(fs0, i))
      ensures freeList == old(freeList) - Unlisted(fs0, i)
    {
      fs, j := fs0, i;
      MergedAbove(fs0, i);
      MergedExactly(fs0, i);
      // Merge lower
      if i > 0 && fs[i - 1].free {
        freeList := freeList - EntryOf(fs[i - 1]);
        fs := Absorb(fs, i - 1);
        j := i - 1;
      }
      // Merge upper
      if j + 1 < |fs| && fs[j + 1].free {
        freeList := freeList - EntryOf(fs[j + 1]);
        fs := Absorb(fs, j);
      }
      UnlistedEntries(fs0, i);
    }

    /** Return cached blocks, oldest first, while more than one is cached and the cache is over its limit. */
    method EvictOverLimit()
      requires Valid()
      modifies this`cache, this`cacheSize, this`held
      ensures Valid()
      ensures |cache| <= 1 || cacheSize <= inUseSize * 2
      ensures Evicted(old(cache), old(held), inUseSize, cache, held)
    {
      ghost var n: nat := 0;
      NoneEvicted(cache, held, inUseSize);
      while |cache| > 1 && cacheSize > inUseSize * 2
        invariant Valid() && EvictedTo(old(cache), old(held), n, inUseSize, cache, held)
        decreases |cache|
      {
        OneMoreEvicted(old(cache), old(held), n, inUseSize, cache, held);
        EvictOldest();
        n := n + 1;
      }
    }

    method EvictOldest()
      requires Valid() && cache != []
      modifies this`cache, this`cacheSize, this`held
      ensures Valid()
      ensures cache == old(cache)[1..] && held == old(held) - {old(cache)[0].base}
    {
      FirstSplit(cache);
      DroppingOk(State(), live, blockSize, [], cache[0], cache[1..]);
      DropFront();
    }

    method DropFront()
      requires cache != [] && cache[0].length <= cacheSize && cache[0].base in held &&
               held[cache[0].base] == cache[0].length
      modifies this`cache, this`cacheSize, this`held
      ensures State() == Dropping(old(State()), old(cache)[0], [] + old(cache)[1..])
    {
      FirstSplit(cache);
      var block := cache[0];
      ReturnBlock(block);
      cacheSize := cacheSize - block.length;
      cache := cache[1..];
    }

    /** The block of a fragment that was freed last leaves the list. */
    method ReleaseBlock(b: nat, length: nat, discard: bool)
      requires b in blocks && b in held && held[b] == length <= inUseSize && discard == Discarded(blocks[b])
      modifies this`blocks, this`cache, this`inUseSize, this`cacheSize, this`held
      ensures State() == Releasing(old(State()), b)
    {
      inUseSize := inUseSize - length;
      blocks := blocks - {b};
      if discard {
        ReturnBlock(Block(b, length));
      } else {
        cache := cache + [Block(b, length)];
        cacheSize := cacheSize + length;
      }
    }

    /** Fragment i of block b, which keeps other fragments, goes back to the block. */
    method PutBackFragment(b: nat, i: nat, fs: Fragments, j: nat, ghost h: Heap)
      requires b in h.blocks && i < |h.blocks[b]|
      requires j == Lowest(h.blocks[b], i) && fs == Coalesced(h.blocks[b], i, Joined(h.blocks[b], i))
      requires State() == h.(freeList := h.freeList - Unlisted(h.blocks[b], i))
      modifies this`freeList, this`blocks
      ensures State() == Freeing(h, b, i)
    {
      var m := fs[j];
      if m.discard {
        // A discarded fragment is not listed, and keeps its flags.
        blocks := blocks[b := fs];
        assert freeList + {} == freeList;
      } else {
        var key := FreeKey(m.size, m.base);
        freeList := freeList + {key};
        blocks := blocks[b := fs[j := m.(free := true, entry := Some(key))]];
        assert fs[j := Settled(m)] == Coalesced(h.blocks[b], i, Settled(m));
      }
    }

    /** Fragment i was the last allocated one of block b: the block is released. */
    method ReleaseLast(b: nat, i: nat, length: nat, discard: bool, ghost h: Heap, ghost live0: map<nat, nat>)
      requires HeapOk(h, live0, blockSize) && b in h.blocks && i < |h.blocks[b]| && !h.blocks[b][i].free
      requires Highest(h.blocks[b], i) - Lowest(h.blocks[b], i) == |h.blocks[b]| - 1
      requires State() == h.(freeList := h.freeList - Unlisted(h.blocks[b], i))
      requires discard == Discarded(h.blocks[b]) && length == Joined(h.blocks[b], i).size &&
               live == live0 - {h.blocks[b][i].base}
      modifies this`blocks, this`cache, this`inUseSize, this`cacheSize, this`held
      ensures Valid()
      ensures DiscardedBlocks(blocks) <= old(DiscardedBlocks(blocks))
      ensures blocks == h.blocks - {b}
      ensures |cache| <= 1 || cacheSize <= inUseSize * 2
      ensures b in h.held && length == h.held[b]
      ensures if discard then Evicted(h.cache, h.held - {b}, inUseSize, cache, held)
              else Evicted(h.cache + [Block(b, h.held[b])], h.held, inUseSize, cache, held)
    {
      ReleasingOk(h, live0, blockSize, b, i, freeList);
      ReleaseBlock(b, length, discard);
      EvictOverLimit();
    }

    /** Fragment i was not: the block stays listed. */
    method KeepBlock(b: nat, i: nat, fs: Fragments, j: nat, ghost h: Heap, ghost live0: map<nat, nat>)
      requires HeapOk(h, live0, blockSize) && b in h.blocks && i < |h.blocks[b]| && !h.blocks[b][i].free
      requires Highest(h.blocks[b], i) - Lowest(h.blocks[b], i) < |h.blocks[b]| - 1
      requires State() == h.(freeList := h.freeList - Unlisted(h.blocks[b], i))
      requires j == Lowest(h.blocks[b], i) && fs == Coalesced(h.blocks[b], i, Joined(h.blocks[b], i)) &&
               live == live0 - {h.blocks[b][i].base}
      modifies this`freeList, this`blocks
      ensures Valid()
      ensures DiscardedBlocks(blocks) <= old(DiscardedBlocks(blocks))
      ensures blocks == h.blocks[b := AfterFree(h.blocks[b], i)]
      ensures cache == h.cache && held == h.held
    {
      FreeingOk(h, live0, blockSize, b, i);
      PutBackFragment(b, i, fs, j, h);
    }

    method FreeFragment(b: nat, i: nat, ghost p: nat)
      requires Valid() && b in blocks && i < |blocks[b]| && !blocks[b][i].free && blocks[b][i].entry == None
      requires p == blocks[b][i].base
      modifies this
      ensures Valid() && live == old(live) - {p}
      ensures blocks == FreedBlocks(old(blocks), b, i)
      ensures DiscardedBlocks(blocks) <= old(DiscardedBlocks(blocks))
      ensures b !in blocks ==> |cache| <= 1 || cacheSize <= inUseSize * 2
      ensures b in old(held) && ReleasedTo(old(State()), b, State())
    {
      ghost var h := State();
      ghost var live0 := live;
      live := live - {p};
      var discard := blocks[b][i].discard;
      FragmentDiscard(blocks, held, b, i);
      assert BlockOk(blocks[b], b, b + held[b]);
      ReleasedExactly(blocks[b], i);
      var fs, j := MergeNeighbours(blocks[b], i);
      if |fs| == 1 {
        ReleaseLast(b, i, fs[j].size, discard, h, live0);
      } else {
        KeepBlock(b, i, fs, j, h, live0);
      }
    }

    /** True for the null pointer and for the address of an allocated fragment, which is then nobody's. */
    method Free(p: nat) returns (ok: bool)
      requires Valid()
      modifies this
      ensures Valid()
      ensures ok <==> p == 0 || exists n :: Allocated(old(blocks), p, n)
      ensures live == if ok then old(live) - {p} else old(live)
      ensures !ok || p == 0 ==> State() == old(State())
      ensures ok && p != 0 ==> forall b, i | FragmentAt(old(blocks), b, i, p) ::
                && blocks == FreedBlocks(old(blocks), b, i)
                && b in old(held) && ReleasedTo(old(State()), b, State())
                && (b in blocks && p in Users(blocks[b]) <==>
                    !OthersFree(old(blocks)[b], i) && LeavesDead(old(blocks)[b], i, b in old(DiscardedBlocks(blocks))))
                && (b !in blocks ==> |cache| <= 1 || cacheSize <= inUseSize * 2)
      ensures DiscardedBlocks(blocks) <= old(DiscardedBlocks(blocks))
    {
      if p == 0 {
        NullIsNotLive(live, blocks, held, blockSize);
        return true;
      }
      var below := BlockBelow(p);
      if below.None? {
        NoBlockBelow(blocks, held, p);
        return false;
      }
      var b := below.value;
      var found := FindFragment(blocks[b], p);
      if found.None? || blocks[b][found.value].free {
        NotAllocated(blocks, held, blockSize, b, p);
        return false;
      }
      UsedHere(blocks[b], found.value);
      assert Allocated(blocks, p, blocks[b][found.value].size);
      FragmentDiscard(blocks, held, b, found.value);
      OneFragmentAt(blocks, held, blockSize, b, found.value, p);
      DeadExactly(blocks, held, b, found.value);
      FreeFragment(b, found.value, p);
      return true;
    }

    /** Give every cached block back. */
    method Trim()
      requires Valid()
      modifies this`cache, this`cacheSize, this`held
      ensures Valid() && cache == [] && cacheSize == 0
      ensures held.Keys == blocks.Keys && PartOf(held, old(held))
    {
      ghost var rest: int := cacheSize;
      var i := 0;
      assert cache[0..] == cache;
      while i < |cache|
        invariant i <= |cache| && cache == old(cache) && rest >= 0
        invariant HeapOk(WithoutFirst(State(), i, rest), live, blockSize)
        invariant PartOf(held, old(held))
      {
        PartOfLess(held, old(held), cache[i].base);
        rest := ReturnCached(i, rest);
        i := i + 1;
      }
      EmptyCache(rest);
    }

    method ReturnCached(i: nat, ghost rest: nat) returns (ghost rest1: int)
      requires i < |cache| && HeapOk(WithoutFirst(State(), i, rest), live, blockSize)
      modifies this`held
      ensures held == old(held) - {cache[i].base} && rest1 >= 0
      ensures HeapOk(WithoutFirst(State(), i + 1, rest1), live, blockSize)
    {
      TrimStep(State(), live, blockSize, i, rest);
      ReturnBlock(cache[i]);
      rest1 := rest - cache[i].length;
    }

    method EmptyCache(ghost rest: nat)
      requires HeapOk(WithoutFirst(State(), |cache|, rest), live, blockSize)
      modifies this`cache, this`cacheSize
      ensures Valid() && cache == [] && cacheSize == 0 && held.Keys == blocks.Keys
    {
      NoneCached(WithoutFirst(State(), |cache|, rest), live, blockSize);
      cache := [];
      cacheSize := 0;
    }

    /** Mark the fragments of block b, and take their records off the free list. */
    method DiscardFragments(b: nat)
      requires b in blocks
      modifies this`freeList, this`blocks
      ensures State() == Discarding(old(State()), b)
    {
      var fs := blocks[b];
      ghost var fs0 := fs;
      var i := 0;
      while i < |fs|
        invariant i <= |fs| == |fs0| && blocks == old(blocks)
        invariant fs[..i] == DiscardAll(fs0)[..i] && fs[i..] == fs0[i..]
        invariant freeList == old(freeList) - Published(fs0[..i])
      {
        assert fs[i] == fs0[i] && fs0[..i + 1] == fs0[..i] + [fs0[i]];
        PublishedConcat(fs0[..i], [fs0[i]]);
        assert [fs0[i]][0] == fs0[i];
        freeList := freeList - EntryOf(fs[i]);
        fs := fs[i := fs[i].(discard := true, entry := None)];
        i := i + 1;
      }
      assert fs[..i] == fs && DiscardAll(fs0)[..i] == DiscardAll(fs0) && fs0[..i] == fs0;
      blocks := blocks[b := fs];
    }

    /** The listed block that contains p. */
    method FindBlock(p: nat) returns (r: Option<nat>)
      requires Valid()
      ensures r.Some? ==> InBlock(State(), r.value, p) && forall c | InBlock(State(), c, p) :: c == r.value
      ensures r.None? ==> forall c :: !InBlock(State(), c, p)
    {
      var below := BlockBelow(p);
      if below.None? {
        return None;
      }
      var fs := blocks[below.value];
      ListedExtent(State(), blockSize, below.value, p);
      if p < fs[0].base || fs[|fs| - 1].base + fs[|fs| - 1].size <= p {
        return None;
      }
      return below;
    }

    /** True for the null pointer and for every address in a listed block, which is then closed. */
    method DiscardBlock(p: nat) returns (ok: bool)
      requires Valid()
      modifies this`freeList, this`blocks
      ensures Valid() && blocks.Keys == old(blocks.Keys)
      ensures ok <==> p == 0 || exists b :: InBlock(old(State()), b, p)
      ensures !ok || p == 0 ==> State() == old(State())
      ensures forall b | InBlock(old(State()), b, p) ::
                State() == Discarding(old(State()), b) && DiscardedBlocks(blocks) == old(DiscardedBlocks(blocks)) + {b}
    {
      NoBlockAtNull(State(), blockSize);
      if p == 0 {
        return true;
      }
      var found := FindBlock(p);
      if found.None? {
        return false;
      }
      DiscardingOk(State(), live, blockSize, found.value);
      DiscardFragments(found.value);
      return true;
    }
  }

  // ------------------------------------------------------------------------------------------
  // A round trip
  // ------------------------------------------------------------------------------------------

  ghost predicate NoBlocks(h: Heap) {
    h.freeList == {} && h.blocks == map[] && h.cache == [] && h.held == map[]
  }

  /** The heap has one block, with one allocation at its start. */
  ghost predicate OneInBlock(h: Heap, lent: Block, bytes: nat) {
    && bytes <= lent.length && h.held == map[lent.base := lent.length] && h.cache == []
    && h.blocks == map[lent.base := Carve(lent.base, lent.length, bytes)]
    && h.freeList == RestKey(lent.base, lent.length, bytes)
  }

  /** From a new heap: what is allocated and freed leaves its whole block in the cache, and the next allocation,
      whatever its size, starts at the same address and asks for no block. */
  method AllocFreeAlloc(blockSize: nat, bytes: nat, bytes2: nat, lent: Block, lent2: Option<Block>)
    returns (h: SimpleHeap, ghost freed: Heap, p: nat, q: nat)
    requires 0 < bytes <= blockSize && 0 < bytes2 <= blockSize && CanLend(map[], blockSize, lent.base, lent.length)
    ensures freed.cache == [lent] && freed.cacheSize == lent.length && freed.inUseSize == 0
    ensures freed.blocks == map[] && freed.freeList == {} && freed.held == map[lent.base := lent.length]
    ensures p == q == lent.base && h.held == freed.held && h.cache == [] && h.inUseSize == lent.length && h.Valid()
  {
    h := new SimpleHeap(blockSize);
    p := AllocFirst(h, lent, bytes);
    FreeFirst(h, lent, bytes);
    freed := h.State();
    var again := h.Alloc(bytes2, lent2);
    q := again.value;
  }

  method FreeFirst(h: SimpleHeap, lent: Block, bytes: nat)
    requires h.Valid() && OneInBlock(h.State(), lent, bytes) && bytes > 0
    modifies h
    ensures h.Valid() && h.State() == Heap({}, map[], [lent], 0, lent.length, map[lent.base := lent.length])
  {
    ghost var p, before := lent.base, h.State();
    FirstIsOnly(lent, bytes);
    assert p in h.blocks && UsedIn(h.blocks[p], p, bytes);
    assert Allocated(h.blocks, p, bytes);
    assert FragmentAt(h.blocks, p, 0, p);
    var freed := h.Free(lent.base);
    assert ReleasedTo(before, p, h.State());
    assert h.blocks == map[];
    OneCached(before, h.State(), lent);
    NothingListed(h.State(), h.live, h.blockSize, lent);
  }

  lemma OneCached(h: Heap, h1: Heap, lent: Block)
    requires lent.base in h.held && h.held[lent.base] == lent.length && h.cache == []
    requires lent.base !in DiscardedBlocks(h.blocks) && lent.base !in h1.blocks && ReleasedTo(h, lent.base, h1)
    ensures h1.cache == [lent] && h1.held == h.held
  {
    assert h.cache + [Block(lent.base, h.held[lent.base])] == [lent];
    assert Evicted([lent], h.held, h1.inUseSize, h1.cache, h1.held);
    OneIsKept(lent, h.held, h1.inUseSize, h1.cache, h1.held);
  }

  /** A cache of one block is never over its limit. */
  lemma OneIsKept(lent: Block, held: map<nat, nat>, inUseSize: nat, cache1: seq<Block>, held1: map<nat, nat>)
    requires Evicted([lent], held, inUseSize, cache1, held1)
    ensures cache1 == [lent] && held1 == held
  {
    var n: nat :| EvictedTo([lent], held, n, inUseSize, cache1, held1);
    assert !OverLimit([lent], 0, inUseSize);
    assert n == 0;
    NoBases(held, [lent][..n]);
  }

  lemma NoBases(held: map<nat, nat>, bs: seq<Block>)
    requires bs == []
    ensures held - Bases(bs) == held
  {
    assert Bases(bs) == {};
  }

  lemma NothingListed(h: Heap, live: map<nat, nat>, blockSize: nat, lent: Block)
    requires HeapOk(h, live, blockSize) && h.blocks == map[] && h.cache == [lent]
    ensures h.freeList == {} && h.inUseSize == 0 && h.cacheSize == lent.length
  {
    assert forall k | k in h.freeList :: ListedIn(h.blocks, k);
    assert ListedLengths(h.blocks, h.held).Keys == {};
    CacheBytesAppend([], lent);
    assert [] + [lent] == [lent];
  }

  lemma FirstIsOnly(lent: Block, bytes: nat)
    requires 0 < bytes <= lent.length
    ensures OthersFree(Carve(lent.base, lent.length, bytes), 0) &&
            UsedIn(Carve(lent.base, lent.length, bytes), lent.base, bytes)
  {
    assert Carve(lent.base, lent.length, bytes)[0].base == lent.base;
  }

  // ------------------------------------------------------------------------------------------
  // A leak
  // ------------------------------------------------------------------------------------------

  /** A discarded block has a fragment that is marked allocated and that nobody holds. */
  ghost predicate DeadIn(h: SimpleHeap, b: nat, p: nat)
    reads h
  {
    h.Valid() && b in DiscardedBlocks(h.blocks) && p in Users(h.blocks[b]) && p !in h.live
  }

  /** From a new heap: two allocations, the block is discarded, both holders free.  Nobody holds anything, and the heap
      still holds the block. */
  method LeakDiscardedPair(blockSize: nat, lent: Block) returns (h: SimpleHeap)
    requires blockSize >= 2 && CanLend(map[], blockSize, lent.base, lent.length)
    ensures h.live == map[] && lent.base in h.held && DeadIn(h, lent.base, lent.base)
    ensures fresh(h)
  {
    h := new SimpleHeap(blockSize);
    var p, q := AllocPair(h, lent);
    DiscardPair(h, p, p, q);
    FreeBoth(h, p, q);
  }

  method FreeBoth(h: SimpleHeap, p: nat, q: nat)
    requires h.Valid() && p in DiscardedBlocks(h.blocks) && FragmentAt(h.blocks, p, 0, p) &&
             FragmentAt(h.blocks, p, 1, q)
    requires h.live == map[p := 1, q := 1]
    modifies h
    ensures DeadIn(h, p, p) && h.live == map[] && p in h.held
  {
    FreeDead(h, p, p, 0);
    FreeDead(h, p, q, 1);
  }

  /** Two allocations from a heap without blocks. */
  method AllocPair(h: SimpleHeap, lent: Block) returns (p: nat, q: nat)
    requires h.Valid() && NoBlocks(h.State()) && h.live == map[] && h.blockSize >= 2
    requires CanLend(map[], h.blockSize, lent.base, lent.length)
    modifies h
    ensures h.Valid() && FragmentAt(h.blocks, p, 0, p) && FragmentAt(h.blocks, p, 1, q) && p in h.held
    ensures p == lent.base && h.live == map[p := 1, q := 1]
  {
    p := AllocFirst(h, lent, 1);
    q := AllocSecond(h, lent);
  }

  /** The first allocation from a heap without blocks is the start of the block that is lent. */
  method AllocFirst(h: SimpleHeap, lent: Block, bytes: nat) returns (p: nat)
    requires h.Valid() && NoBlocks(h.State()) && 0 < bytes <= h.blockSize
    requires CanLend(map[], h.blockSize, lent.base, lent.length)
    modifies h
    ensures h.Valid() && p == lent.base && h.live == old(h.live)[p := bytes] && OneInBlock(h.State(), lent, bytes)
  {
    ghost var before := h.State();
    assert NoneFits(before.freeList, bytes);
    var first := h.Alloc(bytes, Some(lent));
    p := first.value;
    OpenedFirst(before, lent, bytes, p, h.State());
  }

  lemma OpenedFirst(h: Heap, lent: Block, bytes: nat, p: nat, h1: Heap)
    requires NoBlocks(h) && AllocatedFrom(h, bytes, Some(lent), p, h1)
    ensures p == lent.base && OneInBlock(h1, lent, bytes)
  {
    assert NoneFits(h.freeList, bytes);
  }

  method AllocSecond(h: SimpleHeap, lent: Block) returns (q: nat)
    requires h.Valid() && OneInBlock(h.State(), lent, 1) && 2 <= h.blockSize && 2 <= lent.length
    modifies h
    ensures h.Valid() && FragmentAt(h.blocks, lent.base, 0, lent.base) && FragmentAt(h.blocks, lent.base, 1, q)
    ensures lent.base in h.held && h.live == old(h.live)[q := 1]
  {
    ghost var before := h.State();
    RestFits(before, lent);
    var second := h.Alloc(1, None);
    q := second.value;
    SecondIsNext(before, h.State(), lent.base, q);
  }

  lemma RestFits(h: Heap, lent: Block)
    requires OneInBlock(h, lent, 1) && 2 <= lent.length
    ensures !NoneFits(h.freeList, 1)
  {
    assert FreeKey(lent.length - 1, lent.base + 1) in h.freeList;
  }

  /** The second allocation follows the first. */
  lemma SecondIsNext(h: Heap, h1: Heap, b: nat, q: nat)
    requires b in h.held && h.held[b] >= 2 && AllocatedFrom(h, 1, None, q, h1)
    requires h.blocks == map[b := Carve(b, h.held[b], 1)] && h.freeList == RestKey(b, h.held[b], 1)
    ensures q == b + 1 && FragmentAt(h1.blocks, b, 0, b) && FragmentAt(h1.blocks, b, 1, q)
  {
    assert FreeKey(h.held[b] - 1, b + 1) in h.freeList;
    var k, c, i :| BestFit(h.freeList, 1, k) && q == k.base && CarvedAt(h, c, i, k, 1, h1);
    assert i == 1;
  }

  method DiscardPair(h: SimpleHeap, b: nat, p: nat, q: nat)
    requires h.Valid() && FragmentAt(h.blocks, b, 0, p) && FragmentAt(h.blocks, b, 1, q)
    modifies h`freeList, h`blocks
    ensures h.Valid() && FragmentAt(h.blocks, b, 0, p) && FragmentAt(h.blocks, b, 1, q) &&
            b in DiscardedBlocks(h.blocks)
  {
    PairInBlock(h.blocks, h.held, h.blockSize, b, p, q);
    assert InBlock(h.State(), b, p);
    var discarded := h.DiscardBlock(p);
    assert h.blocks[b] == DiscardAll(old(h.blocks[b]));
  }

  /** A free of one of the two lowest fragments of a discarded block, both marked allocated, leaves both so. */
  method FreeDead(h: SimpleHeap, b: nat, p: nat, i: nat)
    requires h.Valid() && b in DiscardedBlocks(h.blocks) && i < 2 && FragmentAt(h.blocks, b, i, p) &&
             PairUsed(h.blocks[b])
    modifies h
    ensures DeadIn(h, b, p) && h.live == old(h.live) - {p} && b in h.held && PairUsed(h.blocks[b])
    ensures h.blocks[b][0].base == old(h.blocks[b][0].base) && h.blocks[b][1].base == old(h.blocks[b][1].base)
  {
    PairIsUsed(h.blocks, h.held, b, p, i);
    var freed := h.Free(p);
    assert FragmentAt(old(h.blocks), b, i, p);
  }

  /** The two lowest fragments are marked allocated. */
  ghost predicate PairUsed(fs: Fragments) {
    |fs| >= 2 && !fs[0].free && !fs[1].free
  }

  lemma PairIsUsed(blocks: BlockList, held: map<nat, nat>, b: nat, p: nat, i: nat)
    requires BlocksOk(blocks, held) && b in DiscardedBlocks(blocks) && i < 2 && FragmentAt(blocks, b, i, p) &&
             PairUsed(blocks[b])
    ensures b <= p && exists n :: Allocated(blocks, p, n)
    ensures var fs, blocks1 := blocks[b], FreedBlocks(blocks, b, i);
            && !OthersFree(fs, i) && LeavesDead(fs, i, true)
            && b in DiscardedBlocks(blocks1) && PairUsed(blocks1[b])
            && blocks1[b][0].base == fs[0].base && blocks1[b][1].base == fs[1].base
  {
    var fs := blocks[b];
    UsedHere(fs, i);
    assert Allocated(blocks, p, fs[i].size);
    assert BlockOk(fs, b, b + held[b]);
    Ordered(fs, b, b + held[b], i);
    FreeingBlock(fs, b, b + held[b], i);
    assert !fs[1 - i].free;
  }

  /** What other callers do. */
  datatype HeapCall = Alloc(bytes: nat, lent: Option<Block>) | Free(p: nat) | Trim | Discard(p: nat)

  /** The block is held for ever, whatever is called, unless somebody frees the address again that nobody holds. */
  method DeadForEver(h: SimpleHeap, b: nat, p: nat, calls: seq<HeapCall>)
    requires DeadIn(h, b, p) && HeapCall.Free(p) !in calls
    modifies h
    ensures DeadIn(h, b, p) && b in h.held
  {
    for i := 0 to |calls|
      invariant DeadIn(h, b, p)
    {
      assert calls[i] in calls;
      match calls[i]
      case Alloc(bytes, lent) => AllocBesideDead(h, b, p, bytes, lent);
      case Free(a) => FreeBesideDead(h, b, p, a);
      case Trim => h.Trim();
      case Discard(a) => DiscardWithDead(h, b, p, a);
    }
  }

  method AllocBesideDead(h: SimpleHeap, b: nat, p: nat, bytes: nat, lent: Option<Block>)
    requires DeadIn(h, b, p)
    modifies h
    ensures DeadIn(h, b, p)
  {
    if bytes > 0 {
      DeadInside(h.blocks, h.held, b, p);
      var r := h.Alloc(bytes, lent);
      if r.Some? {
        AllocKeepsDiscarded(old(h.State()), bytes, lent, r.value, h.State());
      }
    }
  }

  method FreeBesideDead(h: SimpleHeap, b: nat, p: nat, a: nat)
    requires DeadIn(h, b, p) && a != p
    modifies h
    ensures DeadIn(h, b, p)
  {
    ghost var blocks := h.blocks;
    assert BlocksOk(blocks, h.held);
    var freed := h.Free(a);
    if freed && a != 0 {
      ghost var n :| Allocated(blocks, a, n);
      ghost var c :| c in blocks && UsedIn(blocks[c], a, n);
      ghost var i :| 0 <= i < |blocks[c]| && blocks[c][i].base == a && blocks[c][i].size == n && !blocks[c][i].free;
      assert FragmentAt(blocks, c, i, a);
      DeadStays(blocks, old(h.held), b, p, c, i);
    }
  }

  method DiscardWithDead(h: SimpleHeap, b: nat, p: nat, a: nat)
    requires DeadIn(h, b, p)
    modifies h
    ensures DeadIn(h, b, p)
  {
    ghost var blocks := h.blocks;
    var found := h.DiscardBlock(a);
    if found && a != 0 {
      ghost var c :| InBlock(old(h.State()), c, a);
      assert h.blocks == blocks[c := DiscardAll(blocks[c])];
      DiscardedUsers(blocks[c]);
    }
  }

  lemma DiscardedUsers(fs: Fragments)
    ensures Users(DiscardAll(fs)) == Users(fs)
  {
    forall p | p in Users(fs)
      ensures p in Users(DiscardAll(fs))
    {
      var i :| 0 <= i < |fs| && !fs[i].free && fs[i].base == p;
      assert DiscardAll(fs)[i].base == p;
    }
  }

  lemma DeadInside(blocks: BlockList, held: map<nat, nat>, b: nat, p: nat)
    requires BlocksOk(blocks, held) && b in blocks && p in Users(blocks[b])
    ensures b in held && b <= p < b + held[b]
  {
    assert BlockOk(blocks[b], b, b + held[b]);
    var i :| 0 <= i < |blocks[b]| && !blocks[b][i].free && blocks[b][i].base == p;
    Ordered(blocks[b], b, b + held[b], i);
  }

  /** A fragment marked allocated stays so when another one is freed. */
  lemma DeadStays(blocks: BlockList, held: map<nat, nat>, b: nat, p: nat, c: nat, i: nat)
    requires BlocksOk(blocks, held) && b in DiscardedBlocks(blocks) && p in Users(blocks[b])
    requires c in blocks && i < |blocks[c]| && !blocks[c][i].free && blocks[c][i].base != p
    ensures var blocks1 := FreedBlocks(blocks, c, i);
            b in DiscardedBlocks(blocks1) && p in Users(blocks1[b])
  {
    if c == b {
      assert BlockOk(blocks[b], b, b + held[b]);
      FreeingBlock(blocks[b], b, b + held[b], i);
      UsersAfterFree(blocks[b], b, b + held[b], true, i);
      OnlyUser(blocks[b], b, b + held[b], i);
    }
  }

  /** An allocation leaves discarded blocks alone. */
  lemma AllocKeepsDiscarded(h: Heap, bytes: nat, lent: Option<Block>, p: nat, h1: Heap)
    requires BlocksOk(h.blocks, h.held) && CacheOk(h.cache, h.blocks, h.held)
    requires AllocatedFrom(h, bytes, lent, p, h1) && OutsideDiscarded(h, p)
    ensures forall c | c in DiscardedBlocks(h.blocks) :: c in h1.blocks && h1.blocks[c] == h.blocks[c]
  {
    if !NoneFits(h.freeList, bytes) {
      var k, b, i :| BestFit(h.freeList, bytes, k) && p == k.base && CarvedAt(h, b, i, k, bytes, h1);
      CarvedKeepsDiscarded(h, b, i, k, bytes, h1);
    }
  }

  lemma CarvedKeepsDiscarded(h: Heap, b: nat, i: nat, k: FreeKey, bytes: nat, h1: Heap)
    requires BlocksOk(h.blocks, h.held) && CarvedAt(h, b, i, k, bytes, h1) && OutsideDiscarded(h, k.base)
    ensures forall c | c in DiscardedBlocks(h.blocks) :: c in h1.blocks && h1.blocks[c] == h.blocks[c]
  {
    assert BlockOk(h.blocks[b], b, b + h.held[b]);
    Ordered(h.blocks[b], b, b + h.held[b], i);
    assert b !in DiscardedBlocks(h.blocks);
  }

  lemma PairInBlock(blocks: BlockList, held: map<nat, nat>, blockSize: nat, b: nat, p: nat, q: nat)
    requires Apart(held, blockSize) && BlocksOk(blocks, held)
    requires FragmentAt(blocks, b, 0, p) && FragmentAt(blocks, b, 1, q)
    ensures b in held && b <= p < q < b + held[b] && p > 0
  {
    assert BlockOk(blocks[b], b, b + held[b]);
    Ordered(blocks[b], b, b + held[b], 0);
    Ordered(blocks[b], b, b + held[b], 1);
  }

  /** Fragment i of block b is marked allocated at p. */
  predicate FragmentAt(blocks: BlockList, b: nat, i: int, p: nat) {
    b in blocks && 0 <= i < |blocks[b]| && blocks[b][i].base == p && !blocks[b][i].free
  }

  /** Where block b goes.  While it is listed, cache and loans stay as they are.  A discarded block is given back when
      it leaves the list, any other one goes to the back of the cache; then the cache is brought under its limit. */
  ghost predicate ReleasedTo(h: Heap, b: nat, h1: Heap)
    requires b in h.held
  {
    if b in h1.blocks then h1.cache == h.cache && h1.held == h.held
    else if b in DiscardedBlocks(h.blocks) then Evicted(h.cache, h.held - {b}, h1.inUseSize, h1.cache, h1.held)
    else Evicted(h.cache + [Block(b, h.held[b])], h.held, h1.inUseSize, h1.cache, h1.held)
  }

  /** The block list after fragment i of block b was freed: the block goes exactly when all its other fragments are
      free. */
  ghost function FreedBlocks(blocks: BlockList, b: nat, i: nat): BlockList
    requires b in blocks && i < |blocks[b]|
  {
    if OthersFree(blocks[b], i) then blocks - {b} else blocks[b := AfterFree(blocks[b], i)]
  }

  /** The freed fragment is dead exactly when its block stays, is discarded, and has no free fragment right below. */
  lemma DeadExactly(blocks: BlockList, held: map<nat, nat>, b: nat, i: nat)
    requires BlocksOk(blocks, held) && b in blocks && i < |blocks[b]| && !blocks[b][i].free
    ensures var blocks1, p := FreedBlocks(blocks, b, i), blocks[b][i].base;
            b in blocks1 && p in Users(blocks1[b]) <==>
                !OthersFree(blocks[b], i) && LeavesDead(blocks[b], i, b in DiscardedBlocks(blocks))
  {
    assert BlockOk(blocks[b], b, b + held[b]);
    UsersAfterFree(blocks[b], b, b + held[b], Discarded(blocks[b]), i);
    assert blocks[b][i].base in Users(blocks[b]);
  }

  lemma OneFragmentAt(blocks: BlockList, held: map<nat, nat>, blockSize: nat, b: nat, i: nat, p: nat)
    requires Apart(held, blockSize) && BlocksOk(blocks, held) && FragmentAt(blocks, b, i, p)
    ensures forall c, j | FragmentAt(blocks, c, j, p) :: c == b && j == i
  {
    forall c, j | FragmentAt(blocks, c, j, p)
      ensures c == b && j == i
    {
      UsedHere(blocks[b], i);
      UsedHere(blocks[c], j);
      UsedOnce(blocks, held, blockSize, b, c, p, blocks[b][i].size, blocks[c][j].size);
      assert BlockOk(blocks[b], b, b + held[b]);
      SameBase(blocks[b], b, b + held[b], i, j);
    }
  }

  /** The first n blocks of the cache go, each of them while the cache was over its limit. */
  ghost predicate EvictsJust(cache: seq<Block>, n: int, inUseSize: nat) {
    0 <= n <= |cache| && forall k | 0 <= k < n :: OverLimit(cache, k, inUseSize)
  }

  lemma NoneEvicted(cache: seq<Block>, held: map<nat, nat>, inUseSize: nat)
    ensures EvictedTo(cache, held, 0, inUseSize, cache, held)
  {
    NoBases(held, cache[..0]);
  }

  lemma OneMoreEvicted(cache: seq<Block>, held: map<nat, nat>, n: nat, inUseSize: nat, cache1: seq<Block>,
                       held1: map<nat, nat>)
    requires EvictedTo(cache, held, n, inUseSize, cache1, held1) && |cache1| > 1 && CacheBytes(cache1) > inUseSize * 2
    ensures EvictedTo(cache, held, n + 1, inUseSize, cache1[1..], held1 - {cache1[0].base})
  {
    assert OverLimit(cache, n, inUseSize);
    BasesAppend(cache[..n], cache[n]);
    assert cache[..n + 1] == cache[..n] + [cache[n]] && cache1[0] == cache[n];
    assert cache[n..][1..] == cache[n + 1..];
  }

  lemma BasesAppend(bs: seq<Block>, b: Block)
    ensures Bases(bs + [b]) == Bases(bs) + {b.base}
  {
    forall x | x in Bases(bs) + {b.base}
      ensures x in Bases(bs + [b])
    {
      if x in Bases(bs) {
        var k :| 0 <= k < |bs| && bs[k].base == x;
        assert (bs + [b])[k].base == x;
      } else {
        assert (bs + [b])[|bs|].base == x;
      }
    }
  }

  ghost function Bases(bs: seq<Block>): set<nat> {
    set k | 0 <= k < |bs| :: bs[k].base
  }

  /** Some of the oldest blocks, each while the cache was over its limit, are given back, and nothing else. */
  ghost predicate Evicted(cache: seq<Block>, held: map<nat, nat>, inUseSize: nat, cache1: seq<Block>,
                          held1: map<nat, nat>) {
    exists n: nat :: EvictedTo(cache, held, n, inUseSize, cache1, held1)
  }

  ghost predicate EvictedTo(cache: seq<Block>, held: map<nat, nat>, n: nat, inUseSize: nat, cache1: seq<Block>,
                            held1: map<nat, nat>) {
    EvictsJust(cache, n, inUseSize) && cache1 == cache[n..] && held1 == held - Bases(cache[..n])
  }

  predicate OverLimit(cache: seq<Block>, k: nat, inUseSize: nat)
    requires k <= |cache|
  {
    |cache| - k > 1 && CacheBytes(cache[k..]) > inUseSize * 2
  }

  predicate SameAt(m: map<nat, nat>, m0: map<nat, nat>, b: nat) {
    b in m ==> b in m0 && m[b] == m0[b]
  }

  /** What is in m is in m0 and the same there. */
  ghost predicate PartOf(m: map<nat, nat>, m0: map<nat, nat>) {
    forall b {:trigger SameAt(m, m0, b)} | b in m :: SameAt(m, m0, b)
  }

  lemma PartOfLess(m: map<nat, nat>, m0: map<nat, nat>, x: nat)
    requires PartOf(m, m0)
    ensures PartOf(m - {x}, m0)
  {
    forall b | b in m - {x}
      ensures SameAt(m - {x}, m0, b)
    {
      assert SameAt(m, m0, b);
    }
  }

  /** The heap without its i oldest cached blocks, the others having `rest` bytes. */
  ghost function WithoutFirst(h: Heap, i: nat, rest: nat): Heap
    requires i <= |h.cache|
  {
    h.(cache := h.cache[i..], cacheSize := rest)
  }

  lemma TrimStep(h: Heap, live: map<nat, nat>, blockSize: nat, i: nat, rest: nat)
    requires i < |h.cache| && HeapOk(WithoutFirst(h, i, rest), live, blockSize)
    ensures h.cache[i].base in h.held && h.held[h.cache[i].base] == h.cache[i].length <= rest
    ensures HeapOk(WithoutFirst(h.(held := h.held - {h.cache[i].base}), i + 1, rest - h.cache[i].length), live,
            blockSize)
  {
    FirstSplit(h.cache[i..]);
    DroppingOk(WithoutFirst(h, i, rest), live, blockSize, [], h.cache[i], h.cache[i..][1..]);
  }

  /** With an empty cache the blocks held are the listed ones. */
  lemma NoneCached(h: Heap, live: map<nat, nat>, blockSize: nat)
    requires HeapOk(h, live, blockSize) && h.cache == []
    ensures h.cacheSize == 0 && h.held.Keys == h.blocks.Keys
  {
    assert forall b | b in h.held :: b in h.blocks || CachedAt(h.cache, b);
  }

  ghost predicate InBlock(h: Heap, b: nat, p: nat) {
    b in h.blocks && b in h.held && b <= p < b + h.held[b]
  }

  lemma NoBlockAtNull(h: Heap, blockSize: nat)
    requires Apart(h.held, blockSize)
    ensures forall b :: !InBlock(h, b, 0)
  {
  }

  /** The block found below p is the only one that can contain it, and its fragments say where it ends. */
  lemma ListedExtent(h: Heap, blockSize: nat, b: nat, p: nat)
    requires Apart(h.held, blockSize) && BlocksOk(h.blocks, h.held)
    requires b in h.blocks && b <= p && forall c | c in h.blocks && c <= p :: c <= b
    ensures b in h.held && h.blocks[b] != [] && h.blocks[b][0].base == b
    ensures h.blocks[b][|h.blocks[b]| - 1].base + h.blocks[b][|h.blocks[b]| - 1].size == b + h.held[b]
    ensures forall c | InBlock(h, c, p) :: c == b
  {
    var fs := h.blocks[b];
    assert BlockOk(fs, b, b + h.held[b]);
    Ordered(fs, b, b + h.held[b], 0);
    Ordered(fs, b, b + h.held[b], |fs| - 1);
  }

  predicate NoneFits(freeList: set<FreeKey>, bytes: nat) {
    forall k | k in freeList :: k.size < bytes
  }

  /** Where an allocation comes from, and what is left there: the fragment of a smallest record that fits if there is
      one, else the block at the back of the cache if there is one, else the block that is lent. */
  ghost predicate AllocatedFrom(h: Heap, bytes: nat, lent: Option<Block>, p: nat, h1: Heap) {
    if !NoneFits(h.freeList, bytes)
    then exists k, b, i :: BestFit(h.freeList, bytes, k) && p == k.base && CarvedAt(h, b, i, k, bytes, h1)
    else if h.cache != [] then ReopenedBy(h, p, bytes, h1)
    else lent.Some? && p == lent.value.base && OpenedBy(h, lent.value, bytes, h1)
  }

  ghost predicate CarvedAt(h: Heap, b: nat, i: nat, k: FreeKey, bytes: nat, h1: Heap) {
    && b in h.blocks && i < |h.blocks[b]| && h.blocks[b][i].base == k.base && h.blocks[b][i].free
    && bytes <= h.blocks[b][i].size && h1 == Allocating(h, b, i, bytes)
  }

  ghost predicate ReopenedBy(h: Heap, p: nat, bytes: nat, h1: Heap) {
    && h.cache != [] && p == h.cache[|h.cache| - 1].base
    && bytes <= h.cache[|h.cache| - 1].length <= h.cacheSize && h1 == Reopening(h, bytes)
  }

  ghost predicate OpenedBy(h: Heap, block: Block, bytes: nat, h1: Heap) {
    block.base !in h.held && bytes <= block.length && h1 == Opening(h, block, bytes)
  }

  predicate BestFit(freeList: set<FreeKey>, bytes: nat, k: FreeKey) {
    k in freeList && k.size >= bytes && forall k1 | k1 in freeList && k1.size >= bytes :: k.size <= k1.size
  }

  /** What the block allocator gives: a block that it may lend, or nothing. */
  function Lent(held: map<nat, nat>, blockSize: nat, lent: Option<Block>): Option<Block> {
    if lent.Some? && CanLend(held, blockSize, lent.value.base, lent.value.length) then lent else None
  }

  /** Big enough, not at the null address, and apart from the blocks that are held. */
  predicate CanLend(held: map<nat, nat>, blockSize: nat, base: nat, length: nat) {
    length >= blockSize && base > 0 && forall b | b in held :: b + held[b] <= base || base + length <= b
  }

  lemma LendApart(held: map<nat, nat>, blockSize: nat, base: nat, length: nat)
    requires blockSize > 0 && Apart(held, blockSize) && CanLend(held, blockSize, base, length)
    ensures base !in held && Apart(held[base := length], blockSize)
  {
    assert forall b | b in held :: b + held[b] <= base || base + length <= b;
  }
}
