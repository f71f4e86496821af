/** The address-ordered free list allocator of src/device/MemObj.cpp. */
module Allocator {
  import opened ArenaTiles
  import opened FreeNodes
  import opened ArenaSteps

  class Allocator {
    const pool: nat
    const length: nat
    var totalFree: nat
    var memory: NodeMap
    /** Addresses handed out by alloc_high, below the top guard. */
    var high: set<nat>
    /** The arena as a row of tiles. */
    ghost var tiles: Tiles

    /** The node map is the row of tiles, and its list the free ones. */
    ghost predicate Shape()
      reads this
    {
      ArenaOk(pool, pool + length, memory, high, tiles)
    }

    ghost predicate Valid()
      reads this
    {
      Shape() && totalFree == FreeBytes(tiles)
    }

    constructor (base: nat, length: nat)
      requires 0 < base && base + length < TOP
      ensures Valid() && pool == base && this.length == length && tiles == [Tile(base, length, true)] && high == {TOP}
    {
      pool, this.length, totalFree := base, length, length;
      memory := map[0 := Node(0, At(base), End), base := Node(length, At(TOP), At(0)), TOP := Node(0, End, At(base))];
      high := {TOP};
      tiles := [Tile(base, length, true)];
      new;
      WholeArena(base, length);
    }

    // ----------------------------------------------------------------------------------------
    // The list
    // ----------------------------------------------------------------------------------------

    method InsertAfter(place: nat, node: nat)
      requires InsertReady(memory, place, node)
      modifies this`memory
      ensures memory == LinkIn(old(memory), place, node)
    {
      var next := memory[place].next;
      memory := memory[node := memory[node].(next := next)];
      memory := memory[node := memory[node].(prior := At(place))];
      memory := memory[place := memory[place].(next := At(node))];
      memory := memory[next.addr := memory[next.addr].(prior := At(node))];
    }

    method Remove(node: nat)
      requires RemoveReady(memory, node)
      modifies this`memory
      ensures memory == LinkOut(old(memory), node)
    {
      memory := memory[memory[node].prior.addr := memory[memory[node].prior.addr].(next := memory[node].next)];
      memory := memory[memory[node].next.addr := memory[memory[node].next.addr].(prior := memory[node].prior)];
      memory := memory[node := memory[node].(next := At(0))];
    }

    /** Joins two list neighbours when they touch; returns the node that holds the upper one. */
    method Merge(low: nat, upper: nat) returns (node: nat)
      requires Mergeable(memory, low, upper)
      modifies this`memory
      ensures memory == Merged(old(memory), low, upper) && node == Merger(old(memory), low, upper)
    {
      if low + memory[low].len != upper {
        return upper;
      }
      var next := memory[upper].next;
      memory := memory[low := memory[low].(len := memory[low].len + memory[upper].len)];
      memory := memory[low := memory[low].(next := next)];
      memory := memory[next.addr := memory[next.addr].(prior := At(low))];
      memory := memory - {upper};
      return low;
    }

    // ----------------------------------------------------------------------------------------
    // alloc, alloc_high
    // ----------------------------------------------------------------------------------------

    /** The lowest address that fits; the null address 0 when there is none. */
    method Alloc(bytes: nat) returns (p: nat)
      requires Valid()
      modifies this`memory, this`totalFree, this`tiles
      ensures Valid()
      ensures p == 0 <==> bytes == 0 || NoneFits(old(tiles), bytes)
      ensures p == 0 ==> unchanged(this)
      ensures p != 0 ==> exists i: nat ::
              FirstFit(old(tiles), bytes, i) && p == old(tiles)[i].addr && tiles == AllocLow(old(tiles), i, bytes)
    {
      if bytes > totalFree || bytes == 0 {
        NoneFitsTotal(tiles, bytes);
        return 0;
      }
      ghost var i: nat := FirstNode(pool, pool + length, memory, tiles);
      var current := memory[0].next.addr;
      while memory[current].next != End
        invariant unchanged(this) && ArenaOk(pool, pool + length, memory, high, tiles)
        invariant i <= |tiles| && FreeNodeAt(memory, tiles, current, i)
        invariant NoneFitsIn(tiles, 0, i, bytes)
        decreases |tiles| - i
      {
        if bytes <= memory[current].len {
          AllocLowOk(pool, pool + length, memory, high, tiles, i, bytes);
          assert FirstFit(tiles, bytes, i);
          AllocFrom(current, bytes);
          tiles := AllocLow(tiles, i, bytes);
          return current;
        }
        ghost var k := StepUp(pool, pool + length, memory, tiles, i, bytes);
        current, i := memory[current].next.addr, k;
      }
      return 0;
    }

    /** Split the node unless it is taken whole, and unlink it. */
    method AllocFrom(current: nat, bytes: nat)
      requires TakeLowReady(memory, current, bytes) && bytes <= totalFree
      modifies this`memory, this`totalFree
      ensures memory == TakeLow(old(memory), current, bytes) && totalFree == old(totalFree) - bytes
    {
      totalFree := totalFree - bytes;
      if bytes != memory[current].len {
        var remaining := current + bytes;
        memory := memory[remaining := Node(memory[current].len - bytes, End, End)];
        memory := memory[current := memory[current].(len := bytes)];
        InsertAfter(current, remaining);
      }
      Remove(current);
    }

    /** The highest address that fits; the null address 0 when there is none. */
    method AllocHighest(bytes: nat) returns (p: nat)
      requires Valid()
      modifies this`memory, this`totalFree, this`tiles, this`high
      ensures Valid()
      ensures p == 0 <==> bytes == 0 || NoneFits(old(tiles), bytes)
      ensures p == 0 ==> unchanged(this)
      ensures p != 0 ==> exists i: nat ::
              LastFit(old(tiles), bytes, i) && p == old(tiles)[i].addr + old(tiles)[i].len - bytes
                                          && tiles == AllocHigh(old(tiles), i, bytes)
      ensures p != 0 ==> high == old(high) + {p}
    {
      if bytes > totalFree || bytes == 0 {
        NoneFitsTotal(tiles, bytes);
        return 0;
      }
      ghost var k: nat := LastNode(pool, pool + length, memory, tiles);
      var current := memory[TOP].prior.addr;
      while memory[current].prior != End
        invariant unchanged(this) && ArenaOk(pool, pool + length, memory, high, tiles)
        invariant k <= |tiles| && FreeNodeBelow(memory, tiles, current, k)
        invariant NoneFitsIn(tiles, k, |tiles|, bytes)
        decreases k
      {
        ghost var i: nat, ts := k - 1, tiles;
        assert current == ts[i].addr && ts[i].free && memory[current].len == ts[i].len;
        if bytes <= memory[current].len {
          p := AllocAtTop(current, i, bytes);
          return;
        }
        ghost var j := StepDown(pool, pool + length, memory, ts, i, bytes);
        current, k := memory[current].prior.addr, j;
      }
      return 0;
    }

    method AllocAtTop(current: nat, ghost i: nat, bytes: nat) returns (p: nat)
      requires Valid() && 0 < bytes <= totalFree && i < |tiles| && LastFit(tiles, bytes, i) && current == tiles[i].addr
      requires current in memory && memory[current].len == tiles[i].len
      modifies this`memory, this`totalFree, this`tiles, this`high
      ensures Valid() && tiles == AllocHigh(old(tiles), i, bytes)
      ensures 0 < p == old(tiles)[i].addr + old(tiles)[i].len - bytes && high == old(high) + {p}
    {
      HighReady(pool, pool + length, memory, high, tiles, i, bytes);
      p := AllocFromTop(current, bytes);
      tiles := AllocHigh(tiles, i, bytes);
      AllocHighDone(pool, pool + length, old(memory), old(high), old(tiles), i, bytes, memory, high, tiles);
    }

    /** Cut the upper part off the node unless it is taken whole. */
    method AllocFromTop(current: nat, bytes: nat) returns (p: nat)
      requires TakeHighReady(memory, current, bytes) && bytes <= totalFree
      modifies this`memory, this`totalFree, this`high
      ensures p == current + old(memory)[current].len - bytes
      ensures memory == TakeHigh(old(memory), current, bytes) && totalFree == old(totalFree) - bytes &&
              high == old(high) + {p}
    {
      totalFree := totalFree - bytes;
      if bytes != memory[current].len {
        p := current + memory[current].len - bytes;
        memory := memory[current := memory[current].(len := memory[current].len - bytes)];
        memory := memory[p := Node(bytes, At(0), End)];
      } else {
        p := current;
        Remove(current);
      }
      high := high + {p};
    }

    // ----------------------------------------------------------------------------------------
    // free
    // ----------------------------------------------------------------------------------------

    /** Iterator step back: the greatest key below a. */
    method Previous(a: nat) returns (q: nat)
      requires 0 in memory && a > 0
      ensures q in memory && q < a && forall k | k in memory && k < a :: k <= q
    {
      q := 0;
      var rest := memory.Keys;
      while rest != {}
        invariant rest <= memory.Keys && q in memory && q < a
        invariant forall k | k in memory && k !in rest && k < a :: k <= q
        decreases rest
      {
        var k :| k in rest;
        if q < k < a {
          q := k;
        }
        rest := rest - {k};
      }
    }

    /** Give a whole node back.  A length above the node's own is not caught: the node is freed, but its
        bytes are not counted as free again. */
    method Free(p: nat, bytes: nat) returns (ok: bool)
      requires Valid()
      requires p in memory ==> !IsFree(memory[p]) && memory[p].len <= bytes
      modifies this
      ensures Shape()
      ensures ok <==> p in old(memory)
      ensures !ok ==> unchanged(this)
      ensures ok ==> exists i: nat :: i < |old(tiles)| && old(tiles)[i].addr == p && tiles == FreeTile(old(tiles), i)
      ensures ok ==> high == old(high) - {p}
      ensures ok ==> (Valid() <==> bytes == old(memory)[p].len)
    {
      if p !in memory {
        return false;
      }
      ghost var i := UsedNode(pool, pool + length, memory, high, tiles, p);
      if memory[p].len == bytes {
        totalFree := totalFree + memory[p].len;
      }
      var before := FreeBefore(p, i);
      FreeOk(pool, pool + length, memory, high, tiles, i);
      LinkAndCompact(before, p);
      high := high - {p};
      tiles := FreeTile(tiles, i);
      FreeDone(pool, pool + length, old(memory), old(high), old(tiles), i, memory, high, tiles);
      return true;
    }

    /** The nearest free node below the used tile i. */
    method FreeBefore(p: nat, ghost i: nat) returns (before: nat)
      requires Shape() && i < |tiles| && tiles[i].addr == p
      ensures before == AddrBelow(tiles, PrevFree(tiles, i))
    {
      ghost var k: nat := i;
      before := KeyBefore(p, k);
      while !IsFree(memory[before])
        invariant k <= i && KeyOf(memory, tiles, before, k) && PrevFree(tiles, i) == PrevFree(tiles, k)
        decreases k
      {
        k := k - 1;
        before := KeyBefore(before, k);
      }
    }

    /** One step of the walk down the keys: from the node of tile i to that of the tile below it. */
    method KeyBefore(p: nat, ghost i: nat) returns (before: nat)
      requires Shape() && i < |tiles| && tiles[i].addr == p
      ensures KeyOf(memory, tiles, before, i)
    {
      HasPrevious(pool, pool + length, memory, high, tiles, i);
      before := Previous(p);
      KeyBelow(pool, pool + length, memory, high, tiles, i, before);
    }

    method LinkAndCompact(before: nat, p: nat)
      requires FreeReady(memory, before, p)
      modifies this`memory
      ensures memory == PutBack(old(memory), before, p)
    {
      InsertAfter(before, p);
      var node := Merge(before, p);
      var _ := Merge(node, memory[node].next.addr);
    }
  }
}
