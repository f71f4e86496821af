/** The arena of the Allocator of src/device/MemObj.cpp as a row of tiles, and what first fit, last fit
    and freeing do to the row. */
module ArenaTiles {

  datatype Tile = Tile(addr: nat, len: nat, free: bool)

  type Tiles = seq<Tile>

  /** Tile i is not empty, unless it is the whole of an empty arena, and the next tile starts where it ends. */
  ghost predicate TileOk(ts: Tiles, i: int)
    requires 0 <= i < |ts|
  {
    && (ts[i].len > 0 || (ts[i].free && |ts| == 1))
    && (i + 1 < |ts| ==> ts[i].addr + ts[i].len == ts[i + 1].addr)
  }

  /** The tiles cover [base, end) without gap or overlap. */
  ghost predicate Tiling(ts: Tiles, base: nat, end: nat) {
    && ts != []
    && ts[0].addr == base
    && ts[|ts| - 1].addr + ts[|ts| - 1].len == end
    && forall i | 0 <= i < |ts| :: TileOk(ts, i)
  }

  ghost predicate TilesApart(ts: Tiles, i: int)
    requires 0 < i < |ts|
  {
    !(ts[i - 1].free && ts[i].free)
  }

  /** No two neighbours could be merged. */
  ghost predicate NoMergeable(ts: Tiles) {
    forall i | 0 < i < |ts| :: TilesApart(ts, i)
  }

  lemma {:induction false} TilesOrdered(ts: Tiles, base: nat, end: nat, i: nat, j: nat)
    requires Tiling(ts, base, end) && i < j < |ts|
    ensures ts[i].addr + ts[i].len <= ts[j].addr && ts[i].addr < ts[j].addr
    decreases j - i
  {
    assert TileOk(ts, i);
    if i + 1 < j {
      TilesOrdered(ts, base, end, i + 1, j);
    }
  }

  lemma Inside(ts: Tiles, base: nat, end: nat, i: nat)
    requires Tiling(ts, base, end) && i < |ts|
    ensures base <= ts[i].addr && ts[i].addr + ts[i].len <= end
  {
    if i > 0 {
      TilesOrdered(ts, base, end, 0, i);
    }
    if i < |ts| - 1 {
      TilesOrdered(ts, base, end, i, |ts| - 1);
    }
  }

  lemma SameAddr(ts: Tiles, base: nat, end: nat, i: nat, j: nat)
    requires Tiling(ts, base, end) && i < |ts| && j < |ts| && ts[i].addr == ts[j].addr
    ensures i == j
  {
    if i < j {
      TilesOrdered(ts, base, end, i, j);
    } else if j < i {
      TilesOrdered(ts, base, end, j, i);
    }
  }

  function FreeBytes(ts: Tiles): nat {
    if ts == [] then 0 else (if ts[0].free then ts[0].len else 0) + FreeBytes(ts[1..])
  }

  lemma {:induction false} FreeBytesConcat(a: Tiles, b: Tiles)
    ensures FreeBytes(a + b) == FreeBytes(a) + FreeBytes(b)
  {
    if a == [] {
      assert a + b == b;
    } else {
      assert (a + b)[1..] == a[1..] + b;
      FreeBytesConcat(a[1..], b);
    }
  }

  /** Addresses of the free tiles, in order. */
  function FreeAddrs(ts: Tiles): seq<nat> {
    if ts == [] then [] else (if ts[0].free then [ts[0].addr] else []) + FreeAddrs(ts[1..])
  }

  lemma {:induction false} FreeAddrsConcat(a: Tiles, b: Tiles)
    ensures FreeAddrs(a + b) == FreeAddrs(a) + FreeAddrs(b)
  {
    if a == [] {
      assert a + b == b;
    } else {
      assert (a + b)[1..] == a[1..] + b;
      FreeAddrsConcat(a[1..], b);
      var first := if a[0].free then [a[0].addr] else [];
      assert FreeAddrs(a + b) == first + (FreeAddrs(a[1..]) + FreeAddrs(b));
      assert first + (FreeAddrs(a[1..]) + FreeAddrs(b)) == (first + FreeAddrs(a[1..])) + FreeAddrs(b);
    }
  }

  /** An address is in the list of free addresses exactly when a free tile has it. */
  lemma {:induction false} FreeAddrsIn(ts: Tiles, a: nat)
    ensures a in FreeAddrs(ts) <==> exists i :: 0 <= i < |ts| && ts[i].free && ts[i].addr == a
  {
    if ts != [] {
      FreeAddrsIn(ts[1..], a);
      if i :| 0 <= i < |ts| && ts[i].free && ts[i].addr == a {
        if i > 0 { assert ts[1..][i - 1] == ts[i]; }
      }
      if j :| 0 <= j < |ts[1..]| && ts[1..][j].free && ts[1..][j].addr == a {
        assert ts[j + 1] == ts[1..][j];
      }
    }
  }

  lemma {:induction false} FitsInTotal(ts: Tiles, i: nat)
    requires i < |ts| && ts[i].free
    ensures ts[i].len <= FreeBytes(ts)
  {
    if i > 0 {
      FitsInTotal(ts[1..], i - 1);
    }
  }

  // ------------------------------------------------------------------------------------------
  // Allocating
  // ------------------------------------------------------------------------------------------

  predicate Fits(t: Tile, bytes: nat) {
    t.free && bytes <= t.len
  }

  ghost predicate FirstFit(ts: Tiles, bytes: nat, i: nat) {
    i < |ts| && Fits(ts[i], bytes) && forall j | 0 <= j < i :: !Fits(ts[j], bytes)
  }

  ghost predicate LastFit(ts: Tiles, bytes: nat, i: nat) {
    i < |ts| && Fits(ts[i], bytes) && forall j | i < j < |ts| :: !Fits(ts[j], bytes)
  }

  /** The first `bytes` bytes of a tile in use, the rest free. */
  function LowPart(t: Tile, bytes: nat): Tiles
    requires bytes <= t.len
  {
    [Tile(t.addr, bytes, false)] + (if bytes < t.len then [Tile(t.addr + bytes, t.len - bytes, true)] else [])
  }

  /** The last `bytes` bytes of a tile in use, the rest free. */
  function HighPart(t: Tile, bytes: nat): Tiles
    requires bytes <= t.len
  {
    (if bytes < t.len then [Tile(t.addr, t.len - bytes, true)] else []) + [Tile(t.addr + t.len - bytes, bytes, false)]
  }

  function AllocLow(ts: Tiles, i: nat, bytes: nat): Tiles
    requires i < |ts| && bytes <= ts[i].len
  {
    ts[..i] + LowPart(ts[i], bytes) + ts[i + 1..]
  }

  function AllocHigh(ts: Tiles, i: nat, bytes: nat): Tiles
    requires i < |ts| && bytes <= ts[i].len
  {
    ts[..i] + HighPart(ts[i], bytes) + ts[i + 1..]
  }

  /** The tile that AllocHigh puts in use. */
  function HighIndex(ts: Tiles, i: nat, bytes: nat): nat
    requires i < |ts| && bytes <= ts[i].len
  {
    if bytes < ts[i].len then i + 1 else i
  }

  // ------------------------------------------------------------------------------------------
  // Freeing
  // ------------------------------------------------------------------------------------------

  /** Tiles i and i + 1 become one. */
  function Join(ts: Tiles, i: nat): (ts1: Tiles)
    requires i + 1 < |ts|
    ensures |ts1| == |ts| - 1
  {
    ts[..i] + [Tile(ts[i].addr, ts[i].len + ts[i + 1].len, ts[i].free)] + ts[i + 2..]
  }

  function JoinBelow(ts: Tiles, i: nat): Tiles
    requires i < |ts|
  {
    if i > 0 && ts[i - 1].free then Join(ts, i - 1) else ts
  }

  /** Where tile i is after it was joined to the one below. */
  function BelowIndex(ts: Tiles, i: nat): nat {
    if 0 < i <= |ts| && ts[i - 1].free then i - 1 else i
  }

  function JoinAbove(ts: Tiles, i: nat): Tiles
    requires i < |ts|
  {
    if i + 1 < |ts| && ts[i + 1].free then Join(ts, i) else ts
  }

  /** Tile i becomes free and takes in its free neighbours. */
  function FreeTile(ts: Tiles, i: nat): Tiles
    requires i < |ts|
  {
    var ts1 := Flip(ts, i, true);
    JoinAbove(JoinBelow(ts1, i), BelowIndex(ts1, i))
  }

  // ------------------------------------------------------------------------------------------
  // What the operations keep
  // ------------------------------------------------------------------------------------------

  /** The upper part of tile i becomes a tile of its own. */
  function Cut(ts: Tiles, i: nat, len: nat, free: bool): Tiles
    requires i < |ts| && len <= ts[i].len
  {
    var t := ts[i];
    ts[..i] + [t.(len := len), Tile(t.addr + len, t.len - len, free)] + ts[i + 1..]
  }

  lemma CutTiling(ts: Tiles, base: nat, end: nat, i: nat, len: nat, free: bool)
    requires Tiling(ts, base, end) && i < |ts| && 0 < len < ts[i].len
    ensures Tiling(Cut(ts, i, len, free), base, end)
  {
    var r := Cut(ts, i, len, free);
    assert TileOk(ts, i);
    forall k | 0 <= k < |r|
      ensures TileOk(r, k)
    {
      if k < i {
        assert TileOk(ts, k) && r[k] == ts[k];
      } else if k > i + 1 {
        assert TileOk(ts, k - 1) && r[k] == ts[k - 1];
      }
    }
  }

  lemma JoinTiling(ts: Tiles, base: nat, end: nat, i: nat)
    requires Tiling(ts, base, end) && i + 1 < |ts|
    ensures Tiling(Join(ts, i), base, end)
  {
    var r := Join(ts, i);
    assert TileOk(ts, i) && TileOk(ts, i + 1);
    forall k | 0 <= k < |r|
      ensures TileOk(r, k)
    {
      if k < i {
        assert TileOk(ts, k) && r[k] == ts[k];
      } else if k > i {
        assert TileOk(ts, k + 1) && r[k] == ts[k + 1];
      }
    }
  }

  /** Tile i becomes free or used. */
  function Flip(ts: Tiles, i: nat, free: bool): (r: Tiles)
    requires i < |ts|
    ensures |r| == |ts|
  {
    ts[i := ts[i].(free := free)]
  }

  lemma FlipTiling(ts: Tiles, base: nat, end: nat, i: nat, free: bool)
    requires Tiling(ts, base, end) && i < |ts| && ts[i].len > 0
    ensures Tiling(Flip(ts, i, free), base, end)
  {
    var r := Flip(ts, i, free);
    forall k | 0 <= k < |r|
      ensures TileOk(r, k)
    {
      assert TileOk(ts, k);
    }
  }

  /** Only tiles p and q may be mergeable with the tile below. */
  ghost predicate NoMergeableBut(ts: Tiles, p: int, q: int) {
    forall i | 0 < i < |ts| && i != p && i != q :: TilesApart(ts, i)
  }

  lemma JoinApart(ts: Tiles, i: nat, q: int)
    requires i + 1 < |ts| && q > i && NoMergeableBut(ts, i + 1, q) && ts[i].free && ts[i + 1].free
    ensures NoMergeableBut(Join(ts, i), 0, if q > i + 1 then q - 1 else 0)
  {
    var r := Join(ts, i);
    forall k | 0 < k < |r| && !(q > i + 1 && k == q - 1)
      ensures TilesApart(r, k)
    {
      if k > i {
        assert TilesApart(ts, k + 1);
      } else {
        assert TilesApart(ts, k);
      }
    }
  }

  /** Freeing leaves no mergeable neighbours. */
  lemma FreeTileApart(ts: Tiles, i: nat)
    requires NoMergeable(ts) && i < |ts| && !ts[i].free
    ensures NoMergeable(FreeTile(ts, i))
  {
    var ts1 := Flip(ts, i, true);
    forall k | 0 < k < |ts1| && k != i && k != i + 1
      ensures TilesApart(ts1, k)
    {
      assert TilesApart(ts, k);
    }
    assert NoMergeableBut(ts1, i, i + 1);
    if i > 0 && ts1[i - 1].free {
      JoinApart(ts1, i - 1, i + 1);
    }
    var lo, b := JoinBelow(ts1, i), BelowIndex(ts1, i);
    assert NoMergeableBut(lo, b + 1, b + 1) && lo[b].free;
    if b + 1 < |lo| && lo[b + 1].free {
      JoinApart(lo, b, b + 1);
    }
  }

  /** Replacing a free tile by tiles of which no two neighbours are free. */
  lemma ReplaceApart(ts: Tiles, i: nat, mid: Tiles)
    requires NoMergeable(ts) && i < |ts| && ts[i].free && NoMergeable(mid) && mid != []
    ensures NoMergeable(ts[..i] + mid + ts[i + 1..])
  {
    var r := ts[..i] + mid + ts[i + 1..];
    var d := |mid| - 1;
    assert i > 0 ==> TilesApart(ts, i);
    assert i + 1 < |ts| ==> TilesApart(ts, i + 1);
    forall k | 0 < k < |r|
      ensures TilesApart(r, k)
    {
      if k < i {
        assert TilesApart(ts, k);
      } else if i < k <= i + d {
        assert TilesApart(mid, k - i);
      } else if k > i + d + 1 {
        assert TilesApart(ts, k - d);
      }
    }
  }

  // ------------------------------------------------------------------------------------------
  // Tiles in use
  // ------------------------------------------------------------------------------------------

  /** Allocating adds exactly one tile in use, and leaves every other one as it was. */
  lemma UsedAfterAlloc(ts: Tiles, i: nat, bytes: nat, t: Tile)
    requires i < |ts| && Fits(ts[i], bytes) && !t.free
    ensures t in AllocLow(ts, i, bytes) <==> t in ts || t == Tile(ts[i].addr, bytes, false)
    ensures t in AllocHigh(ts, i, bytes) <==> t in ts || t == Tile(ts[i].addr + ts[i].len - bytes, bytes, false)
  {
    assert ts == ts[..i] + [ts[i]] + ts[i + 1..];
  }

  /** Freeing takes exactly one away. */
  lemma UsedAfterFree(ts: Tiles, base: nat, end: nat, i: nat, t: Tile)
    requires Tiling(ts, base, end) && i < |ts| && !ts[i].free && !t.free
    ensures t in FreeTile(ts, i) <==> t in ts && t != ts[i]
  {
    var ts1 := Flip(ts, i, true);
    UsedAfterFlip(ts, base, end, i, t);
    if i > 0 && ts1[i - 1].free {
      UsedAfterJoin(ts1, i - 1, t);
    }
    var lo, b := JoinBelow(ts1, i), BelowIndex(ts1, i);
    assert lo[b].free;
    if b + 1 < |lo| && lo[b + 1].free {
      UsedAfterJoin(lo, b, t);
    }
  }

  lemma UsedAfterFlip(ts: Tiles, base: nat, end: nat, i: nat, t: Tile)
    requires Tiling(ts, base, end) && i < |ts| && !ts[i].free && !t.free
    ensures t in Flip(ts, i, true) <==> t in ts && t != ts[i]
  {
    assert ts == ts[..i] + [ts[i]] + ts[i + 1..];
    assert Flip(ts, i, true) == ts[..i] + [ts[i].(free := true)] + ts[i + 1..];
    if j :| 0 <= j < |ts| && j != i && ts[j] == ts[i] {
      SameAddr(ts, base, end, i, j);
    }
  }

  lemma UsedAfterJoin(ts: Tiles, i: nat, t: Tile)
    requires i + 1 < |ts| && ts[i].free && ts[i + 1].free && !t.free
    ensures t in Join(ts, i) <==> t in ts
  {
    assert ts == ts[..i] + [ts[i], ts[i + 1]] + ts[i + 2..];
  }

  // ------------------------------------------------------------------------------------------
  // Round trips
  // ------------------------------------------------------------------------------------------

  /** Freeing what alloc just returned restores the row exactly. */
  lemma FreeUndoesAllocLow(ts: Tiles, i: nat, bytes: nat)
    requires NoMergeable(ts) && i < |ts| && ts[i].free && 0 < bytes <= ts[i].len
    ensures FreeTile(AllocLow(ts, i, bytes), i) == ts
  {
    var r := AllocLow(ts, i, bytes);
    var r1 := Flip(r, i, true);
    assert i > 0 ==> TilesApart(ts, i) && r1[i - 1] == ts[i - 1];
    assert i + 1 < |ts| ==> TilesApart(ts, i + 1);
    assert JoinBelow(r1, i) == r1;
    if bytes < ts[i].len {
      assert r1[i + 1] == Tile(ts[i].addr + bytes, ts[i].len - bytes, true);
      assert Join(r1, i) == ts;
    } else {
      assert r1 == ts;
    }
  }

  lemma FreeUndoesAllocHigh(ts: Tiles, i: nat, bytes: nat)
    requires NoMergeable(ts) && i < |ts| && ts[i].free && 0 < bytes <= ts[i].len
    ensures FreeTile(AllocHigh(ts, i, bytes), HighIndex(ts, i, bytes)) == ts
  {
    if bytes < ts[i].len {
      HighSplitUndone(ts, i, bytes);
    } else {
      assert AllocHigh(ts, i, bytes) == AllocLow(ts, i, bytes);
      FreeUndoesAllocLow(ts, i, bytes);
    }
  }

  lemma HighSplitUndone(ts: Tiles, i: nat, bytes: nat)
    requires NoMergeable(ts) && i < |ts| && ts[i].free && 0 < bytes < ts[i].len
    ensures FreeTile(AllocHigh(ts, i, bytes), i + 1) == ts
  {
    var t := ts[i];
    var low, high := Tile(t.addr, t.len - bytes, true), Tile(t.addr + t.len - bytes, bytes, true);
    var r := AllocHigh(ts, i, bytes);
    var r1 := r[i + 1 := r[i + 1].(free := true)];
    assert r1 == ts[..i] + [low, high] + ts[i + 1..];
    assert Join(r1, i) == ts;
    assert i + 1 < |ts| ==> TilesApart(ts, i + 1);
    assert JoinAbove(ts, i) == ts;
  }

  /** The same, by the address that alloc returned. */
  lemma AllocThenFree(ts: Tiles, base: nat, end: nat, i: nat, bytes: nat, j: nat)
    requires NoMergeable(ts) && i < |ts| && Fits(ts[i], bytes) && bytes > 0
    requires Tiling(AllocLow(ts, i, bytes), base, end)
    requires j < |AllocLow(ts, i, bytes)| && AllocLow(ts, i, bytes)[j].addr == ts[i].addr
    ensures FreeTile(AllocLow(ts, i, bytes), j) == ts
  {
    SameAddr(AllocLow(ts, i, bytes), base, end, i, j);
    FreeUndoesAllocLow(ts, i, bytes);
  }

  lemma AllocHighThenFree(ts: Tiles, base: nat, end: nat, i: nat, bytes: nat, j: nat)
    requires NoMergeable(ts) && i < |ts| && Fits(ts[i], bytes) && bytes > 0
    requires Tiling(AllocHigh(ts, i, bytes), base, end)
    requires j < |AllocHigh(ts, i, bytes)| && AllocHigh(ts, i, bytes)[j].addr == ts[i].addr + ts[i].len - bytes
    ensures FreeTile(AllocHigh(ts, i, bytes), j) == ts
  {
    assert AllocHigh(ts, i, bytes)[HighIndex(ts, i, bytes)].addr == ts[i].addr + ts[i].len - bytes;
    SameAddr(AllocHigh(ts, i, bytes), base, end, HighIndex(ts, i, bytes), j);
    FreeUndoesAllocHigh(ts, i, bytes);
  }

  // ------------------------------------------------------------------------------------------
  // Bytes
  // ------------------------------------------------------------------------------------------

  lemma ReplaceBytes(ts: Tiles, i: nat, mid: Tiles)
    requires i < |ts|
    ensures FreeBytes(ts[..i] + mid + ts[i + 1..]) + (if ts[i].free then ts[i].len else 0)
            == FreeBytes(ts) + FreeBytes(mid)
  {
    assert ts == ts[..i] + [ts[i]] + ts[i + 1..];
    FreeBytesConcat(ts[..i] + [ts[i]], ts[i + 1..]);
    FreeBytesConcat(ts[..i], [ts[i]]);
    FreeBytesConcat(ts[..i] + mid, ts[i + 1..]);
    FreeBytesConcat(ts[..i], mid);
    assert [ts[i]][1..] == [];
  }

  lemma JoinBytes(ts: Tiles, i: nat)
    requires i + 1 < |ts| && ts[i].free && ts[i + 1].free
    ensures FreeBytes(Join(ts, i)) == FreeBytes(ts)
  {
    var mid := [Tile(ts[i].addr, ts[i].len + ts[i + 1].len, true)];
    assert ts == ts[..i] + ([ts[i]] + [ts[i + 1]]) + ts[i + 2..];
    FreeBytesConcat(ts[..i] + ([ts[i]] + [ts[i + 1]]), ts[i + 2..]);
    FreeBytesConcat(ts[..i], [ts[i]] + [ts[i + 1]]);
    FreeBytesConcat([ts[i]], [ts[i + 1]]);
    FreeBytesConcat(ts[..i] + mid, ts[i + 2..]);
    FreeBytesConcat(ts[..i], mid);
    assert [ts[i]][1..] == [] && [ts[i + 1]][1..] == [] && mid[1..] == [];
  }

  lemma FlipBytes(ts: Tiles, i: nat)
    requires i < |ts| && !ts[i].free
    ensures FreeBytes(Flip(ts, i, true)) == FreeBytes(ts) + ts[i].len
  {
    var t := ts[i].(free := true);
    assert ts[i := t] == ts[..i] + [t] + ts[i + 1..];
    ReplaceBytes(ts, i, [t]);
    assert [t][1..] == [];
  }

  /** Freeing a tile adds its bytes to the free ones. */
  lemma FreeTileBytes(ts: Tiles, i: nat)
    requires i < |ts| && !ts[i].free
    ensures FreeBytes(FreeTile(ts, i)) == FreeBytes(ts) + ts[i].len
  {
    var ts1 := Flip(ts, i, true);
    FlipBytes(ts, i);
    if i > 0 && ts1[i - 1].free {
      JoinBytes(ts1, i - 1);
    }
    var lo, b := JoinBelow(ts1, i), BelowIndex(ts1, i);
    if b + 1 < |lo| && lo[b + 1].free {
      JoinBytes(lo, b);
    }
  }
}
