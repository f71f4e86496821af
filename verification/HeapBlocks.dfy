/** One block of src/common/simple_heap.h: its fragments in address order, and what splitting,
    merging, publishing and discarding do to them. */
module HeapBlocks {
  import opened Wrappers

  /** A record of the free list: the size it is sorted by and the address of the fragment. */
  datatype FreeKey = FreeKey(size: nat, base: nat)

  /** One entry of a block's fragment map.  `entry` is the iterator into the free list, None for its end. */
  datatype Fragment = Fragment(base: nat, size: nat, free: bool, discard: bool, entry: Option<FreeKey>)

  type Fragments = seq<Fragment>

  /** The fragments cover [base, end) without gap or overlap. */
  ghost predicate Tiled(fs: Fragments, base: nat, end: nat) {
    if fs == [] then base == end
    else fs[0].base == base && fs[0].size > 0 && Tiled(fs[1..], base + fs[0].size, end)
  }

  /** A fragment is listed, at its true size and address, when it is free and not discarded. */
  predicate TrueEntry(f: Fragment) {
    f.entry == if f.free && !f.discard then Some(FreeKey(f.size, f.base)) else None
  }

  ghost predicate TrueEntries(fs: Fragments, discard: bool) {
    forall i | 0 <= i < |fs| :: TrueEntry(fs[i]) && fs[i].discard == discard
  }

  ghost predicate NoTwoFree(fs: Fragments) {
    forall i, j | 0 <= i < |fs| && j == i + 1 < |fs| :: !(fs[i].free && fs[j].free)
  }

  /** The invariant of a block between calls.  All its fragments are discarded, or none is. */
  ghost predicate GoodBlock(fs: Fragments, base: nat, end: nat, discard: bool) {
    && fs != []
    && Tiled(fs, base, end)
    && TrueEntries(fs, discard)
    && NoTwoFree(fs)
  }

  /** An allocated fragment of n bytes at address p. */
  ghost predicate UsedIn(fs: Fragments, p: nat, n: nat) {
    exists i :: 0 <= i < |fs| && fs[i].base == p && fs[i].size == n && !fs[i].free
  }

  /** The free list records that point into the block. */
  ghost function Published(fs: Fragments): set<FreeKey> {
    set i | 0 <= i < |fs| && fs[i].entry.Some? :: fs[i].entry.value
  }

  function EntryOf(f: Fragment): set<FreeKey> {
    if f.entry.Some? then {f.entry.value} else {}
  }

  // ------------------------------------------------------------------------------------------
  // Order
  // ------------------------------------------------------------------------------------------

  /** Fragments lie in the block, in address order. */
  lemma {:induction false} Ordered(fs: Fragments, base: nat, end: nat, i: nat)
    requires Tiled(fs, base, end) && i < |fs|
    ensures base <= fs[i].base && fs[i].base + fs[i].size <= end && fs[i].size > 0
    ensures i == 0 ==> fs[i].base == base
    ensures i == |fs| - 1 ==> fs[i].base + fs[i].size == end
    ensures forall j | i < j < |fs| :: fs[i].base + fs[i].size <= fs[j].base
    decreases |fs|
  {
    if i > 0 {
      Ordered(fs[1..], base + fs[0].size, end, i - 1);
      assert forall j | i < j < |fs| :: fs[j] == fs[1..][j - 1];
    } else {
      TiledEnd(fs[1..], base + fs[0].size, end);
      forall j | 0 < j < |fs|
        ensures fs[0].base + fs[0].size <= fs[j].base
      {
        Ordered(fs[1..], base + fs[0].size, end, j - 1);
      }
    }
  }

  lemma {:induction false} TiledEnd(fs: Fragments, base: nat, end: nat)
    requires Tiled(fs, base, end)
    ensures base <= end && (fs == [] <==> base == end)
  {
    if fs != [] {
      TiledEnd(fs[1..], base + fs[0].size, end);
    }
  }

  /** A fragment's address determines it. */
  lemma SameBase(fs: Fragments, base: nat, end: nat, i: nat, j: nat)
    requires Tiled(fs, base, end) && i < |fs| && j < |fs| && fs[i].base == fs[j].base
    ensures i == j
  {
    Ordered(fs, base, end, i);
    Ordered(fs, base, end, j);
  }

  // ------------------------------------------------------------------------------------------
  // Concatenation
  // ------------------------------------------------------------------------------------------

  function EndOf(fs: Fragments, base: nat): nat {
    if fs == [] then base else EndOf(fs[1..], base + fs[0].size)
  }

  lemma {:induction false} TiledConcat(a: Fragments, b: Fragments, base: nat, end: nat)
    ensures Tiled(a + b, base, end) <==> Tiled(a, base, EndOf(a, base)) && Tiled(b, EndOf(a, base), end)
    decreases |a|
  {
    if a == [] {
      assert a + b == b;
    } else {
      assert (a + b)[1..] == a[1..] + b;
      TiledConcat(a[1..], b, base + a[0].size, end);
    }
  }

  lemma PublishedConcat(a: Fragments, b: Fragments)
    ensures Published(a + b) == Published(a) + Published(b)
  {
    var c := a + b;
    forall k | k in Published(a)
      ensures k in Published(c)
    {
      var i :| 0 <= i < |a| && a[i].entry == Some(k);
      assert c[i] == a[i];
    }
    forall k | k in Published(b)
      ensures k in Published(c)
    {
      var i :| 0 <= i < |b| && b[i].entry == Some(k);
      assert c[|a| + i] == b[i];
    }
  }

  lemma UsedConcat(a: Fragments, b: Fragments, p: nat, n: nat)
    ensures UsedIn(a + b, p, n) <==> UsedIn(a, p, n) || UsedIn(b, p, n)
  {
    var c := a + b;
    if UsedIn(a, p, n) {
      var i :| 0 <= i < |a| && a[i].base == p && a[i].size == n && !a[i].free;
      assert c[i] == a[i];
    }
    if UsedIn(b, p, n) {
      var i :| 0 <= i < |b| && b[i].base == p && b[i].size == n && !b[i].free;
      assert c[|a| + i] == b[i];
    }
  }

  /** A record published by well-formed fragments names an address in the stretch they tile. */
  lemma PublishedInside(fs: Fragments, base: nat, end: nat, discard: bool, k: FreeKey)
    requires Tiled(fs, base, end) && TrueEntries(fs, discard) && k in Published(fs)
    ensures base <= k.base < end && !discard
  {
    var i :| 0 <= i < |fs| && fs[i].entry == Some(k);
    Ordered(fs, base, end, i);
    assert TrueEntry(fs[i]);
  }

  /** Two groups of fragments that tile the same stretch. */
  ghost predicate SameStretch(mid: Fragments, mid1: Fragments) {
    forall lo: nat, hi: nat | Tiled(mid, lo, hi) :: Tiled(mid1, lo, hi)
  }

  /** Replacing a group of neighbours by fragments that tile the same stretch keeps a good block;
      the free list changes by the records of the two groups. */
  lemma ReplaceWindow(pre: Fragments, mid: Fragments, mid1: Fragments, post: Fragments, base: nat, end: nat,
                      discard: bool)
    requires GoodBlock(pre + mid + post, base, end, discard)
    requires mid1 != [] && SameStretch(mid, mid1) && TrueEntries(mid1, discard) && NoTwoFree(mid1)
    requires pre != [] ==> !(pre[|pre| - 1].free && mid1[0].free)
    requires post != [] ==> !(mid1[|mid1| - 1].free && post[0].free)
    ensures GoodBlock(pre + mid1 + post, base, end, discard)
    ensures Published(pre + mid1 + post) == Published(pre + mid + post) - Published(mid) + Published(mid1)
  {
    var lo := EndOf(pre, base);
    var hi := EndOf(mid, lo);
    TiledConcat(pre + mid, post, base, end);
    TiledConcat(pre, mid, base, EndOf(pre + mid, base));
    TiledConcat(pre, mid1, base, EndOf(pre + mid, base));
    assert EndOf(pre + mid, base) == hi by { EndConcat(pre, mid, base); }
    assert EndOf(pre + mid1, base) == hi by { EndConcat(pre, mid1, base); TiledEndOf(mid1, lo, hi); }
    TiledConcat(pre + mid1, post, base, end);
    Parts(pre, mid, post, discard);
    WindowKeys(pre, mid, mid1, post, base, lo, hi, end, discard);
    var fs1 := pre + mid1 + post;
    forall i | 0 <= i < |fs1|
      ensures TrueEntry(fs1[i]) && fs1[i].discard == discard
    {
    }
    var fs := pre + mid + post;
    forall i, j | 0 <= i < |fs1| && j == i + 1 < |fs1|
      ensures !(fs1[i].free && fs1[j].free)
    {
      if j < |pre| {
        assert fs1[i] == fs[i] && fs1[j] == fs[j];
      } else if i >= |pre| + |mid1| {
        var d := |mid| - |mid1|;
        assert fs1[i] == fs[i + d] && fs1[j] == fs[j + d];
      }
    }
  }

  lemma {:induction false} EndConcat(a: Fragments, b: Fragments, base: nat)
    ensures EndOf(a + b, base) == EndOf(b, EndOf(a, base))
    decreases |a|
  {
    if a == [] {
      assert a + b == b;
    } else {
      assert (a + b)[1..] == a[1..] + b;
      EndConcat(a[1..], b, base + a[0].size);
    }
  }

  lemma {:induction false} TiledEndOf(fs: Fragments, base: nat, end: nat)
    requires Tiled(fs, base, end)
    ensures EndOf(fs, base) == end
    decreases |fs|
  {
    if fs != [] {
      TiledEndOf(fs[1..], base + fs[0].size, end);
    }
  }

  lemma Parts(pre: Fragments, mid: Fragments, post: Fragments, discard: bool)
    requires TrueEntries(pre + mid + post, discard)
    ensures TrueEntries(pre, discard) && TrueEntries(mid, discard) && TrueEntries(post, discard)
  {
    var fs := pre + mid + post;
    assert forall i | 0 <= i < |pre| :: pre[i] == fs[i];
    assert forall i | 0 <= i < |mid| :: mid[i] == fs[|pre| + i];
    assert forall i | 0 <= i < |post| :: post[i] == fs[|pre| + |mid| + i];
  }

  lemma WindowKeys(pre: Fragments, mid: Fragments, mid1: Fragments, post: Fragments, base: nat, lo: nat, hi: nat,
                   end: nat, discard: bool)
    requires Tiled(pre, base, lo) && Tiled(mid, lo, hi) && Tiled(post, hi, end)
    requires TrueEntries(pre, discard) && TrueEntries(mid, discard) && TrueEntries(post, discard)
    ensures Published(pre + mid1 + post) == Published(pre + mid + post) - Published(mid) + Published(mid1)
  {
    PublishedConcat(pre + mid, post);
    PublishedConcat(pre, mid);
    PublishedConcat(pre + mid1, post);
    PublishedConcat(pre, mid1);
    forall k | k in Published(mid)
      ensures k !in Published(pre) && k !in Published(post)
    {
      PublishedInside(mid, lo, hi, discard, k);
      if k in Published(pre) { PublishedInside(pre, base, lo, discard, k); }
      if k in Published(post) { PublishedInside(post, hi, end, discard, k); }
    }
  }

  // ------------------------------------------------------------------------------------------
  // Allocating
  // ------------------------------------------------------------------------------------------

  function Used(base: nat, size: nat): Fragment {
    Fragment(base, size, false, false, None)
  }

  function Vacant(base: nat, size: nat): Fragment {
    Fragment(base, size, true, false, Some(FreeKey(size, base)))
  }

  /** An allocated stretch of `bytes` bytes at the start of `size` free ones, and the rest if there is any. */
  function Carve(base: nat, size: nat, bytes: nat): Fragments
    requires bytes <= size
  {
    if size > bytes then [Used(base, bytes), Vacant(base + bytes, size - bytes)] else [Used(base, bytes)]
  }

  function RestKey(base: nat, size: nat, bytes: nat): set<FreeKey>
    requires bytes <= size
  {
    if size > bytes then {FreeKey(size - bytes, base + bytes)} else {}
  }

  lemma CarveGood(base: nat, size: nat, bytes: nat)
    requires 0 < bytes <= size
    ensures GoodBlock(Carve(base, size, bytes), base, base + size, false)
    ensures Published(Carve(base, size, bytes)) == RestKey(base, size, bytes)
    ensures forall p: nat, n: nat :: UsedIn(Carve(base, size, bytes), p, n) <==> p == base && n == bytes
  {
    var fs := Carve(base, size, bytes);
    assert fs[0] == Used(base, bytes);
    forall p: nat, n: nat | p == base && n == bytes
      ensures UsedIn(fs, p, n)
    {
      assert fs[0].base == p;
    }
    if size > bytes {
      assert fs[1].entry == Some(FreeKey(size - bytes, base + bytes));
      assert fs[1..] == [fs[1]];
    }
  }

  /** Sub-allocate the first `bytes` bytes of a free fragment. */
  function Split(fs: Fragments, i: nat, bytes: nat): Fragments
    requires i < |fs| && bytes <= fs[i].size
  {
    fs[..i] + Carve(fs[i].base, fs[i].size, bytes) + fs[i + 1..]
  }

  lemma SplitGood(fs: Fragments, base: nat, end: nat, i: nat, bytes: nat)
    requires GoodBlock(fs, base, end, false) && i < |fs| && fs[i].free && 0 < bytes <= fs[i].size
    ensures var f := fs[i];
            var fs1 := Split(fs, i, bytes);
            && GoodBlock(fs1, base, end, false)
            && Published(fs1) == Published(fs) - {FreeKey(f.size, f.base)} + RestKey(f.base, f.size, bytes)
            && (forall p: nat, n: nat :: UsedIn(fs1, p, n) <==> UsedIn(fs, p, n) || (p == f.base && n == bytes))
  {
    var f := fs[i];
    var pre, mid, mid1, post := fs[..i], [f], Carve(f.base, f.size, bytes), fs[i + 1..];
    assert fs == pre + mid + post;
    CarveGood(f.base, f.size, bytes);
    forall lo: nat, hi: nat | Tiled(mid, lo, hi)
      ensures Tiled(mid1, lo, hi)
    {
      assert mid[1..] == [];
    }
    assert i > 0 ==> !fs[i - 1].free;
    assert i + 1 < |fs| ==> !fs[i + 1].free;
    ReplaceWindow(pre, mid, mid1, post, base, end, false);
    assert Published(mid) == {FreeKey(f.size, f.base)} by {
      assert TrueEntry(f) && mid[0] == f;
    }
    forall p: nat, n: nat
      ensures UsedIn(pre + mid1 + post, p, n) <==> UsedIn(fs, p, n) || (p == f.base && n == bytes)
    {
      UsedWindow(pre, mid, post, p, n);
      UsedWindow(pre, mid1, post, p, n);
    }
  }

  lemma UsedWindow(pre: Fragments, mid: Fragments, post: Fragments, p: nat, n: nat)
    ensures UsedIn(pre + mid + post, p, n) <==> UsedIn(pre, p, n) || UsedIn(mid, p, n) || UsedIn(post, p, n)
  {
    UsedConcat(pre + mid, post, p, n);
    UsedConcat(pre, mid, p, n);
  }

  // ------------------------------------------------------------------------------------------
  // Freeing
  // ------------------------------------------------------------------------------------------

  /** Grow fragment i over its upper neighbour, which disappears. */
  function Absorb(fs: Fragments, i: nat): (fs1: Fragments)
    requires i + 1 < |fs|
    ensures |fs1| == |fs| - 1
  {
    fs[..i] + [fs[i].(size := fs[i].size + fs[i + 1].size, entry := None)] + fs[i + 2..]
  }

  /** The first and last fragment that end up in one when fragment i is freed. */
  function Lowest(fs: Fragments, i: nat): (lo: nat)
    requires i < |fs|
    ensures lo <= i
  {
    if i > 0 && fs[i - 1].free then i - 1 else i
  }

  function Highest(fs: Fragments, i: nat): (hi: nat)
    requires i < |fs|
    ensures i <= hi < |fs|
  {
    if i + 1 < |fs| && fs[i + 1].free then i + 1 else i
  }

  /** That one fragment, unlisted. */
  function Joined(fs: Fragments, i: nat): Fragment
    requires i < |fs|
  {
    var lo, hi := Lowest(fs, i), Highest(fs, i);
    fs[lo].(size := (if lo < i then fs[lo].size else 0) + fs[i].size + (if i < hi then fs[hi].size else 0),
        entry := None)
  }

  function Coalesced(fs: Fragments, i: nat, m: Fragment): (fs1: Fragments)
    requires i < |fs|
    ensures |fs1| == |fs| - (Highest(fs, i) - Lowest(fs, i))
  {
    fs[..Lowest(fs, i)] + [m] + fs[Highest(fs, i) + 1..]
  }

  function MergedLower(fs: Fragments, i: nat): Fragments
    requires i < |fs|
  {
    if Lowest(fs, i) < i then Absorb(fs, i - 1) else fs
  }

  /** After the merge with the lower neighbour the upper one is what it was. */
  lemma MergedAbove(fs: Fragments, i: nat)
    requires i < |fs|
    ensures var fs1, j := MergedLower(fs, i), Lowest(fs, i);
            && (i < Highest(fs, i) <==> j + 1 < |fs1| && fs1[j + 1].free)
            && (i < Highest(fs, i) ==> fs1[j + 1] == fs[i + 1])
  {
  }

  /** Both merges, one after the other, give one fragment for the run of neighbours. */
  lemma MergedExactly(fs: Fragments, i: nat)
    requires i < |fs| && fs[i].entry == None
    ensures var fs1, j := MergedLower(fs, i), Lowest(fs, i);
            && j + (if i < Highest(fs, i) then 1 else 0) < |fs1|
            && Coalesced(fs, i, Joined(fs, i)) == if i < Highest(fs, i) then Absorb(fs1, j) else fs1
  {
    if Lowest(fs, i) < i < Highest(fs, i) {
      BothMerged(fs, i);
    } else if Lowest(fs, i) == i == Highest(fs, i) {
      NoneMerged(fs, i);
    } else {
      OneMerged(fs, i);
    }
  }

  lemma NoneMerged(fs: Fragments, i: nat)
    requires i < |fs| && fs[i].entry == None && Lowest(fs, i) == i == Highest(fs, i)
    ensures Coalesced(fs, i, Joined(fs, i)) == fs
  {
    assert Joined(fs, i) == fs[i];
    assert fs == fs[..i] + [fs[i]] + fs[i + 1..];
  }

  lemma OneMerged(fs: Fragments, i: nat)
    requires i < |fs| && Highest(fs, i) == Lowest(fs, i) + 1
    ensures Coalesced(fs, i, Joined(fs, i)) == Absorb(fs, Lowest(fs, i))
  {
    var lo := Lowest(fs, i);
    assert Joined(fs, i) == fs[lo].(size := fs[lo].size + fs[lo + 1].size, entry := None);
  }

  lemma BothMerged(fs: Fragments, i: nat)
    requires 0 < i && i + 1 < |fs| && Lowest(fs, i) == i - 1 && Highest(fs, i) == i + 1
    ensures Absorb(Absorb(fs, i - 1), i - 1) == Coalesced(fs, i, Joined(fs, i))
  {
    AbsorbParts(fs, i - 1);
    var fs1 := Absorb(fs, i - 1);
    assert fs1[i..][0] == fs[i + 1..][0];
    assert fs1[i - 1].(size := fs1[i - 1].size + fs1[i].size, entry := None) == Joined(fs, i);
  }

  lemma AbsorbParts(fs: Fragments, k: nat)
    requires k + 1 < |fs|
    ensures var fs1 := Absorb(fs, k);
            && fs1[..k] == fs[..k] && fs1[k + 1..] == fs[k + 2..] && (k + 2 < |fs| ==> fs1[k + 2..] == fs[k + 3..])
            && fs1[k] == fs[k].(size := fs[k].size + fs[k + 1].size, entry := None)
  {
    var a, c := fs[..k] + [fs[k].(size := fs[k].size + fs[k + 1].size, entry := None)], fs[k + 2..];
    assert (a + c)[..k + 1] == a && a[..k] == fs[..k] && (a + c)[..k] == a[..k];
    assert (a + c)[k + 1..] == c;
    if k + 2 < |fs| {
      assert (a + c)[k + 2..] == c[1..];
    }
  }

  /** What the joined fragment becomes: listed, unless the block is discarded. */
  function Settled(m: Fragment): Fragment {
    if m.discard then m else m.(free := true, entry := Some(FreeKey(m.size, m.base)))
  }

  lemma InThree(fs: Fragments, a: nat, b: nat)
    requires a <= b <= |fs|
    ensures fs == fs[..a] + fs[a..b] + fs[b..]
  {
  }

  lemma FreeGood(fs: Fragments, base: nat, end: nat, discard: bool, i: nat)
    requires GoodBlock(fs, base, end, discard) && i < |fs| && !fs[i].free
    ensures var m := Settled(Joined(fs, i));
            var fs1 := Coalesced(fs, i, m);
            && GoodBlock(fs1, base, end, discard)
            && Published(fs1) == Published(fs) - Published(fs[Lowest(fs, i)..Highest(fs, i) + 1]) + EntryOf(m)
            && (forall p: nat, n: nat | p != fs[i].base :: UsedIn(fs1, p, n) <==> UsedIn(fs, p, n))
  {
    var lo, hi, m := Lowest(fs, i), Highest(fs, i), Settled(Joined(fs, i));
    var pre, mid, post := fs[..lo], fs[lo..hi + 1], fs[hi + 1..];
    InThree(fs, lo, hi + 1);
    JoinedStretch(fs, i, m);
    JoinedAlone(fs, discard, i);
    UsedNeighbours(fs, i);
    ReplaceWindow(pre, mid, [m], post, base, end, discard);
    forall p: nat, n: nat | p != fs[i].base
      ensures UsedIn(pre + [m] + post, p, n) <==> UsedIn(fs, p, n)
    {
      UsedWindow(pre, mid, post, p, n);
      UsedWindow(pre, [m], post, p, n);
      UsedInJoined(fs, i, p, n);
    }
  }

  /** The joined fragment on its own. */
  lemma JoinedAlone(fs: Fragments, discard: bool, i: nat)
    requires TrueEntries(fs, discard) && i < |fs| && !fs[i].free
    ensures var m := Settled(Joined(fs, i));
            && TrueEntries([m], discard) && NoTwoFree([m]) && Published([m]) == EntryOf(m)
            && forall p: nat, n: nat | p != fs[i].base :: !UsedIn([m], p, n)
  {
    var m := Settled(Joined(fs, i));
    assert fs[Lowest(fs, i)].discard == discard && TrueEntry(fs[Lowest(fs, i)]);
    assert [m][0] == m;
  }

  lemma UsedInJoined(fs: Fragments, i: nat, p: nat, n: nat)
    requires i < |fs| && p != fs[i].base
    ensures !UsedIn(fs[Lowest(fs, i)..Highest(fs, i) + 1], p, n)
  {
  }

  /** In a block that is not discarded a freed fragment is no longer allocated. */
  lemma FreedIsGone(fs: Fragments, base: nat, end: nat, i: nat, n: nat)
    requires GoodBlock(fs, base, end, false) && i < |fs| && !fs[i].free
    ensures !UsedIn(Coalesced(fs, i, Settled(Joined(fs, i))), fs[i].base, n)
  {
    var lo, hi, m := Lowest(fs, i), Highest(fs, i), Settled(Joined(fs, i));
    var fs1 := Coalesced(fs, i, m);
    assert fs[lo].discard == false;
    forall j | 0 <= j < |fs1| && j != lo
      ensures fs1[j].base != fs[i].base
    {
      var j0 := if j < lo then j else j + (hi - lo);
      assert fs1[j] == fs[j0];
      if fs[j0].base == fs[i].base {
        SameBase(fs, base, end, i, j0);
      }
    }
    assert fs1[lo] == m && m.free;
  }

  /** Beyond the joined fragments the neighbours are allocated. */
  lemma UsedNeighbours(fs: Fragments, i: nat)
    requires NoTwoFree(fs) && i < |fs| && !fs[i].free
    ensures Lowest(fs, i) > 0 ==> !fs[Lowest(fs, i) - 1].free
    ensures Highest(fs, i) + 1 < |fs| ==> !fs[Highest(fs, i) + 1].free
  {
  }

  lemma JoinedStretch(fs: Fragments, i: nat, m: Fragment)
    requires i < |fs| && m.base == fs[Lowest(fs, i)].base && m.size == Joined(fs, i).size
    ensures SameStretch(fs[Lowest(fs, i)..Highest(fs, i) + 1], [m])
  {
    var lo, hi := Lowest(fs, i), Highest(fs, i);
    var mid := fs[lo..hi + 1];
    JoinedSize(fs, i);
    forall l: nat, h: nat | Tiled(mid, l, h)
      ensures Tiled([m], l, h)
    {
      TiledSize(mid, l, h);
      assert mid[0] == fs[lo] && [m][1..] == [];
    }
  }

  function TotalSize(fs: Fragments): nat {
    if fs == [] then 0 else fs[0].size + TotalSize(fs[1..])
  }

  lemma {:induction false} TiledSize(fs: Fragments, base: nat, end: nat)
    requires Tiled(fs, base, end)
    ensures end == base + TotalSize(fs)
    decreases |fs|
  {
    if fs != [] {
      TiledSize(fs[1..], base + fs[0].size, end);
    }
  }

  lemma JoinedSize(fs: Fragments, i: nat)
    requires i < |fs|
    ensures Joined(fs, i).size == TotalSize(fs[Lowest(fs, i)..Highest(fs, i) + 1])
  {
    var lo, hi := Lowest(fs, i), Highest(fs, i);
    var mid := fs[lo..hi + 1];
    TotalSizeOfFew(mid);
  }

  lemma TotalSizeOfFew(fs: Fragments)
    requires 1 <= |fs| <= 3
    ensures TotalSize(fs) == fs[0].size + (if |fs| > 1 then fs[1].size else 0) + (if |fs| > 2 then fs[2].size else 0)
  {
    if |fs| > 1 {
      assert fs[1..][0] == fs[1];
      assert fs[1..][1..] == fs[2..];
      assert |fs| > 2 ==> fs[2..][1..] == [];
    }
  }

  // ------------------------------------------------------------------------------------------
  // Who still holds a block
  // ------------------------------------------------------------------------------------------

  function AfterFree(fs: Fragments, i: nat): (fs1: Fragments)
    requires i < |fs|
    ensures |fs1| == |fs| - (Highest(fs, i) - Lowest(fs, i))
  {
    Coalesced(fs, i, Settled(Joined(fs, i)))
  }

  ghost predicate OthersFree(fs: Fragments, i: int) {
    forall j | 0 <= j < |fs| && j != i :: fs[j].free
  }

  /** Freeing a fragment leaves one fragment, so that the block is released, exactly when all others are free. */
  lemma ReleasedExactly(fs: Fragments, i: nat)
    requires NoTwoFree(fs) && i < |fs| && !fs[i].free
    ensures |AfterFree(fs, i)| == 1 <==> OthersFree(fs, i)
  {
    UsedNeighbours(fs, i);
  }

  /** The addresses that the fragments are marked allocated at. */
  ghost function Users(fs: Fragments): set<nat> {
    set i | 0 <= i < |fs| && !fs[i].free :: fs[i].base
  }

  lemma UsersAreUsed(fs: Fragments, p: nat)
    ensures p in Users(fs) <==> exists n :: UsedIn(fs, p, n)
  {
    if p in Users(fs) {
      var i :| 0 <= i < |fs| && fs[i].base == p && !fs[i].free;
      assert UsedIn(fs, p, fs[i].size);
    }
  }

  /** The freed fragment goes into one that is marked free, unless the block is discarded and no fragment right below it
      is free: then it stays marked allocated although nobody holds it. */
  predicate LeavesDead(fs: Fragments, i: nat, discard: bool)
    requires i < |fs|
  {
    discard && (i == 0 || !fs[i - 1].free)
  }

  lemma UsersAfterFree(fs: Fragments, base: nat, end: nat, discard: bool, i: nat)
    requires GoodBlock(fs, base, end, discard) && i < |fs| && !fs[i].free
    ensures Users(AfterFree(fs, i)) == if LeavesDead(fs, i, discard) then Users(fs) else Users(fs) - {fs[i].base}
  {
    var fs1, p0 := AfterFree(fs, i), fs[i].base;
    FreeGood(fs, base, end, discard, i);
    if LeavesDead(fs, i, discard) {
      assert fs1[i].base == p0 && !fs1[i].free && fs[i].base == p0;
    } else if discard {
      FreedBelow(fs, base, end, i);
    } else {
      forall n: nat
        ensures !UsedIn(fs1, p0, n)
      {
        FreedIsGone(fs, base, end, i, n);
      }
    }
    UsersAreUsed(fs1, p0);
    forall p | p != p0
      ensures p in Users(fs1) <==> p in Users(fs)
    {
      UsersAreUsed(fs1, p);
      UsersAreUsed(fs, p);
    }
  }

  /** In a discarded block with a free fragment right below, the freed address is gone as well. */
  lemma FreedBelow(fs: Fragments, base: nat, end: nat, i: nat)
    requires GoodBlock(fs, base, end, true) && i < |fs| && !fs[i].free && i > 0 && fs[i - 1].free
    ensures fs[i].base !in Users(AfterFree(fs, i))
  {
    var lo, hi, fs1 := Lowest(fs, i), Highest(fs, i), AfterFree(fs, i);
    forall j | 0 <= j < |fs1| && !fs1[j].free
      ensures fs1[j].base != fs[i].base
    {
      var j0 := if j < lo then j else j + (hi - lo);
      assert j != lo && fs1[j] == fs[j0];
      if fs[j0].base == fs[i].base {
        SameBase(fs, base, end, i, j0);
      }
    }
  }

  lemma OnlyUser(fs: Fragments, base: nat, end: nat, i: nat)
    requires Tiled(fs, base, end) && i < |fs| && !fs[i].free
    ensures OthersFree(fs, i) <==> Users(fs) == {fs[i].base}
  {
    forall j | 0 <= j < |fs| && j != i && !fs[j].free
      ensures fs[j].base in Users(fs) && fs[j].base != fs[i].base
    {
      if fs[j].base == fs[i].base {
        SameBase(fs, base, end, i, j);
      }
    }
  }

  /** The place of the fragment that is marked allocated at p. */
  function FindUsed(fs: Fragments, p: nat): (i: nat)
    ensures i <= |fs| && (i < |fs| ==> fs[i].base == p && !fs[i].free)
    ensures i == |fs| ==> forall j | 0 <= j < |fs| :: fs[j].base != p || fs[j].free
  {
    if fs == [] || (fs[0].base == p && !fs[0].free) then 0 else FindUsed(fs[1..], p) + 1
  }

  /** The block after its fragments at the given addresses were freed in this order, or None once it was released. */
  function FreeRun(fs: Fragments, ps: seq<nat>): Option<Fragments>
    decreases |ps|
  {
    if ps == [] then Some(fs)
    else
      var i := FindUsed(fs, ps[0]);
      if i == |fs| then FreeRun(fs, ps[1..])
      else if |AfterFree(fs, i)| == 1 then None
      else FreeRun(AfterFree(fs, i), ps[1..])
  }

  /** Every free of a discarded block but the last finds a free fragment right below the one it frees. */
  predicate LosesNone(fs: Fragments, ps: seq<nat>)
    decreases |ps|
  {
    |ps| <= 1
    || (var i := FindUsed(fs, ps[0]);
        i < |fs| && !LeavesDead(fs, i, true) && LosesNone(AfterFree(fs, i), ps[1..]))
  }

  ghost predicate NoRepeats(ps: seq<nat>) {
    forall i, j | 0 <= i < j < |ps| :: ps[i] != ps[j]
  }

  /** Address a comes before b. */
  ghost predicate FreedBefore(ps: seq<nat>, a: nat, b: nat) {
    forall k | 0 <= k < |ps| && ps[k] == b :: a in ps[..k]
  }

  ghost predicate PairPlanned(fs: Fragments, ps: seq<nat>, i: int)
    requires 0 < i < |fs|
  {
    !fs[i - 1].free && !fs[i].free ==> FreedBefore(ps, fs[i - 1].base, fs[i].base)
  }

  /** Of two neighbouring allocations the lower is freed first, and an allocation at the start of the block is the last
      to be freed. */
  ghost predicate Planned(fs: Fragments, ps: seq<nat>)
    requires fs != [] && ps != []
  {
    && (forall i | 0 < i < |fs| :: PairPlanned(fs, ps, i))
    && (!fs[0].free ==> ps[|ps| - 1] == fs[0].base)
  }

  /** When the holders of all allocations of a discarded block free them, in any order, the block is released exactly
      when they free neighbouring allocations upwards and one at the start of the block last; and not before the last
      free.  The same said along the run: no free but the last leaves a dead fragment. */
  lemma LastUserReleasesExactly(fs: Fragments, base: nat, end: nat, ps: seq<nat>)
    requires GoodBlock(fs, base, end, true)
    requires ps != [] && NoRepeats(ps) && Users(fs) == set p | p in ps
    ensures FreeRun(fs, ps).None? <==> Planned(fs, ps)
    ensures FreeRun(fs, ps).None? <==> LosesNone(fs, ps)
    ensures forall k | 0 <= k < |ps| :: FreeRun(fs, ps[..k]).Some?
  {
    RunReleases(fs, base, end, ps);
    PlannedExactly(fs, base, end, ps);
    forall k | 0 <= k < |ps|
      ensures FreeRun(fs, ps[..k]).Some?
    {
      assert ps[k] in Users(fs) && ps[k] !in ps[..k];
      if k > 0 {
        RunReleases(fs, base, end, ps[..k]);
      }
    }
  }

  /** The plan made before the first free says what every free will find. */
  lemma {:induction false} PlannedExactly(fs: Fragments, base: nat, end: nat, ps: seq<nat>)
    requires GoodBlock(fs, base, end, true)
    requires ps != [] && NoRepeats(ps) && Users(fs) == set p | p in ps
    ensures LosesNone(fs, ps) <==> Planned(fs, ps)
    decreases |ps|
  {
    var p, rest := ps[0], ps[1..];
    assert p in Users(fs) && forall q :: q in ps <==> q == p || q in rest;
    var i := FindUsed(fs, p);
    if rest == [] {
      OnlyUser(fs, base, end, i);
      OnePlanned(fs, ps, i);
    } else if LeavesDead(fs, i, true) {
      NotPlanned(fs, ps, i);
    } else {
      FreeGood(fs, base, end, true, i);
      UsersAfterFree(fs, base, end, true, i);
      PlannedExactly(AfterFree(fs, i), base, end, rest);
      PlannedStep(fs, base, end, ps, i);
    }
  }

  lemma OnePlanned(fs: Fragments, ps: seq<nat>, i: nat)
    requires i < |fs| && |ps| == 1 && ps[0] == fs[i].base && OthersFree(fs, i)
    ensures Planned(fs, ps)
  {
  }

  lemma NotPlanned(fs: Fragments, ps: seq<nat>, i: nat)
    requires i < |fs| && |ps| > 1 && NoRepeats(ps) && ps[0] == fs[i].base && !fs[i].free && LeavesDead(fs, i, true)
    ensures !Planned(fs, ps)
  {
    if i > 0 {
      assert !PairPlanned(fs, ps, i);
    }
  }

  lemma FreedBeforeTail(ps: seq<nat>, a: nat, b: nat)
    requires ps != [] && ps[0] != a && ps[0] != b
    ensures FreedBefore(ps, a, b) <==> FreedBefore(ps[1..], a, b)
  {
    var rest := ps[1..];
    forall k | 0 <= k < |rest|
      ensures a in rest[..k] <==> a in ps[..k + 1]
    {
      assert ps[..k + 1] == [ps[0]] + rest[..k];
    }
    if FreedBefore(rest, a, b) {
      forall k | 0 <= k < |ps| && ps[k] == b
        ensures a in ps[..k]
      {
        assert rest[k - 1] == b;
      }
    }
  }

  lemma FirstFreedBefore(ps: seq<nat>, b: nat)
    requires ps != [] && ps[0] != b
    ensures FreedBefore(ps, ps[0], b)
  {
  }

  /** A free above a free fragment keeps the plan for the others as it is. */
  lemma PlannedStep(fs: Fragments, base: nat, end: nat, ps: seq<nat>, i: nat)
    requires GoodBlock(fs, base, end, true) && 0 < i < |fs| && fs[i - 1].free && !fs[i].free
    requires |ps| > 1 && ps[0] == fs[i].base
    ensures Planned(fs, ps) <==> Planned(AfterFree(fs, i), ps[1..])
  {
    var lo, hi, fs1, rest := Lowest(fs, i), Highest(fs, i), AfterFree(fs, i), ps[1..];
    assert lo == i - 1 && fs1[lo].free && fs1[0].free == fs[0].free;
    forall k | 0 < k < |fs|
      ensures PairPlanned(fs, ps, k) <==> k == lo || k == i || k == i + 1 || k == hi + 1 || PairPlanned(fs, rest, k)
    {
      PairStep(fs, base, end, ps, i, k);
    }
    forall j | 0 < j < |fs1|
      ensures PairPlanned(fs1, rest, j) <==>
              j == lo || j == lo + 1 || PairPlanned(fs, rest, if j < lo then j else j + (hi - lo))
    {
    }
    if Planned(fs1, rest) {
      forall k | 0 < k < |fs|
        ensures PairPlanned(fs, ps, k)
      {
        assert k < lo ==> PairPlanned(fs1, rest, k);
        assert k > hi + 1 ==> PairPlanned(fs1, rest, k - (hi - lo));
      }
    }
  }

  lemma PairStep(fs: Fragments, base: nat, end: nat, ps: seq<nat>, i: nat, k: nat)
    requires GoodBlock(fs, base, end, true) && 0 < i < |fs| && fs[i - 1].free && !fs[i].free && 0 < k < |fs|
    requires |ps| > 1 && ps[0] == fs[i].base
    ensures PairPlanned(fs, ps, k) <==>
            k == i - 1 || k == i || k == i + 1 || k == Highest(fs, i) + 1 || PairPlanned(fs, ps[1..], k)
  {
    if k == i + 1 {
      if fs[k].base == fs[i].base { SameBase(fs, base, end, i, k); }
      FirstFreedBefore(ps, fs[k].base);
    } else if k != i {
      if fs[k].base == fs[i].base { SameBase(fs, base, end, i, k); }
      if fs[k - 1].base == fs[i].base { SameBase(fs, base, end, i, k - 1); }
      FreedBeforeTail(ps, fs[k - 1].base, fs[k].base);
    }
  }

  /** Two neighbouring allocations that fill a discarded block: freeing both changes nothing. */
  lemma PairIsLost(base: nat, n: nat, m: nat)
    requires n > 0 && m > 0
    ensures var fs := DiscardAll([Used(base, n), Used(base + n, m)]);
            && GoodBlock(fs, base, base + n + m, true)
            && FreeRun(fs, [base]) == FreeRun(fs, [base, base + n]) == Some(fs)
  {
    var fs := DiscardAll([Used(base, n), Used(base + n, m)]);
    PairGood(base, n, m);
    PairStays(fs);
    FreeRunStep(fs, base, [], 0);
    FreeRunStep(fs, base, [base + n], 0);
    FreeRunStep(fs, base + n, [], 1);
    assert [base] + [base + n] == [base, base + n] && [base] + [] == [base] && [base + n] + [] == [base + n];
  }

  lemma PairGood(base: nat, n: nat, m: nat)
    requires n > 0 && m > 0
    ensures GoodBlock(DiscardAll([Used(base, n), Used(base + n, m)]), base, base + n + m, true)
  {
    var fs := [Used(base, n), Used(base + n, m)];
    assert fs[1..] == [Used(base + n, m)] && fs[1..][1..] == [];
    assert Tiled(fs[1..], base + n, base + n + m);
    DiscardGood(fs, base, base + n + m, false);
  }

  lemma PairStays(fs: Fragments)
    requires |fs| == 2 && forall k | 0 <= k < 2 :: !fs[k].free && fs[k].discard && fs[k].entry == None
    ensures AfterFree(fs, 0) == fs && AfterFree(fs, 1) == fs && !OthersFree(fs, 0) && !OthersFree(fs, 1)
  {
  }

  lemma FreeRunStep(fs: Fragments, p: nat, ps: seq<nat>, i: nat)
    requires i < |fs| && fs[i].base == p && !fs[i].free && |AfterFree(fs, i)| > 1
    requires forall j | 0 <= j < i :: fs[j].base != p
    ensures FreeRun(fs, [p] + ps) == FreeRun(AfterFree(fs, i), ps)
  {
    FindsFirst(fs, p, i);
    assert ([p] + ps)[0] == p && ([p] + ps)[1..] == ps;
  }

  lemma {:induction false} FindsFirst(fs: Fragments, p: nat, i: nat)
    requires i < |fs| && fs[i].base == p && !fs[i].free && forall j | 0 <= j < i :: fs[j].base != p
    ensures FindUsed(fs, p) == i
  {
    if i > 0 {
      FindsFirst(fs[1..], p, i - 1);
    }
  }

  /** The same when some fragments are dead, or held by others, from the start. */
  lemma {:induction false} RunReleases(fs: Fragments, base: nat, end: nat, ps: seq<nat>)
    requires GoodBlock(fs, base, end, true)
    requires ps != [] && NoRepeats(ps) && forall p | p in ps :: p in Users(fs)
    ensures FreeRun(fs, ps).None? <==> (forall p | p in Users(fs) :: p in ps) && LosesNone(fs, ps)
    decreases |ps|
  {
    var p, rest := ps[0], ps[1..];
    assert p in ps && p !in rest && forall q :: q in ps <==> q == p || q in rest;
    var i := FindUsed(fs, p);
    var fs1 := AfterFree(fs, i);
    ReleasedExactly(fs, i);
    OnlyUser(fs, base, end, i);
    UsersAfterFree(fs, base, end, true, i);
    FreeGood(fs, base, end, true, i);
    if |fs1| != 1 && rest != [] {
      RunReleases(fs1, base, end, rest);
    }
    assert rest == [] ==> FreeRun(fs1, rest) == Some(fs1);
    assert |fs1| == 1 ==> rest == [] by {
      if rest != [] { assert rest[0] in ps; }
    }
  }

  // ------------------------------------------------------------------------------------------
  // Discarding
  // ------------------------------------------------------------------------------------------

  function DiscardAll(fs: Fragments): (fs1: Fragments)
    ensures |fs1| == |fs|
  {
    seq(|fs|, i requires 0 <= i < |fs| => fs[i].(discard := true, entry := None))
  }

  lemma DiscardGood(fs: Fragments, base: nat, end: nat, discard: bool)
    requires GoodBlock(fs, base, end, discard)
    ensures GoodBlock(DiscardAll(fs), base, end, true)
    ensures Published(DiscardAll(fs)) == {}
    ensures forall p: nat, n: nat :: UsedIn(DiscardAll(fs), p, n) <==> UsedIn(fs, p, n)
  {
    var fs1 := DiscardAll(fs);
    DiscardTiled(fs, base, end);
    forall p: nat, n: nat | UsedIn(fs, p, n)
      ensures UsedIn(fs1, p, n)
    {
      var i :| 0 <= i < |fs| && fs[i].base == p && fs[i].size == n && !fs[i].free;
      assert fs1[i].base == p;
    }
  }

  lemma {:induction false} DiscardTiled(fs: Fragments, base: nat, end: nat)
    requires Tiled(fs, base, end)
    ensures Tiled(DiscardAll(fs), base, end)
    decreases |fs|
  {
    if fs != [] {
      DiscardTiled(fs[1..], base + fs[0].size, end);
      assert DiscardAll(fs)[1..] == DiscardAll(fs[1..]);
    }
  }
}
