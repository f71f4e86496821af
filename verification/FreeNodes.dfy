/** The address map of the Allocator of src/device/MemObj.cpp: nodes threaded by a doubly linked list of the
    free ones, between a guard at 0 and a guard at the top address. */
module FreeNodes {
  import opened ArenaTiles

  const TOP: nat := 0xFFFF_FFFF_FFFF_FFFF

  /** An iterator into the map.  The map begins with the guard at 0. */
  datatype Link = At(addr: nat) | End

  datatype Node = Node(len: nat, next: Link, prior: Link)

  type NodeMap = map<nat, Node>

  /** A used node's next link is the begin of the map. */
  predicate IsFree(n: Node) {
    n.next != At(0)
  }

  ghost predicate AddrLess(fl: seq<nat>, i: int, j: int)
    requires 0 <= i < j < |fl|
  {
    fl[i] < fl[j]
  }

  ghost predicate Increasing(fl: seq<nat>) {
    forall i, j | 0 <= i < j < |fl| :: AddrLess(fl, i, j)
  }

  /** Node p links forward to node q, and q back to p. */
  ghost predicate Joint(m: NodeMap, p: nat, q: nat) {
    p in m && q in m && m[p].next == At(q) && m[q].prior == At(p)
  }

  ghost predicate LinkAt(m: NodeMap, fl: seq<nat>, i: int)
    requires 0 <= i < |fl|
  {
    fl[i] in m && (i + 1 < |fl| ==> Joint(m, fl[i], fl[i + 1]))
  }

  ghost predicate Chained(m: NodeMap, fl: seq<nat>) {
    forall i | 0 <= i < |fl| :: LinkAt(m, fl, i)
  }

  /** The links run through fl, forwards and backwards. */
  ghost predicate ListLinked(m: NodeMap, fl: seq<nat>) {
    && |fl| >= 2 && fl[0] == 0 && fl[|fl| - 1] == TOP
    && Increasing(fl)
    && Chained(m, fl)
    && 0 in m && TOP in m && m[0].prior == End && m[TOP].next == End
  }

  /** The free list that the tiles call for. */
  function FreeList(ts: Tiles): seq<nat> {
    [0] + FreeAddrs(ts) + [TOP]
  }

  ghost function Addrs(ts: Tiles): set<nat> {
    set i | 0 <= i < |ts| :: ts[i].addr
  }

  ghost predicate Nodes(m: NodeMap, ts: Tiles) {
    && m.Keys == {0, TOP} + Addrs(ts)
    && 0 in m && m[0].len == 0
    && TOP in m && m[TOP].len == 0
    && forall i | 0 <= i < |ts| :: NodeAt(m, ts, i)
  }

  ghost predicate NodeAt(m: NodeMap, ts: Tiles, i: int)
    requires 0 <= i < |ts|
  {
    var p := ts[i].addr;
    p in m && m[p].len == ts[i].len && (!ts[i].free ==> !IsFree(m[p]))
  }

  /** The map holds exactly the tiles, and its list exactly the free ones in address order. */
  ghost predicate Mirrors(m: NodeMap, ts: Tiles) {
    Nodes(m, ts) && ListLinked(m, FreeList(ts))
  }

  // ------------------------------------------------------------------------------------------
  // The list around one tile
  // ------------------------------------------------------------------------------------------

  function Below(ts: Tiles, i: nat): seq<nat>
    requires i <= |ts|
  {
    [0] + FreeAddrs(ts[..i])
  }

  function Above(ts: Tiles, i: nat): seq<nat>
    requires i <= |ts|
  {
    FreeAddrs(ts[i..]) + [TOP]
  }

  lemma ListParts(ts: Tiles, i: nat)
    requires i <= |ts|
    ensures FreeList(ts) == Below(ts, i) + Above(ts, i)
  {
    assert ts == ts[..i] + ts[i..];
    FreeAddrsConcat(ts[..i], ts[i..]);
  }

  lemma ListAround(ts: Tiles, i: nat)
    requires i < |ts|
    ensures FreeList(ts) == Below(ts, i) + (if ts[i].free then [ts[i].addr] else []) + Above(ts, i + 1)
  {
    ListParts(ts, i);
    assert ts[i..] == [ts[i]] + ts[i + 1..];
    assert [ts[i]][1..] == [];
    FreeAddrsConcat([ts[i]], ts[i + 1..]);
  }

  // ------------------------------------------------------------------------------------------
  // Link surgery
  // ------------------------------------------------------------------------------------------

  lemma IncreasingConcat(a: seq<nat>, b: seq<nat>)
    requires a != [] && b != []
    ensures Increasing(a + b) <==> Increasing(a) && Increasing(b) && a[|a| - 1] < b[0]
  {
    var c := a + b;
    if Increasing(c) {
      forall i, j | 0 <= i < j < |a| ensures AddrLess(a, i, j) { assert AddrLess(c, i, j); }
      forall i, j | 0 <= i < j < |b| ensures AddrLess(b, i, j) { assert AddrLess(c, |a| + i, |a| + j); }
      assert AddrLess(c, |a| - 1, |a|);
    } else if Increasing(a) && Increasing(b) && a[|a| - 1] < b[0] {
      forall i, j | 0 <= i < j < |c|
        ensures AddrLess(c, i, j)
      {
        if j < |a| {
          assert AddrLess(a, i, j);
        } else if i >= |a| {
          assert AddrLess(b, i - |a|, j - |a|);
        } else {
          assert i < |a| - 1 ==> AddrLess(a, i, |a| - 1);
          assert |a| < j ==> AddrLess(b, 0, j - |a|);
        }
      }
    }
  }

  lemma ChainedConcat(m: NodeMap, a: seq<nat>, b: seq<nat>)
    requires a != [] && b != []
    ensures Chained(m, a + b) <==> Chained(m, a) && Chained(m, b) && Joint(m, a[|a| - 1], b[0])
  {
    var c := a + b;
    if Chained(m, c) {
      forall i | 0 <= i < |a| ensures LinkAt(m, a, i) { assert LinkAt(m, c, i); }
      forall i | 0 <= i < |b| ensures LinkAt(m, b, i) { assert LinkAt(m, c, |a| + i); }
      assert LinkAt(m, c, |a| - 1);
    } else if Chained(m, a) && Chained(m, b) && Joint(m, a[|a| - 1], b[0]) {
      forall i | 0 <= i < |c|
        ensures LinkAt(m, c, i)
      {
        if i < |a| {
          assert LinkAt(m, a, i);
        } else {
          assert LinkAt(m, b, i - |a|);
        }
      }
    }
  }

  /** Links in the middle of a list. */
  lemma LinkedParts(m: NodeMap, a: seq<nat>, b: seq<nat>)
    requires a != [] && b != []
    ensures ListLinked(m, a + b) <==>
            && a[0] == 0 && b[|b| - 1] == TOP
            && Increasing(a) && Increasing(b) && a[|a| - 1] < b[0]
            && Chained(m, a) && Chained(m, b) && Joint(m, a[|a| - 1], b[0])
            && 0 in m && TOP in m && m[0].prior == End && m[TOP].next == End
  {
    IncreasingConcat(a, b);
    ChainedConcat(m, a, b);
  }

  /** Links elsewhere do not matter: only the last node's forward link and the first one's back link may change. */
  lemma ChainedFrame(m: NodeMap, m1: NodeMap, fl: seq<nat>)
    requires Chained(m, fl)
    requires forall i | 0 <= i < |fl| :: fl[i] in m && fl[i] in m1
    requires forall i | 0 <= i < |fl| - 1 :: m1[fl[i]].next == m[fl[i]].next
    requires forall i | 1 <= i < |fl| :: m1[fl[i]].prior == m[fl[i]].prior
    ensures Chained(m1, fl)
  {
    forall i | 0 <= i < |fl|
      ensures LinkAt(m1, fl, i)
    {
      assert LinkAt(m, fl, i);
    }
  }

  /** Every node of an increasing chain but the last is below the last, and all but the first above the first. */
  lemma ChainMembers(m: NodeMap, fl: seq<nat>)
    requires Chained(m, fl) && Increasing(fl) && fl != []
    ensures forall i | 0 <= i < |fl| :: fl[i] in m
    ensures forall i | 0 <= i < |fl| - 1 :: fl[i] < fl[|fl| - 1]
    ensures forall i | 1 <= i < |fl| :: fl[0] < fl[i]
  {
    forall i | 0 <= i < |fl| ensures fl[i] in m { assert LinkAt(m, fl, i); }
    forall i | 0 <= i < |fl| - 1 ensures fl[i] < fl[|fl| - 1] { assert AddrLess(fl, i, |fl| - 1); }
    forall i | 1 <= i < |fl| ensures fl[0] < fl[i] { assert AddrLess(fl, 0, i); }
  }

  function LinkIn(m: NodeMap, place: nat, node: nat): NodeMap
    requires place in m && node in m && m[place].next.At? && m[place].next.addr in m
  {
    var next := m[place].next;
    var m1 := m[node := m[node].(next := next, prior := At(place))];
    var m2 := m1[place := m1[place].(next := At(node))];
    m2[next.addr := m2[next.addr].(prior := At(node))]
  }

  /** Everything the surgery changes. */
  lemma LinkInAt(m: NodeMap, place: nat, node: nat)
    requires place in m && node in m && m[place].next.At? && m[place].next.addr in m
    requires place < node < m[place].next.addr
    ensures var m1, next := LinkIn(m, place, node), m[place].next;
            && m1.Keys == m.Keys
            && m1[node] == m[node].(next := next, prior := At(place))
            && m1[place] == m[place].(next := At(node))
            && m1[next.addr] == m[next.addr].(prior := At(node))
            && (forall p | p in m && p != place && p != next.addr && p != node :: m1[p] == m[p])
  {
  }

  lemma LinkInOk(m: NodeMap, a: seq<nat>, b: seq<nat>, node: nat)
    requires a != [] && b != [] && ListLinked(m, a + b) && node in m && a[|a| - 1] < node < b[0]
    ensures Joint(m, a[|a| - 1], b[0])
    ensures var m1 := LinkIn(m, a[|a| - 1], node);
            && ListLinked(m1, a + ([node] + b)) && m1.Keys == m.Keys
            && (forall p | p in m :: m1[p].len == m[p].len)
            && (forall p | p in m && p != a[|a| - 1] && p != b[0] && p != node :: m1[p] == m[p])
  {
    LinkedParts(m, a, b);
    LinkInAt(m, a[|a| - 1], node);
    LinkInLinked(m, LinkIn(m, a[|a| - 1], node), a, b, node);
  }

  lemma LinkInLinked(m: NodeMap, m1: NodeMap, a: seq<nat>, b: seq<nat>, node: nat)
    requires a != [] && b != [] && node in m && a[|a| - 1] < node < b[0] && m1.Keys == m.Keys
    requires ListLinked(m, a + b)
    requires var place := a[|a| - 1];
             && place in m && b[0] in m
             && m1[node] == m[node].(next := At(b[0]), prior := At(place))
             && m1[place] == m[place].(next := At(node))
             && m1[b[0]] == m[b[0]].(prior := At(node))
             && (forall p | p in m && p != place && p != b[0] && p != node :: m1[p] == m[p])
    ensures ListLinked(m1, a + ([node] + b))
  {
    LinkedParts(m, a, b);
    ChainMembers(m, a);
    ChainMembers(m, b);
    ChainedFrame(m, m1, a);
    ChainedFrame(m, m1, b);
    ChainedConcat(m1, [node], b);
    IncreasingConcat([node], b);
    LinkedParts(m1, a, [node] + b);
  }

  function LinkOut(m: NodeMap, node: nat): NodeMap
    requires node in m && m[node].prior.At? && m[node].next.At? && m[node].prior.addr in m && m[node].next.addr in m
  {
    var prior, next := m[node].prior, m[node].next;
    var m1 := m[prior.addr := m[prior.addr].(next := next)];
    var m2 := m1[next.addr := m1[next.addr].(prior := prior)];
    m2[node := m2[node].(next := At(0))]
  }

  lemma LinkOutOk(m: NodeMap, a: seq<nat>, b: seq<nat>, node: nat)
    requires a != [] && b != [] && ListLinked(m, a + ([node] + b))
    ensures Joint(m, a[|a| - 1], node) && Joint(m, node, b[0])
    ensures var m1 := LinkOut(m, node);
            && ListLinked(m1, a + b) && m1.Keys == m.Keys
            && (forall p | p in m :: m1[p].len == m[p].len) && !IsFree(m1[node])
            && (forall p | p in m && p != a[|a| - 1] && p != b[0] && p != node :: m1[p] == m[p])
  {
    LinkedParts(m, a, [node] + b);
    ChainedConcat(m, [node], b);
    IncreasingConcat([node], b);
    var m1 := LinkOut(m, node);
    ChainMembers(m, a);
    ChainMembers(m, b);
    ChainedFrame(m, m1, a);
    ChainedFrame(m, m1, b);
    LinkedParts(m1, a, b);
  }

  /** Node high leaves the list and the map, and its bytes go to node low. */
  function MergeNodes(m: NodeMap, low: nat, high: nat): NodeMap
    requires low in m && high in m && m[high].next.At? && m[high].next.addr in m
  {
    var next := m[high].next;
    var m1 := m[low := m[low].(len := m[low].len + m[high].len, next := next)];
    var m2 := m1[next.addr := m1[next.addr].(prior := At(low))];
    m2 - {high}
  }

  /** `a` ends with the node that stays. */
  lemma MergeNodesOk(m: NodeMap, a: seq<nat>, b: seq<nat>, high: nat)
    requires a != [] && b != [] && ListLinked(m, a + ([high] + b))
    ensures Joint(m, a[|a| - 1], high) && Joint(m, high, b[0])
    ensures var m1 := MergeNodes(m, a[|a| - 1], high);
            && ListLinked(m1, a + b) && m1.Keys == m.Keys - {high}
            && a[|a| - 1] in m1 && m1[a[|a| - 1]].len == m[a[|a| - 1]].len + m[high].len
            && (forall p | p in m1 && p != a[|a| - 1] :: m1[p].len == m[p].len)
            && (forall p | p in m1 && p != a[|a| - 1] && p != b[0] :: m1[p] == m[p])
  {
    LinkedParts(m, a, [high] + b);
    ChainedConcat(m, [high], b);
    IncreasingConcat([high], b);
    var m1 := MergeNodes(m, a[|a| - 1], high);
    ChainMembers(m, a);
    ChainMembers(m, b);
    ChainedFrame(m, m1, a);
    ChainedFrame(m, m1, b);
    LinkedParts(m1, a, b);
  }

  // ------------------------------------------------------------------------------------------
  // One step of the row, one step of the map
  // ------------------------------------------------------------------------------------------

  /** The nodes at both ends of a seam of the list. */
  lemma SeamIsFree(m: NodeMap, a: seq<nat>, b: seq<nat>)
    requires a != [] && b != [] && ListLinked(m, a + b)
    ensures a[|a| - 1] in m && b[0] in m && IsFree(m[a[|a| - 1]]) && IsFree(m[b[0]])
  {
    LinkedParts(m, a, b);
    assert LinkAt(m, b, 0);
    if |b| > 1 { assert AddrLess(b, 0, 1); }
  }

  /** The next free node above the first i tiles. */
  lemma AboveFirst(ts: Tiles, base: nat, end: nat, i: nat)
    requires Tiling(ts, base, end) && end < TOP && 0 < i <= |ts|
    ensures ts[i - 1].addr + ts[i - 1].len <= Above(ts, i)[0] && ts[i - 1].addr < Above(ts, i)[0]
  {
    var p := Above(ts, i)[0];
    Inside(ts, base, end, i - 1);
    if FreeAddrs(ts[i..]) != [] {
      FreeAddrsIn(ts[i..], p);
      var k :| 0 <= k < |ts[i..]| && ts[i..][k].free && ts[i..][k].addr == p;
      TilesOrdered(ts, base, end, i - 1, i + k);
    }
  }

  lemma {:induction false} LastFree(ts: Tiles, i: nat)
    requires i <= |ts|
    ensures var p := Below(ts, i)[|Below(ts, i)| - 1];
            (p == 0 && forall j | 0 <= j < i :: !ts[j].free)
            || exists k | 0 <= k < i :: ts[k].free && ts[k].addr == p && forall j | k < j < i :: !ts[j].free
    decreases i
  {
    if i > 0 {
      assert ts[..i] == ts[..i - 1] + [ts[i - 1]];
      FreeAddrsConcat(ts[..i - 1], [ts[i - 1]]);
      assert [ts[i - 1]][1..] == [];
      LastFree(ts, i - 1);
    }
  }

  lemma BelowLast(ts: Tiles, base: nat, end: nat, i: nat)
    requires Tiling(ts, base, end) && 0 < base && i < |ts|
    ensures Below(ts, i)[|Below(ts, i)| - 1] < ts[i].addr
  {
    LastFree(ts, i);
    Inside(ts, base, end, i);
    var p := Below(ts, i)[|Below(ts, i)| - 1];
    if k :| 0 <= k < i && ts[k].free && ts[k].addr == p {
      TilesOrdered(ts, base, end, k, i);
    }
  }

  /** Nothing but links at three nodes changed. */
  ghost predicate Relinked(m: NodeMap, m1: NodeMap, p: nat, q: nat, r: nat) {
    && m1.Keys == m.Keys
    && (forall a | a in m :: m1[a].len == m[a].len)
    && (forall a | a in m && a != p && a != q && a != r :: m1[a] == m[a])
  }

  /** A map of the right tiles whose used nodes were not touched. */
  lemma NodesKept(m: NodeMap, m1: NodeMap, ts: Tiles, p: nat, q: nat, r: nat)
    requires Nodes(m, ts) && Relinked(m, m1, p, q, r)
    requires p in m && q in m && r in m && IsFree(m[p]) && IsFree(m[q]) && IsFree(m[r])
    ensures Nodes(m1, ts)
  {
    forall i | 0 <= i < |ts|
      ensures NodeAt(m1, ts, i)
    {
      assert NodeAt(m, ts, i);
    }
  }

  /** The list with tile i on it and without it. */
  lemma FlipList(ts: Tiles, i: nat)
    requires i < |ts|
    ensures FreeList(Flip(ts, i, true)) == Below(ts, i) + ([ts[i].addr] + Above(ts, i + 1))
    ensures FreeList(Flip(ts, i, false)) == Below(ts, i) + Above(ts, i + 1)
  {
    var on, off := Flip(ts, i, true), Flip(ts, i, false);
    assert on[..i] == ts[..i] && on[i + 1..] == ts[i + 1..] && off[..i] == ts[..i] && off[i + 1..] == ts[i + 1..];
    ListAround(on, i);
    ListAround(off, i);
    assert Below(ts, i) + [] == Below(ts, i);
    assert Below(ts, i) + [ts[i].addr] + Above(ts, i + 1) == Below(ts, i) + ([ts[i].addr] + Above(ts, i + 1));
  }

  /** remove(): tile i leaves the list. */
  lemma RemoveStep(m: NodeMap, ts: Tiles, i: nat)
    requires Mirrors(m, ts) && i < |ts| && ts[i].free
    ensures var a, b := Below(ts, i), Above(ts, i + 1);
            && Joint(m, a[|a| - 1], ts[i].addr) && Joint(m, ts[i].addr, b[0])
            && Mirrors(LinkOut(m, ts[i].addr), Flip(ts, i, false))
  {
    var a, b, p := Below(ts, i), Above(ts, i + 1), ts[i].addr;
    assert Flip(ts, i, true) == ts;
    FlipList(ts, i);
    RemoveNodes(m, ts, a, b, i);
    LinkOutOk(m, a, b, p);
  }

  lemma RemoveNodes(m: NodeMap, ts: Tiles, a: seq<nat>, b: seq<nat>, i: nat)
    requires Nodes(m, ts) && a != [] && b != [] && i < |ts| && ListLinked(m, a + ([ts[i].addr] + b))
    ensures Joint(m, a[|a| - 1], ts[i].addr) && Joint(m, ts[i].addr, b[0])
    ensures Nodes(LinkOut(m, ts[i].addr), Flip(ts, i, false))
  {
    var p := ts[i].addr;
    LinkOutOk(m, a, b, p);
    SeamIsFree(m, a, [p] + b);
    assert a + ([p] + b) == (a + [p]) + b;
    SeamIsFree(m, a + [p], b);
    NodesKept(m, LinkOut(m, p), ts, a[|a| - 1], p, b[0]);
    UsedTile(LinkOut(m, p), ts, i);
  }

  lemma UsedTile(m: NodeMap, ts: Tiles, i: nat)
    requires Nodes(m, ts) && i < |ts| && !IsFree(m[ts[i].addr])
    ensures Nodes(m, Flip(ts, i, false))
  {
    var ts1 := Flip(ts, i, false);
    assert forall j | 0 <= j < |ts| :: NodeAt(m, ts, j) && ts1[j].addr == ts[j].addr;
    SameAddrs(ts, ts1);
  }

  lemma SameAddrs(ts: Tiles, ts1: Tiles)
    requires |ts| == |ts1| && forall i | 0 <= i < |ts| :: ts1[i].addr == ts[i].addr
    ensures Addrs(ts1) == Addrs(ts)
  {
    forall a | a in Addrs(ts)
      ensures a in Addrs(ts1)
    {
      var i :| 0 <= i < |ts| && ts[i].addr == a;
      assert ts1[i].addr == a;
    }
    forall a | a in Addrs(ts1)
      ensures a in Addrs(ts)
    {
      var i :| 0 <= i < |ts| && ts1[i].addr == a;
      assert ts[i].addr == a;
    }
  }

  /** insertafter(): tile i joins the list, after the nearest free tile below it. */
  lemma InsertStep(m: NodeMap, ts: Tiles, base: nat, end: nat, i: nat)
    requires Mirrors(m, ts) && Tiling(ts, base, end) && 0 < base && end < TOP && i < |ts| && !ts[i].free
    ensures var a, b := Below(ts, i), Above(ts, i + 1);
            && ts[i].addr in m && Joint(m, a[|a| - 1], b[0])
            && Mirrors(LinkIn(m, a[|a| - 1], ts[i].addr), Flip(ts, i, true))
  {
    var a, b, p := Below(ts, i), Above(ts, i + 1), ts[i].addr;
    assert Flip(ts, i, false) == ts;
    FlipList(ts, i);
    assert NodeAt(m, ts, i);
    BelowLast(ts, base, end, i);
    AboveFirst(ts, base, end, i + 1);
    LinkInOk(m, a, b, p);
    SeamIsFree(m, a, b);
    InsertNodes(m, LinkIn(m, a[|a| - 1], p), ts, base, end, i, a[|a| - 1], b[0]);
  }

  lemma InsertNodes(m: NodeMap, m1: NodeMap, ts: Tiles, base: nat, end: nat, i: nat, p: nat, q: nat)
    requires Nodes(m, ts) && Tiling(ts, base, end) && i < |ts| && Relinked(m, m1, p, q, ts[i].addr)
    requires p in m && q in m && IsFree(m[p]) && IsFree(m[q])
    ensures Nodes(m1, Flip(ts, i, true))
  {
    var ts1 := Flip(ts, i, true);
    SameAddrs(ts, ts1);
    forall j | 0 <= j < |ts1|
      ensures NodeAt(m1, ts1, j)
    {
      assert NodeAt(m, ts, j);
      if j != i && ts[j].addr == ts[i].addr {
        SameAddr(ts, base, end, i, j);
      }
    }
  }

  /** merge() of two free neighbours. */
  lemma MergeStep(m: NodeMap, ts: Tiles, base: nat, end: nat, i: nat)
    requires Mirrors(m, ts) && Tiling(ts, base, end) && i + 1 < |ts| && ts[i].free && ts[i + 1].free && 0 < base &&
             end < TOP
    ensures Joint(m, ts[i].addr, ts[i + 1].addr) && Joint(m, ts[i + 1].addr, Above(ts, i + 2)[0])
    ensures Mirrors(MergeNodes(m, ts[i].addr, ts[i + 1].addr), Join(ts, i))
  {
    JoinList(ts, i);
    AboveFirst(ts, base, end, i + 2);
    MergeLinks(m, ts, Below(ts, i) + [ts[i].addr], Above(ts, i + 2), base, end, i);
  }

  lemma MergeLinks(m: NodeMap, ts: Tiles, a: seq<nat>, b: seq<nat>, base: nat, end: nat, i: nat)
    requires Nodes(m, ts) && Tiling(ts, base, end) && i + 1 < |ts| && ts[i].free && ts[i + 1].free && 0 < base &&
             end < TOP
    requires a != [] && b != [] && a[|a| - 1] == ts[i].addr && ts[i + 1].addr < b[0]
    requires ListLinked(m, a + ([ts[i + 1].addr] + b))
    ensures Joint(m, ts[i].addr, ts[i + 1].addr) && Joint(m, ts[i + 1].addr, b[0])
    ensures ListLinked(MergeNodes(m, ts[i].addr, ts[i + 1].addr), a + b)
    ensures Nodes(MergeNodes(m, ts[i].addr, ts[i + 1].addr), Join(ts, i))
  {
    var high := ts[i + 1].addr;
    MergeNodesOk(m, a, b, high);
    assert a + ([high] + b) == (a + [high]) + b;
    SeamIsFree(m, a + [high], b);
    JoinNodes(m, MergeNodes(m, ts[i].addr, high), ts, base, end, i, b[0]);
  }

  lemma JoinList(ts: Tiles, i: nat)
    requires i + 1 < |ts| && ts[i].free && ts[i + 1].free
    ensures var a, b := Below(ts, i) + [ts[i].addr], Above(ts, i + 2);
            FreeList(ts) == a + ([ts[i + 1].addr] + b) && FreeList(Join(ts, i)) == a + b
  {
    var a, b := Below(ts, i) + [ts[i].addr], Above(ts, i + 2);
    ListAround(ts, i + 1);
    assert ts[..i + 1] == ts[..i] + [ts[i]];
    FreeAddrsConcat(ts[..i], [ts[i]]);
    assert [ts[i]][1..] == [];
    assert Below(ts, i + 1) == a;
    assert a + [ts[i + 1].addr] + b == a + ([ts[i + 1].addr] + b);
    var ts1 := Join(ts, i);
    ListAround(ts1, i);
    assert ts1[..i] == ts[..i] && ts1[i + 1..] == ts[i + 2..];
  }

  lemma JoinNodes(m: NodeMap, m1: NodeMap, ts: Tiles, base: nat, end: nat, i: nat, q: nat)
    requires Nodes(m, ts) && Tiling(ts, base, end) && i + 1 < |ts| && ts[i].free && 0 < base && end < TOP
    requires m1.Keys == m.Keys - {ts[i + 1].addr}
    requires ts[i].addr in m1 && ts[i].addr in m && ts[i + 1].addr in m
    requires m1[ts[i].addr].len == m[ts[i].addr].len + m[ts[i + 1].addr].len
    requires forall p | p in m1 && p != ts[i].addr :: m1[p].len == m[p].len
    requires forall p | p in m1 && p != ts[i].addr && p != q :: m1[p] == m[p]
    requires q in m && IsFree(m[q]) && ts[i + 1].addr < q
    ensures Nodes(m1, Join(ts, i))
  {
    var ts1 := Join(ts, i);
    assert NodeAt(m, ts, i) && NodeAt(m, ts, i + 1);
    Inside(ts, base, end, i);
    Inside(ts, base, end, i + 1);
    JoinAddrs(ts, base, end, i);
    forall j | 0 <= j < |ts1|
      ensures NodeAt(m1, ts1, j)
    {
      if j != i {
        var k := if j < i then j else j + 1;
        assert ts1[j] == ts[k] && NodeAt(m, ts, k);
        OtherAddr(ts, base, end, k, i);
      }
    }
  }

  lemma OtherAddr(ts: Tiles, base: nat, end: nat, k: nat, i: nat)
    requires Tiling(ts, base, end) && k < |ts| && i < |ts| && k != i
    ensures ts[k].addr != ts[i].addr
  {
    if ts[k].addr == ts[i].addr {
      SameAddr(ts, base, end, k, i);
    }
  }

  lemma JoinAddrs(ts: Tiles, base: nat, end: nat, i: nat)
    requires Tiling(ts, base, end) && i + 1 < |ts|
    ensures Addrs(Join(ts, i)) == Addrs(ts) - {ts[i + 1].addr}
  {
    var ts1 := Join(ts, i);
    forall a | a in Addrs(ts) - {ts[i + 1].addr}
      ensures a in Addrs(ts1)
    {
      var k :| 0 <= k < |ts| && ts[k].addr == a;
      assert ts1[if k <= i then k else k - 1].addr == a;
    }
    forall a | a in Addrs(ts1)
      ensures a in Addrs(ts) && a != ts[i + 1].addr
    {
      var j :| 0 <= j < |ts1| && ts1[j].addr == a;
      var k := if j <= i then j else j + 1;
      assert ts[k].addr == a;
      if a == ts[i + 1].addr { SameAddr(ts, base, end, k, i + 1); }
    }
  }

  /** The map when tile i has given its upper part to a new node, which is not linked yet. */
  function Cutting(m: NodeMap, p: nat, len: nat, rest: nat, blank: Node): NodeMap
    requires p in m
  {
    m[p + len := blank.(len := rest)][p := m[p].(len := len)]
  }

  /** alloc splits tile i: the new node is linked in after it. */
  lemma CutStep(m: NodeMap, ts: Tiles, base: nat, end: nat, i: nat, len: nat, blank: Node)
    requires Mirrors(m, ts) && Tiling(ts, base, end) && 0 < base && end < TOP
    requires i < |ts| && ts[i].free && 0 < len < ts[i].len && ts[i].addr in m
    ensures var p := ts[i].addr;
            var m0 := Cutting(m, p, len, ts[i].len - len, blank);
            && m0[p].next.At? && m0[p].next.addr in m0
            && Mirrors(LinkIn(m0, p, p + len), Cut(ts, i, len, true))
  {
    CutLists(ts, i, len);
    CutIsNew(m, ts, base, end, i, len);
    AboveFirst(ts, base, end, i + 1);
    CutLinks(m, ts, Below(ts, i) + [ts[i].addr], Above(ts, i + 1), base, end, i, len, blank);
  }

  lemma CutLinks(m: NodeMap, ts: Tiles, a: seq<nat>, b: seq<nat>, base: nat, end: nat, i: nat, len: nat, blank: Node)
    requires Nodes(m, ts) && Tiling(ts, base, end) && 0 < base && end < TOP
    requires i < |ts| && ts[i].free && 0 < len < ts[i].len && ts[i].addr in m && ts[i].addr + len !in m
    requires a != [] && b != [] && a[|a| - 1] == ts[i].addr && ts[i].addr + len < b[0] && ListLinked(m, a + b)
    ensures var p := ts[i].addr;
            var m0 := Cutting(m, p, len, ts[i].len - len, blank);
            && m0[p].next.At? && m0[p].next.addr in m0
            && ListLinked(LinkIn(m0, p, p + len), a + ([p + len] + b))
            && Nodes(LinkIn(m0, p, p + len), Cut(ts, i, len, true))
  {
    var p := ts[i].addr;
    var m0 := Cutting(m, p, len, ts[i].len - len, blank);
    CuttingLinked(m, m0, a + b, p + len);
    LinkInOk(m0, a, b, p + len);
    SeamIsFree(m, a, b);
    CutNodes(m, LinkIn(m0, p, p + len), ts, base, end, i, len, b[0], true);
  }

  lemma CutLists(ts: Tiles, i: nat, len: nat)
    requires i < |ts| && ts[i].free && 0 < len < ts[i].len
    ensures var a, b := Below(ts, i) + [ts[i].addr], Above(ts, i + 1);
            && FreeList(ts) == a + b
            && FreeList(Cut(ts, i, len, true)) == a + ([ts[i].addr + len] + b)
            && FreeList(Cut(ts, i, len, false)) == a + b
  {
    var ts1, ts2 := Cut(ts, i, len, true), Cut(ts, i, len, false);
    ListAround(ts, i);
    ListAround(ts1, i);
    ListAround(ts2, i);
    assert ts1[..i] == ts[..i] && ts2[..i] == ts[..i];
    FirstFree(ts1[i + 1..]);
    FirstFree(ts2[i + 1..]);
    assert ts1[i + 1..][1..] == ts[i + 1..] && ts2[i + 1..][1..] == ts[i + 1..];
    assert Above(ts1, i + 1) == [ts[i].addr + len] + Above(ts, i + 1);
    assert Above(ts2, i + 1) == Above(ts, i + 1);
  }

  lemma FirstFree(ts: Tiles)
    requires ts != []
    ensures FreeAddrs(ts) == (if ts[0].free then [ts[0].addr] else []) + FreeAddrs(ts[1..])
  {
  }

  /** No node is in the middle of a tile. */
  lemma CutIsNew(m: NodeMap, ts: Tiles, base: nat, end: nat, i: nat, len: nat)
    requires Nodes(m, ts) && Tiling(ts, base, end) && 0 < base && end < TOP && i < |ts| && 0 < len < ts[i].len
    ensures ts[i].addr + len !in m
  {
    var p := ts[i].addr + len;
    Inside(ts, base, end, i);
    if p in Addrs(ts) {
      var k :| 0 <= k < |ts| && ts[k].addr == p;
      if k < i { TilesOrdered(ts, base, end, k, i); }
      if k > i { TilesOrdered(ts, base, end, i, k); }
    }
  }

  /** A node that is not in the list may come, and lengths may change. */
  lemma CuttingLinked(m: NodeMap, m0: NodeMap, fl: seq<nat>, node: nat)
    requires ListLinked(m, fl) && node !in m && m0.Keys == m.Keys + {node}
    requires forall p | p in m :: m0[p].next == m[p].next && m0[p].prior == m[p].prior
    ensures ListLinked(m0, fl)
  {
    ChainMembers(m, fl);
    ChainedFrame(m, m0, fl);
  }

  lemma CutAddrs(ts: Tiles, i: nat, len: nat, free: bool)
    requires i < |ts| && len <= ts[i].len
    ensures Addrs(Cut(ts, i, len, free)) == Addrs(ts) + {ts[i].addr + len}
  {
    var ts1 := Cut(ts, i, len, free);
    assert ts1[i + 1].addr == ts[i].addr + len;
    forall a | a in Addrs(ts)
      ensures a in Addrs(ts1)
    {
      var k :| 0 <= k < |ts| && ts[k].addr == a;
      assert ts1[if k <= i then k else k + 1].addr == a;
    }
    forall a | a in Addrs(ts1)
      ensures a in Addrs(ts) + {ts[i].addr + len}
    {
      var j :| 0 <= j < |ts1| && ts1[j].addr == a;
      if j != i + 1 { assert ts[if j <= i then j else j - 1].addr == a; }
    }
  }

  lemma CutNodes(m: NodeMap, m1: NodeMap, ts: Tiles, base: nat, end: nat, i: nat, len: nat, q: nat, free: bool)
    requires Nodes(m, ts) && Tiling(ts, base, end) && 0 < base && end < TOP
    requires i < |ts| && ts[i].free && 0 < len < ts[i].len
    requires m1.Keys == m.Keys + {ts[i].addr + len} && ts[i].addr + len !in m
    requires m1[ts[i].addr + len].len == ts[i].len - len && (!free ==> !IsFree(m1[ts[i].addr + len]))
    requires ts[i].addr in m && m1[ts[i].addr].len == len
    requires forall p | p in m && p != ts[i].addr :: m1[p].len == m[p].len
    requires forall p | p in m && p != ts[i].addr && p != q :: m1[p] == m[p]
    requires q in m && IsFree(m[q])
    ensures Nodes(m1, Cut(ts, i, len, free))
  {
    var ts1 := Cut(ts, i, len, free);
    CutAddrs(ts, i, len, free);
    Inside(ts, base, end, i);
    forall j | 0 <= j < |ts1|
      ensures NodeAt(m1, ts1, j)
    {
      if j != i && j != i + 1 {
        var k := if j < i then j else j - 1;
        assert ts1[j] == ts[k] && NodeAt(m, ts, k);
        if ts[k].addr == ts[i].addr { SameAddr(ts, base, end, k, i); }
      }
    }
  }

  /** alloc_high splits tile i: the new node is used, so no link changes. */
  lemma CutHighStep(m: NodeMap, ts: Tiles, base: nat, end: nat, i: nat, len: nat, blank: Node)
    requires Mirrors(m, ts) && Tiling(ts, base, end) && 0 < base && end < TOP
    requires i < |ts| && ts[i].free && 0 < len < ts[i].len && ts[i].addr in m && !IsFree(blank)
    ensures Mirrors(Cutting(m, ts[i].addr, len, ts[i].len - len, blank), Cut(ts, i, len, false))
  {
    CutLists(ts, i, len);
    CutIsNew(m, ts, base, end, i, len);
    var m1 := Cutting(m, ts[i].addr, len, ts[i].len - len, blank);
    CuttingLinked(m, m1, FreeList(ts), ts[i].addr + len);
    SeamIsFree(m, Below(ts, i) + [ts[i].addr], Above(ts, i + 1));
    CutNodes(m, m1, ts, base, end, i, len, ts[i].addr, false);
  }

  // ------------------------------------------------------------------------------------------
  // Walking the list
  // ------------------------------------------------------------------------------------------

  /** The first free tile from i on, or the number of tiles. */
  ghost function NextFree(ts: Tiles, i: nat): (k: nat)
    requires i <= |ts|
    ensures i <= k <= |ts| && (k < |ts| ==> ts[k].free) && forall j | i <= j < k :: !ts[j].free
    decreases |ts| - i
  {
    if i == |ts| || ts[i].free then i else NextFree(ts, i + 1)
  }

  /** One more than the last free tile below i, or 0. */
  ghost function PrevFree(ts: Tiles, i: nat): (k: nat)
    requires i <= |ts|
    ensures k <= i && (k > 0 ==> ts[k - 1].free) && forall j | k <= j < i :: !ts[j].free
  {
    if i == 0 || ts[i - 1].free then i else PrevFree(ts, i - 1)
  }

  function AddrFrom(ts: Tiles, i: nat): nat
    requires i <= |ts|
  {
    if i < |ts| then ts[i].addr else TOP
  }

  function AddrBelow(ts: Tiles, i: nat): nat
    requires i <= |ts|
  {
    if i > 0 then ts[i - 1].addr else 0
  }

  lemma {:induction false} AboveIs(ts: Tiles, i: nat)
    requires i <= |ts|
    ensures Above(ts, i)[0] == AddrFrom(ts, NextFree(ts, i))
    decreases |ts| - i
  {
    if i < |ts| {
      FirstFree(ts[i..]);
      assert ts[i..][1..] == ts[i + 1..];
      AboveIs(ts, i + 1);
    }
  }

  lemma {:induction false} BelowIs(ts: Tiles, i: nat)
    requires i <= |ts|
    ensures Below(ts, i)[|Below(ts, i)| - 1] == AddrBelow(ts, PrevFree(ts, i))
  {
    if i > 0 {
      assert ts[..i] == ts[..i - 1] + [ts[i - 1]];
      FreeAddrsConcat(ts[..i - 1], [ts[i - 1]]);
      assert [ts[i - 1]][1..] == [];
      BelowIs(ts, i - 1);
    }
  }

  /** A link of the list from below tile i to tile i or above. */
  lemma SeamLink(m: NodeMap, ts: Tiles, i: nat)
    requires Mirrors(m, ts) && i <= |ts|
    ensures Joint(m, AddrBelow(ts, PrevFree(ts, i)), AddrFrom(ts, NextFree(ts, i)))
  {
    AboveIs(ts, i);
    BelowIs(ts, i);
    ListParts(ts, i);
    LinkedParts(m, Below(ts, i), Above(ts, i));
  }

  /** The node of a tile. */
  lemma NodeIs(m: NodeMap, ts: Tiles, base: nat, end: nat, i: nat)
    requires Mirrors(m, ts) && Tiling(ts, base, end) && 0 < base && end < TOP && i < |ts|
    ensures ts[i].addr in m && m[ts[i].addr].len == ts[i].len && IsFree(m[ts[i].addr]) == ts[i].free
    ensures 0 < ts[i].addr < TOP && m[ts[i].addr].next != End
  {
    assert NodeAt(m, ts, i);
    Inside(ts, base, end, i);
    if ts[i].free {
      SeamLink(m, ts, i + 1);
      if i + 1 <= NextFree(ts, i + 1) < |ts| {
        Inside(ts, base, end, NextFree(ts, i + 1));
      }
    }
  }

  lemma Guards(m: NodeMap, ts: Tiles)
    requires Mirrors(m, ts)
    ensures 0 in m && TOP in m && m[0].len == 0 && m[TOP].len == 0 && m[TOP].next == End && m[0].prior == End
    ensures IsFree(m[0]) && IsFree(m[TOP])
  {
    assert 0 in m.Keys && TOP in m.Keys;
    assert FreeList(ts)[0] == 0;
    ListParts(ts, 0);
    SeamIsFree(m, Below(ts, 0), Above(ts, 0));
    assert Below(ts, 0)[|Below(ts, 0)| - 1] == 0;
  }

  /** Keys of the map in order. */
  lemma PreviousKey(m: NodeMap, ts: Tiles, base: nat, end: nat, i: nat, q: nat)
    requires Nodes(m, ts) && Tiling(ts, base, end) && 0 < base && end < TOP && i < |ts|
    requires q in m && q < ts[i].addr && forall k | k in m && k < ts[i].addr :: k <= q
    ensures q == AddrBelow(ts, i)
  {
    Inside(ts, base, end, i);
    if i > 0 {
      TilesOrdered(ts, base, end, i - 1, i);
      assert NodeAt(m, ts, i - 1);
    }
    if q in Addrs(ts) {
      var j :| 0 <= j < |ts| && ts[j].addr == q;
      if j > i { TilesOrdered(ts, base, end, i, j); }
      if j < i - 1 { TilesOrdered(ts, base, end, j, i - 1); }
    } else {
      assert 0 in m.Keys;
      if i > 0 { Inside(ts, base, end, i - 1); }
    }
  }

  /** A freed node touches the free node below it exactly when the tile below is free. */
  lemma TouchesBelow(m: NodeMap, ts: Tiles, base: nat, end: nat, i: nat)
    requires Mirrors(m, ts) && Tiling(ts, base, end) && 0 < base && end < TOP && i < |ts|
    ensures var q := AddrBelow(ts, PrevFree(ts, i));
            q in m && (q + m[q].len == ts[i].addr <==> i > 0 && ts[i - 1].free)
  {
    var k := PrevFree(ts, i);
    Guards(m, ts);
    Inside(ts, base, end, i);
    if k > 0 {
      NodeIs(m, ts, base, end, k - 1);
      assert TileOk(ts, k - 1);
      if k < i {
        TilesOrdered(ts, base, end, k, i);
      }
    }
  }

  lemma TouchesAbove(ts: Tiles, base: nat, end: nat, i: nat)
    requires Tiling(ts, base, end) && 0 < base && end < TOP && i < |ts|
    ensures ts[i].addr + ts[i].len == AddrFrom(ts, NextFree(ts, i + 1)) <==> i + 1 < |ts| && ts[i + 1].free
  {
    var k := NextFree(ts, i + 1);
    Inside(ts, base, end, i);
    assert TileOk(ts, i);
    if i + 1 < k < |ts| {
      TilesOrdered(ts, base, end, i, i + 1);
      TilesOrdered(ts, base, end, i + 1, k);
    }
  }
}
