/** Commands in flight on one queue (src/driver/csq_queue.cpp, csq_cmd.cpp) as values: the list of asynchronous
    commands, the packets written to the hardware ring, and how far the packet processor is. */
module InFlight {
  import opened Wrappers
  import opened Arithmetic

  datatype Kind = Kernel | Marker

  datatype Scope = NoScope | AcceleratorScope | SystemScope

  /** What a ring slot holds: the kind of command, the scope of its release fence, and whether it waits for a command of
      another queue whose kernels are not released yet. */
  datatype Packet = Packet(kind: Kind, release: Scope, carries: bool)

  /** A command.  `index` is its place in the list when it was pushed, `packet` the number of its packet, which
      tells it from all other commands of the queue. */
  datatype Op = Op(index: nat, kind: Kind, signal: bool, packet: nat)

  type Ops = seq<Option<Op>>

  // ------------------------------------------------------------------------------------------
  // The list
  // ------------------------------------------------------------------------------------------

  /** The first `retired` entries are null; the others are the commands of the youngest packets, in order.
      Only a kernel can be without a completion signal, and only when there are no completion signals on demand. */
  ghost predicate OpAt(ops: Ops, retired: nat, log: seq<Packet>, optFlush: bool, i: int)
    requires 0 <= i < |ops|
  {
    if i < retired then ops[i].None?
    else
      && ops[i].Some?
      && var op := ops[i].value;
         && op.packet + |ops| == |log| + i
         && op.packet < |log| && log[op.packet].kind == op.kind
         && (op.signal || (op.kind == Kernel && optFlush))
  }

  ghost predicate OpsOk(ops: Ops, retired: nat, log: seq<Packet>, optFlush: bool) {
    retired <= |ops| && forall i | 0 <= i < |ops| :: OpAt(ops, retired, log, optFlush, i)
  }

  /** No packet below the oldest live command is outstanding. */
  predicate RetiredDone(ops: Ops, retired: nat, written: nat, completed: int) {
    completed <= written && written + retired <= completed + |ops|
  }

  /** The youngest live command is the last packet's, so if it has no signal then a kernel is the last packet. */
  lemma Youngest(ops: Ops, retired: nat, log: seq<Packet>, optFlush: bool, i: nat)
    requires OpsOk(ops, retired, log, optFlush) && i < |ops| && ops[i].Some?
    requires forall j | i < j < |ops| :: ops[j].None?
    ensures i == |ops| - 1 && ops[i].value.packet == |log| - 1 && log != []
    ensures ops[i].value.signal || (optFlush && log[|log| - 1].kind == Kernel)
  {
    NullsFirst(ops, retired, log, optFlush);
    var last := ops[|ops| - 1];
    assert OpAt(ops, retired, log, optFlush, i);
  }

  lemma AllNull(ops: Ops, retired: nat, log: seq<Packet>, optFlush: bool)
    requires OpsOk(ops, retired, log, optFlush) && forall j | 0 <= j < |ops| :: ops[j].None?
    ensures retired == |ops|
  {
    NullsFirst(ops, retired, log, optFlush);
    if ops != [] {
      var last := ops[|ops| - 1];
      assert last.None?;
    }
  }

  // ------------------------------------------------------------------------------------------
  // Retirement
  // ------------------------------------------------------------------------------------------

  /** The first n entries null. */
  function Swept(ops: Ops, n: nat): (r: Ops)
    requires n <= |ops|
    ensures |r| == |ops|
  {
    seq(n, _ => None) + ops[n..]
  }

  /** The list without its null entries, in the same order. */
  function Compact(ops: Ops): Ops {
    if ops == [] then [] else (if ops[0].Some? then [ops[0]] else []) + Compact(ops[1..])
  }

  /** In a list whose nulls all come first, compaction is dropping the nulls at the front. */
  lemma {:induction false} CompactIsSuffix(ops: Ops, retired: nat)
    requires retired <= |ops| && forall i | 0 <= i < |ops| :: ops[i].None? <==> i < retired
    ensures Compact(ops) == ops[retired..]
  {
    if ops != [] {
      if retired == 0 {
        CompactIsSuffix(ops[1..], 0);
        assert [ops[0]] + ops[1..] == ops;
      } else {
        CompactIsSuffix(ops[1..], retired - 1);
      }
    }
  }

  lemma NullsFirst(ops: Ops, retired: nat, log: seq<Packet>, optFlush: bool)
    requires OpsOk(ops, retired, log, optFlush)
    ensures forall i | 0 <= i < |ops| :: ops[i].None? <==> i < retired
  {
    forall i | 0 <= i < |ops|
      ensures ops[i].None? <==> i < retired
    {
      assert OpAt(ops, retired, log, optFlush, i);
    }
  }

  /** What a removal leaves: the entries up to the target are null, and a list over the limit is compacted. */
  function Removed(ops: Ops, n: nat, gcSize: nat): Ops
    requires n <= |ops|
  {
    if |ops| > gcSize then Compact(Swept(ops, n)) else Swept(ops, n)
  }

  lemma SweptOk(ops: Ops, retired: nat, log: seq<Packet>, optFlush: bool, n: nat)
    requires OpsOk(ops, retired, log, optFlush) && n <= |ops|
    ensures OpsOk(Swept(ops, n), if n > retired then n else retired, log, optFlush)
  {
    var r, k := Swept(ops, n), if n > retired then n else retired;
    forall i | 0 <= i < |r|
      ensures OpAt(r, k, log, optFlush, i)
    {
      assert OpAt(ops, retired, log, optFlush, i);
    }
  }

  lemma CompactOk(ops: Ops, retired: nat, log: seq<Packet>, optFlush: bool)
    requires OpsOk(ops, retired, log, optFlush)
    ensures OpsOk(Compact(ops), 0, log, optFlush) && |Compact(ops)| == |ops| - retired
  {
    NullsFirst(ops, retired, log, optFlush);
    CompactIsSuffix(ops, retired);
    var r := ops[retired..];
    forall i | 0 <= i < |r|
      ensures OpAt(r, 0, log, optFlush, i)
    {
      assert OpAt(ops, retired, log, optFlush, retired + i);
    }
  }

  /** A removal keeps the list in order and drops no command younger than its target; the
      packets below what remains are complete if the target was. */
  lemma RemovedOk(ops: Ops, retired: nat, log: seq<Packet>, optFlush: bool, n: nat, gcSize: nat, completed: int)
    returns (k: nat)
    requires OpsOk(ops, retired, log, optFlush) && n <= |ops| && RetiredDone(ops, retired, |log|, completed)
    requires |log| + n <= completed + |ops|
    ensures OpsOk(Removed(ops, n, gcSize), k, log, optFlush) &&
            RetiredDone(Removed(ops, n, gcSize), k, |log|, completed)
    ensures |Removed(ops, n, gcSize)| <= |ops|
    ensures forall i | n <= i < |ops| && ops[i].Some? :: ops[i] in Removed(ops, n, gcSize)
  {
    var m := if n > retired then n else retired;
    SweptOk(ops, retired, log, optFlush, n);
    var r := Swept(ops, n);
    forall i | n <= i < |ops| && ops[i].Some?
      ensures ops[i] in Removed(ops, n, gcSize)
    {
      assert r[i] == ops[i];
      CompactKeeps(r, i);
    }
    if |ops| > gcSize {
      CompactOk(r, m, log, optFlush);
      k := 0;
    } else {
      k := m;
    }
  }

  /** Clearing the first n entries leaves no outstanding packet without its command exactly when the n-th entry's packet
      is complete. */
  lemma SweepIsSafeExactly(ops: Ops, retired: nat, log: seq<Packet>, optFlush: bool, n: nat, completed: int)
    requires OpsOk(ops, retired, log, optFlush) && RetiredDone(ops, retired, |log|, completed)
    requires retired < n <= |ops|
    ensures ops[n - 1].Some?
    ensures RetiredDone(Swept(ops, n), n, |log|, completed) <==> ops[n - 1].value.packet < completed
  {
    assert OpAt(ops, retired, log, optFlush, n - 1);
  }

  /** n live commands, none of them complete. */
  function Burst(n: nat): Ops {
    seq(n, i requires 0 <= i < n => Some(Op(i, Marker, true, i)))
  }

  function BurstLog(n: nat): seq<Packet> {
    seq(n, _ => Packet(Marker, NoScope, false))
  }

  /** A list that a queue's invariant allows, at its longest, never exceeds the collection size, so that no removal
      compacts it, exactly when the window is no larger than that size. */
  lemma NeverCompactedExactly(maxInflight: nat, gcSize: nat, optFlush: bool)
    ensures (forall ops: Ops, retired: nat, log: seq<Packet> |
               OpsOk(ops, retired, log, optFlush) && |ops| <= maxInflight :: |ops| <= gcSize)
            <==> maxInflight <= gcSize
  {
    var ops, log := Burst(maxInflight), BurstLog(maxInflight);
    forall i | 0 <= i < |ops|
      ensures OpAt(ops, 0, log, optFlush, i)
    {
    }
    assert OpsOk(ops, 0, log, optFlush) && |ops| == maxInflight;
  }

  lemma {:induction false} CompactKeeps(ops: Ops, i: nat)
    requires i < |ops| && ops[i].Some?
    ensures ops[i] in Compact(ops)
  {
    if i > 0 {
      CompactKeeps(ops[1..], i - 1);
    }
  }

  // ------------------------------------------------------------------------------------------
  // Release fences
  // ------------------------------------------------------------------------------------------

  predicate SystemMarker(p: Packet) {
    p.kind == Marker && p.release == SystemScope
  }

  /** Data is written that the host cannot see yet: by a kernel, or by a kernel of another queue that a marker
      without a system-scope release waits for. */
  predicate Unreleased(p: Packet) {
    p.kind == Kernel || (p.carries && p.release != SystemScope)
  }

  /** Packet i is followed by a system-scope marker among the first n packets. */
  ghost predicate ReleasedAfter(log: seq<Packet>, i: int, n: int) {
    exists j :: 0 <= i < j < n && j < |log| && SystemMarker(log[j])
  }

  /** Every packet that leaves data unreleased is followed by a system-scope marker among the first n packets. */
  ghost predicate AllReleased(log: seq<Packet>, n: int) {
    forall i {:trigger ReleasedAfter(log, i, n)} | 0 <= i < |log| && Unreleased(log[i]) :: ReleasedAfter(log, i, n)
  }

  lemma AppendReleased(log: seq<Packet>, p: Packet)
    requires AllReleased(log, |log|) || SystemMarker(p)
    ensures !Unreleased(p) ==> AllReleased(log + [p], |log| + 1)
  {
    var log1 := log + [p];
    forall i | 0 <= i < |log1| && Unreleased(log1[i]) && !Unreleased(p)
      ensures ReleasedAfter(log1, i, |log1|)
    {
      if SystemMarker(p) {
        assert SystemMarker(log1[|log|]);
      } else {
        assert ReleasedAfter(log, i, |log|);
        var j :| i < j < |log| && SystemMarker(log[j]);
        assert SystemMarker(log1[j]);
      }
    }
  }

  /** The last packet leaves nothing unreleased if no packet does. */
  lemma LastIsReleased(log: seq<Packet>)
    requires AllReleased(log, |log|) && log != []
    ensures !Unreleased(log[|log| - 1])
  {
    assert Unreleased(log[|log| - 1]) ==> ReleasedAfter(log, |log| - 1, |log|);
  }

  // ------------------------------------------------------------------------------------------
  // Release fences across queues
  // ------------------------------------------------------------------------------------------

  /** What a marker may wait for.  A marker took down, when it was enqueued, whether its queue still needed a
      system-scope release; any other command says no. */
  datatype Dependency = OnMarker(queueNeedsRelease: bool) | OnKernel

  /** barrierNextSyncNeedsSysRelease(). */
  predicate SaysNeedsRelease(d: Dependency) {
    d.OnMarker? && d.queueNeedsRelease
  }

  /** The dependency is on packet m1 of a queue. */
  ghost predicate IsDependency(d: Dependency, log1: seq<Packet>, m1: nat) {
    && m1 < |log1|
    && (d.OnMarker? ==> log1[m1].kind == Marker)
    && (d.OnMarker? && !d.queueNeedsRelease ==> AllReleased(log1[..m1 + 1], m1 + 1))
    && (d.OnKernel? ==> log1[m1].kind == Kernel)
  }

  /** Marker m2 of another queue waits for the dependency and carries the need that it takes over, and the host has
      waited for that queue, which leaves nothing unreleased. */
  ghost predicate HostWaited(d: Dependency, force: bool, log2: seq<Packet>, m2: nat) {
    && m2 < |log2| && log2[m2].kind == Marker
    && (d == OnMarker(true) || force ==> log2[m2].carries)
    && AllReleased(log2, |log2|)
  }

  /** Every kernel up to packet m1 is released to the system by its own packet, or by a system-scope marker that follows
      among the first n packets of its queue. */
  ghost predicate OwnReleased(log1: seq<Packet>, m1: nat, n: nat) {
    forall i | 0 <= i <= m1 && i < |log1| && log1[i].kind == Kernel ::
      log1[i].release == SystemScope || ReleasedAfter(log1, i, n)
  }

  /** The host sees what those kernels wrote: they are released by their own queue, or the marker that waits for them
      is followed by a system-scope one of its queue or is one. */
  ghost predicate HostSees(log1: seq<Packet>, m1: nat, n: nat, log2: seq<Packet>, m2: nat)
    requires m2 < |log2|
  {
    OwnReleased(log1, m1, n) || SystemMarker(log2[m2]) || ReleasedAfter(log2, m2, |log2|)
  }

  /** A dependency on a marker hands the need of a release to the queue that waits, in every run of that queue.  One
      on a kernel does not, unless it is forced to or the kernel's own queue has released it (n packets of which, the
      kernel among them, are complete). */
  lemma ReleasedAcrossQueuesExactly(d: Dependency, force: bool, log1: seq<Packet>, m1: nat, n: nat)
    requires IsDependency(d, log1, m1) && m1 < n
    ensures (forall log2, m2: nat | HostWaited(d, force, log2, m2) :: HostSees(log1, m1, n, log2, m2))
            <==> d.OnMarker? || force || OwnReleased(log1, m1, n)
  {
    forall log2, m2: nat | HostWaited(d, force, log2, m2) && (d.OnMarker? || force)
      ensures HostSees(log1, m1, n, log2, m2)
    {
      if d == OnMarker(true) || force {
        assert Unreleased(log2[m2]) || SystemMarker(log2[m2]);
        assert Unreleased(log2[m2]) ==> ReleasedAfter(log2, m2, |log2|);
      } else {
        MarkerReleased(log1, m1, n);
      }
    }
    if d.OnKernel? && !force && !OwnReleased(log1, m1, n) {
      var log2 := [Packet(Marker, NoScope, false)];
      assert HostWaited(d, force, log2, 0) && !ReleasedAfter(log2, 0, 1);
    }
  }

  /** A marker that took down no need follows a release of every kernel before it. */
  lemma MarkerReleased(log1: seq<Packet>, m1: nat, n: nat)
    requires m1 < |log1| && m1 < n && log1[m1].kind == Marker && AllReleased(log1[..m1 + 1], m1 + 1)
    ensures OwnReleased(log1, m1, n)
  {
    var done := log1[..m1 + 1];
    forall i | 0 <= i <= m1 && log1[i].kind == Kernel
      ensures ReleasedAfter(log1, i, n)
    {
      assert done[i] == log1[i] && ReleasedAfter(done, i, m1 + 1);
      var j :| i < j < m1 + 1 && SystemMarker(done[j]);
      assert SystemMarker(log1[j]);
    }
  }

  /** A kernel that is the dependency itself is not released by the packets up to it, unless it releases itself. */
  lemma KernelNeedsRelease(log1: seq<Packet>, m1: nat)
    requires m1 < |log1| && log1[m1].kind == Kernel && log1[m1].release != SystemScope
    ensures !OwnReleased(log1, m1, m1 + 1)
  {
    assert !ReleasedAfter(log1, m1, m1 + 1);
  }

  // ------------------------------------------------------------------------------------------
  // The ring
  // ------------------------------------------------------------------------------------------

  /** The slots of the outstanding packets still hold them. */
  ghost predicate SlotAt(ring: seq<Packet>, log: seq<Packet>, k: int)
    requires 0 <= k < |log| && |ring| > 0
  {
    ring[k % |ring|] == log[k]
  }

  ghost predicate SlotsOk(ring: seq<Packet>, log: seq<Packet>, completed: nat) {
    |ring| > 0 && forall k | completed <= k < |log| :: SlotAt(ring, log, k)
  }

  /** Writing the next packet overwrites no outstanding one when they are fewer than the slots. */
  lemma WriteSlot(ring: seq<Packet>, log: seq<Packet>, completed: nat, p: Packet)
    requires SlotsOk(ring, log, completed) && |log| < completed + |ring|
    ensures SlotsOk(ring[|log| % |ring| := p], log + [p], completed)
  {
    var ring1, log1 := ring[|log| % |ring| := p], log + [p];
    forall k | completed <= k < |log1|
      ensures SlotAt(ring1, log1, k)
    {
      if k < |log| {
        assert SlotAt(ring, log, k);
        OtherSlot(k, |log|, |ring|);
      }
    }
  }

  // ------------------------------------------------------------------------------------------
  // Dispatching
  // ------------------------------------------------------------------------------------------

  /** The list after the next packet's command was pushed at its end. */
  lemma DispatchOk(ops: Ops, retired: nat, log: seq<Packet>, optFlush: bool, op: Op, p: Packet, completed: int)
    requires OpsOk(ops, retired, log, optFlush) && RetiredDone(ops, retired, |log|, completed)
    requires op.packet == |log| && op.kind == p.kind && (op.signal || (op.kind == Kernel && optFlush))
    ensures OpsOk(ops + [Some(op)], retired, log + [p], optFlush)
    ensures RetiredDone(ops + [Some(op)], retired, |log| + 1, completed)
  {
    var r, log1 := ops + [Some(op)], log + [p];
    forall i | 0 <= i < |r|
      ensures OpAt(r, retired, log1, optFlush, i)
    {
      if i < |ops| {
        assert OpAt(ops, retired, log, optFlush, i);
      }
    }
  }
}
