/** The command queue protocol of src/driver/csq_queue.cpp and csq_cmd.cpp: the in-flight window, retirement in
    order, release fences before a host wait, and the slots of the hardware rings that queues hold in turn. */
module CommandQueue {
  import opened Wrappers
  import opened InFlight

  /** HSA_BARRIER_DEP_SIGNAL_CNT. */
  const DEP_SIGNALS := 5

  const PRIORITY_NORMAL := 1

  /** A hardware queue: a ring of packets, processed in order. */
  class RocrQueue {
    const priority: nat
    var hccQueue: DlaQueue?
    const ring: array<Packet>
    var writeIndex: nat
    /** The number of packets that are complete. */
    var completed: nat
    /** All packets ever written, by all owners. */
    ghost var log: seq<Packet>

    /** The slots of the outstanding packets hold them. */
    ghost predicate RingOk()
      reads this, ring
    {
      writeIndex == |log| && completed <= |log| && SlotsOk(ring[..], log, completed)
    }

    /** No packet is outstanding. */
    ghost predicate Drained()
      reads this
    {
      completed == |log|
    }

    constructor (hccQueue: DlaQueue, priority: nat)
      requires hccQueue.Valid() && hccQueue.rocrQueue == null
      requires priority == if hccQueue.lost then PRIORITY_NORMAL else hccQueue.priority
      modifies hccQueue`rocrQueue, hccQueue`offset, hccQueue`since
      ensures this.priority == priority && this.hccQueue == hccQueue && hccQueue.rocrQueue == this && fresh(ring)
      ensures RingOk() && hccQueue.Valid() && hccQueue.Completed() == |hccQueue.log|
    {
      this.priority, this.hccQueue := priority, null;
      ring := new Packet[2 * hccQueue.maxInflight](_ => Packet(Marker, NoScope, false));
      writeIndex, completed, log := 0, 0, [];
      new;
      AssignHccQueue(hccQueue);
    }

    /** The queue's next packets go to this ring, whose old packets are all complete. */
    method AssignHccQueue(hccQueue: DlaQueue)
      requires RingOk() && Drained() && ring.Length == 2 * hccQueue.maxInflight
      requires priority == if hccQueue.lost then PRIORITY_NORMAL else hccQueue.priority
      requires hccQueue.Valid() && hccQueue.rocrQueue == null
      modifies this`hccQueue, hccQueue`rocrQueue, hccQueue`offset, hccQueue`since
      ensures this.hccQueue == hccQueue && hccQueue.rocrQueue == this
      ensures hccQueue.Valid() && hccQueue.Completed() == |hccQueue.log|
    {
      hccQueue.rocrQueue := this;
      hccQueue.offset, hccQueue.since := writeIndex - hccQueue.issued, |hccQueue.log|;
      this.hccQueue := hccQueue;
    }

    /** Packets are processed at any time; at least the one at `until` is. */
    method Advance(until: int)
      requires RingOk() && until < writeIndex
      modifies this`completed
      ensures RingOk() && old(completed) <= completed && until < completed
    {
      var done: nat :| completed <= done <= writeIndex && until < done;
      forall k | done <= k < |log| ensures SlotAt(ring[..], log, k) { }
      completed := done;
    }

    /** Write the next packet and ring the doorbell. */
    method WritePacket(p: Packet)
      requires RingOk() && writeIndex < completed + ring.Length
      modifies this`writeIndex, this`log, ring
      ensures RingOk() && log == old(log) + [p]
    {
      WriteSlot(ring[..], log, completed, p);
      ring[writeIndex % ring.Length] := p;
      writeIndex := writeIndex + 1;
      log := log + [p];
    }
  }

  class DlaQueue {
    /** MAX_INFLIGHT_COMMANDS_PER_QUEUE, ASYNCOPS_VECTOR_GC_SIZE, HCC_OPT_FLUSH and a bit of
        HCC_FORCE_CROSS_QUEUE_FLUSH. */
    const maxInflight: nat
    const gcSize: nat
    const optFlush: bool
    const forceSysRelease: bool
    const priority: nat
    var asyncOps: Ops
    var drainingQueue: bool
    var nextSyncNeedsSysRelease: bool
    var valid: bool
    /** The hardware queue that the next packets go to, if there is one. */
    var rocrQueue: RocrQueue?
    /** Packets written so far, and what has to be added to their numbers for those on the present ring. */
    var issued: nat
    var offset: int
    /** All packets ever written; those from `since` on are on the present ring. */
    ghost var log: seq<Packet>
    ghost var since: nat
    /** The leading null entries of the list. */
    ghost var retired: nat
    /** Another queue once took this one's hardware queue. */
    var lost: bool

    ghost function Hw(): set<RocrQueue>
      reads this`rocrQueue
    {
      if rocrQueue == null then {} else {rocrQueue}
    }

    ghost function Slots(): set<array<Packet>>
      reads this`rocrQueue
    {
      if rocrQueue == null then {} else {rocrQueue.ring}
    }

    /** How many of the queue's packets are complete.  Without a hardware queue all are. */
    ghost function Completed(): int
      reads this`log, this`rocrQueue, this`offset, Hw()
    {
      if rocrQueue == null then |log| else rocrQueue.completed - offset
    }

    /** The queue's packets since it got its hardware queue are the ring's youngest; all before them are complete. */
    ghost predicate OnRing()
      requires rocrQueue != null
      reads this, Hw(), Slots()
    {
      && rocrQueue.hccQueue == this && rocrQueue.ring.Length == 2 * maxInflight && rocrQueue.RingOk()
      && rocrQueue.writeIndex == issued + offset
      && since <= |log| && 0 <= since + offset <= rocrQueue.completed
      && log[since..] == rocrQueue.log[since + offset..]
      && rocrQueue.priority == if lost then PRIORITY_NORMAL else priority
    }

    /** A list that isEmpty() can judge without a new marker. */
    predicate Settled()
      reads this`asyncOps
    {
      SettledOps(asyncOps)
    }

    /** The protocol's invariant, at most `bound` entries being listed. */
    ghost predicate Quiet(bound: int)
      reads this, Hw(), Slots()
    {
      && Placing(bound)
      && OpsOk(asyncOps, retired, log, optFlush)
      && RetiredDone(asyncOps, retired, |log|, Completed())
      && (rocrQueue == null ==> Settled())
    }

    /** The part of it that does not depend on which commands are listed. */
    ghost predicate Placing(bound: int)
      reads this, Hw(), Slots()
    {
      && maxInflight >= 2 && issued == |log| && |asyncOps| <= bound
      && (rocrQueue != null ==> OnRing())
      && (!nextSyncNeedsSysRelease ==> AllReleased(log, |log|))
      && (NeverCompacts() ==> Placed(asyncOps))
    }

    /** The list never gets long enough to be compacted (NeverCompactedExactly). */
    predicate NeverCompacts() {
      maxInflight <= gcSize
    }

    /** Between calls. */
    ghost predicate Valid()
      reads this, Hw(), Slots()
    {
      Quiet(maxInflight - 1) && !drainingQueue
    }

    /** No packet of the queue is outstanding, and its list shows it. */
    ghost predicate Idle()
      reads this, Hw()
    {
      NoneListed(asyncOps) || (LastSignals(asyncOps) && Completed() == |log|)
    }

    constructor (maxInflight: nat, gcSize: nat, optFlush: bool, forceSysRelease: bool, priority: nat)
      requires maxInflight >= 2
      ensures Valid() && rocrQueue == null && !lost && valid && log == [] && asyncOps == [] && !nextSyncNeedsSysRelease
      ensures this.maxInflight == maxInflight && this.gcSize == gcSize && this.optFlush == optFlush
      ensures this.forceSysRelease == forceSysRelease && this.priority == priority
    {
      this.maxInflight, this.gcSize, this.optFlush := maxInflight, gcSize, optFlush;
      this.forceSysRelease, this.priority := forceSysRelease, priority;
      asyncOps, drainingQueue, nextSyncNeedsSysRelease, valid := [], false, false, true;
      rocrQueue, issued, offset, log, since, retired, lost := null, 0, 0, [], 0, 0, false;
    }

    // ----------------------------------------------------------------------------------------
    // Retiring
    // ----------------------------------------------------------------------------------------

    /** Wait for the completion signal of a command. */
    method WaitSignal(op: Op, ghost bound: int)
      requires Quiet(bound) && op.packet < |log|
      modifies Hw()`completed
      ensures Quiet(bound) && old(Completed()) <= Completed() && op.packet < Completed()
    {
      if rocrQueue != null {
        rocrQueue.Advance(op.packet + offset);
      }
    }

    /** Take a finished command and all older ones off the list. */
    method RemoveAsyncOp(op: Op, ghost bound: int)
      requires Quiet(bound) && bound <= maxInflight && |log| + SweepTarget(asyncOps, op) <= Completed() + |asyncOps|
      modifies this`asyncOps, this`retired
      ensures Quiet(bound) && asyncOps == Removed(old(asyncOps), SweepTarget(old(asyncOps), op), gcSize)
    {
      ghost var ops, n := asyncOps, SweepTarget(asyncOps, op);
      if rocrQueue == null {
        RemovedSettles(ops, retired, log, optFlush, n, gcSize);
      }
      ghost var r := RemovedOk(ops, retired, log, optFlush, n, gcSize, Completed());
      SweptPlaced(ops, n);
      SweepAndCollect(op);
      retired := r;
    }

    /** The search for older commands stops at the first null entry, which sweeps as much as going all the way down. */
    method SweepAndCollect(op: Op)
      requires OpsOk(asyncOps, retired, log, optFlush)
      modifies this`asyncOps
      ensures asyncOps == Removed(old(asyncOps), SweepTarget(old(asyncOps), op), gcSize)
    {
      if op.index < |asyncOps| && asyncOps[op.index].Some? && asyncOps[op.index].value.packet == op.packet {
        SweepOlder(op.index);
      } else {
        assert Swept(asyncOps, 0) == asyncOps;
      }
      if |asyncOps| > gcSize {
        asyncOps := Compact(asyncOps);
      }
    }

    method SweepOlder(target: nat)
      requires OpsOk(asyncOps, retired, log, optFlush) && target < |asyncOps|
      modifies this`asyncOps
      ensures asyncOps == Swept(old(asyncOps), target + 1)
    {
      NullsFirst(asyncOps, retired, log, optFlush);
      var i := target;
      while i >= 0
        invariant -1 <= i <= target && |asyncOps| == |old(asyncOps)|
        invariant forall k | i < k <= target :: asyncOps[k].None?
        invariant forall k | 0 <= k < |asyncOps| && !(i < k <= target) :: asyncOps[k] == old(asyncOps)[k]
      {
        if asyncOps[i].Some? {
          asyncOps := asyncOps[i := None];
        } else {
          break;
        }
        i := i - 1;
      }
    }

    /** The command was dispatched here, and a list entry with its number is it. */
    ghost predicate Issued(op: Op)
      reads this`log, this`asyncOps
    {
      && op.packet < |log|
      && forall i | 0 <= i < |asyncOps| :: EntryIs(asyncOps, i, op)
    }

    /** waitComplete(): a command without a signal counts as complete, so nobody may ask before it is. */
    method WaitComplete(op: Op, ghost bound: int)
      requires Quiet(bound) && bound <= maxInflight && Issued(op) && (op.signal || op.packet < Completed())
      modifies Hw()`completed, this`asyncOps, this`retired
      ensures Quiet(bound) && old(Completed()) <= Completed() && op.packet < Completed()
      ensures asyncOps == Removed(old(asyncOps), SweepTarget(old(asyncOps), op), gcSize)
      ensures NeverCompacts() ==> forall i | 0 <= i < |old(asyncOps)| && old(asyncOps)[i] == Some(op) ::
              asyncOps == Swept(old(asyncOps), i + 1)
    {
      assert NeverCompacts() ==> forall i | 0 <= i < |asyncOps| && asyncOps[i] == Some(op) :: PlacedAt(asyncOps, i);
      if op.signal {
        WaitSignal(op, bound);
      }
      TargetDone(asyncOps, retired, log, optFlush, op, Completed());
      RemoveAsyncOp(op, bound);
    }

    /** wait() has to enqueue a marker first. */
    predicate NeedsMarker()
      reads this`nextSyncNeedsSysRelease
    {
      optFlush && nextSyncNeedsSysRelease
    }

    /** The host waits for everything.  What kernels wrote is released to the system before the last packet. */
    method Wait()
      requires Quiet(maxInflight - 1) && (NeedsMarker() ==> rocrQueue != null)
      modifies this`asyncOps, this`drainingQueue, this`nextSyncNeedsSysRelease, this`issued, this`log, this`retired
      modifies Hw()`completed, Hw()`writeIndex, Hw()`log, Slots()
      ensures Quiet(0) && asyncOps == [] && Completed() == |log|
      ensures optFlush ==> AllReleased(log, Completed()) && !nextSyncNeedsSysRelease
      ensures old(log) <= log && (old(NeedsMarker()) || log == old(log))
      ensures drainingQueue ==> old(drainingQueue)
      ensures nextSyncNeedsSysRelease == (old(nextSyncNeedsSysRelease) && !optFlush)
      decreases if drainingQueue then 0 else 1, 5
    {
      if optFlush && nextSyncNeedsSysRelease {
        var _, _ := EnqueueMarker(SystemScope);
      }
      WaitYoungestFirst();
      ClearOps();
    }

    /** asyncOps.clear(). */
    method ClearOps()
      requires Quiet(maxInflight) && Completed() == |log|
      modifies this`asyncOps, this`retired
      ensures Quiet(0) && asyncOps == []
    {
      asyncOps, retired := [], 0;
    }

    /** The loop of wait(): the first command it finds has a signal, and is the youngest. */
    method WaitYoungestFirst()
      requires Quiet(maxInflight) && !NeedsMarker()
      modifies Hw()`completed, this`asyncOps, this`retired
      ensures Quiet(maxInflight) && Completed() == |log|
    {
      var foundFirstValidOp := false;
      var i := |asyncOps| - 1;
      while i >= 0
        invariant Quiet(maxInflight)
        invariant foundFirstValidOp ==> Completed() == |log|
        invariant !foundFirstValidOp ==> -1 <= i < |asyncOps| && forall j | i < j < |asyncOps| :: asyncOps[j].None?
      {
        // A removal may have compacted the list below i.
        if i < |asyncOps| && asyncOps[i].Some? {
          var op := asyncOps[i].value;
          if !foundFirstValidOp {
            Youngest(asyncOps, retired, log, optFlush, i);
            FirstHasSignal(log, op, optFlush, nextSyncNeedsSysRelease);
            assert op.signal;
            foundFirstValidOp := true;
          }
          EntryIssued(asyncOps, retired, log, optFlush, i);
          WaitComplete(op, maxInflight);
        }
        i := i - 1;
      }
      if !foundFirstValidOp {
        AllNull(asyncOps, retired, log, optFlush);
      }
    }

    // ----------------------------------------------------------------------------------------
    // Issuing
    // ----------------------------------------------------------------------------------------

    /** A command was pushed whose packet is the next to be written. */
    ghost predicate Pushed(op: Op, bound: int)
      reads this, Hw(), Slots()
    {
      && rocrQueue != null
      && asyncOps != [] && asyncOps[|asyncOps| - 1] == Some(op)
      && op.packet == |log| && (op.signal || (op.kind == Kernel && optFlush)) && op.index == |asyncOps| - 1
      && Placing(bound)
      && OpsOk(asyncOps[..|asyncOps| - 1], retired, log, optFlush)
      && RetiredDone(asyncOps[..|asyncOps| - 1], retired, |log|, Completed())
    }

    /** The window is full, so that the next command drains the queue first, unless that is being done. */
    predicate Drains()
      reads this`asyncOps, this`drainingQueue
    {
      !drainingQueue && |asyncOps| >= maxInflight - 1
    }

    /** The flag once there is room: a drain clears it, if flushing is optimised. */
    predicate NeedsAfterRoom()
      reads this`asyncOps, this`drainingQueue, this`nextSyncNeedsSysRelease
    {
      nextSyncNeedsSysRelease && !(optFlush && Drains())
    }

    /** Append a command to the list, draining the queue first when the window is full. */
    method PushAsyncOp(kind: Kind, signal: bool) returns (op: Op)
      requires Quiet(maxInflight - 1) && rocrQueue != null && (signal || (kind == Kernel && optFlush))
      modifies this`asyncOps, this`drainingQueue, this`nextSyncNeedsSysRelease, this`issued, this`log, this`retired
      modifies Hw()`completed, Hw()`writeIndex, Hw()`log, Slots()
      ensures Pushed(op, if old(drainingQueue) then maxInflight else maxInflight - 1) && op.kind == kind &&
              op.signal == signal
      ensures !drainingQueue && old(log) <= log
      ensures nextSyncNeedsSysRelease == old(NeedsAfterRoom())
      ensures old(drainingQueue) || |old(asyncOps)| < maxInflight - 1 ==>
              asyncOps == old(asyncOps) + [Some(op)] && log == old(log)
      ensures !old(drainingQueue) && |old(asyncOps)| >= maxInflight - 1 ==>
              asyncOps == [Some(op)] && Completed() == |log|
      decreases if drainingQueue then 0 else 1, 1
    {
      ghost var bound := if drainingQueue then maxInflight else maxInflight - 1;
      MakeRoom();
      op := Append(kind, signal, bound);
    }

    method MakeRoom()
      requires Quiet(maxInflight - 1) && rocrQueue != null
      modifies this`asyncOps, this`drainingQueue, this`nextSyncNeedsSysRelease, this`issued, this`log, this`retired
      modifies Hw()`completed, Hw()`writeIndex, Hw()`log, Slots()
      ensures Quiet(if old(drainingQueue) then maxInflight - 1 else maxInflight - 2)
      ensures old(log) <= log && nextSyncNeedsSysRelease == old(NeedsAfterRoom())
      ensures old(drainingQueue) || |old(asyncOps)| < maxInflight - 1 ==> asyncOps == old(asyncOps) && log == old(log)
      ensures !old(drainingQueue) && |old(asyncOps)| >= maxInflight - 1 ==> asyncOps == [] && Completed() == |log|
      decreases if drainingQueue then 0 else 1, 0
    {
      if !drainingQueue && |asyncOps| >= maxInflight - 1 {
        drainingQueue := true;
        Wait();
      }
    }

    /** What dispatching needs to know of it. */
    method Push(kind: Kind, signal: bool) returns (op: Op)
      requires Quiet(maxInflight - 1) && rocrQueue != null && (signal || (kind == Kernel && optFlush))
      modifies this`asyncOps, this`drainingQueue, this`nextSyncNeedsSysRelease, this`issued, this`log, this`retired
      modifies Hw()`completed, Hw()`writeIndex, Hw()`log, Slots()
      ensures Pushed(op, if old(drainingQueue) then maxInflight else maxInflight - 1) && op.kind == kind &&
              op.signal == signal
      ensures !drainingQueue && old(log) <= log
      ensures nextSyncNeedsSysRelease == old(NeedsAfterRoom())
      decreases if drainingQueue then 0 else 1, 2
    {
      op := PushAsyncOp(kind, signal);
    }

    method Append(kind: Kind, signal: bool, ghost bound: int) returns (op: Op)
      requires Quiet(bound - 1) && rocrQueue != null && (signal || (kind == Kernel && optFlush))
      modifies this`asyncOps, this`drainingQueue
      ensures Pushed(op, bound) && op.kind == kind && op.signal == signal && asyncOps == old(asyncOps) + [Some(op)]
      ensures !drainingQueue
    {
      op := Op(|asyncOps|, kind, signal, issued);
      AppendPlaced(asyncOps, op);
      ghost var before := asyncOps;
      asyncOps := asyncOps + [Some(op)];
      assert asyncOps[..|asyncOps| - 1] == before;
      drainingQueue := false;
    }

    /** setNextSyncNeedsSysRelease(true). */
    method NeedSysRelease(ghost op: Op, ghost bound: int)
      requires Pushed(op, bound)
      modifies this`nextSyncNeedsSysRelease
      ensures Pushed(op, bound) && nextSyncNeedsSysRelease
    {
      nextSyncNeedsSysRelease := true;
    }

    /** Write the packet of the command pushed last. */
    method Dispatch(op: Op, p: Packet, ghost bound: int)
      requires Pushed(op, bound) && bound <= maxInflight && p.kind == op.kind
      requires Unreleased(p) ==> nextSyncNeedsSysRelease
      modifies this`issued, this`log, this`nextSyncNeedsSysRelease, Hw()`writeIndex, Hw()`log, Slots()
      ensures Quiet(bound) && log == old(log) + [p]
      ensures nextSyncNeedsSysRelease == (old(nextSyncNeedsSysRelease) && !SystemMarker(p))
    {
      ghost var before := asyncOps[..|asyncOps| - 1];
      assert asyncOps == before + [Some(op)];
      DispatchOk(before, retired, log, optFlush, op, p, Completed());
      if SystemMarker(p) || !nextSyncNeedsSysRelease {
        AppendReleased(log, p);
      }
      if SystemMarker(p) {
        nextSyncNeedsSysRelease := false;
      }
      Issue(p);
    }

    /** The queue's next packet goes to its ring. */
    method Issue(p: Packet)
      requires rocrQueue != null && OnRing() && issued == |log|
      requires rocrQueue.writeIndex < rocrQueue.completed + rocrQueue.ring.Length
      modifies this`issued, this`log, Hw()`writeIndex, Hw()`log, Slots()
      ensures OnRing() && issued == |log| && log == old(log) + [p] && Completed() == old(Completed())
    {
      TailsGrow(log, rocrQueue.log, since, since + offset, p);
      rocrQueue.WritePacket(p);
      issued := issued + 1;
      log := log + [p];
    }

    /** Enqueue a barrier packet.  It takes down whether the queue still needs a system-scope release. */
    method EnqueueMarker(scope: Scope) returns (op: Op, captured: Dependency)
      requires Quiet(maxInflight - 1) && rocrQueue != null
      modifies this`asyncOps, this`drainingQueue, this`nextSyncNeedsSysRelease, this`issued, this`log, this`retired
      modifies Hw()`completed, Hw()`writeIndex, Hw()`log, Slots()
      ensures Quiet(if old(drainingQueue) then maxInflight else maxInflight - 1) && !drainingQueue
      ensures asyncOps != [] && asyncOps[|asyncOps| - 1] == Some(op) && op.packet == |log| - 1
      ensures op.signal && op.kind == Marker
      ensures old(log) < log && log[|log| - 1] == Packet(Marker, scope, false)
      ensures nextSyncNeedsSysRelease == (old(NeedsAfterRoom()) && scope != SystemScope)
      ensures captured == OnMarker(nextSyncNeedsSysRelease) && IsDependency(captured, log, op.packet)
      decreases if drainingQueue then 0 else 1, 4
    {
      op := IssueMarker(scope);
      captured := CaptureNeed();
    }

    method IssueMarker(scope: Scope) returns (op: Op)
      requires Quiet(maxInflight - 1) && rocrQueue != null
      modifies this`asyncOps, this`drainingQueue, this`nextSyncNeedsSysRelease, this`issued, this`log, this`retired
      modifies Hw()`completed, Hw()`writeIndex, Hw()`log, Slots()
      ensures Quiet(if old(drainingQueue) then maxInflight else maxInflight - 1) && !drainingQueue
      ensures asyncOps != [] && asyncOps[|asyncOps| - 1] == Some(op) && op.packet == |log| - 1
      ensures op.signal && op.kind == Marker
      ensures old(log) < log && log[|log| - 1] == Packet(Marker, scope, false)
      ensures nextSyncNeedsSysRelease == (old(NeedsAfterRoom()) && scope != SystemScope)
      decreases if drainingQueue then 0 else 1, 3
    {
      ghost var bound := if drainingQueue then maxInflight else maxInflight - 1;
      op := Push(Marker, true);
      Dispatch(op, Packet(Marker, scope, false), bound);
    }

    /** Enqueue a barrier packet that also waits for other commands.  The queue takes over their need of a system
        release, and its marker carries it.  Null entries do not count, wherever they are. */
    method EnqueueMarkerWithDependency(deps: seq<Option<Dependency>>, scope: Scope)
      returns (r: Option<Op>, captured: Dependency)
      requires Valid() && rocrQueue != null
      modifies this`asyncOps, this`drainingQueue, this`nextSyncNeedsSysRelease, this`issued, this`log, this`retired
      modifies Hw()`completed, Hw()`writeIndex, Hw()`log, Slots()
      ensures Valid()
      ensures r.None? <==> |deps| > DEP_SIGNALS
      ensures r.None? ==> log == old(log) && asyncOps == old(asyncOps)
      ensures r.Some? ==> old(log) < log && r.value.packet == |log| - 1 && r.value.signal && r.value.kind == Marker
      ensures r.Some? ==> asyncOps != [] && asyncOps[|asyncOps| - 1] == r
      ensures r.Some? ==> log[|log| - 1].kind == Marker && log[|log| - 1].release == scope
      ensures r.Some? ==>
                (log[|log| - 1].carries <==>
                 exists i :: 0 <= i < |deps| && (deps[i] == Some(OnMarker(true)) || (forceSysRelease && deps[i].Some?)))
      ensures r.Some? ==>
                nextSyncNeedsSysRelease == ((old(NeedsAfterRoom()) || log[|log| - 1].carries) && scope != SystemScope)
      ensures r.Some? ==> captured == OnMarker(nextSyncNeedsSysRelease) && IsDependency(captured, log, r.value.packet)
    {
      captured := OnMarker(false);
      if |deps| > DEP_SIGNALS {
        return None, captured;
      }
      var depAsyncOps := Squeeze(deps);
      TakesOverSqueezed(deps, forceSysRelease);
      var op := EnqueueSqueezed(depAsyncOps, |deps|, scope);
      captured := CaptureNeed();
      return Some(op), captured;
    }

    method EnqueueSqueezed(depAsyncOps: seq<Dependency>, count: nat, scope: Scope) returns (op: Op)
      requires Valid() && rocrQueue != null && |depAsyncOps| <= count
      modifies this`asyncOps, this`drainingQueue, this`nextSyncNeedsSysRelease, this`issued, this`log, this`retired
      modifies Hw()`completed, Hw()`writeIndex, Hw()`log, Slots()
      ensures Valid() && old(log) < log && op.packet == |log| - 1 && op.signal && op.kind == Marker
      ensures asyncOps != [] && asyncOps[|asyncOps| - 1] == Some(op)
      ensures log[|log| - 1] == Packet(Marker, scope, SomeAsks(depAsyncOps, forceSysRelease))
      ensures nextSyncNeedsSysRelease ==
              ((old(NeedsAfterRoom()) || SomeAsks(depAsyncOps, forceSysRelease)) && scope != SystemScope)
    {
      op := Push(Marker, true);
      var carries := InheritFrom(depAsyncOps, count, op);
      Dispatch(op, Packet(Marker, scope, carries), maxInflight - 1);
    }

    /** What the last marker takes down about its queue. */
    method CaptureNeed() returns (captured: Dependency)
      requires log != [] && log[|log| - 1].kind == Marker && (!nextSyncNeedsSysRelease ==> AllReleased(log, |log|))
      ensures captured == OnMarker(nextSyncNeedsSysRelease) && IsDependency(captured, log, |log| - 1)
    {
      captured := OnMarker(nextSyncNeedsSysRelease);
      assert log[..|log|] == log;
    }

    /** The marker's array ends with nulls, and the first one ends the loop. */
    method InheritFrom(depAsyncOps: seq<Dependency>, count: nat, ghost op: Op) returns (carries: bool)
      requires Pushed(op, maxInflight - 1) && |depAsyncOps| <= count
      modifies this`nextSyncNeedsSysRelease
      ensures Pushed(op, maxInflight - 1)
      ensures carries <==> SomeAsks(depAsyncOps, forceSysRelease)
      ensures nextSyncNeedsSysRelease == (old(nextSyncNeedsSysRelease) || carries)
    {
      carries := false;
      var i := 0;
      while i < count
        invariant i <= |depAsyncOps| && Pushed(op, maxInflight - 1)
        invariant carries <==> SomeAsks(depAsyncOps[..i], forceSysRelease)
        invariant nextSyncNeedsSysRelease == (old(nextSyncNeedsSysRelease) || carries)
      {
        if i == |depAsyncOps| {
          break;
        }
        var d := depAsyncOps[i];
        OneMoreAsks(depAsyncOps, i, forceSysRelease);
        if SaysNeedsRelease(d) {
          NeedSysRelease(op, maxInflight - 1);
          carries := true;
        }
        if forceSysRelease {
          NeedSysRelease(op, maxInflight - 1);
          carries := true;
        }
        i := i + 1;
      }
      assert depAsyncOps[..|depAsyncOps|] == depAsyncOps;
    }

    /** Launch a kernel; it gets a completion signal only when somebody asks for one. */
    method DispatchHsaKernel(release: Scope, wantSignal: bool) returns (op: Op)
      requires Valid() && rocrQueue != null
      modifies this`asyncOps, this`drainingQueue, this`nextSyncNeedsSysRelease, this`issued, this`log, this`retired
      modifies Hw()`completed, Hw()`writeIndex, Hw()`log, Slots()
      ensures Valid() && nextSyncNeedsSysRelease
      ensures old(log) < log && log[|log| - 1] == Packet(Kernel, release, false)
      ensures asyncOps != [] && asyncOps[|asyncOps| - 1] == Some(op) && op.packet == |log| - 1
      ensures op.signal <==> wantSignal || !optFlush
      ensures op.kind == Kernel && IsDependency(OnKernel, log, op.packet)
    {
      var needsSignal := true;
      if optFlush && !wantSignal {
        needsSignal := false;
      }
      op := Push(Kernel, needsSignal);
      NeedSysRelease(op, maxInflight - 1);
      Dispatch(op, Packet(Kernel, release, false), maxInflight - 1);
    }

    /** Another queue takes the hardware queue, all of whose packets are complete. */
    method GiveUp()
      requires Valid() && rocrQueue != null && Settled() && Completed() == |log|
      modifies this`rocrQueue, this`lost
      ensures Valid() && rocrQueue == null && lost && old(rocrQueue).Drained() && old(rocrQueue).RingOk()
    {
      rocrQueue, lost := null, true;
    }

    // ----------------------------------------------------------------------------------------
    // Asking
    // ----------------------------------------------------------------------------------------

    /** Looks at the youngest listed command only.  When it finds the queue empty, all its packets are complete, and so
        are all packets of its ring; when that command has no signal, it enqueues a marker. */
    method IsEmpty() returns (empty: bool)
      requires Valid() && (rocrQueue == null ==> Settled())
      modifies this`asyncOps, this`drainingQueue, this`nextSyncNeedsSysRelease, this`issued, this`log, this`retired
      modifies Hw()`completed, Hw()`writeIndex, Hw()`log, Slots()
      ensures Valid() && old(log) <= log
      ensures empty <==> old(Idle())
      ensures empty ==> Settled() && Completed() == |log| && (rocrQueue != null ==> rocrQueue.Drained())
      ensures old(Settled()) ==> log == old(log) && asyncOps == old(asyncOps) && Completed() == old(Completed())
      ensures old(Settled()) ==> nextSyncNeedsSysRelease == old(nextSyncNeedsSysRelease)
      ensures !old(Settled()) ==>
              Settled() && !nextSyncNeedsSysRelease && old(log) < log && SystemMarker(log[|log| - 1])
    {
      var i := |asyncOps| - 1;
      while i >= 0 && asyncOps[i].None?
        invariant -1 <= i < |asyncOps|
        invariant forall j | i < j < |asyncOps| :: asyncOps[j].None?
      {
        i := i - 1;
      }
      if i < 0 {
        AllNull(asyncOps, retired, log, optFlush);
        return true;
      }
      Youngest(asyncOps, retired, log, optFlush, i);
      var op := asyncOps[i].value;
      if op.signal {
        return rocrQueue == null || op.packet + offset < rocrQueue.completed;
      }
      var _, _ := EnqueueMarker(SystemScope);
      return false;
    }
  }

  /** Some dependency needs a system release or is given the need. */
  ghost predicate TakesOver(deps: seq<Option<Dependency>>, force: bool) {
    exists i :: 0 <= i < |deps| && NeedsRelease(deps[i], force)
  }

  predicate NeedsRelease(d: Option<Dependency>, force: bool) {
    d == Some(OnMarker(true)) || (force && d.Some?)
  }

  /** The entries that are not null, in the same order. */
  function Squeezed(deps: seq<Option<Dependency>>): (r: seq<Dependency>)
    ensures |r| <= |deps|
  {
    if deps == [] then []
    else
      var rest := Squeezed(deps[..|deps| - 1]);
      if deps[|deps| - 1].Some? then rest + [deps[|deps| - 1].value] else rest
  }

  /** The constructor of a barrier command squeezes null entries out. */
  method Squeeze(deps: seq<Option<Dependency>>) returns (depAsyncOps: seq<Dependency>)
    ensures depAsyncOps == Squeezed(deps)
  {
    depAsyncOps := [];
    for i := 0 to |deps|
      invariant depAsyncOps == Squeezed(deps[..i])
    {
      assert deps[..i + 1][..i] == deps[..i];
      if deps[i].Some? {
        depAsyncOps := depAsyncOps + [deps[i].value];
      }
    }
    assert deps[..|deps|] == deps;
  }

  ghost predicate SomeAsks(ds: seq<Dependency>, force: bool) {
    exists d | d in ds :: Asks(d, force)
  }

  predicate Asks(d: Dependency, force: bool) {
    d == OnMarker(true) || force
  }

  lemma OneMoreAsks(ds: seq<Dependency>, i: nat, force: bool)
    requires i < |ds|
    ensures SomeAsks(ds[..i + 1], force) <==> SomeAsks(ds[..i], force) || Asks(ds[i], force)
  {
    assert ds[..i + 1] == ds[..i] + [ds[i]];
  }

  lemma {:induction false} TakesOverSqueezed(deps: seq<Option<Dependency>>, force: bool)
    ensures TakesOver(deps, force) <==> SomeAsks(Squeezed(deps), force)
  {
    if deps != [] {
      var n := |deps| - 1;
      TakesOverSqueezed(deps[..n], force);
      if TakesOver(deps[..n], force) {
        var i :| 0 <= i < n && NeedsRelease(deps[..n][i], force);
        assert NeedsRelease(deps[i], force);
      }
      if TakesOver(deps, force) {
        var i :| 0 <= i < |deps| && NeedsRelease(deps[i], force);
        assert i < n ==> NeedsRelease(deps[..n][i], force);
      }
      if deps[n].Some? {
        OneMoreAsks(Squeezed(deps), |Squeezed(deps)| - 1, force);
        assert Squeezed(deps)[..|Squeezed(deps)|] == Squeezed(deps);
        assert Squeezed(deps)[..|Squeezed(deps)| - 1] == Squeezed(deps[..n]);
        assert NeedsRelease(deps[n], force) <==> Asks(deps[n].value, force);
      }
    }
  }

  predicate NoneListed(ops: Ops) {
    forall i | 0 <= i < |ops| :: ops[i].None?
  }

  predicate LastSignals(ops: Ops) {
    ops != [] && ops[|ops| - 1].Some? && ops[|ops| - 1].value.signal
  }

  /** How many entries a removal clears: those up to the command, if its place still holds it. */
  function SweepTarget(ops: Ops, op: Op): (n: nat)
    ensures n <= |ops|
  {
    if op.index < |ops| && ops[op.index].Some? && ops[op.index].value.packet == op.packet then op.index + 1 else 0
  }

  ghost predicate PlacedAt(ops: Ops, i: int)
    requires 0 <= i < |ops|
  {
    ops[i].Some? ==> ops[i].value.index == i
  }

  /** Every listed command knows its place. */
  ghost predicate Placed(ops: Ops) {
    forall i | 0 <= i < |ops| :: PlacedAt(ops, i)
  }

  lemma AppendPlaced(ops: Ops, op: Op)
    requires op.index == |ops|
    ensures Placed(ops) ==> Placed(ops + [Some(op)])
  {
    forall i | 0 <= i < |ops| + 1 && Placed(ops)
      ensures PlacedAt(ops + [Some(op)], i)
    {
      if i < |ops| { assert PlacedAt(ops, i); }
    }
  }

  lemma SweptPlaced(ops: Ops, n: nat)
    requires n <= |ops|
    ensures Placed(ops) ==> Placed(Swept(ops, n))
  {
    forall i | 0 <= i < |ops| && Placed(ops)
      ensures PlacedAt(Swept(ops, n), i)
    {
      assert PlacedAt(ops, i);
    }
  }

  predicate SettledOps(ops: Ops) {
    NoneListed(ops) || LastSignals(ops)
  }

  /** A removal leaves a list whose youngest command has a signal so, or empty. */
  lemma RemovedSettles(ops: Ops, retired: nat, log: seq<Packet>, optFlush: bool, n: nat, gcSize: nat)
    requires OpsOk(ops, retired, log, optFlush) && n <= |ops| && SettledOps(ops)
    ensures SettledOps(Removed(ops, n, gcSize))
  {
    var r, k := Swept(ops, n), if n > retired then n else retired;
    SweptOk(ops, retired, log, optFlush, n);
    NullsFirst(r, k, log, optFlush);
    NullsFirst(ops, retired, log, optFlush);
    CompactIsSuffix(r, k);
    if k < |r| {
      assert r[|r| - 1] == ops[|ops| - 1];
    }
    SuffixSettles(r, k);
  }

  lemma SuffixSettles(ops: Ops, k: nat)
    requires k <= |ops| && (forall i | 0 <= i < |ops| :: ops[i].None? <==> i < k)
    requires k < |ops| ==> LastSignals(ops)
    ensures SettledOps(ops) && SettledOps(ops[k..])
  {
    if k < |ops| {
      assert ops[k..][|ops[k..]| - 1] == ops[|ops| - 1];
    }
  }

  lemma TailsGrow(log: seq<Packet>, hwLog: seq<Packet>, since: nat, start: nat, p: Packet)
    requires since <= |log| && start <= |hwLog| && log[since..] == hwLog[start..]
    ensures (log + [p])[since..] == (hwLog + [p])[start..]
  {
    assert (log + [p])[since..] == log[since..] + [p];
    assert (hwLog + [p])[start..] == hwLog[start..] + [p];
  }

  ghost predicate EntryIs(ops: Ops, i: int, op: Op)
    requires 0 <= i < |ops|
  {
    ops[i].Some? && ops[i].value.packet == op.packet ==> ops[i].value == op
  }

  /** Listed commands have different packets. */
  lemma EntryIssued(ops: Ops, retired: nat, log: seq<Packet>, optFlush: bool, i: nat)
    requires OpsOk(ops, retired, log, optFlush) && i < |ops| && ops[i].Some?
    ensures ops[i].value.packet < |log| && forall j | 0 <= j < |ops| :: EntryIs(ops, j, ops[i].value)
  {
    assert OpAt(ops, retired, log, optFlush, i);
    forall j | 0 <= j < |ops|
      ensures EntryIs(ops, j, ops[i].value)
    {
      assert OpAt(ops, retired, log, optFlush, j);
    }
  }

  lemma TargetDone(ops: Ops, retired: nat, log: seq<Packet>, optFlush: bool, op: Op, completed: int)
    requires OpsOk(ops, retired, log, optFlush) && RetiredDone(ops, retired, |log|, completed)
    requires op.packet < completed && forall i | 0 <= i < |ops| :: EntryIs(ops, i, op)
    ensures |log| + SweepTarget(ops, op) <= completed + |ops|
  {
    if SweepTarget(ops, op) > 0 {
      assert EntryIs(ops, op.index, op) && OpAt(ops, retired, log, optFlush, op.index);
    }
  }

  lemma FirstHasSignal(log: seq<Packet>, op: Op, optFlush: bool, flag: bool)
    requires log != [] && (op.signal || (optFlush && log[|log| - 1].kind == Kernel))
    requires (optFlush ==> !flag) && (!flag ==> AllReleased(log, |log|))
    ensures op.signal
  {
    if !flag {
      LastIsReleased(log);
    }
  }

  /** One queue launches a kernel; another waits for it with a blocking marker of narrow scope, and the host for that
      one. The host need not see what the kernel wrote. */
  method KernelDependencyIsLost(maxInflight: nat, gcSize: nat, priority: nat)
    returns (q1: DlaQueue, kernel: Op, q2: DlaQueue, marker: Op)
    requires maxInflight >= 2
    ensures q1.Valid() && IsDependency(OnKernel, q1.log, kernel.packet)
    ensures q2.Quiet(0) && q2.Completed() == |q2.log| && HostWaited(OnKernel, false, q2.log, marker.packet)
    ensures !HostSees(q1.log, kernel.packet, kernel.packet + 1, q2.log, marker.packet)
  {
    q1, kernel := LaunchOnNewQueue(maxInflight, gcSize, priority);
    q2, marker := WaitBehindKernel(maxInflight, gcSize, priority);
    KernelNeedsRelease(q1.log, kernel.packet);
  }

  method NewAttachedQueue(maxInflight: nat, gcSize: nat, priority: nat) returns (q: DlaQueue)
    requires maxInflight >= 2
    ensures q.Valid() && q.rocrQueue != null && q.optFlush && !q.forceSysRelease && !q.nextSyncNeedsSysRelease
    ensures fresh(q) && fresh(q.rocrQueue) && fresh(q.rocrQueue.ring)
  {
    q := new DlaQueue(maxInflight, gcSize, true, false, priority);
    var _ := new RocrQueue(q, priority);
  }

  method LaunchOnNewQueue(maxInflight: nat, gcSize: nat, priority: nat) returns (q: DlaQueue, kernel: Op)
    requires maxInflight >= 2
    ensures q.Valid() && IsDependency(OnKernel, q.log, kernel.packet) && q.log[kernel.packet].release == NoScope
  {
    q := NewAttachedQueue(maxInflight, gcSize, priority);
    kernel := q.DispatchHsaKernel(NoScope, true);
  }

  method WaitBehindKernel(maxInflight: nat, gcSize: nat, priority: nat) returns (q: DlaQueue, marker: Op)
    requires maxInflight >= 2
    ensures q.Quiet(0) && q.Completed() == |q.log| && HostWaited(OnKernel, false, q.log, marker.packet)
    ensures !SystemMarker(q.log[marker.packet]) && marker.packet == |q.log| - 1
  {
    q := NewAttachedQueue(maxInflight, gcSize, priority);
    var r, _ := q.EnqueueMarkerWithDependency([Some(OnKernel)], NoScope);
    marker := r.value;
    q.Wait();
  }
}
