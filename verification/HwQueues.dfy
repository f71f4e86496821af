/** How the queues of a device share its hardware queues (src/driver/csq_device.cpp, csq_queue.cpp): creating,
    stealing and giving them up, over the queues and rings of CommandQueue. */
module HwQueues {
  import opened Wrappers
  import opened InFlight
  import opened CommandQueue

  class DlaDevice {
    /** HCC_MAX_QUEUES and MAX_INFLIGHT_COMMANDS_PER_QUEUE. */
    const maxQueues: nat
    const maxInflight: nat
    const gcSize: nat
    const optFlush: bool
    const forceSysRelease: bool
    /** One list for each priority. */
    var rocrQueues: seq<seq<RocrQueue>>
    /** Every queue ever created: entries are not taken out when a queue goes. */
    var queues: seq<DlaQueue>
    /** The queues that are not disposed of, and those of them that are not recorded yet: only their constructors know
        them. */
    var clients: set<DlaQueue>
    var building: set<DlaQueue>
    ghost var rqs: set<RocrQueue>

    ghost function Rings(): set<array<Packet>>
      reads this`rqs
    {
      set r | r in rqs :: r.ring
    }

    /** A hardware queue is listed under its priority and linked both ways with its owner, if it has one.  Its
        outstanding packets are in their slots, and without an owner it has none. */
    ghost predicate RqOk(rq: RocrQueue)
      reads this`rocrQueues, this`clients, rq, rq.ring, clients
    {
      && rq.priority < |rocrQueues| && rq in rocrQueues[rq.priority]
      && rq.ring.Length == 2 * maxInflight && rq.RingOk()
      && (if rq.hccQueue == null then rq.Drained() else rq.hccQueue in clients && rq.hccQueue.rocrQueue == rq)
    }

    /** A queue keeps its own invariant, which links it both ways with its hardware queue if it has one. */
    ghost predicate ClientOk(q: DlaQueue)
      reads this`rqs, q, rqs, Rings()
    {
      && q.maxInflight == maxInflight && q.priority < 3 && q.valid
      && (q.rocrQueue != null ==> q.rocrQueue in rqs)
      && q.Valid()
    }

    ghost predicate ListOk(p: int)
      requires 0 <= p < |rocrQueues|
      reads this`rocrQueues, this`rqs
    {
      && (forall i | 0 <= i < |rocrQueues[p]| :: rocrQueues[p][i] in rqs && rocrQueues[p][i].priority == p)
      && (forall i, j | 0 <= i < j < |rocrQueues[p]| :: rocrQueues[p][i] != rocrQueues[p][j])
    }

    function Total(): nat
      requires |rocrQueues| == 3
      reads this`rocrQueues
    {
      |rocrQueues[0]| + |rocrQueues[1]| + |rocrQueues[2]|
    }

    ghost predicate RingApart(r: RocrQueue)
      reads this`rqs
    {
      forall s | s in rqs && s != r :: s.ring != r.ring
    }

    ghost predicate ListsOk()
      reads this`rocrQueues, this`rqs
    {
      && |rocrQueues| == 3 && maxInflight >= 2
      && (forall p | 0 <= p < 3 :: ListOk(p))
      && (forall r {:trigger RingApart(r)} | r in rqs :: RingApart(r))
      && Total() <= maxQueues
    }

    /** The links are a partial bijection, there are no more hardware queues than allowed, and every queue and
        every ring is in order. */
    ghost predicate Linked()
      reads this`rocrQueues, this`rqs, this`clients, rqs, clients, Rings()
    {
      && ListsOk()
      && (forall rq {:trigger RqOk(rq)} | rq in rqs :: RqOk(rq))
      && (forall q {:trigger ClientOk(q)} | q in clients :: ClientOk(q))
    }

    /** The queues without a hardware queue. */
    ghost function Loose(): set<DlaQueue>
      reads this`clients, clients`rocrQueue
    {
      set q | q in clients && q.rocrQueue == null
    }

    /** The hardware queues and the queues without one are together no more than the queues that are recorded or being
        built, and a recorded queue without one has lost it. */
    ghost predicate Counted()
      requires |rocrQueues| == 3
      reads this`rocrQueues, this`queues, this`clients, this`building, clients
    {
      && building <= clients
      && Total() + |Loose()| <= |queues| + |building|
      && (forall q | q in clients && q.rocrQueue == null :: q.lost || q in building)
    }

    /** Between calls, and between the steps of a search. */
    ghost predicate Valid()
      reads this, rqs, clients, Rings()
    {
      Linked() && Counted()
    }

    constructor (maxQueues: nat, maxInflight: nat, gcSize: nat, optFlush: bool, forceSysRelease: bool)
      requires maxInflight >= 2
      ensures Valid() && this.maxQueues == maxQueues && this.maxInflight == maxInflight
      ensures this.gcSize == gcSize && this.optFlush == optFlush && this.forceSysRelease == forceSysRelease
      ensures clients == building == {} && queues == [] && rocrQueues == [[], [], []] && rqs == {}
    {
      this.maxQueues, this.maxInflight, this.gcSize := maxQueues, maxInflight, gcSize;
      this.optFlush, this.forceSysRelease := optFlush, forceSysRelease;
      rocrQueues, queues, rqs, clients, building := [[], [], []], [], {}, {}, {};
    }

    // ----------------------------------------------------------------------------------------
    // What stays
    // ----------------------------------------------------------------------------------------

    /** After a step of one queue, which kept its own invariant and its hardware queue, all is linked as before. */
    twostate lemma StepLinked(q: DlaQueue)
      requires old(Linked()) && unchanged(this) && q in clients && q.Valid() && q.valid &&
               q.rocrQueue == old(q.rocrQueue)
      requires forall c | c in clients && c != q :: unchanged(c)
      requires forall r | r in rqs && r != q.rocrQueue :: unchanged(r) && unchanged(r.ring)
      ensures Linked()
    {
      assert old(ClientOk(q));
      forall c | c in clients
        ensures ClientOk(c)
      {
        assert old(ClientOk(c));
      }
      forall r | r in rqs
        ensures RqOk(r)
      {
        assert old(RqOk(r));
      }
      assert forall p | 0 <= p < 3 :: old(ListOk(p)) && ListOk(p);
    }

    /** A queue keeps its hardware queue.  A list whose youngest command has a signal does not change; another one may
        have got a system-scope marker. */
    twostate predicate OnlyMarked(q: DlaQueue)
      reads q
    {
      && q.rocrQueue == old(q.rocrQueue) && q.lost == old(q.lost) && q.valid == old(q.valid) && old(q.log) <= q.log
      && (SameWork(q) || (!SettledOps(old(q.asyncOps)) && old(q.log) < q.log && SystemMarker(q.log[|q.log| - 1])))
    }

    twostate predicate SameWork(q: DlaQueue)
      reads q
    {
      && q.log == old(q.log) && q.asyncOps == old(q.asyncOps) && q.valid == old(q.valid)
      && q.nextSyncNeedsSysRelease == old(q.nextSyncNeedsSysRelease)
    }

    /** A queue loses its hardware queue only when all its packets are complete and its list shows it. */
    twostate predicate LostOnlyWhenDone(q: DlaQueue)
      reads q
    {
      OnlyMarked(q) || LostWhenDone(q)
    }

    twostate predicate LostWhenDone(q: DlaQueue)
      reads q
    {
      && old(q.rocrQueue != null && SettledOps(q.asyncOps) && q.rocrQueue.completed - q.offset == |q.log|)
      && q.rocrQueue == null && q.lost && SameWork(q)
    }

    /** Enough for the numbers to stay in order. */
    twostate lemma StillCounted()
      requires |rocrQueues| == 3 && old(|rocrQueues| == 3 && Counted())
      requires clients == old(clients) && unchanged(this`building) && unchanged(this`queues)
      requires Total() + |Loose()| <= old(Total() + |Loose()|)
      requires forall c | c in clients && c.rocrQueue == null :: c.lost || old(c.rocrQueue == null && !c.lost)
      ensures Counted()
    {
    }

    twostate lemma SameLoose()
      requires clients == old(clients) && forall c | c in clients :: c.rocrQueue == old(c.rocrQueue)
      ensures Loose() == old(Loose())
    {
    }

    static lemma IdleMeansDone(q: DlaQueue)
      requires q.Valid() && q.Idle()
      ensures q.Settled() && q.Completed() == |q.log|
    {
      if NoneListed(q.asyncOps) {
        AllNull(q.asyncOps, q.retired, q.log, q.optFlush);
      }
    }

    // ----------------------------------------------------------------------------------------
    // Searching
    // ----------------------------------------------------------------------------------------

    /** The queue got a new hardware queue, the last of the list. */
    twostate predicate NewRing(new thief: DlaQueue, priority: nat)
      requires |rocrQueues| == 3 && old(|rocrQueues|) == 3
      reads this, thief, thief.Hw()
    {
      && priority < 3 && thief.rocrQueue != null && thief.rocrQueue.hccQueue == thief &&
          thief.rocrQueue.priority == priority
      && fresh(thief.rocrQueue) && fresh(thief.rocrQueue.ring) && rqs == old(rqs) + {thief.rocrQueue}
      && rocrQueues == old(rocrQueues)[priority := old(rocrQueues[priority]) + [thief.rocrQueue]]
      && Total() == old(Total()) + 1
    }

    twostate predicate ListsKept()
      reads this`rocrQueues, this`rqs
    {
      rocrQueues == old(rocrQueues) && rqs == old(rqs)
    }

    /** What a search may change: its queue gets a hardware queue, and others lose theirs only when they are done. */
    twostate predicate Searched(thief: DlaQueue, priority: nat, found: bool)
      reads this, thief, rqs, clients, thief.Hw()
    {
      && (found <==> thief.rocrQueue != null) && (!found ==> unchanged(thief))
      && (found ==> thief.rocrQueue.priority == priority && thief.rocrQueue in rqs && thief.rocrQueue.hccQueue == thief)
      && SameWork(thief) && thief.lost == old(thief.lost)
      && OthersKept(thief)
    }

    /** Other queues lose their hardware queues only when they are done, and no other hardware queue changes hands. */
    twostate predicate OthersKept(new thief: DlaQueue)
      reads this, clients, rqs, thief
    {
      && old(clients) <= clients && old(rqs) <= rqs
      && (forall q | q in old(clients) && q in clients && q != thief :: LostOnlyWhenDone(q))
      && (forall rq | rq in old(rqs) && rq in rqs && rq != thief.rocrQueue :: rq.hccQueue == old(rq.hccQueue))
    }

    method Attach(thief: DlaQueue, priority: nat) returns (rq: RocrQueue)
      requires Linked() && thief in clients && thief.rocrQueue == null
      requires priority == if thief.lost then PRIORITY_NORMAL else thief.priority
      modifies thief
      ensures fresh(rq) && fresh(rq.ring) && rq.priority == priority && rq.hccQueue == thief && thief.rocrQueue == rq
      ensures thief.Valid() && thief.valid && SameWork(thief) && thief.lost == old(thief.lost)
    {
      assert ClientOk(thief);
      rq := new RocrQueue(thief, priority);
    }

    /** A new hardware queue, below the limit.  A search tries this once, before its rounds. */
    method Create(thief: DlaQueue, priority: nat)
      requires Valid() && thief in clients && thief.rocrQueue == null && priority < 3 && Total() < maxQueues
      requires priority == if thief.lost then PRIORITY_NORMAL else thief.priority
      modifies this`rocrQueues, this`rqs, thief
      ensures Valid() && NewRing(thief, priority) && Searched(thief, priority, true)
    {
      Enlist(thief, priority);
      assert Loose() == old(Loose()) - {thief};
      forall c | c in clients && c != thief
        ensures LostOnlyWhenDone(c)
      {
        assert SameWork(c);
      }
    }

    method Enlist(thief: DlaQueue, priority: nat)
      requires Linked() && thief in clients && thief.rocrQueue == null && priority < 3 && Total() < maxQueues
      requires priority == if thief.lost then PRIORITY_NORMAL else thief.priority
      modifies this`rocrQueues, this`rqs, thief
      ensures Linked() && NewRing(thief, priority) && SameWork(thief) && thief.lost == old(thief.lost)
    {
      var rq := Attach(thief, priority);
      rocrQueues := rocrQueues[priority := rocrQueues[priority] + [rq]];
      rqs := rqs + {rq};
      CreatedLinked(thief, rq);
    }

    twostate lemma CreatedLinked(thief: DlaQueue, new rq: RocrQueue)
      requires old(Linked()) && old(Total()) < maxQueues && clients == old(clients) && thief in clients &&
               old(thief.rocrQueue) == null
      requires !old(allocated(rq)) && (forall r | r in old(rqs) :: r.ring != rq.ring) && rqs == old(rqs) + {rq} &&
               rq.priority < 3
      requires rocrQueues == old(rocrQueues)[rq.priority := old(rocrQueues)[rq.priority] + [rq]]
      requires rq.hccQueue == thief && thief.rocrQueue == rq && thief.Valid() && thief.valid
      requires forall c | c in clients && c != thief :: unchanged(c)
      requires forall r | r in old(rqs) :: unchanged(r) && unchanged(r.ring)
      ensures Linked()
    {
      assert rocrQueues[rq.priority][|old(rocrQueues)[rq.priority]|] == rq;
      assert old(ClientOk(thief));
      forall c | c in clients
        ensures ClientOk(c)
      {
        assert old(ClientOk(c));
      }
      forall r | r in rqs
        ensures RqOk(r)
      {
        if r != rq {
          assert old(RqOk(r));
          assert old(rocrQueues)[r.priority] <= rocrQueues[r.priority];
        }
      }
      forall r | r in rqs
        ensures RingApart(r)
      {
        assert r != rq ==> old(RingApart(r));
      }
      forall p | 0 <= p < 3
        ensures ListOk(p)
      {
        assert old(ListOk(p));
      }
    }

    /** The first pass of a search finds nothing. */
    ghost predicate AllOwned(p: int)
      requires 0 <= p < |rocrQueues|
      reads this`rocrQueues, rocrQueues[p]
    {
      forall j | 0 <= j < |rocrQueues[p]| :: rocrQueues[p][j].hccQueue != null
    }

    /** A hardware queue without an owner gets one. */
    method Hand(rq: RocrQueue, thief: DlaQueue)
      requires Linked() && rq in rqs && rq.hccQueue == null && thief in clients && thief.rocrQueue == null
      requires rq.priority == if thief.lost then PRIORITY_NORMAL else thief.priority
      modifies rq`hccQueue, thief`rocrQueue, thief`offset, thief`since
      ensures Linked() && thief.rocrQueue == rq && rq.hccQueue == thief && Loose() == old(Loose()) - {thief}
    {
      assert RqOk(rq) && ClientOk(thief);
      rq.AssignHccQueue(thief);
      forall c | c in clients
        ensures ClientOk(c)
      {
        assert old(ClientOk(c));
      }
      forall r | r in rqs
        ensures RqOk(r)
      {
        assert old(RqOk(r));
      }
      assert forall p | 0 <= p < 3 :: old(ListOk(p)) && ListOk(p);
    }

    static lemma Exchanged(before: set<DlaQueue>, after: set<DlaQueue>, thief: DlaQueue, victim: DlaQueue)
      requires thief in before && after == before - {thief} + {victim}
      ensures |after| <= |before|
    {
      assert |before - {thief}| == |before| - 1;
    }

    /** A hardware queue changes hands. */
    method Exchange(rq: RocrQueue, victim: DlaQueue, thief: DlaQueue)
      requires victim.Valid() && victim.rocrQueue == rq && victim.Settled() && victim.Completed() == |victim.log|
      requires thief.Valid() && thief.rocrQueue == null && thief.maxInflight == victim.maxInflight
      requires rq.priority == if thief.lost then PRIORITY_NORMAL else thief.priority
      modifies rq, victim, thief
      ensures thief.Valid() && thief.rocrQueue == rq && rq.hccQueue == thief && rq.RingOk()
      ensures victim.Valid() && victim.rocrQueue == null && victim.lost && thief.lost == old(thief.lost)
      ensures SameWork(thief) && SameWork(victim)
    {
      victim.GiveUp();
      rq.AssignHccQueue(thief);
    }

    twostate lemma TakenLinked(rq: RocrQueue, new thief: DlaQueue)
      requires old(Linked()) && unchanged(this) && rq in rqs && old(rq.hccQueue) != null && rq.RingOk()
      requires thief in old(clients) && old(thief.rocrQueue) == null
      requires thief.Valid() && thief.valid && thief.rocrQueue == rq && rq.hccQueue == thief
      requires old(rq.hccQueue).Valid() && old(rq.hccQueue).valid && old(rq.hccQueue).rocrQueue == null
      requires forall c | c in clients && c != thief && c != old(rq.hccQueue) :: unchanged(c)
      requires forall r | r in rqs :: unchanged(r.ring) && (r != rq ==> unchanged(r))
      ensures Linked()
    {
      forall c | c in clients
        ensures ClientOk(c)
      {
        assert old(ClientOk(c));
      }
      forall r | r in rqs
        ensures RqOk(r)
      {
        assert old(RqOk(r)) && old(RqOk(rq));
      }
      assert forall p | 0 <= p < 3 :: old(ListOk(p)) && ListOk(p);
    }

    /** Some hardware queue of the list is unowned, or its owner has no unfinished work. */
    ghost predicate Available(p: int)
      requires 0 <= p < |rocrQueues|
      reads this`rocrQueues, rocrQueues[p], set rq, q | rq in rocrQueues[p] && q in Owner(rq) :: q
    {
      exists i :: 0 <= i < |rocrQueues[p]| && Takeable(rocrQueues[p][i])
    }

    /** The first hardware queue of the list that has no owner or an idle one. */
    ghost predicate FirstTakeable(p: int, i: int)
      requires 0 <= p < |rocrQueues|
      reads this`rocrQueues, rocrQueues[p], set rq, q | rq in rocrQueues[p] && q in Owner(rq) :: q
    {
      && 0 <= i < |rocrQueues[p]| && Takeable(rocrQueues[p][i])
      && forall j | 0 <= j < i :: !Takeable(rocrQueues[p][j])
    }

    /** Ask the owner of a hardware queue whether it is empty. */
    method AskOwner(rq: RocrQueue) returns (empty: bool)
      requires Linked() && rq in rqs && rq.hccQueue != null
      modifies Owner(rq), rq, rq.ring
      ensures rq.hccQueue == old(rq.hccQueue) && Linked() && (empty <==> old(Takeable(rq))) && OnlyMarked(rq.hccQueue)
      ensures empty ==> Ended(rq)
    {
      assert RqOk(rq) && ClientOk(rq.hccQueue) && RingApart(rq);
      empty := rq.hccQueue.IsEmpty();
      StepLinked(rq.hccQueue);
    }

    /** The first hardware queue of the list that has no owner or an empty one, if there is one. */
    method FindIdle(thief: DlaQueue, priority: nat) returns (i: nat)
      requires Linked() && thief in clients && thief.rocrQueue == null && priority < 3
      modifies clients, rqs, Rings()
      ensures Linked() && unchanged(thief) && 0 <= i <= |rocrQueues[priority]|
      ensures forall rq | rq in rqs :: rq.hccQueue == old(rq.hccQueue)
      ensures forall q | q in clients :: OnlyMarked(q)
      ensures if i < |rocrQueues[priority]| then old(FirstTakeable(priority, i)) else !old(Available(priority))
      ensures |Loose()| == old(|Loose()|)
      ensures i < |rocrQueues[priority]| && rocrQueues[priority][i].hccQueue != null ==> Ended(rocrQueues[priority][i])
    {
      ghost var list := rocrQueues[priority];
      assert ListOk(priority);
      i := 0;
      while i < |rocrQueues[priority]|
        invariant 0 <= i <= |list| && Linked() && unchanged(thief)
        invariant forall rq | rq in rqs :: rq.hccQueue == old(rq.hccQueue)
        invariant forall q | q in clients :: OnlyMarked(q)
        invariant forall j | i <= j < |list| :: Takeable(list[j]) == old(Takeable(list[j]))
        invariant forall j | 0 <= j < i :: old(!Takeable(list[j]))
      {
        assert RqOk(rocrQueues[priority][i]);
        var stop := LookAt(thief, priority, i);
        if stop {
          break;
        }
        i := i + 1;
      }
    }

    /** The second pass at one hardware queue: it ends there when that has no owner or an empty one. */
    method LookAt(thief: DlaQueue, priority: nat, i: nat) returns (stop: bool)
      requires Linked() && thief in clients && thief.rocrQueue == null && priority < 3 && i < |rocrQueues[priority]|
      modifies rocrQueues[priority][i], rocrQueues[priority][i].ring, Owner(rocrQueues[priority][i])
      ensures Linked() && unchanged(thief) && rocrQueues[priority][i].hccQueue == old(rocrQueues[priority][i].hccQueue)
      ensures rocrQueues[priority][i].hccQueue != null ==> OnlyMarked(rocrQueues[priority][i].hccQueue)
      ensures stop <==> old(Takeable(rocrQueues[priority][i]))
      ensures stop && rocrQueues[priority][i].hccQueue != null ==> Ended(rocrQueues[priority][i])
      ensures forall j | 0 <= j < |rocrQueues[priority]| && j != i ::
                Takeable(rocrQueues[priority][j]) == old(Takeable(rocrQueues[priority][j]))
    {
      if rocrQueues[priority][i].hccQueue == null {
        return true;
      }
      assert ListOk(priority) && RqOk(rocrQueues[priority][i]);
      if rocrQueues[priority][i].hccQueue != thief {
        stop := AskAt(thief, priority, i);
      } else {
        assert false;
      }
    }

    method AskAt(thief: DlaQueue, priority: nat, i: nat) returns (empty: bool)
      requires Linked() && thief in clients && thief.rocrQueue == null && priority < 3 && i < |rocrQueues[priority]|
      requires rocrQueues[priority][i].hccQueue != null
      modifies rocrQueues[priority][i], rocrQueues[priority][i].ring, Owner(rocrQueues[priority][i])
      ensures Linked() && unchanged(thief) && rocrQueues[priority][i].hccQueue == old(rocrQueues[priority][i].hccQueue)
      ensures OnlyMarked(rocrQueues[priority][i].hccQueue)
      ensures empty <==> old(Takeable(rocrQueues[priority][i]))
      ensures empty ==> Ended(rocrQueues[priority][i])
      ensures forall j | 0 <= j < |rocrQueues[priority]| && j != i ::
              Takeable(rocrQueues[priority][j]) == old(Takeable(rocrQueues[priority][j]))
    {
      ghost var list := rocrQueues[priority];
      var rq := rocrQueues[priority][i];
      assert ListOk(priority) && RqOk(rq);
      forall j | 0 <= j < |list| && j != i
        ensures list[j] != rq && list[j].hccQueue != rq.hccQueue
      {
        assert RqOk(list[j]);
      }
      empty := AskOwner(rq);
    }

    ghost predicate Ended(rq: RocrQueue)
      reads rq, Owner(rq)
    {
      rq.hccQueue != null && rq.hccQueue.rocrQueue == rq && rq.hccQueue.Settled() &&
          rq.hccQueue.Completed() == |rq.hccQueue.log|
    }

    /** The search of the second pass alone changes no link. */
    method LookForIdle(thief: DlaQueue, priority: nat) returns (i: nat)
      requires Valid() && thief in clients && thief.rocrQueue == null && priority < 3
      modifies clients, rqs, Rings()
      ensures Valid() && Searched(thief, priority, false) && forall q | q in clients :: OnlyMarked(q)
      ensures i <= |rocrQueues[priority]|
      ensures if i < |rocrQueues[priority]| then old(FirstTakeable(priority, i)) else !old(Available(priority))
      ensures i < |rocrQueues[priority]| ==>
              rocrQueues[priority][i] in rqs && rocrQueues[priority][i].priority == priority
      ensures i < |rocrQueues[priority]| && rocrQueues[priority][i].hccQueue != null ==> Ended(rocrQueues[priority][i])
    {
      i := FindIdle(thief, priority);
      StillCounted();
      assert ListOk(priority);
    }

    /** A hardware queue goes from its empty owner to a queue without one. */
    method TakeIdle(rq: RocrQueue, thief: DlaQueue)
      requires Valid() && rq in rqs && thief in clients && thief.rocrQueue == null && rq.hccQueue != null && Ended(rq)
      requires rq.priority == if thief.lost then PRIORITY_NORMAL else thief.priority
      modifies rq, Owner(rq), thief
      ensures Valid() && thief.rocrQueue == rq && rq.hccQueue == thief && SameWork(thief) &&
              thief.lost == old(thief.lost)
      ensures var victim := old(rq.hccQueue);
              victim in clients && victim != thief && victim.rocrQueue == null && victim.lost && SameWork(victim)
    {
      assert RqOk(rq) && ClientOk(thief) && ClientOk(rq.hccQueue);
      ghost var victim := rq.hccQueue;
      Exchange(rq, rq.hccQueue, thief);
      Exchanged(old(Loose()), Loose(), thief, victim);
      TakenLinked(rq, thief);
      StillCounted();
    }

    /** Second pass: the first hardware queue of the list whose owner is empty changes hands.  The pass goes through the
        owner of each without a test, so it ends at a null owner exactly when a hardware queue without one comes before
        all whose owner is empty. */
    method StealIdle(thief: DlaQueue, priority: nat) returns (found: bool, nullOwner: bool, ghost place: int)
      requires Valid() && thief in clients && thief.rocrQueue == null && priority < 3
      requires priority == if thief.lost then PRIORITY_NORMAL else thief.priority
      modifies rqs, clients, Rings()
      ensures Valid() && Searched(thief, priority, found)
      ensures found || nullOwner <==> old(Available(priority))
      ensures old(Available(priority)) ==> old(FirstTakeable(priority, place)) && 0 <= place < |rocrQueues[priority]|
      ensures nullOwner <==> old(Available(priority)) && old(rocrQueues[priority][place].hccQueue) == null
      ensures found ==> !nullOwner && thief.rocrQueue == rocrQueues[priority][place]
    {
      IdleOwnersDone(priority);
      var i := LookForIdle(thief, priority);
      if i == |rocrQueues[priority]| {
        return false, false, i;
      }
      if rocrQueues[priority][i].hccQueue == null {
        return false, true, i;
      }
      assert RqOk(rocrQueues[priority][i]);
      TakeIdle(rocrQueues[priority][i], thief);
      return true, false, i;
    }

    lemma IdleOwnersDone(priority: nat)
      requires Linked() && priority < 3
      ensures forall j | 0 <= j < |rocrQueues[priority]| && Takeable(rocrQueues[priority][j]) &&
              rocrQueues[priority][j].hccQueue != null ::
                Ended(rocrQueues[priority][j])
    {
      assert ListOk(priority);
      forall j | 0 <= j < |rocrQueues[priority]| && Takeable(rocrQueues[priority][j]) &&
          rocrQueues[priority][j].hccQueue != null
        ensures Ended(rocrQueues[priority][j])
      {
        assert RqOk(rocrQueues[priority][j]) && ClientOk(rocrQueues[priority][j].hccQueue);
        IdleMeansDone(rocrQueues[priority][j].hccQueue);
      }
    }

    /** The hardware queue that an undisturbed round takes: the first unowned one of the list, else the first whose
        owner has nothing unfinished. */
    ghost predicate RoundTakes(p: int, rq: RocrQueue)
      requires 0 <= p < |rocrQueues|
      reads this`rocrQueues, rocrQueues[p], set r, q | r in rocrQueues[p] && q in Owner(r) :: q
    {
      exists i :: 0 <= i < |rocrQueues[p]| && rocrQueues[p][i] == rq &&
                  (if AllOwned(p) then FirstTakeable(p, i) else FirstUnowned(p, i))
    }

    ghost predicate FirstUnowned(p: int, i: int)
      requires 0 <= p < |rocrQueues| && 0 <= i < |rocrQueues[p]|
      reads this`rocrQueues, rocrQueues[p]
    {
      rocrQueues[p][i].hccQueue == null && forall j | 0 <= j < i :: rocrQueues[p][j].hccQueue != null
    }

    method HandUnused(thief: DlaQueue, priority: nat, i: nat)
      requires Valid() && thief in clients && thief.rocrQueue == null && priority < 3
      requires priority == if thief.lost then PRIORITY_NORMAL else thief.priority
      requires i < |rocrQueues[priority]| && FirstUnowned(priority, i)
      modifies rqs, clients
      ensures Valid() && Searched(thief, priority, true) && old(Available(priority))
      ensures var rq := thief.rocrQueue; old(RoundTakes(priority, rq))
    {
      assert ListOk(priority) && Takeable(rocrQueues[priority][i]) && RoundTakes(priority, rocrQueues[priority][i]);
      Hand(rocrQueues[priority][i], thief);
    }

    /** The second pass when the first found every hardware queue owned, and nothing happened in between. */
    method StealIdleRound(thief: DlaQueue, priority: nat) returns (found: bool)
      requires Valid() && thief in clients && thief.rocrQueue == null && priority < 3
      requires priority == if thief.lost then PRIORITY_NORMAL else thief.priority
      requires AllOwned(priority)
      modifies rqs, clients, Rings()
      ensures Valid() && Searched(thief, priority, found) && (found <==> old(Available(priority)))
      ensures found ==> var rq := thief.rocrQueue; old(RoundTakes(priority, rq))
    {
      var nullOwner;
      ghost var place;
      found, nullOwner, place := StealIdle(thief, priority);
    }

    /** One round of the search: both passes, with nothing in between. */
    method StealRound(thief: DlaQueue, priority: nat) returns (found: bool)
      requires Valid() && thief in clients && thief.rocrQueue == null && priority < 3
      requires priority == if thief.lost then PRIORITY_NORMAL else thief.priority
      modifies rqs, clients, Rings()
      ensures Valid() && Searched(thief, priority, found)
      ensures found <==> old(Available(priority))
      ensures found ==> var rq := thief.rocrQueue; old(RoundTakes(priority, rq))
    {
      for i := 0 to |rocrQueues[priority]|
        invariant forall j | 0 <= j < i :: rocrQueues[priority][j].hccQueue != null
      {
        if rocrQueues[priority][i].hccQueue == null {
          HandUnused(thief, priority, i);
          return true;
        }
      }
      found := StealIdleRound(thief, priority);
    }

    /** The search for a hardware queue up to its first round.  While no round succeeds, more follow (Retry). */
    method CreateOrStealRocrQueue(thief: DlaQueue, priority: nat) returns (found: bool)
      requires Valid() && thief in clients && thief.rocrQueue == null && priority < 3
      requires priority == if thief.lost then PRIORITY_NORMAL else thief.priority
      modifies this`rocrQueues, this`rqs, rqs, clients, Rings()
      ensures Valid() && Searched(thief, priority, found)
      ensures found <==> old(Total()) < maxQueues || old(Available(priority))
      ensures if old(Total()) < maxQueues then NewRing(thief, priority) else ListsKept()
    {
      var rqSize := Total();
      if rqSize < maxQueues {
        Create(thief, priority);
        return true;
      }
      found := StealRound(thief, priority);
    }

    /** A further round of a search that found nothing so far. */
    method Retry(q: DlaQueue) returns (found: bool)
      requires Valid() && q in clients && q.rocrQueue == null
      modifies rqs, clients, Rings()
      ensures Valid() && Searched(q, if old(q.lost) then PRIORITY_NORMAL else q.priority, found)
      ensures q.priority < 3 && (found <==> old(Available(if q.lost then PRIORITY_NORMAL else q.priority)))
    {
      assert ClientOk(q);
      found := StealRound(q, if q.lost then PRIORITY_NORMAL else q.priority);
    }

    // ----------------------------------------------------------------------------------------
    // Calls
    // ----------------------------------------------------------------------------------------

    /** A queue that was never used. */
    ghost predicate NoWork(q: DlaQueue, priority: nat)
      reads q
    {
      && q.priority == priority && q.maxInflight == maxInflight && q.gcSize == gcSize
      && q.optFlush == optFlush && q.forceSysRelease == forceSysRelease && !q.lost && q.valid
      && q.log == [] && q.asyncOps == [] && !q.nextSyncNeedsSysRelease
    }

    method NewQueue(priority: nat) returns (q: DlaQueue)
      requires Valid() && priority < 3
      modifies this`clients, this`building
      ensures Valid() && clients == old(clients) + {q} && building == old(building) + {q} && fresh(q)
      ensures NoWork(q, priority) && q.rocrQueue == null
      ensures forall p | 0 <= p < 3 :: Available(p) <==> old(Available(p))
    {
      q := new DlaQueue(maxInflight, gcSize, optFlush, forceSysRelease, priority);
      clients, building := clients + {q}, building + {q};
      ClientsKept();
      assert Loose() == old(Loose()) + {q};
      SameAvailable();
    }

    /** The constructor of a queue up to the first round of its search.  The queue is not recorded yet. */
    method Construct(priority: nat) returns (q: DlaQueue, found: bool)
      requires Valid() && priority < 3
      modifies this`rocrQueues, this`rqs, this`clients, this`building, rqs, clients, Rings()
      ensures Valid() && clients == old(clients) + {q} && building == old(building) + {q} && fresh(q)
      ensures found <==> old(Total()) < maxQueues || old(Available(priority))
      ensures NoWork(q, priority) && (found <==> q.rocrQueue != null)
      ensures if old(Total()) < maxQueues then NewRing(q, priority) else ListsKept()
      ensures OthersKept(q)
    {
      q := NewQueue(priority);
      label registered:
      found := CreateOrStealRocrQueue(q, priority);
      forall c | c in old(clients)
        ensures LostOnlyWhenDone(c)
      {
        assert LostOnlyWhenDone@registered(c);
        if !OnlyMarked@registered(c) {
          assert LostWhenDone(c);
        }
      }
    }

    /** A constructed queue is recorded. */
    method Record(q: DlaQueue)
      requires Valid() && q in building && (q.rocrQueue != null || q.lost)
      modifies this`queues, this`building
      ensures Valid() && queues == old(queues) + [q] && building == old(building) - {q}
    {
      queues, building := queues + [q], building - {q};
      QueuesKept();
    }

    /** A new queue, with nothing in between: it is constructed and then recorded.  When the first round of its search
        finds nothing its constructor keeps searching. */
    method CreateQueue(priority: nat) returns (q: DlaQueue, found: bool)
      requires Valid() && priority < 3
      modifies this, rqs, clients, Rings()
      ensures Valid() && clients == old(clients) + {q} && fresh(q)
      ensures found <==> old(Total()) < maxQueues || old(Available(priority))
      ensures if found then queues == old(queues) + [q] && building == old(building)
              else queues == old(queues) && building == old(building) + {q}
      ensures NoWork(q, priority) && (found <==> q.rocrQueue != null)
      ensures if old(Total()) < maxQueues then NewRing(q, priority) else ListsKept()
      ensures OthersKept(q)
    {
      q, found := Construct(priority);
      if found {
        Record(q);
      }
    }

    /** Only what is recorded changed. */
    twostate lemma QueuesKept()
      requires old(Linked()) && unchanged(this`rocrQueues) && unchanged(this`rqs) && unchanged(this`clients)
      requires (forall rq | rq in rqs :: unchanged(rq) && unchanged(rq.ring)) && forall q | q in clients :: unchanged(q)
      ensures Linked() && Loose() == old(Loose())
    {
      ClientsKept();
    }

    /** New queues own no hardware queue, so they make none available. */
    twostate lemma SameAvailable()
      requires old(Linked()) && unchanged(this`rocrQueues) && unchanged(this`rqs) && old(clients) <= clients
      requires forall rq | rq in rqs :: unchanged(rq)
      requires forall q | q in old(clients) :: unchanged(q)
      ensures forall p | 0 <= p < 3 :: Available(p) <==> old(Available(p))
    {
      forall p, i | 0 <= p < 3 && 0 <= i < |rocrQueues[p]|
        ensures Takeable(rocrQueues[p][i]) <==> old(Takeable(rocrQueues[p][i]))
      {
        assert old(ListOk(p)) && old(RqOk(rocrQueues[p][i]));
        var rq := rocrQueues[p][i];
        assert rq in rqs && unchanged(rq);
        if rq.hccQueue != null {
          assert unchanged(rq.hccQueue) && rq.hccQueue.Idle() == old(rq.hccQueue.Idle());
        }
      }
    }

    /** A queue without a hardware queue leaves. */
    method Forget(q: DlaQueue)
      requires Valid() && q in clients && q !in building && q.rocrQueue == null
      modifies this`clients
      ensures Valid() && clients == old(clients) - {q}
    {
      clients := clients - {q};
      ClientsKept();
      assert Loose() == old(Loose()) - {q};
    }

    /** Only the set of queues changed. */
    twostate lemma ClientsKept()
      requires old(Linked()) && unchanged(this`rocrQueues) && unchanged(this`rqs)
      requires forall rq | rq in rqs :: unchanged(rq) && unchanged(rq.ring)
      requires forall q | q in old(clients) && (q in clients || old(q.rocrQueue) != null) ::
               q in clients && unchanged(q)
      requires forall q | q in clients && q !in old(clients) :: ClientOk(q)
      ensures Linked()
    {
      forall c | c in clients
        ensures ClientOk(c)
      {
        assert c in old(clients) ==> old(ClientOk(c));
      }
      forall r | r in rqs
        ensures RqOk(r)
      {
        assert old(RqOk(r));
      }
      assert forall p | 0 <= p < 3 :: old(ListOk(p)) && ListOk(p);
    }

    /** A search gives at most one new hardware queue, and only to a queue without one, below the limit. */
    twostate predicate RingsAfter(q: DlaQueue, searched: bool)
      requires |rocrQueues| == 3 && old(|rocrQueues|) == 3
      reads this, q, q.Hw()
    {
      if searched && old(q.rocrQueue == null && Total() < maxQueues) then NewRing(q, PRIORITY_NORMAL) else ListsKept()
    }

    /** A queue has a hardware queue, or a first round of a search at normal priority finds one. */
    ghost predicate CanAcquire(q: DlaQueue)
      requires |rocrQueues| == 3
      reads this`rocrQueues, q`rocrQueue, rocrQueues[PRIORITY_NORMAL]
      reads set rq, c | rq in rocrQueues[PRIORITY_NORMAL] && c in Owner(rq) :: c
    {
      q.rocrQueue != null || Total() < maxQueues || Available(PRIORITY_NORMAL)
    }

    /** Before it writes packets a queue that lost its hardware queue searches for another, at normal priority whatever
        its own is.  A queue has a hardware queue of its own priority exactly if it never lost one or its own is normal.
        A search that finds nothing goes on (Retry). */
    method AcquireLockedRocrQueue(q: DlaQueue) returns (found: bool)
      requires Valid() && q in clients && q !in building
      modifies this`rocrQueues, this`rqs, rqs, clients, Rings()
      ensures Valid() && RingsAfter(q, true) && OthersKept(q)
      ensures found <==> old(CanAcquire(q))
      ensures found <==> q.rocrQueue != null
      ensures old(q.rocrQueue) != null ==> q.rocrQueue == old(q.rocrQueue)
      ensures found && old(q.rocrQueue) == null ==> q.rocrQueue.priority == PRIORITY_NORMAL
      ensures SameWork(q) && q.lost == old(q.lost) && (!found ==> unchanged(q))
      ensures found ==> KnownOrNew(q.rocrQueue)
    {
      assert ClientOk(q);
      if q.rocrQueue != null {
        return true;
      }
      found := CreateOrStealRocrQueue(q, PRIORITY_NORMAL);
    }

    twostate predicate KnownOrNew(new rq: RocrQueue) {
      (rq in old(rqs) && rq.ring in old(Rings())) || (fresh(rq) && fresh(rq.ring))
    }

    /** A queue that never lost its hardware queue has one of its own priority, once it is recorded.  One that lost it
        has, if any, one of normal priority. */
    lemma OwnPriorityExactly(q: DlaQueue)
      requires Valid() && q in clients
      ensures !q.lost && q !in building ==> q.rocrQueue != null
      ensures q.rocrQueue != null ==> (q.rocrQueue.priority == q.priority <==> !q.lost || q.priority == PRIORITY_NORMAL)
    {
      assert ClientOk(q);
    }

    /** No outstanding packet is overwritten, whoever owned its ring before: it is in its slot, and it is a packet of
        the ring's present owner. */
    lemma OutstandingInSlot(rq: RocrQueue, k: nat)
      requires Valid() && rq in rqs && rq.completed <= k < |rq.log|
      ensures rq.ring.Length > 0 && rq.ring[k % rq.ring.Length] == rq.log[k]
      ensures rq.hccQueue != null && 0 <= k - rq.hccQueue.offset < |rq.hccQueue.log| &&
              rq.hccQueue.log[k - rq.hccQueue.offset] == rq.log[k]
    {
      assert RqOk(rq);
      var q := rq.hccQueue;
      assert ClientOk(q);
      assert SlotAt(rq.ring[..], rq.log, k);
      assert q.log[q.since..][k - q.offset - q.since] == rq.log[q.since + q.offset..][k - q.offset - q.since];
    }

    /** Launch a kernel from a queue. */
    method Launch(q: DlaQueue, release: Scope, wantSignal: bool) returns (found: bool, op: Op)
      requires Valid() && q in clients && q !in building
      modifies this`rocrQueues, this`rqs, rqs, clients, Rings()
      ensures Valid() && RingsAfter(q, true) && OthersKept(q)
      ensures found <==> old(CanAcquire(q))
      ensures found ==> q.rocrQueue != null && q.nextSyncNeedsSysRelease
      ensures found ==> old(q.log) < q.log && q.log[|q.log| - 1] == Packet(Kernel, release, false)
      ensures found ==> q.asyncOps != [] && q.asyncOps[|q.asyncOps| - 1] == Some(op) && op.packet == |q.log| - 1
      ensures found ==> op.kind == Kernel && (op.signal <==> wantSignal || !q.optFlush)
      ensures old(q.rocrQueue) != null ==> q.rocrQueue == old(q.rocrQueue)
      ensures q.lost == old(q.lost) && (!found ==> unchanged(q))
    {
      op := Op(0, Kernel, wantSignal, 0);
      found := AcquireLockedRocrQueue(q);
      if found {
        ghost var log := q.log;
        op := LaunchHere(q, release, wantSignal);
        assert old(q.log) == log;
      }
    }

    method LaunchHere(q: DlaQueue, release: Scope, wantSignal: bool) returns (op: Op)
      requires Valid() && q in clients && q.rocrQueue != null
      modifies q, q.rocrQueue, q.rocrQueue.ring
      ensures Valid() && q.rocrQueue == old(q.rocrQueue) && q.lost == old(q.lost) && q.rocrQueue.hccQueue == q
      ensures q.nextSyncNeedsSysRelease && old(q.log) < q.log &&
              q.log[|q.log| - 1] == Packet(Kernel, release, false)
      ensures q.asyncOps != [] && q.asyncOps[|q.asyncOps| - 1] == Some(op) && op.packet == |q.log| - 1
      ensures op.kind == Kernel && (op.signal <==> wantSignal || !q.optFlush)
    {
      assert ClientOk(q);
      ghost var rq := q.rocrQueue;
      assert rq != null ==> RingApart(rq);
      op := q.DispatchHsaKernel(release, wantSignal);
      StepLinked(q);
      SameLoose();
    }

    /** Enqueue a barrier packet on a queue. */
    method EnqueueMarker(q: DlaQueue, scope: Scope) returns (found: bool)
      requires Valid() && q in clients && q !in building
      modifies this`rocrQueues, this`rqs, rqs, clients, Rings()
      ensures Valid() && RingsAfter(q, true) && OthersKept(q)
      ensures found <==> old(CanAcquire(q))
      ensures found ==> q.rocrQueue != null && old(q.log) < q.log && q.log[|q.log| - 1] == Packet(Marker, scope, false)
      ensures q.lost == old(q.lost) && (!found ==> unchanged(q))
    {
      found := AcquireLockedRocrQueue(q);
      if found {
        ghost var log := q.log;
        MarkHere(q, scope);
        assert old(q.log) == log;
      }
    }

    method MarkHere(q: DlaQueue, scope: Scope)
      requires Valid() && q in clients && q.rocrQueue != null
      modifies q, q.rocrQueue, q.rocrQueue.ring
      ensures Valid() && q.rocrQueue == old(q.rocrQueue) && q.lost == old(q.lost) && q.rocrQueue.hccQueue == q
      ensures old(q.log) < q.log &&
              q.log[|q.log| - 1] == Packet(Marker, scope, false)
    {
      assert ClientOk(q);
      ghost var rq := q.rocrQueue;
      assert rq != null ==> RingApart(rq);
      var _, _ := q.EnqueueMarker(scope);
      StepLinked(q);
      SameLoose();
    }

    /** The host waits for a queue, which needs a hardware queue only if it has to enqueue a marker. */
    method Wait(q: DlaQueue) returns (found: bool)
      requires Valid() && q in clients && q !in building
      modifies this`rocrQueues, this`rqs, rqs, clients, Rings()
      ensures Valid() && RingsAfter(q, old(q.NeedsMarker())) && OthersKept(q)
      ensures found <==> !old(q.NeedsMarker()) || old(CanAcquire(q))
      ensures found ==> q.asyncOps == [] && q.Completed() == |q.log| && (q.optFlush ==> AllReleased(q.log, |q.log|))
      ensures q.lost == old(q.lost) && (!found ==> unchanged(q))
    {
      assert ClientOk(q);
      if q.optFlush && q.nextSyncNeedsSysRelease {
        found := WaitWithMarker(q);
        return;
      }
      WaitHere(q);
      return true;
    }

    method WaitWithMarker(q: DlaQueue) returns (found: bool)
      requires Valid() && q in clients && q !in building && q.NeedsMarker()
      modifies this`rocrQueues, this`rqs, rqs, clients, Rings()
      ensures Valid() && RingsAfter(q, true) && OthersKept(q)
      ensures found <==> old(CanAcquire(q))
      ensures found ==> q.asyncOps == [] && q.Completed() == |q.log| && (q.optFlush ==> AllReleased(q.log, |q.log|))
      ensures q.lost == old(q.lost) && (!found ==> unchanged(q))
    {
      found := AcquireLockedRocrQueue(q);
      if found {
        WaitHere(q);
      }
    }

    method WaitHere(q: DlaQueue)
      requires Valid() && q in clients && (q.NeedsMarker() ==> q.rocrQueue != null)
      modifies q`asyncOps, q`drainingQueue, q`nextSyncNeedsSysRelease, q`issued, q`log, q`retired
      modifies q.Hw()`completed, q.Hw()`writeIndex, q.Hw()`log, q.Slots()
      ensures Valid() && q.rocrQueue == old(q.rocrQueue) && q.asyncOps == [] && q.Completed() == |q.log| &&
              (q.optFlush ==> AllReleased(q.log, |q.log|))
      ensures old(q.log) <= q.log
    {
      assert ClientOk(q);
      ghost var rq := q.rocrQueue;
      assert rq != null ==> RingApart(rq);
      q.Wait();
      StepLinked(q);
      SameLoose();
    }

    /** A hardware queue processes packets, whenever it does. */
    method Advance(rq: RocrQueue, until: int)
      requires Valid() && rq in rqs && until < rq.writeIndex
      modifies rq`completed
      ensures Valid() && old(rq.completed) <= rq.completed && until < rq.completed
    {
      assert RqOk(rq);
      if rq.hccQueue != null {
        assert ClientOk(rq.hccQueue) && RingApart(rq);
        rq.Advance(until);
        StepLinked(rq.hccQueue);
        SameLoose();
      }
    }

    /** Hardware queues are destroyed while they outnumber the recorded queues, which they can only while a queue is
        being built; otherwise they only lose their owner, so that another queue can take them.  Either way the links,
        the lists and the rings that remain stay in order. */
    method RemoveRocrQueue(q: DlaQueue, rq: RocrQueue)
      requires Valid() && rq in rqs && q in clients && q !in building && rq.hccQueue == q && rq.Drained()
      modifies this`rocrQueues, this`rqs, this`clients, rq`hccQueue
      ensures Valid() && clients == old(clients) - {q}
      ensures if |queues| < old(Total()) then Destroyed(rq) else ListsKept() && rq.hccQueue == null
      ensures building == {} ==> ListsKept()
    {
      assert RqOk(rq) && ClientOk(q);
      if |queues| < Total() {
        HardRemove(q, rq);
      } else {
        SoftRemove(q, rq);
      }
      assert Loose() == old(Loose());
    }

    /** A hardware queue is gone; the others of its list keep their order. */
    twostate predicate Destroyed(rq: RocrQueue)
      requires |rocrQueues| == 3 && old(|rocrQueues|) == 3
      reads this`rocrQueues, this`rqs
    {
      && rqs == old(rqs) - {rq} && Total() == old(Total()) - 1 && rq.priority < 3
      && (exists i :: ErasedAt(old(rocrQueues)[rq.priority], rq, i, rocrQueues[rq.priority]))
      && rocrQueues == old(rocrQueues)[rq.priority := rocrQueues[rq.priority]]
    }

    method HardRemove(q: DlaQueue, rq: RocrQueue)
      requires Linked() && rq in rqs && q in clients && rq.hccQueue == q
      modifies this`rocrQueues, this`rqs, this`clients
      ensures Linked() && clients == old(clients) - {q} && Destroyed(rq)
    {
      assert RqOk(rq);
      var list := rocrQueues[rq.priority];
      var i := PlaceOf(list, rq);
      rocrQueues := rocrQueues[rq.priority := list[..i] + list[i + 1..]];
      assert ErasedAt(list, rq, i, rocrQueues[rq.priority]);
      rqs := rqs - {rq};
      clients := clients - {q};
      RemovedLinked(rq);
    }

    method SoftRemove(q: DlaQueue, rq: RocrQueue)
      requires Linked() && rq in rqs && q in clients && rq.hccQueue == q && rq.Drained()
      modifies this`clients, rq`hccQueue
      ensures Linked() && clients == old(clients) - {q} && rq.hccQueue == null
    {
      assert RqOk(rq);
      rq.hccQueue := null;
      clients := clients - {q};
      forall c | c in clients
        ensures ClientOk(c)
      {
        assert old(ClientOk(c));
      }
      forall r | r in rqs
        ensures RqOk(r)
      {
        assert old(RqOk(r));
      }
      assert forall p | 0 <= p < 3 :: old(ListOk(p)) && ListOk(p);
    }

    twostate lemma RemovedLinked(rq: RocrQueue)
      requires old(Linked()) && rq in old(rqs) && old(rq.hccQueue) != null && rq.priority < 3
      requires clients == old(clients) - {old(rq.hccQueue)} && rqs == old(rqs) - {rq}
      requires |rocrQueues| == 3 && rocrQueues == old(rocrQueues)[rq.priority := rocrQueues[rq.priority]]
      requires exists i :: ErasedAt(old(rocrQueues)[rq.priority], rq, i, rocrQueues[rq.priority])
      requires forall c | c in old(clients) :: unchanged(c)
      requires forall r | r in old(rqs) :: unchanged(r) && unchanged(r.ring)
      ensures Linked()
    {
      assert old(RqOk(rq));
      forall c | c in clients
        ensures ClientOk(c)
      {
        assert old(ClientOk(c));
      }
      forall r | r in rqs
        ensures RqOk(r)
      {
        assert old(RqOk(r));
        ErasedKeeps(old(rocrQueues)[rq.priority], rq, r, rocrQueues[rq.priority]);
      }
      forall r | r in rqs
        ensures RingApart(r)
      {
        assert old(RingApart(r));
      }
      forall p | 0 <= p < 3
        ensures ListOk(p)
      {
        assert old(ListOk(p));
      }
    }

    /** The queue waits for its work and gives up its hardware queue.  It does so under the mutex that a search for a
        hardware queue locks, so it never returns exactly when its wait needs a marker and it has no hardware queue.
        Its hardware queue is destroyed exactly when there are more of them than recorded queues, and then some queue
        is just being built. */
    method Dispose(q: DlaQueue) returns (stuck: bool)
      requires Valid() && q in clients && q !in building
      modifies this`rocrQueues, this`rqs, this`clients, q, q.Hw(), q.Slots()
      ensures Valid() && (stuck <==> old(q.NeedsMarker() && q.rocrQueue == null))
      ensures stuck ==> unchanged(this) && unchanged(q)
      ensures !stuck ==> clients == old(clients) - {q} && !q.valid && q.rocrQueue == null && q.asyncOps == []
      ensures !stuck ==> old(q.log) <= q.log && (q.optFlush ==> AllReleased(q.log, |q.log|))
      ensures !stuck && old(q.rocrQueue) != null ==> old(q.rocrQueue).Drained()
      ensures if !stuck && old(q.rocrQueue) != null && |queues| < old(Total()) then Destroyed(old(q.rocrQueue))
              else ListsKept() && (!stuck && old(q.rocrQueue) != null ==> old(q.rocrQueue).hccQueue == null)
      ensures building == {} ==> ListsKept()
    {
      assert ClientOk(q);
      if q.optFlush && q.nextSyncNeedsSysRelease && q.rocrQueue == null {
        return true;
      }
      WaitHere(q);
      Leave(q);
      return false;
    }

    /** What a queue does in dispose() when its work is done. */
    method Leave(q: DlaQueue)
      requires Valid() && q in clients && q !in building && q.Completed() == |q.log|
      modifies this`rocrQueues, this`rqs, this`clients, q`rocrQueue, q`valid, q.Hw()`hccQueue
      ensures Valid() && clients == old(clients) - {q} && !q.valid && q.rocrQueue == null
      ensures old(q.rocrQueue) != null ==> old(q.rocrQueue).Drained()
      ensures if old(q.rocrQueue) != null && |queues| < old(Total()) then Destroyed(old(q.rocrQueue))
              else ListsKept() && (old(q.rocrQueue) != null ==> old(q.rocrQueue).hccQueue == null)
      ensures building == {} ==> ListsKept()
    {
      assert ClientOk(q);
      if q.rocrQueue != null {
        assert RqOk(q.rocrQueue);
        RemoveRocrQueue(q, q.rocrQueue);
      } else {
        Forget(q);
      }
      Invalidate(q);
    }

    method Invalidate(q: DlaQueue)
      requires Valid() && q !in clients
      modifies q`rocrQueue, q`valid
      ensures Valid() && q.rocrQueue == null && !q.valid
    {
      q.rocrQueue, q.valid := null, false;
      QueuesKept();
    }
  }

  function Owner(rq: RocrQueue): set<DlaQueue>
    reads rq`hccQueue
  {
    if rq.hccQueue == null then {} else {rq.hccQueue}
  }

  /** Unowned, or its owner has no unfinished work. */
  ghost predicate Takeable(rq: RocrQueue)
    reads rq, Owner(rq)
  {
    rq.hccQueue == null || (rq.hccQueue.rocrQueue == rq && rq.hccQueue.Idle())
  }

  /** std::find: the first place of a listed hardware queue. */
  method PlaceOf(list: seq<RocrQueue>, rq: RocrQueue) returns (i: nat)
    requires rq in list
    ensures i < |list| && list[i] == rq
  {
    i := 0;
    while list[i] != rq
      invariant i < |list| && rq !in list[..i]
      decreases |list| - i
    {
      i := i + 1;
    }
  }

  /** The list without the hardware queue at place i, in the same order. */
  predicate ErasedAt(before: seq<RocrQueue>, rq: RocrQueue, i: int, after: seq<RocrQueue>) {
    0 <= i < |before| && before[i] == rq && after == before[..i] + before[i + 1..]
  }

  lemma ErasedKeeps(before: seq<RocrQueue>, rq: RocrQueue, r: RocrQueue, after: seq<RocrQueue>)
    requires exists i :: ErasedAt(before, rq, i, after)
    ensures r in before && r != rq ==> r in after
  {
    var i :| ErasedAt(before, rq, i, after);
    if r in before && r != rq {
      var k :| 0 <= k < |before| && before[k] == r;
      assert r == after[if k < i then k else k - 1];
    }
  }

  // ------------------------------------------------------------------------------------------
  // Where it goes wrong
  // ------------------------------------------------------------------------------------------

  /** queue_priority has high priority first. */
  const PRIORITY_HIGH := 0

  /** However many hardware queues there may be: when all are of high priority and one more queue takes one from an idle
      queue, that queue has none to find, although its own list has one to give. */
  method StealFromHighPriority(maxQueues: nat, maxInflight: nat, gcSize: nat, optFlush: bool)
    returns (d: DlaDevice, ghost loser: DlaQueue)
    requires maxQueues > 0 && maxInflight >= 2
    ensures fresh(d) && Searching(d, loser) && loser.priority == PRIORITY_HIGH && d.Available(PRIORITY_HIGH)
    ensures d.maxQueues == maxQueues && d.building == {}
  {
    d := FillWithHighPriority(maxQueues, maxInflight, gcSize, optFlush);
    HighAvailable(d);
    label full:
    var q, _ := d.CreateQueue(PRIORITY_HIGH);
    ghost var rq := q.rocrQueue;
    assert d.ClientOk(q);
    assert old@full(d.RqOk(rq));
    loser := old@full(rq.hccQueue);
    assert d.ClientOk(loser) && old@full(d.ClientOk(loser));
    HighAvailable(d);
  }

  /** A queue that lost its hardware queue, when the limit is reached and none is of normal priority. */
  ghost predicate Searching(d: DlaDevice, q: DlaQueue)
    reads d, d.rqs, d.clients, d.Rings()
  {
    && d.Valid() && q in d.clients && q !in d.building && q.rocrQueue == null && q.lost
    && d.rocrQueues[PRIORITY_NORMAL] == [] && d.Total() == d.maxQueues <= |d.queues|
  }

  method FillWithHighPriority(maxQueues: nat, maxInflight: nat, gcSize: nat, optFlush: bool) returns (d: DlaDevice)
    requires maxInflight >= 2
    ensures fresh(d) && fresh(d.clients) && AllHigh(d) && d.Total() == d.maxQueues == maxQueues && d.building == {}
    ensures forall rq | rq in d.rqs :: fresh(rq) && fresh(rq.ring) && rq.hccQueue != null
  {
    d := new DlaDevice(maxQueues, maxInflight, gcSize, optFlush, false);
    while d.Total() < maxQueues
      invariant AllHigh(d) && d.maxQueues == maxQueues && fresh(d) && fresh(d.clients) && d.building == {}
      invariant forall rq | rq in d.rqs :: fresh(rq) && fresh(rq.ring) && rq.hccQueue != null
      decreases maxQueues - d.Total()
    {
      var _, _ := d.CreateQueue(PRIORITY_HIGH);
    }
  }

  /** Every hardware queue is of high priority, and no queue has anything listed. */
  ghost predicate AllHigh(d: DlaDevice)
    reads d, d.rqs, d.clients, d.Rings()
  {
    && d.Valid() && d.rocrQueues[1] == [] && d.rocrQueues[2] == []
    && forall q | q in d.clients :: q.asyncOps == [] && q.priority == PRIORITY_HIGH
  }

  lemma HighAvailable(d: DlaDevice)
    requires AllHigh(d) && d.Total() > 0
    ensures d.Available(PRIORITY_HIGH)
  {
    assert d.ListOk(PRIORITY_HIGH) && d.RqOk(d.rocrQueues[PRIORITY_HIGH][0]);
    assert Takeable(d.rocrQueues[PRIORITY_HIGH][0]);
  }

  /** The steps of other queues, and what the hardware does. */
  datatype Call =
    | Construct(priority: nat)
    | Retry(q: DlaQueue)
    | Record(q: DlaQueue)
    | Launch(q: DlaQueue, release: Scope, wantSignal: bool)
    | Barrier(q: DlaQueue, scope: Scope)
    | Wait(q: DlaQueue)
    | Dispose(q: DlaQueue)
    | Process(priority: nat, place: nat, until: int)

  /** A queue without a hardware queue, at the limit and when none is of normal priority, finds none in any number of
      rounds, whatever the other queues do between them. */
  method SearchForEver(d: DlaDevice, q: DlaQueue, calls: seq<Call>)
    requires Searching(d, q)
    modifies d, d.rqs, d.clients, d.Rings()
    ensures Searching(d, q) && d.SameWork(q)
  {
    for i := 0 to |calls|
      invariant Searching(d, q) && d.SameWork(q) && d.rqs == old(d.rqs) && fresh(d.clients - old(d.clients))
    {
      var found := d.Retry(q);
      assert !found;
      Perform(d, q, calls[i]);
    }
  }

  /** A step that is not one of the given queue, which searches. */
  method Perform(d: DlaDevice, q: DlaQueue, call: Call)
    requires Searching(d, q)
    modifies d, d.rqs, d.clients, d.Rings()
    ensures Searching(d, q) && d.SameWork(q) && d.rqs == old(d.rqs) && fresh(d.clients - old(d.clients))
  {
    match call
    case Construct(priority) =>
      if priority < 3 {
        ConstructAnother(d, q, priority);
      }
    case Retry(c) =>
      if c in d.clients && c != q && c.rocrQueue == null {
        RetryAnother(d, q, c);
      }
    case Record(c) =>
      if c in d.building && (c.rocrQueue != null || c.lost) {
        d.Record(c);
      }
    case Process(p, i, until) =>
      if p < 3 && i < |d.rocrQueues[p]| && until < d.rocrQueues[p][i].writeIndex {
        assert d.ListOk(p);
        d.Advance(d.rocrQueues[p][i], until);
      }
    case _ =>
      if call.q in d.clients && call.q !in d.building && call.q != q {
        Use(d, q, call);
      }
  }

  method ConstructAnother(d: DlaDevice, ghost q: DlaQueue, priority: nat)
    requires Searching(d, q) && priority < 3
    modifies d, d.rqs, d.clients, d.Rings()
    ensures Searching(d, q) && d.SameWork(q) && d.rqs == old(d.rqs) && fresh(d.clients - old(d.clients))
  {
    assert d.ClientOk(q);
    var _, _ := d.Construct(priority);
  }

  method RetryAnother(d: DlaDevice, ghost q: DlaQueue, c: DlaQueue)
    requires Searching(d, q) && c in d.clients && c != q && c.rocrQueue == null
    modifies d, d.rqs, d.clients, d.Rings()
    ensures Searching(d, q) && d.SameWork(q) && d.rqs == old(d.rqs) && d.clients == old(d.clients)
  {
    assert d.ClientOk(q);
    var _ := d.Retry(c);
  }

  /** A recorded queue is used. */
  method Use(d: DlaDevice, ghost q: DlaQueue, call: Call)
    requires Searching(d, q) && (call.Launch? || call.Barrier? || call.Wait? || call.Dispose?)
    requires call.q in d.clients && call.q !in d.building && call.q != q
    modifies d, d.rqs, d.clients, d.Rings()
    ensures Searching(d, q) && d.SameWork(q) && d.rqs == old(d.rqs) && d.clients <= old(d.clients)
  {
    assert d.ClientOk(q);
    match call
    case Launch(c, release, wantSignal) =>
      var _, _ := d.Launch(c, release, wantSignal);
    case Barrier(c, scope) =>
      var _ := d.EnqueueMarker(c, scope);
    case Wait(c) =>
      var _ := d.Wait(c);
    case Dispose(c) =>
      assert d.ClientOk(c);
      var _ := d.Dispose(c);
  }

  /** One queue launches a kernel, which completes, and another queue takes its hardware queue.  The first can then
      never be disposed of. */
  method DisposeDeadlock(maxInflight: nat, gcSize: nat, priority: nat) returns (stuck: bool)
    requires maxInflight >= 2 && priority < 3
    ensures stuck
  {
    var d, q := OneCompleteKernel(maxInflight, gcSize, priority);
    var rq := q.rocrQueue;
    assert Takeable(d.rocrQueues[priority][0]);
    var thief, _ := d.CreateQueue(priority);
    assert d.ClientOk(thief) && d.ClientOk(q);
    stuck := d.Dispose(q);
  }

  method OneCompleteKernel(maxInflight: nat, gcSize: nat, priority: nat) returns (d: DlaDevice, q: DlaQueue)
    requires maxInflight >= 2 && priority < 3
    ensures fresh(d) && fresh(d.clients) && (forall rq | rq in d.rqs :: fresh(rq) && fresh(rq.ring))
    ensures d.Valid() && d.Total() == d.maxQueues && q in d.clients && d.building == {} && q.rocrQueue != null
    ensures q.rocrQueue.hccQueue == q && q.Idle() && q.NeedsMarker()
    ensures d.rocrQueues[priority] == [q.rocrQueue] && d.rqs == {q.rocrQueue}
  {
    d, q := OneQueue(1, maxInflight, gcSize, priority);
    CompleteKernel(d, q);
  }

  method OneQueue(maxQueues: nat, maxInflight: nat, gcSize: nat, priority: nat) returns (d: DlaDevice, q: DlaQueue)
    requires maxInflight >= 2 && priority < 3 && maxQueues > 0
    ensures fresh(d) && fresh(d.clients) && fresh(q.rocrQueue) && fresh(q.rocrQueue.ring) && d.rqs == {q.rocrQueue}
    ensures d.Valid() && d.Total() == 1 && d.maxQueues == maxQueues && q in d.clients && d.building == {} &&
            d.queues == [q]
    ensures q.rocrQueue != null && q.rocrQueue.hccQueue == q && q.optFlush && d.rocrQueues[priority] == [q.rocrQueue]
    ensures !q.nextSyncNeedsSysRelease
  {
    d := new DlaDevice(maxQueues, maxInflight, gcSize, true, false);
    var found: bool;
    q, found := d.CreateQueue(priority);
    assert d.ClientOk(q);
  }

  method CompleteKernel(d: DlaDevice, q: DlaQueue)
    requires d.Valid() && q in d.clients && q !in d.building && q.rocrQueue != null
    modifies d`rocrQueues, d`rqs, d.rqs, d.clients, d.Rings()
    ensures d.Valid() && d.rocrQueues == old(d.rocrQueues) && d.rqs == old(d.rqs) && q.rocrQueue == old(q.rocrQueue)
    ensures q.rocrQueue.hccQueue == q && q.Idle() && q.nextSyncNeedsSysRelease
  {
    var _, op := d.Launch(q, SystemScope, true);
    assert d.ClientOk(q);
    d.Advance(q.rocrQueue, op.packet + q.offset);
    assert d.ClientOk(q);
  }

  /** A second queue is constructed and not recorded yet.  Disposing of the first destroys its hardware queue, although
      below the limit both could stay. */
  method DestroyedWhileConstructing(maxQueues: nat, maxInflight: nat, gcSize: nat, priority: nat)
    returns (d: DlaDevice, ghost rq: RocrQueue)
    requires maxInflight >= 2 && priority < 3 && maxQueues >= 2
    ensures d.Valid() && rq !in d.rqs && |d.queues| == 1 && |d.building| == 1 && d.Total() == 1
  {
    var q: DlaQueue;
    d, q := OneQueue(maxQueues, maxInflight, gcSize, priority);
    rq := q.rocrQueue;
    DisposeWhileConstructing(d, q, priority);
  }

  method DisposeWhileConstructing(d: DlaDevice, q: DlaQueue, priority: nat)
    requires d.Valid() && q in d.clients && d.building == {} && q.rocrQueue != null && priority < 3
    requires |d.queues| == d.Total() < d.maxQueues
    modifies d, d.clients, d.rqs, d.Rings()
    ensures d.Valid() && old(q.rocrQueue) !in d.rqs && d.queues == old(d.queues) && |d.building| == 1
    ensures d.Total() == old(d.Total())
  {
    assert d.ClientOk(q) && d.RqOk(q.rocrQueue);
    var second, _ := d.Construct(priority);
    assert d.RqOk(old(q.rocrQueue));
    assert d.ClientOk(q);
    var _ := d.Dispose(q);
  }

  /** Between the two passes of a search the owner of the only hardware queue is disposed of: the second pass goes
      through a null owner. */
  method NullOwnerBetweenPasses(maxInflight: nat, gcSize: nat, priority: nat) returns (nullOwner: bool)
    requires maxInflight >= 2 && priority < 3
    ensures nullOwner
  {
    var d, q := OneQueue(1, maxInflight, gcSize, priority);
    var thief := d.NewQueue(priority);
    nullOwner := DisposeBetweenPasses(d, q, thief, priority);
  }

  method DisposeBetweenPasses(d: DlaDevice, q: DlaQueue, thief: DlaQueue, priority: nat) returns (nullOwner: bool)
    requires d.Valid() && q in d.clients && q !in d.building && !q.NeedsMarker() && d.Total() <= |d.queues|
    requires thief in d.clients && thief.rocrQueue == null && thief.priority == priority < 3 && !thief.lost
    requires q.rocrQueue != null && d.rocrQueues[priority] == [q.rocrQueue]
    modifies d, d.clients, d.rqs, d.Rings()
    ensures nullOwner
  {
    assert d.ClientOk(q);
    assert d.AllOwned(priority);
    var rq := q.rocrQueue;
    var _ := d.Dispose(q);
    assert Takeable(d.rocrQueues[priority][0]);
    var found: bool;
    ghost var place: int;
    found, nullOwner, place := d.StealIdle(thief, priority);
  }
}
