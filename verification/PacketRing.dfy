/** The multi-producer packet ring of src/drive/blit_cpdma.cpp: producers reserve indices with an atomic add, spin until
    their packets fit behind the read index, write their slots and ring the doorbell; one packet processor reads.
    The queue discipline is that of section 2.8 of the HSA Platform System Architecture Specification. */
module PacketRing {
  import opened Wrappers
  import opened Arithmetic

  type DmaPacket = int

  /** A slot whose packet is valid, with the index it was written for. */
  datatype Filled = Filled(index: nat, packet: DmaPacket)

  /** A producer between AcquireWriteIndex and ReleaseWriteIndex: it owns the n indices from `first` on, and the
      ones below `next` are written. */
  datatype Phase =
    | Spinning(first: nat, n: nat)
    | Writing(first: nat, n: nat, next: nat)

  /** `sent` and `consumed` record what was written for each index and what the processor has read. */
  datatype Ring = Ring(write: nat, read: nat, slots: seq<Option<Filled>>, producers: map<nat, Phase>,
                       sent: map<nat, DmaPacket>, consumed: seq<DmaPacket>)

  function Unwritten(ph: Phase): nat {
    if ph.Spinning? then ph.first else ph.next
  }

  function End(ph: Phase): nat {
    ph.first + ph.n
  }

  ghost predicate Pending(s: Ring, p: nat, k: int) {
    p in s.producers && Unwritten(s.producers[p]) <= k < End(s.producers[p])
  }

  // ------------------------------------------------------------------------------------------
  // Steps
  // ------------------------------------------------------------------------------------------

  ghost predicate Init(s: Ring, size: nat) {
    s.write == 0 && s.read == 0 && |s.slots| == size && (forall i | 0 <= i < size :: s.slots[i].None?)
    && s.producers == map[] && s.sent == map[] && s.consumed == []
  }

  /** AddWriteIndexAcqRel; at least one packet, and no more than there are slots. */
  ghost predicate Reserve(s: Ring, t: Ring, p: nat, n: nat) {
    && p !in s.producers && 0 < n <= |s.slots|
    && t == s.(write := s.write + n, producers := s.producers[p := Spinning(s.write, n)])
  }

  /** The spin loop ends; the read index it loaded may be an old one. */
  ghost predicate Pass(s: Ring, t: Ring, p: nat, seen: nat) {
    && p in s.producers && s.producers[p].Spinning? && seen <= s.read
    && End(s.producers[p]) - seen <= |s.slots|
    && t == s.(producers := s.producers[p := Writing(s.producers[p].first, s.producers[p].n, s.producers[p].first)])
  }

  /** PopulateQueue for the producer's next index. */
  ghost predicate Populate(s: Ring, t: Ring, p: nat, packet: DmaPacket) {
    && p in s.producers && s.producers[p].Writing? && s.producers[p].next < End(s.producers[p]) && |s.slots| > 0
    && var i := s.producers[p].next;
       t == s.(slots := s.slots[i % |s.slots| := Some(Filled(i, packet))],
               producers := s.producers[p := s.producers[p].(next := i + 1)], sent := s.sent[i := packet])
  }

  /** ReleaseWriteIndex: the producer rings the doorbell and is done. */
  ghost predicate RingDoorbell(s: Ring, t: Ring, p: nat) {
    && p in s.producers && s.producers[p].Writing? && s.producers[p].next == End(s.producers[p])
    && t == s.(producers := s.producers - {p})
  }

  /** The packet processor takes the packet in the slot of the read index if it is valid, and invalidates it. */
  ghost predicate Consume(s: Ring, t: Ring) {
    && |s.slots| > 0 && s.slots[s.read % |s.slots|].Some?
    && t == s.(slots := s.slots[s.read % |s.slots| := None], read := s.read + 1,
               consumed := s.consumed + [s.slots[s.read % |s.slots|].value.packet])
  }

  datatype Step =
    | ReserveStep(p: nat, n: nat)
    | PassStep(p: nat, seen: nat)
    | PopulateStep(p: nat, packet: DmaPacket)
    | RingStep(p: nat)
    | ConsumeStep

  ghost predicate Takes(s: Ring, t: Ring, step: Step) {
    match step
    case ReserveStep(p, n) => Reserve(s, t, p, n)
    case PassStep(p, seen) => Pass(s, t, p, seen)
    case PopulateStep(p, packet) => Populate(s, t, p, packet)
    case RingStep(p) => RingDoorbell(s, t, p)
    case ConsumeStep => Consume(s, t)
  }

  ghost predicate Next(s: Ring, t: Ring) {
    exists step :: Takes(s, t, step)
  }

  /** A run: any producers, any interleaving. */
  ghost predicate Run(ss: seq<Ring>, size: nat) {
    ss != [] && Init(ss[0], size) && forall i, j | 0 <= i && j == i + 1 < |ss| :: Next(ss[i], ss[j])
  }

  // ------------------------------------------------------------------------------------------
  // Invariant
  // ------------------------------------------------------------------------------------------

  /** A reservation lies below the write index, nothing unwritten is read, and a producer that
      writes has its whole range within a ring of the read index. */
  ghost predicate PhaseOk(s: Ring, ph: Phase) {
    && ph.first <= Unwritten(ph) <= End(ph) <= s.write
    && (Unwritten(ph) < End(ph) ==> s.read <= Unwritten(ph))
    && 0 < ph.n <= |s.slots|
    && (ph.Writing? ==> End(ph) <= s.read + |s.slots|)
  }

  ghost predicate RangesApart(a: Phase, b: Phase) {
    End(a) <= b.first || End(b) <= a.first
  }

  ghost predicate SlotOk(s: Ring, i: int)
    requires 0 <= i < |s.slots|
  {
    s.slots[i].Some? ==>
      var f := s.slots[i].value;
      && s.read <= f.index < s.read + |s.slots|
      && f.index % |s.slots| == i
      && f.index in s.sent && s.sent[f.index] == f.packet
  }

  /** An index the processor has not read is in its slot, or waits for its one producer. */
  ghost predicate IndexOk(s: Ring, k: int)
    requires |s.slots| > 0
  {
    if k in s.sent then s.slots[k % |s.slots|] == Some(Filled(k, s.sent[k])) else exists p :: Pending(s, p, k)
  }

  ghost predicate Inv(s: Ring) {
    && s.read <= s.write && |s.consumed| == s.read
    && (forall p | p in s.producers :: PhaseOk(s, s.producers[p]))
    && (forall p, q | p in s.producers && q in s.producers && p != q :: RangesApart(s.producers[p], s.producers[q]))
    && (forall i | 0 <= i < |s.slots| :: SlotOk(s, i))
    && (|s.slots| > 0 ==> forall k | s.read <= k < s.write :: IndexOk(s, k))
    && (forall k | k in s.sent :: 0 <= k < s.write && forall p | p in s.producers :: !Pending(s, p, k))
    && (forall k | 0 <= k < s.read :: k in s.sent && s.consumed[k] == s.sent[k])
  }

  lemma InitInv(s: Ring, size: nat)
    requires Init(s, size)
    ensures Inv(s)
  {
  }

  lemma ReserveInv(s: Ring, t: Ring, p: nat, n: nat)
    requires Inv(s) && Reserve(s, t, p, n)
    ensures Inv(t)
  {
    if |s.slots| > 0 {
      forall k | t.read <= k < t.write
        ensures IndexOk(t, k)
      {
        if k < s.write {
          assert IndexOk(s, k);
          if k !in s.sent {
            var q :| Pending(s, q, k);
            assert Pending(t, q, k);
          }
        } else {
          assert k !in s.sent && Pending(t, p, k);
        }
      }
    }
    forall i | 0 <= i < |t.slots| ensures SlotOk(t, i) { assert SlotOk(s, i); }
    forall k | k in t.sent
      ensures 0 <= k < t.write && forall q | q in t.producers :: !Pending(t, q, k)
    {
      assert forall q | q in s.producers :: !Pending(s, q, k) && t.producers[q] == s.producers[q];
    }
  }

  /** A step that writes no slot and drops no pending index. */
  lemma SlotsStay(s: Ring, t: Ring)
    requires Inv(s) && t.read == s.read && t.write == s.write && t.slots == s.slots && t.sent == s.sent
    requires forall q, k | Pending(s, q, k) :: Pending(t, q, k)
    ensures |t.slots| > 0 ==> forall k | t.read <= k < t.write :: IndexOk(t, k)
    ensures forall i | 0 <= i < |t.slots| :: SlotOk(t, i)
  {
    if |s.slots| > 0 {
      forall k | t.read <= k < t.write
        ensures IndexOk(t, k)
      {
        assert IndexOk(s, k);
        if k !in s.sent {
          var q :| Pending(s, q, k);
          assert Pending(t, q, k);
        }
      }
    }
    forall i | 0 <= i < |t.slots| ensures SlotOk(t, i) { assert SlotOk(s, i); }
  }

  lemma PassInv(s: Ring, t: Ring, p: nat, seen: nat)
    requires Inv(s) && Pass(s, t, p, seen)
    ensures Inv(t)
  {
    assert forall q, k | q in s.producers :: Pending(t, q, k) <==> Pending(s, q, k);
    SlotsStay(s, t);
    assert PhaseOk(s, s.producers[p]);
  }

  lemma RingInv(s: Ring, t: Ring, p: nat)
    requires Inv(s) && RingDoorbell(s, t, p)
    ensures Inv(t)
  {
    assert forall k :: !Pending(s, p, k);
    SlotsStay(s, t);
    forall k | k in t.sent
      ensures forall q | q in t.producers :: !Pending(t, q, k)
    {
      assert forall q | q in s.producers :: !Pending(s, q, k);
    }
  }

  /** A producer writes its slot only after the processor has read the packet that was there: the slot is invalid,
      and the index one ring back is below the read index. */
  lemma WritesFreeSlot(s: Ring, t: Ring, p: nat, packet: DmaPacket)
    requires Inv(s) && Populate(s, t, p, packet)
    ensures var i := s.producers[p].next;
            s.slots[i % |s.slots|].None? && i - |s.slots| < s.read && i !in s.sent
  {
    var ph := s.producers[p];
    var i, size := ph.next, |s.slots|;
    assert PhaseOk(s, ph) && Pending(s, p, i);
    assert SlotOk(s, i % size);
    if s.slots[i % size].Some? {
      var f := s.slots[i % size].value;
      if f.index < i { OtherSlot(f.index, i, size); }
      if i < f.index { OtherSlot(i, f.index, size); }
    }
  }

  lemma PopulateInv(s: Ring, t: Ring, p: nat, packet: DmaPacket)
    requires Inv(s) && Populate(s, t, p, packet)
    ensures Inv(t)
  {
    var ph := s.producers[p];
    var i, size := ph.next, |s.slots|;
    WritesFreeSlot(s, t, p, packet);
    assert PhaseOk(s, ph) && Pending(s, p, i);
    forall j | 0 <= j < size
      ensures SlotOk(t, j)
    {
      assert SlotOk(s, j);
    }
    forall k | t.read <= k < t.write
      ensures IndexOk(t, k)
    {
      if k != i {
        assert IndexOk(s, k);
        if k in s.sent {
          assert k % size != i % size;
        } else {
          var q :| Pending(s, q, k);
          assert Pending(t, q, k);
        }
      }
    }
    PopulatePending(s, t, p, packet);
  }

  lemma PopulatePending(s: Ring, t: Ring, p: nat, packet: DmaPacket)
    requires Inv(s) && Populate(s, t, p, packet)
    ensures forall k | k in t.sent :: 0 <= k < t.write && forall q | q in t.producers :: !Pending(t, q, k)
    ensures forall q | q in t.producers :: PhaseOk(t, t.producers[q])
    ensures forall q, r | q in t.producers && r in t.producers && q != r :: RangesApart(t.producers[q], t.producers[r])
  {
    forall k, q | k in t.sent && q in t.producers
      ensures !Pending(t, q, k)
    {
      PopulatedIsSent(s, t, p, packet, k, q);
    }
    forall q | q in t.producers
      ensures PhaseOk(t, t.producers[q])
    {
      assert PhaseOk(s, s.producers[q]);
    }
    forall q, r | q in t.producers && r in t.producers && q != r
      ensures RangesApart(t.producers[q], t.producers[r])
    {
      assert RangesApart(s.producers[q], s.producers[r]);
    }
  }

  lemma PopulatedIsSent(s: Ring, t: Ring, p: nat, packet: DmaPacket, k: nat, q: nat)
    requires Inv(s) && Populate(s, t, p, packet) && k in t.sent && q in t.producers
    ensures !Pending(t, q, k)
  {
    assert PhaseOk(s, s.producers[p]) && PhaseOk(s, s.producers[q]);
    if k != s.producers[p].next {
      assert !Pending(s, q, k);
    } else if q != p {
      assert RangesApart(s.producers[p], s.producers[q]);
    }
  }

  /** The processor reads exactly the packet that was written for the read index. */
  lemma ConsumesInOrder(s: Ring, t: Ring)
    requires Inv(s) && Consume(s, t)
    ensures s.read < s.write && s.read in s.sent && t.consumed == s.consumed + [s.sent[s.read]]
    ensures s.slots[s.read % |s.slots|] == Some(Filled(s.read, s.sent[s.read]))
  {
    var size := |s.slots|;
    assert SlotOk(s, s.read % size);
    var f := s.slots[s.read % size].value;
    if s.read < f.index {
      OtherSlot(s.read, f.index, size);
    }
  }

  lemma ConsumeInv(s: Ring, t: Ring)
    requires Inv(s) && Consume(s, t)
    ensures Inv(t)
  {
    var size := |s.slots|;
    ConsumesInOrder(s, t);
    forall j | 0 <= j < size
      ensures SlotOk(t, j)
    {
      assert SlotOk(s, j);
    }
    forall k | t.read <= k < t.write
      ensures IndexOk(t, k)
    {
      assert IndexOk(s, k);
      if k in s.sent {
        assert k % size != s.read % size;
      } else {
        var q :| Pending(s, q, k);
        assert Pending(t, q, k);
      }
    }
    forall q | q in t.producers
      ensures PhaseOk(t, t.producers[q])
    {
      assert PhaseOk(s, s.producers[q]) && !Pending(s, q, s.read);
    }
  }

  lemma NextInv(s: Ring, t: Ring)
    requires Inv(s) && Next(s, t)
    ensures Inv(t)
  {
    var step :| Takes(s, t, step);
    match step
    case ReserveStep(p, n) => ReserveInv(s, t, p, n);
    case PassStep(p, seen) => PassInv(s, t, p, seen);
    case PopulateStep(p, packet) => PopulateInv(s, t, p, packet);
    case RingStep(p) => RingInv(s, t, p);
    case ConsumeStep => ConsumeInv(s, t);
  }

  // ------------------------------------------------------------------------------------------
  // Whole runs
  // ------------------------------------------------------------------------------------------

  lemma {:induction false} RunInv(ss: seq<Ring>, size: nat, i: nat)
    requires Run(ss, size) && i < |ss|
    ensures Inv(ss[i])
  {
    if i == 0 {
      InitInv(ss[0], size);
    } else {
      RunInv(ss, size, i - 1);
      NextInv(ss[i - 1], ss[i]);
    }
  }

  /** In every state of every run the processor has read, in order of their indices, exactly the packets that were
      written for them, and reservations of different producers do not overlap. */
  lemma RunReadsWhatWasSent(ss: seq<Ring>, size: nat, i: nat)
    requires Run(ss, size) && i < |ss|
    ensures var s := ss[i];
            && (forall k | 0 <= k < |s.consumed| :: k in s.sent && s.consumed[k] == s.sent[k])
            && (forall p, q | p in s.producers && q in s.producers && p != q ::
                RangesApart(s.producers[p], s.producers[q]))
  {
    RunInv(ss, size, i);
  }

  /** What a producer wrote for an index is what the processor reads there, in every later state of every run. */
  lemma RunConsumesWhatWasWritten(ss: seq<Ring>, size: nat, i: nat, p: nat, packet: DmaPacket, j: nat)
    requires Run(ss, size) && i < j < |ss| && Takes(ss[i], ss[i + 1], PopulateStep(p, packet))
    ensures var k := ss[i].producers[p].next;
            k < |ss[j].consumed| ==> ss[j].consumed[k] == packet
  {
    SentStays(ss, size, i + 1, j, ss[i].producers[p].next);
    RunInv(ss, size, j);
  }

  /** What was recorded for an index stays. */
  lemma {:induction false} SentStays(ss: seq<Ring>, size: nat, i: nat, j: nat, k: nat)
    requires Run(ss, size) && i <= j < |ss| && k in ss[i].sent
    ensures k in ss[j].sent && ss[j].sent[k] == ss[i].sent[k]
    decreases j - i
  {
    if i < j {
      SentStays(ss, size, i, j - 1, k);
      SentStaysNext(ss, size, j - 1, k);
    }
  }

  lemma SentStaysNext(ss: seq<Ring>, size: nat, i: nat, k: nat)
    requires Run(ss, size) && i + 1 < |ss| && k in ss[i].sent
    ensures k in ss[i + 1].sent && ss[i + 1].sent[k] == ss[i].sent[k]
  {
    RunInv(ss, size, i);
    SentKept(ss[i], ss[i + 1], k);
  }

  lemma SentKept(s: Ring, t: Ring, k: nat)
    requires Inv(s) && Next(s, t) && k in s.sent
    ensures k in t.sent && t.sent[k] == s.sent[k]
  {
    var step :| Takes(s, t, step);
    if step.PopulateStep? {
      var i := s.producers[step.p].next;
      assert Pending(s, step.p, i);
    }
  }

  /** In every run a write hits a slot whose previous packet has been read. */
  lemma RunWritesFreeSlot(ss: seq<Ring>, size: nat, i: nat, p: nat, packet: DmaPacket)
    requires Run(ss, size) && i + 1 < |ss| && Populate(ss[i], ss[i + 1], p, packet)
    ensures var k := ss[i].producers[p].next;
            ss[i].slots[k % |ss[i].slots|].None? && k - |ss[i].slots| < ss[i].read
  {
    RunInv(ss, size, i);
    WritesFreeSlot(ss[i], ss[i + 1], p, packet);
  }

  /** The ring never gets stuck: while a producer is at work or a packet is unread, some step other than another
      reservation is possible, even if the spin loop sees only the newest read index. */
  lemma NeverStuck(s: Ring)
    requires Inv(s) && |s.slots| > 0 && (s.producers != map[] || s.read < s.write)
    ensures exists t, step: Step :: Takes(s, t, step) && !step.ReserveStep? && (step.PassStep? ==> step.seen == s.read)
  {
    if s.read < s.write {
      assert IndexOk(s, s.read);
      if s.read in s.sent {
        var t := s.(slots := s.slots[s.read % |s.slots| := None], read := s.read + 1,
                    consumed := s.consumed + [s.slots[s.read % |s.slots|].value.packet]);
        assert Takes(s, t, ConsumeStep);
      } else {
        var p :| Pending(s, p, s.read);
        ProducerMoves(s, p);
      }
    } else {
      var p :| p in s.producers;
      ProducerMoves(s, p);
    }
  }

  /** A producer whose next index is the read index, or who has nothing left to write, can move. */
  lemma ProducerMoves(s: Ring, p: nat)
    requires Inv(s) && |s.slots| > 0 && p in s.producers
    requires Unwritten(s.producers[p]) <= s.read
    ensures exists t, step: Step :: Takes(s, t, step) && !step.ReserveStep? && (step.PassStep? ==> step.seen == s.read)
  {
    var ph := s.producers[p];
    assert PhaseOk(s, ph);
    if ph.Spinning? {
      var t := s.(producers := s.producers[p := Writing(ph.first, ph.n, ph.first)]);
      assert Takes(s, t, PassStep(p, s.read));
    } else if ph.next < End(ph) {
      var i := ph.next;
      var t := s.(slots := s.slots[i % |s.slots| := Some(Filled(i, 0))],
                  producers := s.producers[p := ph.(next := i + 1)], sent := s.sent[i := 0]);
      assert Takes(s, t, PopulateStep(p, 0));
    } else {
      var t := s.(producers := s.producers - {p});
      assert Takes(s, t, RingStep(p));
    }
  }
}
