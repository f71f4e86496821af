/** The range-keyed pointer tracker of src/driver/csq_pointer.cpp.  Its ordered map is a sequence in the order of the
    map's comparator, searched by halving. */
module PointerTracker {

  /** Both ends of a range are inclusive. */
  datatype MemoryRange = MemoryRange(basePointer: int, endPointer: int)

  function RangeOf(basePointer: int, sizeBytes: nat): MemoryRange {
    MemoryRange(basePointer, basePointer + sizeBytes - 1)
  }

  /** AmMemoryRangeCompare: wholly below. */
  predicate Less(lhs: MemoryRange, rhs: MemoryRange) {
    lhs.endPointer < rhs.basePointer
  }

  predicate Contains(r: MemoryRange, p: int) {
    r.basePointer <= p <= r.endPointer
  }

  predicate Overlap(a: MemoryRange, b: MemoryRange) {
    a.basePointer <= b.endPointer && b.basePointer <= a.endPointer
  }

  type Accelerator = int

  datatype PointerInfo = PointerInfo(acc: Accelerator, sizeBytes: nat, unalignedDevicePointer: int, isInDeviceMem: bool,
                                     isAmManaged: bool, allocSeqNum: nat, appId: int)

  datatype Entry = Entry(range: MemoryRange, info: PointerInfo)

  type Entries = seq<Entry>

  ghost predicate EntryOk(e: Entry) {
    e.info.sizeBytes > 0 && e.range == RangeOf(e.range.basePointer, e.info.sizeBytes)
  }

  ghost predicate Before(es: Entries, i: int, j: int)
    requires 0 <= i < j < |es|
  {
    Less(es[i].range, es[j].range)
  }

  /** Entries are in order, so tracked ranges are pairwise disjoint. */
  ghost predicate EntriesOrdered(es: Entries) {
    && (forall i | 0 <= i < |es| :: EntryOk(es[i]))
    && (forall i, j | 0 <= i < j < |es| :: Before(es, i, j))
  }

  /** What the tracker holds, whatever the order. */
  ghost function Tracked(es: Entries): set<Entry> {
    set i | 0 <= i < |es| :: es[i]
  }

  // ------------------------------------------------------------------------------------------
  // Sums
  // ------------------------------------------------------------------------------------------

  /** The bytes among the first n entries that are an accelerator's and have the two flags. */
  function BytesOf(es: Entries, acc: Accelerator, isAmManaged: bool, isInDeviceMem: bool, n: nat): nat
    requires n <= |es|
  {
    if n == 0 then 0
    else
      var info := es[n - 1].info;
      BytesOf(es, acc, isAmManaged, isInDeviceMem, n - 1) +
      if info.acc == acc && info.isAmManaged == isAmManaged && info.isInDeviceMem == isInDeviceMem
      then info.sizeBytes else 0
  }

  /** All bytes tracked for an accelerator by the first n entries. */
  function BytesTracked(es: Entries, acc: Accelerator, n: nat): nat
    requires n <= |es|
  {
    if n == 0 then 0
    else BytesTracked(es, acc, n - 1) + if es[n - 1].info.acc == acc then es[n - 1].info.sizeBytes else 0
  }

  lemma {:induction false} ClassesCoverAll(es: Entries, acc: Accelerator, n: nat)
    requires n <= |es|
    ensures BytesOf(es, acc, true, true, n) + BytesOf(es, acc, true, false, n)
            + BytesOf(es, acc, false, true, n) + BytesOf(es, acc, false, false, n) == BytesTracked(es, acc, n)
  {
    if n > 0 {
      ClassesCoverAll(es, acc, n - 1);
    }
  }

  // ------------------------------------------------------------------------------------------
  // Reset
  // ------------------------------------------------------------------------------------------

  /** The entries of other accelerators among the first n, in order. */
  function Others(es: Entries, acc: Accelerator, n: nat): (r: Entries)
    requires n <= |es|
    ensures |r| <= n
  {
    if n == 0 then []
    else Others(es, acc, n - 1) + if es[n - 1].info.acc == acc then [] else [es[n - 1]]
  }

  /** What has to be freed of the first n entries for an accelerator: the memory that this library allocated. */
  function ToFree(es: Entries, acc: Accelerator, n: nat): seq<int>
    requires n <= |es|
  {
    if n == 0 then []
    else ToFree(es, acc, n - 1)
         + var info := es[n - 1].info; if info.acc == acc && info.isAmManaged then [info.unalignedDevicePointer] else []
  }

  /** Exactly the memory that the library allocated for the accelerator is freed, once and in order. */
  lemma {:induction false} ToFreeExactly(es: Entries, acc: Accelerator, n: nat) returns (places: seq<int>)
    requires n <= |es|
    ensures FreesAt(es, acc, n, places, ToFree(es, acc, n))
  {
    if n == 0 {
      return [];
    }
    places := ToFreeExactly(es, acc, n - 1);
    var before := ToFree(es, acc, n - 1);
    ToFreeStep(es, acc, n - 1);
    if Allocated(es, acc, n - 1) {
      FreesOneMore(es, acc, n - 1, places, before);
      places := places + [n - 1];
    } else {
      FreesNoMore(es, acc, n - 1, places, before);
      assert ToFree(es, acc, n) == before;
    }
  }

  ghost predicate Allocated(es: Entries, acc: Accelerator, i: int)
    requires 0 <= i < |es|
  {
    es[i].info.acc == acc && es[i].info.isAmManaged
  }

  /** The pointers of the entries at these places, which are those among the first n with such memory, in order. */
  ghost predicate FreesAt(es: Entries, acc: Accelerator, n: nat, places: seq<int>, freed: seq<int>)
    requires n <= |es|
  {
    && |freed| == |places|
    && (forall k | 0 <= k < |places| :: 0 <= places[k] < n && Allocated(es, acc, places[k]))
    && (forall k | 0 <= k < |places| :: freed[k] == es[places[k]].info.unalignedDevicePointer)
    && (forall j, k | 0 <= j < k < |places| :: places[j] < places[k])
    && (forall i | 0 <= i < n && Allocated(es, acc, i) :: i in places)
  }

  lemma FreesOneMore(es: Entries, acc: Accelerator, n: nat, places: seq<int>, freed: seq<int>)
    requires n < |es| && Allocated(es, acc, n) && FreesAt(es, acc, n, places, freed)
    ensures FreesAt(es, acc, n + 1, places + [n], freed + [es[n].info.unalignedDevicePointer])
  {
  }

  lemma FreesNoMore(es: Entries, acc: Accelerator, n: nat, places: seq<int>, freed: seq<int>)
    requires n < |es| && !Allocated(es, acc, n) && FreesAt(es, acc, n, places, freed)
    ensures FreesAt(es, acc, n + 1, places, freed)
  {
    forall i | 0 <= i < n + 1 && Allocated(es, acc, i)
      ensures i in places
    {
      assert i < n;
    }
  }

  /** Exactly the entries of other accelerators stay. */
  lemma {:induction false} OthersStay(es: Entries, acc: Accelerator, n: nat, e: Entry)
    requires n <= |es|
    ensures e in Others(es, acc, n) <==> e in es[..n] && e.info.acc != acc
  {
    if n > 0 {
      OthersStay(es, acc, n - 1, e);
      assert es[..n] == es[..n - 1] + [es[n - 1]];
    }
  }

  lemma {:induction false} OthersOrdered(es: Entries, acc: Accelerator, n: nat)
    requires EntriesOrdered(es) && n <= |es|
    ensures EntriesOrdered(Others(es, acc, n))
  {
    if n > 0 {
      OthersOrdered(es, acc, n - 1);
      var r, rest := Others(es, acc, n), Others(es, acc, n - 1);
      forall i, j | 0 <= i < j < |r|
        ensures Before(r, i, j)
      {
        if j < |rest| {
          assert Before(rest, i, j);
        } else {
          OthersStay(es, acc, n - 1, rest[i]);
          var k :| 0 <= k < n - 1 && es[k] == rest[i];
          assert Before(es, k, n - 1);
        }
      }
      forall i | 0 <= i < |r| ensures EntryOk(r[i]) {
        if i < |rest| { assert EntryOk(rest[i]); }
      }
    }
  }

  lemma {:induction false} SameBytes(es: Entries, fs: Entries, acc: Accelerator, isAmManaged: bool, isInDeviceMem: bool,
                                     n: nat)
    requires n <= |es| && n <= |fs| && forall i | 0 <= i < n :: es[i] == fs[i]
    ensures BytesOf(es, acc, isAmManaged, isInDeviceMem, n) == BytesOf(fs, acc, isAmManaged, isInDeviceMem, n)
  {
    if n > 0 {
      SameBytes(es, fs, acc, isAmManaged, isInDeviceMem, n - 1);
    }
  }

  /** A reset leaves nothing of its accelerator, and of the others everything. */
  lemma {:induction false} ResetBytes(es: Entries, acc: Accelerator, n: nat, other: Accelerator, isAmManaged: bool,
                                      isInDeviceMem: bool)
    requires n <= |es|
    ensures BytesOf(Others(es, acc, n), other, isAmManaged, isInDeviceMem, |Others(es, acc, n)|)
            == if other == acc then 0 else BytesOf(es, other, isAmManaged, isInDeviceMem, n)
  {
    if n > 0 {
      ResetBytes(es, acc, n - 1, other, isAmManaged, isInDeviceMem);
      SameBytes(Others(es, acc, n), Others(es, acc, n - 1), other, isAmManaged, isInDeviceMem,
                |Others(es, acc, n - 1)|);
    }
  }

  function Without(es: Entries, i: nat): (r: Entries)
    requires i < |es|
    ensures |r| == |es| - 1
  {
    es[..i] + es[i + 1..]
  }

  /** The tracker while a reset has looked at n entries. */
  function Half(es: Entries, acc: Accelerator, n: nat): (r: Entries)
    requires n <= |es|
    ensures |r| == |Others(es, acc, n)| + |es| - n
  {
    Others(es, acc, n) + es[n..]
  }

  /** Taking out or passing over the next entry. */
  lemma ResetStep(es: Entries, acc: Accelerator, n: nat)
    requires n < |es|
    ensures var k, half := |Others(es, acc, n)|, Half(es, acc, n);
            && half[k] == es[n]
            && (es[n].info.acc == acc ==> Half(es, acc, n + 1) == Without(half, k) && |Others(es, acc, n + 1)| == k)
            && (es[n].info.acc != acc ==> Half(es, acc, n + 1) == half && |Others(es, acc, n + 1)| == k + 1)
  {
    var kept, half := Others(es, acc, n), Half(es, acc, n);
    assert half == kept + [es[n]] + es[n + 1..];
  }

  lemma ToFreeStep(es: Entries, acc: Accelerator, n: nat)
    requires n < |es|
    ensures ToFree(es, acc, n + 1) == ToFree(es, acc, n) +
              if es[n].info.acc == acc && es[n].info.isAmManaged then [es[n].info.unalignedDevicePointer] else []
  {
  }

  lemma ResetEnds(es: Entries, acc: Accelerator)
    ensures Half(es, acc, 0) == es && Half(es, acc, |es|) == Others(es, acc, |es|)
  {
  }

  // ------------------------------------------------------------------------------------------
  // The tracker
  // ------------------------------------------------------------------------------------------

  class AmPointerTracker {
    var tracker: Entries
    var allocSeqNum: nat

    ghost predicate Valid()
      reads this
    {
      EntriesOrdered(tracker)
    }

    constructor ()
      ensures Valid() && tracker == []
    {
      tracker, allocSeqNum := [], 0;
    }

    /** The first entry that is not wholly below the key. */
    method LowerBound(key: MemoryRange) returns (i: nat)
      requires Valid()
      ensures i <= |tracker|
      ensures forall j | 0 <= j < i :: Less(tracker[j].range, key)
      ensures forall j | i <= j < |tracker| :: !Less(tracker[j].range, key)
    {
      i := 0;
      var hi := |tracker|;
      while i < hi
        invariant i <= hi <= |tracker|
        invariant forall j | 0 <= j < i :: Less(tracker[j].range, key)
        invariant forall j | hi <= j < |tracker| :: !Less(tracker[j].range, key)
      {
        var mid := (i + hi) / 2;
        if Less(tracker[mid].range, key) {
          forall j | 0 <= j < mid ensures Less(tracker[j].range, key) {
            assert Before(tracker, j, mid) && EntryOk(tracker[mid]);
          }
          i := mid + 1;
        } else {
          forall j | mid < j < |tracker| ensures !Less(tracker[j].range, key) {
            assert Before(tracker, mid, j) && EntryOk(tracker[mid]) && EntryOk(tracker[j]);
          }
          hi := mid;
        }
      }
    }

    /** Search for a key: the place of the entry that neither lies below it nor above, or the end. */
    method Search(key: MemoryRange) returns (i: nat)
      requires Valid() && key.basePointer <= key.endPointer
      ensures i <= |tracker|
      ensures i < |tracker| ==> Overlap(tracker[i].range, key)
      ensures i == |tracker| ==> forall j | 0 <= j < |tracker| :: !Overlap(tracker[j].range, key)
    {
      i := LowerBound(key);
      if i < |tracker| && Less(key, tracker[i].range) {
        forall j | i < j < |tracker| ensures Less(key, tracker[j].range) {
          assert Before(tracker, i, j) && EntryOk(tracker[i]);
        }
        return |tracker|;
      }
    }

    /** The entry of the one tracked range that contains p, or the end. */
    method Find(p: int) returns (i: nat)
      requires Valid()
      ensures i <= |tracker|
      ensures i < |tracker| ==> forall j | 0 <= j < |tracker| :: Contains(tracker[j].range, p) <==> j == i
      ensures i == |tracker| ==> forall j | 0 <= j < |tracker| :: !Contains(tracker[j].range, p)
    {
      i := Search(RangeOf(p, 1));
      if i < |tracker| {
        forall j | 0 <= j < |tracker|
          ensures Contains(tracker[j].range, p) <==> j == i
        {
          if j < i { assert Before(tracker, j, i); }
          if i < j { assert Before(tracker, i, j); }
        }
      }
    }

    /** Track a range; when it overlaps a tracked one nothing but the sequence number changes. */
    method Insert(pointer: int, p: PointerInfo)
      requires Valid() && p.sizeBytes > 0
      modifies this
      ensures Valid() && allocSeqNum == old(allocSeqNum) + 1
      ensures var e := Entry(MemoryRange(pointer, pointer + p.sizeBytes - 1), p.(allocSeqNum := allocSeqNum));
              if OverlapsTracked(old(tracker), pointer, p.sizeBytes) then tracker == old(tracker)
              else exists i :: InsertedAt(old(tracker), e, i, tracker)
    {
      allocSeqNum := allocSeqNum + 1;
      var e := Entry(RangeOf(pointer, p.sizeBytes), p.(allocSeqNum := allocSeqNum));
      assert e.range == MemoryRange(pointer, pointer + p.sizeBytes - 1);
      var i := LowerBound(e.range);
      if i == |tracker| || Less(e.range, tracker[i].range) {
        InsertOrdered(tracker, i, e);
        NoneOverlaps(tracker, pointer, p.sizeBytes);
        tracker := tracker[..i] + [e] + tracker[i..];
        assert InsertedAt(old(tracker), e, i, tracker);
      } else {
        assert EntryOk(tracker[i]) && Overlap(tracker[i].range, e.range);
        OneOverlaps(tracker, pointer, p.sizeBytes, i);
      }
    }

    /** Forget the range that contains the pointer; the number of ranges removed. */
    method Remove(pointer: int) returns (n: nat)
      requires Valid()
      modifies this`tracker
      ensures Valid()
      ensures n == 1 || (n == 0 && tracker == old(tracker))
      ensures n == 0 <==> forall j | 0 <= j < |old(tracker)| :: !Contains(old(tracker)[j].range, pointer)
      ensures |tracker| + n == |old(tracker)|
      ensures forall e :: e in Tracked(tracker) <==> e in Tracked(old(tracker)) && !Contains(e.range, pointer)
    {
      var i := Find(pointer);
      if i == |tracker| {
        return 0;
      }
      assert Contains(tracker[i].range, pointer);
      RemoveOrdered(tracker, i, pointer);
      Erase(i);
      return 1;
    }

    /** Forget every range of an accelerator; what is to be freed, and how many ranges went. */
    method Reset(acc: Accelerator) returns (count: nat, freed: seq<int>)
      requires Valid()
      modifies this`tracker
      ensures Valid() && tracker == Others(old(tracker), acc, |old(tracker)|)
      ensures count + |tracker| == |old(tracker)| && freed == ToFree(old(tracker), acc, |old(tracker)|)
    {
      ghost var all, done: nat := tracker, 0;
      count, freed := 0, [];
      var iter := 0;
      ResetEnds(all, acc);
      while iter < |tracker|
        invariant done <= |all| && iter == |Others(all, acc, done)| && tracker == Half(all, acc, done)
        invariant count + iter == done && freed == ToFree(all, acc, done)
        decreases |all| - done
      {
        iter, count, freed := ResetNext(acc, iter, count, freed, all, done);
        done := done + 1;
      }
      OthersOrdered(all, acc, |all|);
    }

    /** One entry is taken out or passed over. */
    method ResetNext(acc: Accelerator, iter0: nat, count0: nat, freed0: seq<int>, ghost all: Entries, ghost done: nat)
      returns (iter: nat, count: nat, freed: seq<int>)
      requires done < |all| && iter0 == |Others(all, acc, done)| && tracker == Half(all, acc, done)
      requires count0 + iter0 == done && freed0 == ToFree(all, acc, done)
      modifies this`tracker
      ensures iter == |Others(all, acc, done + 1)| && tracker == Half(all, acc, done + 1)
      ensures count + iter == done + 1 && freed == ToFree(all, acc, done + 1)
    {
      iter, count, freed := iter0, count0, freed0;
      ResetStep(all, acc, done);
      ToFreeStep(all, acc, done);
      var info := tracker[iter].info;
      if info.acc == acc {
        if info.isAmManaged {
          freed := freed + [info.unalignedDevicePointer];
        }
        count := count + 1;
        Erase(iter);
      } else {
        iter := iter + 1;
      }
    }

    method Erase(i: nat)
      requires i < |tracker|
      modifies this`tracker
      ensures tracker == Without(old(tracker), i)
    {
      tracker := tracker[..i] + tracker[i + 1..];
    }

    /** The bytes tracked for an accelerator in device memory, in host memory, and registered by the user. */
    method SizeInfo(acc: Accelerator) returns (deviceMemSize: nat, hostMemSize: nat, userMemSize: nat)
      ensures deviceMemSize == BytesOf(tracker, acc, true, true, |tracker|)
      ensures hostMemSize == BytesOf(tracker, acc, true, false, |tracker|)
      ensures userMemSize ==
              BytesOf(tracker, acc, false, true, |tracker|) + BytesOf(tracker, acc, false, false, |tracker|)
      ensures deviceMemSize + hostMemSize + userMemSize == BytesTracked(tracker, acc, |tracker|)
    {
      deviceMemSize, hostMemSize, userMemSize := 0, 0, 0;
      for i := 0 to |tracker|
        invariant deviceMemSize == BytesOf(tracker, acc, true, true, i)
        invariant hostMemSize == BytesOf(tracker, acc, true, false, i)
        invariant userMemSize == BytesOf(tracker, acc, false, true, i) + BytesOf(tracker, acc, false, false, i)
      {
        var info := tracker[i].info;
        if info.acc == acc {
          if info.isAmManaged {
            if info.isInDeviceMem {
              deviceMemSize := deviceMemSize + info.sizeBytes;
            } else {
              hostMemSize := hostMemSize + info.sizeBytes;
            }
          } else {
            userMemSize := userMemSize + info.sizeBytes;
          }
        }
      }
      ClassesCoverAll(tracker, acc, |tracker|);
    }
  }

  /** Tracking one more range raises exactly one of its accelerator's three totals, by its size, and no total of another
      accelerator; a range that overlaps a tracked one raises none. */
  method InsertRaisesOne(t: AmPointerTracker, pointer: int, p: PointerInfo, acc: Accelerator)
    returns (device0: nat, host0: nat, user0: nat, device1: nat, host1: nat, user1: nat)
    requires t.Valid() && p.sizeBytes > 0
    modifies t
    ensures t.Valid()
    ensures var n := if p.acc == acc && !OverlapsTracked(old(t.tracker), pointer, p.sizeBytes) then p.sizeBytes else 0;
            && device1 == device0 + (if p.isAmManaged && p.isInDeviceMem then n else 0)
            && host1 == host0 + (if p.isAmManaged && !p.isInDeviceMem then n else 0)
            && user1 == user0 + (if !p.isAmManaged then n else 0)
  {
    device0, host0, user0 := t.SizeInfo(acc);
    ghost var before := t.tracker;
    t.Insert(pointer, p);
    if !OverlapsTracked(before, pointer, p.sizeBytes) {
      ghost var e := Entry(MemoryRange(pointer, pointer + p.sizeBytes - 1), p.(allocSeqNum := t.allocSeqNum));
      ghost var i :| InsertedAt(before, e, i, t.tracker);
      InsertedBytes(before, e, i, acc, true, true);
      InsertedBytes(before, e, i, acc, true, false);
      InsertedBytes(before, e, i, acc, false, true);
      InsertedBytes(before, e, i, acc, false, false);
    }
    device1, host1, user1 := t.SizeInfo(acc);
  }

  /** Some tracked range and the n bytes from the pointer on have a byte in common. */
  ghost predicate OverlapsTracked(es: Entries, pointer: int, n: nat) {
    exists j :: 0 <= j < |es| && es[j].range.basePointer < pointer + n && pointer <= es[j].range.endPointer
  }

  lemma NoneOverlaps(es: Entries, pointer: int, n: nat)
    requires forall j | 0 <= j < |es| :: !Overlap(es[j].range, RangeOf(pointer, n))
    ensures !OverlapsTracked(es, pointer, n)
  {
    forall j | 0 <= j < |es|
      ensures !(es[j].range.basePointer < pointer + n && pointer <= es[j].range.endPointer)
    {
      assert !Overlap(es[j].range, RangeOf(pointer, n));
    }
  }

  lemma OneOverlaps(es: Entries, pointer: int, n: nat, i: nat)
    requires i < |es| && Overlap(es[i].range, RangeOf(pointer, n))
    ensures OverlapsTracked(es, pointer, n)
  {
    assert es[i].range.basePointer < pointer + n && pointer <= es[i].range.endPointer;
  }

  ghost predicate InsertedAt(es: Entries, e: Entry, i: int, r: Entries) {
    0 <= i <= |es| && r == es[..i] + [e] + es[i..]
  }

  lemma InsertedBytes(es: Entries, e: Entry, i: nat, acc: Accelerator, isAmManaged: bool, isInDeviceMem: bool)
    requires i <= |es|
    ensures var r, info := es[..i] + [e] + es[i..], e.info;
            BytesOf(r, acc, isAmManaged, isInDeviceMem, |r|) ==
            BytesOf(es, acc, isAmManaged, isInDeviceMem, |es|) +
            if info.acc == acc && info.isAmManaged == isAmManaged && info.isInDeviceMem == isInDeviceMem
            then info.sizeBytes else 0
  {
    SameBytes(es, es[..i] + [e] + es[i..], acc, isAmManaged, isInDeviceMem, i);
    ShiftedBytes(es, e, i, acc, isAmManaged, isInDeviceMem, |es|);
  }

  lemma {:induction false} ShiftedBytes(es: Entries, e: Entry, i: nat, acc: Accelerator, isAmManaged: bool,
                                        isInDeviceMem: bool, n: nat)
    requires i <= n <= |es|
    ensures var r, info := es[..i] + [e] + es[i..], e.info;
            BytesOf(r, acc, isAmManaged, isInDeviceMem, n + 1) ==
            BytesOf(es, acc, isAmManaged, isInDeviceMem, n) +
            if info.acc == acc && info.isAmManaged == isAmManaged && info.isInDeviceMem == isInDeviceMem
            then info.sizeBytes else 0
  {
    if n == i {
      SameBytes(es, es[..i] + [e] + es[i..], acc, isAmManaged, isInDeviceMem, i);
    } else {
      ShiftedBytes(es, e, i, acc, isAmManaged, isInDeviceMem, n - 1);
    }
  }

  lemma InsertOrdered(es: Entries, i: nat, e: Entry)
    requires EntriesOrdered(es) && i <= |es| && EntryOk(e)
    requires forall j | 0 <= j < i :: Less(es[j].range, e.range)
    requires i < |es| ==> Less(e.range, es[i].range)
    ensures EntriesOrdered(es[..i] + [e] + es[i..]) && Tracked(es[..i] + [e] + es[i..]) == Tracked(es) + {e}
    ensures forall j | 0 <= j < |es| :: !Overlap(es[j].range, e.range)
  {
    var r := es[..i] + [e] + es[i..];
    forall j | i <= j < |es| ensures Less(e.range, es[j].range) {
      if i < j { assert Before(es, i, j) && EntryOk(es[i]); }
    }
    forall j, k | 0 <= j < k < |r|
      ensures Before(r, j, k)
    {
      if j != i && k != i {
        assert Before(es, if j < i then j else j - 1, if k < i then k else k - 1);
      }
    }
    forall j | 0 <= j < |r| ensures EntryOk(r[j]) {
      if j != i { assert EntryOk(es[if j < i then j else j - 1]); }
    }
    assert r[i] == e;
    forall x | x in Tracked(es) ensures x in Tracked(r) {
      var j :| 0 <= j < |es| && es[j] == x;
      assert r[if j < i then j else j + 1] == x;
    }
  }

  lemma RemoveOrdered(es: Entries, i: nat, p: int)
    requires EntriesOrdered(es) && i < |es| && forall j | 0 <= j < |es| :: Contains(es[j].range, p) <==> j == i
    ensures EntriesOrdered(Without(es, i))
    ensures forall e :: e in Tracked(Without(es, i)) <==> e in Tracked(es) && !Contains(e.range, p)
  {
    var r := Without(es, i);
    forall j, k | 0 <= j < k < |r|
      ensures Before(r, j, k)
    {
      assert Before(es, if j < i then j else j + 1, if k < i then k else k + 1);
    }
    forall j | 0 <= j < |r| ensures EntryOk(r[j]) {
      assert EntryOk(es[if j < i then j else j + 1]);
    }
    forall e
      ensures e in Tracked(r) <==> e in Tracked(es) && !Contains(e.range, p)
    {
      if e in Tracked(es) && !Contains(e.range, p) {
        var j :| 0 <= j < |es| && es[j] == e;
        assert r[if j < i then j else j - 1] == e;
      }
      if e in Tracked(r) {
        var j :| 0 <= j < |r| && r[j] == e;
        assert es[if j < i then j else j + 1] == e;
      }
    }
  }
}
