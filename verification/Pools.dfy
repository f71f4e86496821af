/** The signal pool of src/driver/csq_context.cpp and the kernarg pool of src/driver/csq_device.cpp: slots with an
    in-use flag each, searched round robin from a cursor. */
module Pools {
  import opened Arithmetic

  // ------------------------------------------------------------------------------------------
  // Searching
  // ------------------------------------------------------------------------------------------

  /** Slot i comes before `slot` when going up from `start`, from the last slot on to the first. */
  predicate OnTheWay(start: nat, slot: nat, i: int) {
    if start <= slot then start <= i < slot else i >= start || i < slot
  }

  /** Slot `slot` is free and no slot on the way from `start` to it is. */
  ghost predicate NextFreeSlot(flags: seq<bool>, start: nat, slot: nat) {
    && start < |flags| && slot < |flags| && !flags[slot]
    && forall i | 0 <= i < |flags| && OnTheWay(start, slot, i) :: flags[i]
  }

  predicate AllTaken(flags: seq<bool>) {
    forall i | 0 <= i < |flags| :: flags[i]
  }

  /** The slot under the cursor if it is free, else the first free one after it; at most once around. */
  method Search(flags: seq<bool>, start: nat) returns (found: bool, cursor: nat)
    requires start < |flags|
    ensures found <==> !AllTaken(flags)
    ensures found ==> NextFreeSlot(flags, start, cursor)
  {
    cursor := start;
    if !flags[cursor] {
      return true, cursor;
    }
    while true
      invariant cursor < |flags| && flags[cursor]
      invariant forall i | 0 <= i < |flags| && OnTheWay(start, cursor, i) :: flags[i]
      decreases if cursor >= start then |flags| - cursor + start else start - cursor
    {
      cursor := cursor + 1;
      if cursor == |flags| {
        cursor := 0;
      }
      if !flags[cursor] {
        return true, cursor;
      }
      if cursor == start {
        break;
      }
    }
    return false, cursor;
  }

  /** The slots somebody holds. */
  function Taken(flags: seq<bool>): set<nat> {
    set i: nat | i < |flags| && flags[i]
  }

  lemma NextSlot(slot: nat, n: nat)
    requires slot < n
    ensures (slot + 1) % n == if slot + 1 == n then 0 else slot + 1
  {
    DivUnique(slot + 1, n, if slot + 1 == n then 1 else 0);
  }

  /** Flags after the search handed a slot out: `grown` free ones appear when none was left, and the first of them is
      it. */
  ghost predicate Handed(flags: seq<bool>, cursor: nat, grown: nat, flags1: seq<bool>, cursor1: nat, slot: nat) {
    && (if AllTaken(flags) then slot == |flags| && |flags1| == |flags| + grown
        else NextFreeSlot(flags, cursor, slot) && |flags1| == |flags|)
    && slot < |flags1| && flags1[slot]
    && (forall i | 0 <= i < |flags1| && i != slot :: flags1[i] == (i < |flags| && flags[i]))
    && cursor1 == (slot + 1) % |flags1|
  }

  /** A slot that is handed out was nobody's, and is now one more that is held. */
  lemma HandedIsNew(flags: seq<bool>, cursor: nat, grown: nat, flags1: seq<bool>, cursor1: nat, slot: nat)
    requires Handed(flags, cursor, grown, flags1, cursor1, slot)
    ensures slot !in Taken(flags) && Taken(flags1) == Taken(flags) + {slot} && cursor1 < |flags1|
  {
    NextSlot(slot, |flags1|);
  }

  // ------------------------------------------------------------------------------------------
  // Signals
  // ------------------------------------------------------------------------------------------

  class DlaContext {
    /** HCC_SIGNAL_POOL_SIZE. */
    const poolSize: nat
    var signalPool: seq<nat>
    var signalPoolFlag: seq<bool>
    var signalCursor: nat
    /** The value of each signal. */
    var values: map<nat, int>

    ghost predicate Valid()
      reads this
    {
      && poolSize > 0 && |signalPool| == |signalPoolFlag| && signalCursor < |signalPool|
      && (forall i, j | 0 <= i < j < |signalPool| :: signalPool[i] != signalPool[j])
      && (forall i | 0 <= i < |signalPool| :: signalPool[i] != 0 && signalPool[i] in values)
      && (forall i | 0 <= i < |signalPool| && !signalPoolFlag[i] :: values[signalPool[i]] == 1)
      && (forall s | s in values :: s in signalPool)
    }

    constructor (poolSize: nat, handles: seq<nat>)
      requires poolSize > 0 && |handles| == poolSize && NewHandles(handles, {})
      ensures Valid() && this.poolSize == poolSize && signalPool == handles && Taken(signalPoolFlag) == {}
    {
      this.poolSize, signalPool, signalPoolFlag, signalCursor := poolSize, [], [], 0;
      values := map[];
      new;
      for i := 0 to poolSize
        invariant |signalPool| == |signalPoolFlag| == i && signalPool == handles[..i] && signalCursor == 0
        invariant forall k | 0 <= k < i :: !signalPoolFlag[k] && signalPool[k] in values && values[signalPool[k]] == 1
        invariant forall s | s in values :: s in signalPool
      {
        CreateSignal(handles[i]);
      }
    }

    /** hsa_signal_create(1, ...), and the new signal's place in the pool. */
    method CreateSignal(handle: nat)
      modifies this`signalPool, this`signalPoolFlag, this`values
      ensures signalPool == old(signalPool) + [handle] && signalPoolFlag == old(signalPoolFlag) + [false]
      ensures values == old(values)[handle := 1]
    {
      values := values[handle := 1];
      signalPool := signalPool + [handle];
      signalPoolFlag := signalPoolFlag + [false];
    }

    /** A signal that nobody holds, with value 1.  `handles` are those that are created if none is left. */
    method GetSignal(handles: seq<nat>) returns (signal: nat, slot: nat)
      requires Valid() && |handles| == poolSize && NewHandles(handles, values.Keys)
      modifies this
      ensures Valid()
      ensures Handed(old(signalPoolFlag), old(signalCursor), poolSize, signalPoolFlag, signalCursor, slot)
      ensures signalPool == old(signalPool) + if AllTaken(old(signalPoolFlag)) then handles else []
      ensures signal == signalPool[slot] && values[signal] == 1
      ensures forall s | s in old(values) :: s in values && values[s] == old(values)[s]
    {
      var found, cursor := Search(signalPoolFlag, signalCursor);
      if !found {
        cursor := |signalPool|;
        GrowSignals(handles);
      } else {
        assert NextFreeSlot(signalPoolFlag, signalCursor, cursor);
      }
      HandOut(cursor);
      return signalPool[cursor], cursor;
    }

    /** The slot is in use, and the cursor moves behind it. */
    method HandOut(cursor: nat)
      requires Valid() && cursor < |signalPool|
      modifies this`signalPoolFlag, this`signalCursor
      ensures Valid() && signalPoolFlag == old(signalPoolFlag)[cursor := true] &&
              signalCursor == (cursor + 1) % |signalPool|
    {
      NextSlot(cursor, |signalPool|);
      signalPoolFlag := signalPoolFlag[cursor := true];
      signalCursor := cursor + 1;
      if signalCursor == |signalPool| {
        signalCursor := 0;
      }
    }

    method GrowSignals(handles: seq<nat>)
      requires Valid() && |handles| == poolSize && NewHandles(handles, values.Keys)
      modifies this`signalPool, this`signalPoolFlag, this`values
      ensures Valid() && signalPool == old(signalPool) + handles
      ensures |signalPoolFlag| == |old(signalPoolFlag)| + poolSize
      ensures forall k | 0 <= k < |signalPoolFlag| ::
              signalPoolFlag[k] == (k < |old(signalPoolFlag)| && old(signalPoolFlag)[k])
      ensures forall s | s in old(values) :: s in values && values[s] == old(values)[s]
    {
      ghost var n := |signalPool|;
      for i := 0 to poolSize
        invariant |signalPool| == |signalPoolFlag| == n + i && signalPool == old(signalPool) + handles[..i]
        invariant forall k | 0 <= k < n + i :: signalPoolFlag[k] == (k < n && old(signalPoolFlag)[k])
        invariant forall s | s in old(values) :: s in values && values[s] == old(values)[s]
        invariant forall k | 0 <= k < i :: handles[k] in values && values[handles[k]] == 1
        invariant forall s | s in values :: s in signalPool
      {
        CreateSignal(handles[i]);
      }
      assert handles[..poolSize] == handles;
      forall k | 0 <= k < |signalPool|
        ensures signalPool[k] != 0 && signalPool[k] in values && (!signalPoolFlag[k] ==> values[signalPool[k]] == 1)
      {
        if k >= n { assert signalPool[k] == handles[k - n]; }
      }
    }

    /** Anybody may change the value of a signal somebody holds. */
    method StoreSignal(slot: nat, value: int)
      requires Valid() && slot in Taken(signalPoolFlag)
      modifies this`values
      ensures Valid() && values == old(values)[signalPool[slot] := value]
    {
      values := values[signalPool[slot] := value];
    }

    /** Nothing happens for a command that had no signal. */
    method ReleaseSignal(signal: nat, slot: nat)
      requires Valid() && (signal != 0 ==> slot in Taken(signalPoolFlag) && signalPool[slot] == signal)
      modifies this`values, this`signalPoolFlag
      ensures Valid()
      ensures Taken(signalPoolFlag)
              == if signal != 0 then old(Taken(signalPoolFlag)) - {slot} else old(Taken(signalPoolFlag))
      ensures signal != 0 ==> values == old(values)[signal := 1]
      ensures signal == 0 ==> unchanged(this)
    {
      if signal != 0 {
        values := values[signal := 1];
        signalPoolFlag := signalPoolFlag[slot := false];
      }
    }
  }

  /** Signals that do not exist yet. */
  ghost predicate NewHandles(handles: seq<nat>, existing: set<nat>) {
    && (forall i | 0 <= i < |handles| :: handles[i] != 0 && handles[i] !in existing)
    && (forall i, j | 0 <= i < j < |handles| :: handles[i] != handles[j])
  }

  // ------------------------------------------------------------------------------------------
  // Kernel arguments
  // ------------------------------------------------------------------------------------------

  const KERNARG_BUFFER_SIZE := 512
  const KERNARG_POOL_SIZE := 1024

  predicate Disjoint(a: nat, n: nat, b: nat, m: nat) {
    a + n <= b || b + m <= a
  }

  /** The pool's buffers and the buffers lent outside the pool do not overlap. */
  ghost predicate BuffersApart(pool: seq<nat>, loans: map<nat, nat>) {
    && (forall i, j | 0 <= i < j < |pool| :: Disjoint(pool[i], KERNARG_BUFFER_SIZE, pool[j], KERNARG_BUFFER_SIZE))
    && (forall i, b | 0 <= i < |pool| && b in loans :: Disjoint(pool[i], KERNARG_BUFFER_SIZE, b, loans[b]))
    && (forall b, c | b in loans && c in loans && b != c :: Disjoint(b, loans[b], c, loans[c]))
  }

  /** Memory the region can hand out: it overlaps nothing that is in use. */
  ghost predicate Unused(pool: seq<nat>, loans: map<nat, nat>, base: nat, length: nat) {
    && (forall i | 0 <= i < |pool| :: Disjoint(pool[i], KERNARG_BUFFER_SIZE, base, length))
    && (forall b | b in loans :: Disjoint(b, loans[b], base, length))
  }

  class KernargPool {
    var kernargPool: seq<nat>
    var kernargPoolFlag: seq<bool>
    var kernargCursor: nat
    /** Buffers allocated outside the pool. */
    var loans: map<nat, nat>

    ghost predicate Valid()
      reads this
    {
      && |kernargPool| == |kernargPoolFlag| && kernargCursor < |kernargPool|
      && BuffersApart(kernargPool, loans)
      && (forall b | b in loans :: b > 0 && loans[b] > KERNARG_BUFFER_SIZE)
    }

    constructor (memory: nat)
      ensures Valid() && Taken(kernargPoolFlag) == {} && |kernargPool| == KERNARG_POOL_SIZE && loans == map[]
    {
      kernargPool, kernargPoolFlag, kernargCursor, loans := [], [], 0, map[];
      new;
      GrowKernargBuffer(memory);
    }

    /** One allocation cut into buffers. */
    method GrowKernargBuffer(memory: nat)
      requires |kernargPool| == |kernargPoolFlag| && BuffersApart(kernargPool, loans)
      requires Unused(kernargPool, loans, memory, KERNARG_POOL_SIZE * KERNARG_BUFFER_SIZE)
      modifies this`kernargPool, this`kernargPoolFlag
      ensures BuffersApart(kernargPool, loans)
      ensures |kernargPool| == |kernargPoolFlag| == |old(kernargPool)| + KERNARG_POOL_SIZE
      ensures old(kernargPool) <= kernargPool
      ensures forall k | 0 <= k < |kernargPoolFlag| ::
              kernargPoolFlag[k] == (k < |old(kernargPoolFlag)| && old(kernargPoolFlag)[k])
    {
      var i := 0;
      ghost var n, c := |kernargPool|, 0;
      while i < KERNARG_POOL_SIZE * KERNARG_BUFFER_SIZE
        invariant 0 <= c && i == c * KERNARG_BUFFER_SIZE && c <= KERNARG_POOL_SIZE
        invariant |kernargPool| == |kernargPoolFlag| == n + c && old(kernargPool) <= kernargPool
        invariant forall k | n <= k < n + c :: kernargPool[k] == memory + (k - n) * KERNARG_BUFFER_SIZE
        invariant forall k | 0 <= k < n + c :: kernargPoolFlag[k] == (k < n && old(kernargPoolFlag)[k])
      {
        kernargPool := kernargPool + [memory + i];
        kernargPoolFlag := kernargPoolFlag + [false];
        i, c := i + KERNARG_BUFFER_SIZE, c + 1;
      }
      ChunksApart(old(kernargPool), kernargPool, loans, memory);
    }

    /** A buffer that nobody else holds: one of the pool, or for large arguments one of its own, marked by index -1.
        `memory` is what the region allocates if it has to. */
    method GetKernargBuffer(size: int, memory: nat) returns (buffer: nat, index: int)
      requires Valid() && memory > 0
      requires Unused(kernargPool, loans, memory, if size > KERNARG_BUFFER_SIZE then size
               else KERNARG_POOL_SIZE * KERNARG_BUFFER_SIZE)
      modifies this
      ensures Valid()
      ensures size > KERNARG_BUFFER_SIZE ==>
              && index == -1 && buffer == memory && buffer !in old(loans) && loans == old(loans)[buffer := size]
              && kernargPool == old(kernargPool) && kernargPoolFlag == old(kernargPoolFlag)
      ensures size <= KERNARG_BUFFER_SIZE ==>
              && index >= 0 && loans == old(loans) && old(kernargPool) <= kernargPool
              && Handed(old(kernargPoolFlag), old(kernargCursor), KERNARG_POOL_SIZE, kernargPoolFlag, kernargCursor,
                  index)
              && buffer == kernargPool[index]
    {
      if size <= KERNARG_BUFFER_SIZE {
        var found, cursor := Search(kernargPoolFlag, kernargCursor);
        if !found {
          cursor := |kernargPool|;
          GrowKernargBuffer(memory);
        } else {
          assert NextFreeSlot(kernargPoolFlag, kernargCursor, cursor);
        }
        NextSlot(cursor, |kernargPool|);
        kernargPoolFlag := kernargPoolFlag[cursor := true];
        kernargCursor := cursor + 1;
        if kernargCursor == |kernargPool| {
          kernargCursor := 0;
        }
        return kernargPool[cursor], cursor;
      }
      loans := loans[memory := size];
      return memory, -1;
    }

    /** A pool buffer goes back to the pool, any other to the region. */
    method ReleaseKernargBuffer(buffer: nat, index: int)
      requires Valid()
      requires if index >= 0 then index in Taken(kernargPoolFlag) else buffer in loans || buffer == 0
      modifies this`kernargPoolFlag, this`loans
      ensures Valid()
      ensures index >= 0 ==> Taken(kernargPoolFlag) == old(Taken(kernargPoolFlag)) - {index} && loans == old(loans)
      ensures index < 0 ==> kernargPoolFlag == old(kernargPoolFlag) && loans == old(loans) - {buffer}
    {
      if index >= 0 {
        kernargPoolFlag := kernargPoolFlag[index := false];
      } else {
        if buffer != 0 {
          loans := loans - {buffer};
        }
      }
    }
  }

  lemma ChunksApart(pool: seq<nat>, pool1: seq<nat>, loans: map<nat, nat>, memory: nat)
    requires BuffersApart(pool, loans) && Unused(pool, loans, memory, KERNARG_POOL_SIZE * KERNARG_BUFFER_SIZE)
    requires |pool1| == |pool| + KERNARG_POOL_SIZE && pool <= pool1
    requires forall k | |pool| <= k < |pool1| :: pool1[k] == memory + (k - |pool|) * KERNARG_BUFFER_SIZE
    ensures BuffersApart(pool1, loans)
  {
    forall i, j | 0 <= i < j < |pool1|
      ensures Disjoint(pool1[i], KERNARG_BUFFER_SIZE, pool1[j], KERNARG_BUFFER_SIZE)
    {
      if i < |pool| <= j {
        assert Disjoint(pool[i], KERNARG_BUFFER_SIZE, memory, KERNARG_POOL_SIZE * KERNARG_BUFFER_SIZE);
      }
    }
    forall i, b | 0 <= i < |pool1| && b in loans
      ensures Disjoint(pool1[i], KERNARG_BUFFER_SIZE, b, loans[b])
    {
      if i < |pool| { assert pool1[i] == pool[i]; }
    }
  }
}
