/** The staged copies of src/driver/unpinned_copy_engine.cpp: host to device, device to host and peer to
    peer, through a few pinned buffers that asynchronous copies fill and empty.

    A launched copy is a pending operation.  It runs at any later step at which its dependency signal is 0,
    and then lowers its own completion signal.  The three pipelines are proved for every such schedule. */
module StagedCopy {
  import opened Arithmetic
  import opened Wrappers

  type Byte = b: int | 0 <= b < 256

  const TWO_64: int := 0x1_0000_0000_0000_0000
  const TWO_63: int := 0x8000_0000_0000_0000

  const MAX_BUFFERS := 4

  datatype Mode = H2D | D2H | P2P

  /** _completionSignal[i] and _completionSignal2[i]. */
  datatype Signal = First(i: nat) | Second(i: nat)

  /** A load copies from the source into a staging buffer, a store from a staging buffer to the destination. */
  datatype AsyncCopy =
    | Load(buf: nat, off: nat, len: nat, dep: Option<Signal>)
    | Store(buf: nat, off: nat, len: nat, dep: Option<Signal>)

  /** The stretch of the transfer that a staging buffer was last given. */
  datatype Chunk = Chunk(off: nat, len: nat)

  /** int64_t -= size_t: the subtraction is done in 64 unsigned bits and read back as signed. */
  function Int64Minus(a: int, b: nat): (r: int)
    requires 0 < a < TWO_63 && b < TWO_63
    ensures r == a - b
  {
    var u := (a - b) % TWO_64;
    if u >= TWO_63 then u - TWO_64 else u
  }

  /** uint64_t -= size_t. */
  function Uint64Minus(a: nat, b: nat): (r: nat)
    requires a < TWO_64 && b < TWO_64
    ensures r < TWO_64
    ensures b <= a ==> r == a - b
    ensures a < b ==> r == TWO_64 + a - b
  {
    (a - b) % TWO_64
  }

  /** The signal that the stores of a buffer lower. */
  function StoreSignal(peer: bool, b: nat): Signal {
    if peer then Second(b) else First(b)
  }

  /** The byte at which buffer b starts in a round that starts at byte `base`. */
  function Offset(base: nat, b: nat, bufferSize: nat): nat {
    if b == 0 then base else Offset(base, b - 1, bufferSize) + bufferSize
  }

  lemma OffsetMono(base: nat, b: nat, c: nat, bufferSize: nat)
    requires b <= c
    ensures Offset(base, b, bufferSize) <= Offset(base, c, bufferSize)
  {
  }

  class UnpinnedCopyEngine {
    const bufferSize: nat
    const numBuffers: nat
    const staging: array2<Byte>
    /** The value behind each completion signal. */
    var value: map<Signal, int>
    /** Copies the device has been given and has not run, by the completion signal they will lower. */
    var pending: map<Signal, AsyncCopy>
    var src: array<Byte>
    var dst: array<Byte>
    ghost var mode: Mode
    ghost var size: nat
    ghost var chunk: seq<Chunk>
    /** Bytes of the destination that are written, or that a pending store will write. */
    ghost var issued: nat
    ghost var dst0: seq<Byte>

    ghost predicate Shape()
      reads this
    {
      && 0 < bufferSize < TWO_63
      && 0 < numBuffers
      && staging.Length0 == numBuffers && staging.Length1 == bufferSize
      && (forall s: Signal | s.i < numBuffers :: s in value)
      && src != dst
      && size <= src.Length && size <= dst.Length && |dst0| == dst.Length
      && |chunk| == numBuffers
      && issued <= size
    }

    /** What the pipelines launch: the copy that lowers signal s is the load or the store of its buffer. */
    ghost predicate GoodOp(s: Signal, op: AsyncCopy)
      requires Shape()
      reads this
    {
      && op.buf == s.i < numBuffers
      && chunk[op.buf] == Chunk(op.off, op.len)
      && match op
         case Load(b, _, _, dep) => mode != H2D && dep == None && s == First(b)
         case Store(b, off, len, dep) =>
           && mode != D2H
           && off + len <= issued
           && dep == (if mode == P2P then Some(First(b)) else None)
           && s == StoreSignal(mode == P2P, b)
    }

    ghost predicate LoadPending(b: nat)
      reads this`pending
    {
      First(b) in pending && pending[First(b)].Load?
    }

    /** A buffer that no pending load will fill holds its stretch of the source. */
    ghost predicate Holds(b: nat)
      reads this`pending, this`chunk, this`src, staging, src
    {
      && b < |chunk| && b < staging.Length0
      && chunk[b].len <= staging.Length1 && chunk[b].off + chunk[b].len <= src.Length
      && (!LoadPending(b) ==> forall j | 0 <= j < chunk[b].len :: staging[b, j] == src[chunk[b].off + j])
    }

    ghost predicate StorePendingAt(x: nat)
      reads this`pending
    {
      exists s | s in pending :: pending[s].Store? && pending[s].off <= x < pending[s].off + pending[s].len
    }

    /** Byte x of the destination is written, or a pending store will write it. */
    ghost predicate Arrives(x: nat)
      reads this`pending, this`src, this`dst, src, dst
    {
      x < src.Length && x < dst.Length && (dst[x] == src[x] || StorePendingAt(x))
    }

    ghost predicate Inv()
      reads this, staging, src, dst
    {
      && Shape()
      && (forall s {:trigger GoodOp(s, pending[s])} | s in pending :: GoodOp(s, pending[s]))
      // A signal is 1 while a pending copy will lower it, and 0 otherwise.
      && (forall s: Signal | s.i < numBuffers :: value[s] == if s in pending then 1 else 0)
      && (forall b | 0 <= b < numBuffers :: Holds(b))
      && (forall b | 0 <= b < numBuffers :: chunk[b].len <= bufferSize && chunk[b].off + chunk[b].len <= size)
      && (forall x | 0 <= x < issued :: Arrives(x))
      && (forall x {:trigger dst0[x]} | issued <= x < dst.Length :: dst[x] == dst0[x])
    }

    /** No pending copy reads or writes the buffer. */
    ghost predicate Idle(b: nat)
      reads this`pending
    {
      forall s | s in pending :: pending[s].buf != b
    }

    predicate Ready(op: AsyncCopy)
      reads this`value
    {
      op.dep.Some? ==> op.dep.value in value && value[op.dep.value] == 0
    }

    /** A load launched but not run comes with a store that waits for it. */
    ghost predicate Paired(b: nat)
      reads this`pending
    {
      First(b) in pending ==> Second(b) in pending
    }

    /** A new engine has at most MAX_BUFFERS buffers and nothing to do. */
    constructor (bufferSize: nat, numBuffers: nat)
      requires 0 < bufferSize < TWO_63 && 0 < numBuffers
      ensures Quiescent() && fresh(staging)
      ensures this.bufferSize == bufferSize
      ensures this.numBuffers == if numBuffers > MAX_BUFFERS then MAX_BUFFERS else numBuffers
    {
      this.bufferSize, this.numBuffers := bufferSize, if numBuffers > MAX_BUFFERS then MAX_BUFFERS else numBuffers;
      staging := new Byte[if numBuffers > MAX_BUFFERS then MAX_BUFFERS else numBuffers, bufferSize];
      value, pending, chunk, issued, dst0 := map[], map[], [], 0, [];
      src, dst := new Byte[0], new Byte[0];
    }

    // ----------------------------------------------------------------------------------------
    // The device
    // ----------------------------------------------------------------------------------------

    /** Copies only leave the device, and in the peer pipeline no load loses the store that waits for it. */
    twostate predicate Lowered()
      reads this
    {
      && (forall s | s in pending :: s in old(pending) && pending[s] == old(pending)[s])
      && (mode == P2P ==> forall b: nat | old(Paired(b)) :: Paired(b))
    }

    /** The bytes of a copy are where it puts them. */
    ghost predicate Landed(op: AsyncCopy)
      reads this`src, this`dst, src, dst, staging
    {
      && op.off + op.len <= src.Length && op.off + op.len <= dst.Length
      && match op
         case Load(b, off, len, _) =>
           b < staging.Length0 && len <= staging.Length1 && forall j | 0 <= j < len :: staging[b, j] == src[off + j]
         case Store(_, off, len, _) =>
           forall x | off <= x < off + len :: dst[x] == src[x]
    }

    /** One pending copy runs, then lowers its completion signal. */
    method Fire(s: Signal)
      requires Inv() && s in pending && Ready(pending[s])
      modifies this`pending, this`value, staging, dst
      ensures Inv() && pending == old(pending) - {s}
      ensures Lowered()
    {
      var op := pending[s];
      if op.Load? {
        RunLoad(s);
      } else {
        RunStore(s);
      }
      LowerSignal(s);
    }

    method RunLoad(s: Signal)
      requires Inv() && s in pending && pending[s].Load?
      modifies staging
      ensures Inv() && Landed(pending[s])
    {
      var op := pending[s];
      assert GoodOp(s, op) && Holds(op.buf);
      forall j | 0 <= j < op.len {
        staging[op.buf, j] := src[op.off + j];
      }
      forall c | 0 <= c < numBuffers
        ensures Holds(c)
      {
        assert old(Holds(c));
      }
    }

    method RunStore(s: Signal)
      requires Inv() && s in pending && pending[s].Store? && Ready(pending[s])
      modifies dst
      ensures Inv() && Landed(pending[s])
    {
      var op := pending[s];
      var b := op.buf;
      OnlyThis(s);
      assert Holds(b) && !LoadPending(b);
      forall j | 0 <= j < op.len {
        dst[op.off + j] := staging[b, j];
      }
      forall x | op.off <= x < op.off + op.len
        ensures dst[x] == src[x]
      {
        assert dst[op.off + (x - op.off)] == src[x];
      }
      forall x | 0 <= x < issued
        ensures Arrives(x)
      {
        assert old(Arrives(x));
      }
    }

    method LowerSignal(s: Signal)
      requires Inv() && s in pending && Landed(pending[s]) && Ready(pending[s])
      modifies this`pending, this`value
      ensures Inv() && pending == old(pending) - {s}
      ensures Lowered()
    {
      OnlyThis(s);
      value := value[s := value[s] - 1];
      pending := pending - {s};
      GoodOpsKept();
      HoldsWithout(s);
      ArrivesWithout(s);
    }

    twostate lemma HoldsWithout(s: Signal)
      requires old(Shape()) && s in old(pending) && old(GoodOp(s, pending[s]) && Landed(pending[s])) &&
               pending == old(pending) - {s}
      requires unchanged(`chunk) && unchanged(`src) && unchanged(staging) && unchanged(src)
      requires forall c | 0 <= c < numBuffers :: old(Holds(c))
      ensures forall c | 0 <= c < numBuffers :: Holds(c)
    {
      forall c | 0 <= c < numBuffers
        ensures Holds(c)
      {
        assert old(Holds(c));
      }
    }

    twostate lemma ArrivesWithout(s: Signal)
      requires s in old(pending) && old(Landed(pending[s])) && pending == old(pending) - {s}
      requires unchanged(`src) && unchanged(`dst) && unchanged(src) && unchanged(dst) && unchanged(`issued)
      requires forall x | 0 <= x < issued :: old(Arrives(x))
      ensures forall x | 0 <= x < issued :: Arrives(x)
    {
      OtherStores(s);
      forall x | 0 <= x < issued
        ensures Arrives(x)
      {
        assert old(Arrives(x));
      }
    }

    /** A copy is for the buffer of its signal, and one that can run waits for no pending load. */
    lemma OnlyThis(s: Signal)
      requires Inv() && s in pending && Ready(pending[s])
      ensures GoodOp(s, pending[s])
      ensures pending[s].Store? ==> !LoadPending(pending[s].buf)
    {
      assert GoodOp(s, pending[s]);
      assert First(s.i) in pending ==> GoodOp(First(s.i), pending[First(s.i)]);
    }

    /** The pending copies keep their form while those of changed buffers do. */
    twostate lemma GoodOpsKept()
      requires old(Shape()) && Shape() && mode == old(mode) && old(issued) <= issued
      requires forall s | s in old(pending) :: old(GoodOp(s, pending[s]))
      requires forall s | s in pending && s !in old(pending) :: GoodOp(s, pending[s])
      requires forall s | s in pending && s in old(pending) ::
                 pending[s] == old(pending)[s] && (s.i < |chunk| ==> chunk[s.i] == old(chunk)[s.i])
      ensures forall s | s in pending :: GoodOp(s, pending[s])
    {
      forall s | s in pending
        ensures GoodOp(s, pending[s])
      {
        assert s in old(pending) ==> old(GoodOp(s, pending[s]));
      }
    }

    /** When one copy leaves, the bytes of all other stores are still pending. */
    twostate lemma OtherStores(s: Signal)
      requires s in old(pending) && pending == old(pending) - {s}
      ensures forall x: nat | old(StorePendingAt(x)) ::
                var op := old(pending)[s];
                StorePendingAt(x) || (op.Store? && op.off <= x < op.off + op.len)
    {
      assert forall p | p in old(pending) && p != s :: p in pending;
    }

    /** Any number of pending copies run, in any order their dependencies allow. */
    method Progress()
      requires Inv()
      modifies this`pending, this`value, staging, dst
      ensures Inv() && Lowered()
    {
      while *
        invariant Inv() && Lowered()
        decreases pending.Keys
      {
        if s :| s in pending && Ready(pending[s]) {
          Fire(s);
        } else {
          break;
        }
      }
    }

    /** As long as copies are pending one of them can run: a store waits for a load only. */
    lemma SomeReady() returns (s: Signal)
      requires Inv() && pending.Keys != {}
      ensures s in pending && Ready(pending[s])
    {
      s :| s in pending;
      assert GoodOp(s, pending[s]);
      if !Ready(pending[s]) {
        s := First(s.i);
        assert GoodOp(s, pending[s]);
      }
    }

    /** hsa_signal_wait_scacquire(signal, LT 1): copies run, at least until the signal is lowered. */
    method WaitSignal(s: Signal)
      requires Inv() && s.i < numBuffers
      modifies this`pending, this`value, staging, dst
      ensures Inv() && Lowered() && s !in pending
    {
      Progress();
      while value[s] >= 1
        invariant Inv() && Lowered()
        decreases pending.Keys
      {
        FireAny();
      }
    }

    /** Some pending copy that can run does. */
    method FireAny()
      requires Inv() && pending.Keys != {}
      modifies this`pending, this`value, staging, dst
      ensures Inv() && Lowered() && pending.Keys < old(pending.Keys)
    {
      ghost var ready := SomeReady();
      var next :| next in pending && Ready(pending[next]);
      Fire(next);
    }

    lemma IdleWhenLow(b: nat)
      requires Inv() && First(b) !in pending && (mode == P2P ==> Second(b) !in pending)
      ensures Idle(b)
    {
      assert forall s | s in pending :: GoodOp(s, pending[s]);
    }

    // ----------------------------------------------------------------------------------------
    // The host
    // ----------------------------------------------------------------------------------------

    /** Raise the completion signal of a buffer and launch the copy that fills it. */
    method LaunchLoad(b: nat, off: nat, len: nat)
      requires Inv() && mode != H2D
      requires b < numBuffers && len <= bufferSize && off + len <= size
      requires Idle(b) && First(b) !in pending
      modifies this`pending, this`value, this`chunk
      ensures Inv() && chunk == old(chunk)[b := Chunk(off, len)]
      ensures pending == old(pending)[First(b) := Load(b, off, len, None)]
    {
      value := value[First(b) := 1];
      pending := pending[First(b) := Load(b, off, len, None)];
      chunk := chunk[b := Chunk(off, len)];
      GoodOpsKept();
      forall c | 0 <= c < numBuffers
        ensures Holds(c)
      {
        assert old(Holds(c));
      }
      StoresKept();
    }

    /** Launching a copy under a signal that was free keeps the pending stores. */
    twostate lemma StoresKept()
      requires forall s | s in old(pending) :: s in pending && pending[s] == old(pending)[s]
      ensures forall x: nat | old(Arrives(x)) && src == old(src) && dst == old(dst) && unchanged(src) && unchanged(dst)
              :: Arrives(x)
    {
      forall x: nat | old(StorePendingAt(x))
        ensures StorePendingAt(x)
      {
      }
    }

    /** Raise the completion signal of a store and launch it, behind the load of its buffer if there is one. */
    method LaunchStore(b: nat, off: nat, len: nat, dep: Option<Signal>, done: Signal)
      requires Inv() && mode != D2H
      requires b < numBuffers && off == issued && chunk[b] == Chunk(off, len)
      requires dep == (if mode == P2P then Some(First(b)) else None)
      requires done == StoreSignal(mode == P2P, b)
      requires done !in pending
      modifies this`pending, this`value, this`issued
      ensures Inv() && issued == old(issued) + len
      ensures pending == old(pending)[done := Store(b, off, len, dep)]
    {
      value := value[done := 1];
      pending := pending[done := Store(b, off, len, dep)];
      issued := issued + len;
      GoodOpsKept();
      forall c | 0 <= c < numBuffers
        ensures Holds(c)
      {
        assert old(Holds(c));
      }
      StoresKept();
      forall x | off <= x < off + len
        ensures Arrives(x)
      {
        assert pending[done].off <= x < pending[done].off + pending[done].len;
      }
    }

    /** memcpy of a stretch of the source into a buffer that no pending copy uses. */
    method HostFill(b: nat, off: nat, len: nat)
      requires Inv() && b < numBuffers && len <= bufferSize && off + len <= size
      requires Idle(b)
      modifies this`chunk, staging
      ensures Inv() && chunk == old(chunk)[b := Chunk(off, len)]
    {
      forall j | 0 <= j < len {
        staging[b, j] := src[off + j];
      }
      chunk := chunk[b := Chunk(off, len)];
      GoodOpsKept();
      forall c | 0 <= c < numBuffers
        ensures Holds(c)
      {
        assert old(Holds(c));
      }
    }

    /** memcpy of a loaded buffer to the next stretch of the destination. */
    method HostDrain(b: nat, off: nat, len: nat)
      requires Inv() && b < numBuffers && mode == D2H
      requires off == issued && chunk[b] == Chunk(off, len) && First(b) !in pending
      modifies this`issued, dst
      ensures Inv() && issued == old(issued) + len
    {
      assert Holds(b) && !LoadPending(b);
      forall j | 0 <= j < len {
        dst[off + j] := staging[b, j];
      }
      issued := issued + len;
      GoodOpsKept();
      forall x | 0 <= x < issued
        ensures Arrives(x)
      {
        assert x < off ==> old(Arrives(x));
        if off <= x {
          assert dst[off + (x - off)] == src[x];
        }
      }
    }

    // ----------------------------------------------------------------------------------------
    // The pipelines
    // ----------------------------------------------------------------------------------------

    /** Between calls, under the copy lock: no copy is pending. */
    ghost predicate Quiescent()
      reads this
    {
      && 0 < bufferSize < TWO_63
      && 0 < numBuffers
      && staging.Length0 == numBuffers && staging.Length1 == bufferSize
      && pending == map[]
    }

    ghost predicate Running(mode: Mode, dst: array<Byte>, src: array<Byte>, size: nat, dst0: seq<Byte>)
      reads this, staging, this.src, this.dst
    {
      Inv() && this.mode == mode && this.dst == dst && this.src == src && this.size == size && this.dst0 == dst0
    }

    /** The start of every pipeline: all completion signals are stored 0. */
    method Begin(ghost mode: Mode, dst: array<Byte>, src: array<Byte>, ghost sizeBytes: nat)
      requires Quiescent() && src != dst && sizeBytes <= src.Length && sizeBytes <= dst.Length
      modifies this
      ensures Running(mode, dst, src, sizeBytes, dst[..]) && pending == map[] && issued == 0
    {
      this.src, this.dst := src, dst;
      this.mode, size, issued, dst0 := mode, sizeBytes, 0, dst[..];
      chunk := seq(numBuffers, _ => Chunk(0, 0));
      var i := 0;
      while i < numBuffers
        invariant 0 <= i <= numBuffers
        invariant forall s: Signal | s.i < i :: s in value && value[s] == 0
        invariant this.src == src && this.dst == dst && pending == map[]
        invariant this.mode == mode && size == sizeBytes && issued == 0 && dst0 == dst[..]
        invariant chunk == seq(numBuffers, _ => Chunk(0, 0))
      {
        value := value[First(i) := 0][Second(i) := 0];
        i := i + 1;
      }
    }

    /** When nothing is pending any more, what was issued is there. */
    lemma Delivered()
      requires Inv() && issued == size && pending == map[]
      ensures dst[..size] == src[..size] && dst[size..] == dst0[size..]
    {
      forall x | 0 <= x < size
        ensures dst[x] == src[x]
      {
        assert Arrives(x) && !StorePendingAt(x);
      }
    }

    /** Once every store has run, every load has. */
    lemma AllDone(peer: bool)
      requires Inv() && mode != D2H && (peer <==> mode == P2P)
      requires forall b: nat | b < numBuffers :: StoreSignal(peer, b) !in pending
      requires peer ==> forall b: nat | b < numBuffers :: Paired(b)
      ensures pending == map[]
    {
      forall s | s in pending
        ensures s.i < numBuffers && StoreSignal(peer, s.i) in pending
      {
        assert GoodOp(s, pending[s]);
        assert peer ==> Paired(s.i);
      }
    }

    /** The wait at the end of a pipeline, on the signals its stores lower. */
    method WaitAll(peer: bool)
      requires Inv() && mode != D2H && (peer <==> mode == P2P)
      requires peer ==> forall b: nat | b < numBuffers :: Paired(b)
      modifies this`pending, this`value, staging, dst
      ensures Inv() && pending == map[]
    {
      var i := 0;
      while i < numBuffers
        invariant Inv() && Lowered() && 0 <= i <= numBuffers
        invariant forall c: nat | c < i :: StoreSignal(peer, c) !in pending
      {
        WaitSignal(StoreSignal(peer, i));
        i := i + 1;
      }
      AllDone(peer);
    }

    /** One turn of the host to device loop: wait for the buffer, fill it, launch its store. */
    method StageOut(b: nat, off: nat, len: nat)
      requires Inv() && mode == H2D && b < numBuffers
      requires off == issued && len <= bufferSize && off + len <= size
      modifies this`pending, this`value, this`chunk, this`issued, staging, dst
      ensures Inv() && issued == old(issued) + len
    {
      WaitSignal(First(b));
      IdleWhenLow(b);
      HostFill(b, off, len);
      Progress();
      LaunchStore(b, off, len, None, First(b));
    }

    method CopyHostToDeviceStaging(dst: array<Byte>, src: array<Byte>, sizeBytes: nat)
      requires Quiescent() && src != dst && sizeBytes <= src.Length && sizeBytes <= dst.Length
      requires sizeBytes < TWO_63
      modifies this, staging, dst
      ensures Quiescent()
      ensures dst[..sizeBytes] == src[..sizeBytes] && dst[sizeBytes..] == old(dst[sizeBytes..])
    {
      ghost var dst0 := dst[..];
      Begin(H2D, dst, src, sizeBytes);
      var srcp, dstp, bufferIndex := 0, 0, 0;
      var bytesRemaining: int := sizeBytes;
      while bytesRemaining > 0
        invariant Running(H2D, dst, src, sizeBytes, dst0) && bytesRemaining < TWO_63
        invariant 0 <= bufferIndex < numBuffers
        invariant bytesRemaining > 0 ==> srcp == dstp == issued == sizeBytes - bytesRemaining
        invariant bytesRemaining <= 0 ==> issued == sizeBytes
        decreases bytesRemaining
      {
        var theseBytes := if bytesRemaining > bufferSize then bufferSize else bytesRemaining;
        StageOut(bufferIndex, srcp, theseBytes);
        srcp := srcp + theseBytes;
        dstp := dstp + theseBytes;
        bufferIndex := bufferIndex + 1;
        if bufferIndex >= numBuffers {
          bufferIndex := 0;
        }
        bytesRemaining := Int64Minus(bytesRemaining, bufferSize);
      }
      WaitAll(false);
      Delivered();
    }

    /** One turn of the device to host launch loop: the buffer is idle without waiting. */
    method StageIn(b: nat, off: nat, len: nat)
      requires Inv() && mode == D2H && b < numBuffers && First(b) !in pending
      requires len <= bufferSize && off + len <= size
      modifies this`pending, this`value, this`chunk, staging, dst
      ensures Inv() && chunk == old(chunk)[b := Chunk(off, len)]
      ensures forall s | s in pending :: s in old(pending) || s == First(b)
    {
      Progress();
      IdleWhenLow(b);
      LaunchLoad(b, off, len);
    }

    /** The host waits on the first signal of a buffer and copies it out. */
    method Unload(b: nat, off: nat, len: nat)
      requires Inv() && mode == D2H && b < numBuffers
      requires off == issued && chunk[b] == Chunk(off, len)
      modifies this`pending, this`value, this`issued, staging, dst
      ensures Inv() && issued == old(issued) + len
      ensures forall s | s in pending :: s in old(pending) && s.i != b
    {
      WaitSignal(First(b));
      IdleWhenLow(b);
      assert forall s | s in pending :: GoodOp(s, pending[s]);
      HostDrain(b, off, len);
    }

    /** The stretch that buffer b carries in a round that starts at byte `base`. */
    function ChunkAt(base: nat, b: nat, sizeBytes: nat): Chunk {
      var off := Offset(base, b, bufferSize);
      if off > sizeBytes then Chunk(sizeBytes, 0)
      else if sizeBytes - off > bufferSize then Chunk(off, bufferSize)
      else Chunk(off, sizeBytes - off)
    }

    /** A round that starts at byte `base` uses its first k buffers: as many as there are, or as are needed. */
    ghost predicate RoundUses(base: nat, k: nat)
      reads this`size
    {
      && k <= numBuffers
      && (k > 0 ==> Offset(base, k - 1, bufferSize) < size)
      && (k < numBuffers ==> Offset(base, k, bufferSize) >= size)
    }

    /** Buffers lo..hi of the round carry their stretches. */
    ghost predicate RoundLoaded(base: nat, lo: nat, hi: nat)
      reads this`chunk, this`size
    {
      hi <= |chunk| && forall c: nat | lo <= c < hi :: chunk[c] == ChunkAt(base, c, size)
    }

    /** A round stops at buffer i exactly when i is the number of buffers it uses. */
    lemma RoundStops(base: nat, k: nat, i: nat)
      requires RoundUses(base, k) && i <= k
      ensures i == k <==> Offset(base, i, bufferSize) >= size || i == numBuffers
    {
      if i < k {
        OffsetMono(base, i, k - 1, bufferSize);
      }
    }

    /** First half of a device to host round: launch the loads, without waiting. */
    method LaunchRound(srcp: nat, remaining: int) returns (srcp1: nat, remaining1: int, ghost k: nat)
      requires Inv() && mode == D2H && pending == map[]
      requires issued == srcp && remaining == size - srcp && 0 < remaining < TWO_63
      modifies this`pending, this`value, this`chunk, staging, dst
      ensures Inv() && k > 0 && RoundUses(srcp, k) && RoundLoaded(srcp, 0, k)
      ensures forall s | s in pending :: s.i < k
      ensures remaining1 == size - Offset(srcp, k, bufferSize)
      ensures remaining1 > 0 ==> srcp1 == Offset(srcp, k, bufferSize)
    {
      srcp1, remaining1 := srcp, remaining;
      var bufferIndex := 0;
      while remaining1 > 0 && bufferIndex < numBuffers
        invariant Inv() && 0 <= bufferIndex <= numBuffers
        invariant remaining1 == size - Offset(srcp, bufferIndex, bufferSize) <= remaining
        invariant remaining1 > 0 ==> srcp1 == Offset(srcp, bufferIndex, bufferSize)
        invariant bufferIndex > 0 ==> Offset(srcp, bufferIndex - 1, bufferSize) < size
        invariant RoundLoaded(srcp, 0, bufferIndex)
        invariant forall s | s in pending :: s.i < bufferIndex
        decreases numBuffers - bufferIndex
      {
        var theseBytes := if remaining1 > bufferSize then bufferSize else remaining1;
        StageIn(bufferIndex, srcp1, theseBytes);
        srcp1 := srcp1 + theseBytes;
        remaining1 := Int64Minus(remaining1, bufferSize);
        bufferIndex := bufferIndex + 1;
      }
      k := bufferIndex;
    }

    /** Second half: wait for each buffer and copy it out. */
    method UnloadRound(dstp: nat, remaining: int, ghost k: nat) returns (dstp1: nat, remaining1: int)
      requires Inv() && mode == D2H && RoundUses(dstp, k) && RoundLoaded(dstp, 0, k) && k > 0
      requires forall s | s in pending :: s.i < k
      requires issued == dstp && remaining == size - dstp && 0 < remaining < TWO_63
      modifies this`pending, this`value, this`issued, staging, dst
      ensures Inv() && pending == map[]
      ensures remaining1 == size - Offset(dstp, k, bufferSize)
      ensures if remaining1 > 0 then issued == dstp1 == Offset(dstp, k, bufferSize) else issued == size
    {
      dstp1, remaining1 := dstp, remaining;
      var bufferIndex := 0;
      while remaining1 > 0 && bufferIndex < numBuffers
        invariant Inv() && 0 <= bufferIndex <= k
        invariant remaining1 == size - Offset(dstp, bufferIndex, bufferSize) <= remaining
        invariant if remaining1 > 0 then issued == dstp1 == Offset(dstp, bufferIndex, bufferSize) else issued == size
        invariant RoundLoaded(dstp, 0, k)
        invariant forall s | s in pending :: bufferIndex <= s.i < k
        decreases numBuffers - bufferIndex
      {
        RoundStops(dstp, k, bufferIndex);
        var theseBytes := if remaining1 > bufferSize then bufferSize else remaining1;
        assert chunk[bufferIndex] == Chunk(dstp1, theseBytes);
        Unload(bufferIndex, dstp1, theseBytes);
        dstp1 := dstp1 + theseBytes;
        remaining1 := Int64Minus(remaining1, bufferSize);
        bufferIndex := bufferIndex + 1;
      }
      RoundStops(dstp, k, bufferIndex);
      assert pending.Keys == {};
    }

    method CopyDeviceToHostStaging(dst: array<Byte>, src: array<Byte>, sizeBytes: nat)
      requires Quiescent() && src != dst && sizeBytes <= src.Length && sizeBytes <= dst.Length
      requires sizeBytes < TWO_63
      modifies this, staging, dst
      ensures Quiescent()
      ensures dst[..sizeBytes] == src[..sizeBytes] && dst[sizeBytes..] == old(dst[sizeBytes..])
    {
      ghost var dst0 := dst[..];
      Begin(D2H, dst, src, sizeBytes);
      var srcp0, dstp1 := 0, 0;
      var bytesRemaining0: int, bytesRemaining1: int := sizeBytes, sizeBytes;
      while bytesRemaining1 > 0
        invariant Running(D2H, dst, src, sizeBytes, dst0) && pending == map[]
        invariant bytesRemaining0 == bytesRemaining1 < TWO_63
        invariant if bytesRemaining1 > 0 then srcp0 == dstp1 == issued == sizeBytes - bytesRemaining1
                  else issued == sizeBytes
        decreases bytesRemaining1
      {
        ghost var k;
        srcp0, bytesRemaining0, k := LaunchRound(srcp0, bytesRemaining0);
        OffsetMono(dstp1, 1, k, bufferSize);
        dstp1, bytesRemaining1 := UnloadRound(dstp1, bytesRemaining1, k);
      }
      Delivered();
    }

    /** One turn of the peer launch loop: wait for the last store of the buffer, then load it. */
    method PeerLoad(b: nat, off: nat, len: nat)
      requires Inv() && mode == P2P && b < numBuffers && Paired(b)
      requires len <= bufferSize && off + len <= size
      modifies this`pending, this`value, this`chunk, staging, dst
      ensures Inv() && chunk == old(chunk)[b := Chunk(off, len)]
      ensures Second(b) !in pending
      ensures forall s | s in pending :: s in old(pending) || s == First(b)
      ensures forall c: nat | c != b && old(Paired(c)) :: Paired(c)
    {
      WaitSignal(Second(b));
      assert Paired(b);
      IdleWhenLow(b);
      LaunchLoad(b, off, len);
    }

    /** One turn of the peer forward loop: launch the store behind the load, without waiting. */
    method PeerStore(b: nat, off: nat, len: nat)
      requires Inv() && mode == P2P && b < numBuffers && Second(b) !in pending
      requires off == issued && chunk[b] == Chunk(off, len)
      modifies this`pending, this`value, this`issued, staging, dst
      ensures Inv() && issued == old(issued) + len && Paired(b)
      ensures forall s | s in pending :: s in old(pending) || s == Second(b)
      ensures forall c: nat | c != b && old(Paired(c)) :: Paired(c)
    {
      Progress();
      LaunchStore(b, off, len, Some(First(b)), Second(b));
    }

    /** The peer launch loop before it turns to buffer b. */
    ghost predicate PeerLaunching(base: nat, b: nat, srcp: nat, remaining: nat)
      reads this
    {
      && bufferSize > 0 && b <= numBuffers && remaining == size - Offset(base, b, bufferSize) &&
          remaining % bufferSize == 0
      && (remaining > 0 ==> srcp == Offset(base, b, bufferSize))
      && (b > 0 ==> Offset(base, b - 1, bufferSize) < size)
      && RoundLoaded(base, 0, b)
      && (forall c: nat | c < b :: Second(c) !in pending)
      && (forall c: nat | b <= c < numBuffers :: Paired(c))
    }

    method PeerLaunchTurn(ghost base: nat, b: nat, srcp: nat, remaining: nat) returns (srcp1: nat, remaining1: nat)
      requires Inv() && mode == P2P && PeerLaunching(base, b, srcp, remaining) && 0 < remaining < TWO_63 &&
               b < numBuffers
      modifies this`pending, this`value, this`chunk, staging, dst
      ensures Inv() && PeerLaunching(base, b + 1, srcp1, remaining1) && remaining1 < remaining
    {
      var theseBytes := if remaining > bufferSize then bufferSize else remaining;
      WholeBuffer(remaining, bufferSize);
      PeerLoad(b, srcp, theseBytes);
      srcp1 := srcp + theseBytes;
      remaining1 := Uint64Minus(remaining, bufferSize);
    }

    method PeerLaunchRound(srcp: nat, remaining: nat) returns (srcp1: nat, remaining1: nat, ghost k: nat)
      requires Inv() && mode == P2P && forall c: nat | c < numBuffers :: Paired(c)
      requires issued == srcp && remaining == size - srcp && 0 < remaining < TWO_63 && remaining % bufferSize == 0
      modifies this`pending, this`value, this`chunk, staging, dst
      ensures Inv() && k > 0 && RoundUses(srcp, k) && RoundLoaded(srcp, 0, k)
      ensures forall c: nat | c < k :: Second(c) !in pending
      ensures forall c: nat | k <= c < numBuffers :: Paired(c)
      ensures remaining1 == size - Offset(srcp, k, bufferSize)
      ensures remaining1 > 0 ==> srcp1 == Offset(srcp, k, bufferSize)
    {
      srcp1, remaining1 := srcp, remaining;
      var bufferIndex := 0;
      while remaining1 > 0 && bufferIndex < numBuffers
        invariant Inv() && PeerLaunching(srcp, bufferIndex, srcp1, remaining1) && remaining1 <= remaining
        decreases numBuffers - bufferIndex
      {
        srcp1, remaining1 := PeerLaunchTurn(srcp, bufferIndex, srcp1, remaining1);
        bufferIndex := bufferIndex + 1;
      }
      k := bufferIndex;
    }

    /** The peer forward loop before it turns to buffer b of the k that were launched. */
    ghost predicate PeerForwarding(base: nat, k: nat, b: nat, dstp: nat, remaining: nat)
      reads this
    {
      && bufferSize > 0 && b <= k && remaining == size - Offset(base, b, bufferSize) && remaining % bufferSize == 0
      && (if remaining > 0 then issued == dstp == Offset(base, b, bufferSize) else issued == size)
      && RoundUses(base, k) && RoundLoaded(base, 0, k)
      && (forall c: nat | b <= c < k :: Second(c) !in pending)
      && (forall c: nat | c < b || k <= c < numBuffers :: Paired(c))
    }

    method PeerForwardTurn(ghost base: nat, ghost k: nat, b: nat, dstp: nat, remaining: nat)
      returns (dstp1: nat, remaining1: nat)
      requires Inv() && mode == P2P && PeerForwarding(base, k, b, dstp, remaining) && 0 < remaining < TWO_63 && b < k
      modifies this`pending, this`value, this`issued, staging, dst
      ensures Inv() && PeerForwarding(base, k, b + 1, dstp1, remaining1) && remaining1 < remaining
    {
      var theseBytes := if remaining > bufferSize then bufferSize else remaining;
      WholeBuffer(remaining, bufferSize);
      assert chunk[b] == ChunkAt(base, b, size);
      PeerStore(b, dstp, theseBytes);
      dstp1 := dstp + theseBytes;
      remaining1 := Uint64Minus(remaining, bufferSize);
    }

    method PeerForwardRound(dstp: nat, remaining: nat, ghost k: nat) returns (dstp1: nat, remaining1: nat)
      requires Inv() && mode == P2P && RoundUses(dstp, k) && RoundLoaded(dstp, 0, k) && k > 0
      requires forall c: nat | c < k :: Second(c) !in pending
      requires forall c: nat | k <= c < numBuffers :: Paired(c)
      requires issued == dstp && remaining == size - dstp && 0 < remaining < TWO_63 && remaining % bufferSize == 0
      modifies this`pending, this`value, this`issued, staging, dst
      ensures Inv() && forall c: nat | c < numBuffers :: Paired(c)
      ensures remaining1 == size - Offset(dstp, k, bufferSize) && remaining1 % bufferSize == 0
      ensures if remaining1 > 0 then issued == dstp1 == Offset(dstp, k, bufferSize) else issued == size
    {
      dstp1, remaining1 := dstp, remaining;
      var bufferIndex := 0;
      while remaining1 > 0 && bufferIndex < numBuffers
        invariant Inv() && PeerForwarding(dstp, k, bufferIndex, dstp1, remaining1) && remaining1 <= remaining
        decreases numBuffers - bufferIndex
      {
        RoundStops(dstp, k, bufferIndex);
        dstp1, remaining1 := PeerForwardTurn(dstp, k, bufferIndex, dstp1, remaining1);
        bufferIndex := bufferIndex + 1;
      }
      RoundStops(dstp, k, bufferIndex);
    }

    /** The counters are unsigned and lose a whole buffer each time, so this is proved for whole buffers;
        PeerInBoundsExactly says exactly when the loops stay inside the transfer. */
    method CopyPeerToPeer(dst: array<Byte>, src: array<Byte>, sizeBytes: nat)
      requires Quiescent() && src != dst && sizeBytes <= src.Length && sizeBytes <= dst.Length
      requires sizeBytes < TWO_63 && sizeBytes % bufferSize == 0
      modifies this, staging, dst
      ensures Quiescent()
      ensures dst[..sizeBytes] == src[..sizeBytes] && dst[sizeBytes..] == old(dst[sizeBytes..])
    {
      ghost var dst0 := dst[..];
      Begin(P2P, dst, src, sizeBytes);
      var srcp0, dstp1 := 0, 0;
      var bytesRemaining0: nat, bytesRemaining1: nat := sizeBytes, sizeBytes;
      while bytesRemaining1 > 0
        invariant Running(P2P, dst, src, sizeBytes, dst0) && forall c: nat | c < numBuffers :: Paired(c)
        invariant bytesRemaining0 == bytesRemaining1 < TWO_63 && bytesRemaining1 % bufferSize == 0
        invariant if bytesRemaining1 > 0 then srcp0 == dstp1 == issued == sizeBytes - bytesRemaining1
                  else issued == sizeBytes
        decreases bytesRemaining1
      {
        ghost var k;
        srcp0, bytesRemaining0, k := PeerLaunchRound(srcp0, bytesRemaining0);
        OffsetMono(dstp1, 1, k, bufferSize);
        dstp1, bytesRemaining1 := PeerForwardRound(dstp1, bytesRemaining1, k);
      }
      WaitAll(true);
      Delivered();
    }
  }

  /** A positive whole number of buffers is at least one, and stays whole without it. */
  lemma WholeBuffer(remaining: nat, bufferSize: nat)
    requires bufferSize > 0 && remaining > 0 && remaining % bufferSize == 0
    ensures remaining >= bufferSize && (remaining - bufferSize) % bufferSize == 0
  {
    SubtractOnce(remaining, bufferSize);
  }

  // ------------------------------------------------------------------------------------------
  // Exactly when the peer copy stays in bounds
  // ------------------------------------------------------------------------------------------

  /** bytesRemaining0 and srcp0 after n turns of the peer copy's loops. */
  function PeerCounters(size: nat, bufferSize: nat, n: nat): (c: (nat, nat))
    requires size < TWO_64 && bufferSize < TWO_64
    ensures c.0 < TWO_64
  {
    if n == 0 then (size, 0)
    else
      var (remaining, off) := PeerCounters(size, bufferSize, n - 1);
      if remaining == 0 then (0, off)
      else (Uint64Minus(remaining, bufferSize), off + if remaining > bufferSize then bufferSize else remaining)
  }

  /** No turn copies a byte outside the transfer. */
  ghost predicate PeerInBounds(size: nat, bufferSize: nat)
    requires size < TWO_64 && bufferSize < TWO_64
  {
    forall n: nat :: PeerTurnInBounds(size, bufferSize, n)
  }

  predicate PeerTurnInBounds(size: nat, bufferSize: nat, n: nat)
    requires size < TWO_64 && bufferSize < TWO_64
  {
    var (remaining, off) := PeerCounters(size, bufferSize, n);
    remaining > 0 ==> off + (if remaining > bufferSize then bufferSize else remaining) <= size
  }

  lemma PeerInBoundsExactly(size: nat, bufferSize: nat)
    requires size < TWO_63 && 0 < bufferSize < TWO_63
    ensures PeerInBounds(size, bufferSize) <==> size % bufferSize == 0
  {
    if size % bufferSize == 0 {
      forall n: nat
        ensures PeerTurnInBounds(size, bufferSize, n)
      {
        WholeTurns(size, bufferSize, n);
      }
    } else {
      var n := TurnPastTheEnd(size, bufferSize, 0);
      assert !PeerTurnInBounds(size, bufferSize, n);
    }
  }

  lemma {:induction false} WholeTurns(size: nat, bufferSize: nat, n: nat)
    requires size < TWO_63 && 0 < bufferSize < TWO_63 && size % bufferSize == 0
    ensures var (remaining, off) := PeerCounters(size, bufferSize, n);
            remaining + off == size && remaining % bufferSize == 0
  {
    if n > 0 {
      WholeTurns(size, bufferSize, n - 1);
      var remaining := PeerCounters(size, bufferSize, n - 1).0;
      if remaining > 0 {
        WholeBuffer(remaining, bufferSize);
      }
    }
  }

  /** A transfer that ends in a part of a buffer wraps its counter and goes on. */
  lemma {:induction false} TurnPastTheEnd(size: nat, bufferSize: nat, n: nat) returns (m: nat)
    requires size < TWO_63 && 0 < bufferSize < TWO_63
    requires var (remaining, off) := PeerCounters(size, bufferSize, n);
             remaining + off == size && remaining % bufferSize != 0
    ensures !PeerTurnInBounds(size, bufferSize, m)
    decreases PeerCounters(size, bufferSize, n).0
  {
    var (remaining, off) := PeerCounters(size, bufferSize, n);
    SubtractOnce(remaining, bufferSize);
    if remaining < bufferSize {
      m := n + 1;
    } else {
      m := TurnPastTheEnd(size, bufferSize, n + 1);
    }
  }
}
