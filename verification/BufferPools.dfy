/**
 A pool of equally sized buffers: a queue behind one mutex, handles that put
 their buffer back when they are dropped, and counters.
 */
module BufferPools {
  import opened Wrappers

  /** A pinned buffer; `name` stands for its identity. */
  datatype PinnedBuffer = PinnedBuffer(name: nat, size: nat)

  datatype PoolError = PoolPoisoned

  /** The assertions that stop the construction of a pool. */
  datatype PoolPanic = ZeroCapacity | ZeroSize | UnequalSizes

  datatype Snapshot = Snapshot(available: nat, inUse: nat, isEmpty: bool, isFull: bool)

  /** What the mutex guards; a poisoned mutex refuses every lock. */
  datatype Pool = Pool(available: seq<PinnedBuffer>, inUse: nat, taken: nat, refused: nat, poisoned: bool)

  function FreshPool(buffers: seq<PinnedBuffer>): Pool {
    Pool(buffers, 0, 0, 0, false)
  }

  function SaturatingSub(a: nat, b: nat): nat { if a < b then 0 else a - b }

  /** The pool after `try_get`. */
  function AfterGet(p: Pool): Pool {
    if p.poisoned then p
    else if p.available == [] then p.(refused := p.refused + 1)
    else p.(available := p.available[1..], inUse := p.inUse + 1, taken := p.taken + 1)
  }

  /** The pool after a handle holding `b` was dropped. */
  function AfterReturn(p: Pool, b: PinnedBuffer): Pool {
    if p.poisoned then p
    else p.(available := p.available + [b], inUse := SaturatingSub(p.inUse, 1))
  }

  class PoolInner {
    var available: seq<PinnedBuffer>
    var inUse: nat
    var totalAllocations: nat
    var failedAllocations: nat
    var poisoned: bool

    ghost function View(): Pool
      reads this
    {
      Pool(available, inUse, totalAllocations, failedAllocations, poisoned)
    }

    constructor (buffers: seq<PinnedBuffer>)
      ensures View() == FreshPool(buffers)
    {
      available := buffers;
      inUse, totalAllocations, failedAllocations := 0, 0, 0;
      poisoned := false;
    }
  }

  /** A buffer on loan; without a buffer once it was detached or returned. */
  class PooledBuffer {
    var buffer: Option<PinnedBuffer>
    const pool: PoolInner

    constructor (b: PinnedBuffer, pool: PoolInner)
      ensures this.buffer == Some(b) && this.pool == pool
    {
      this.buffer := Some(b);
      this.pool := pool;
    }

    /** Takes the buffer away from the pool, which goes on counting it as in use. */
    method Detach() returns (b: PinnedBuffer)
      requires buffer.Some?
      modifies this`buffer
      ensures Some(b) == old(buffer) && buffer.None?
    {
      b := buffer.value;
      buffer := None;
    }

    /** Under a poisoned lock the buffer is freed instead of returned. */
    method Drop()
      modifies this`buffer, pool`available, pool`inUse
      ensures buffer.None?
      ensures pool.View() == if old(buffer).Some? then AfterReturn(old(pool.View()), old(buffer).value) else old(pool.View())
    {
      if buffer.Some? {
        var b := buffer.value;
        buffer := None;
        if !pool.poisoned {
          pool.available := pool.available + [b];
          pool.inUse := SaturatingSub(pool.inUse, 1);
        }
      }
    }
  }

  predicate AllOfSize(buffers: seq<PinnedBuffer>, size: nat) {
    forall b | b in buffers :: b.size == size
  }

  class BufferPool {
    const inner: PoolInner
    const capacity: nat
    const bufferSize: nat

    constructor (inner: PoolInner, capacity: nat, bufferSize: nat)
      ensures this.inner == inner && this.capacity == capacity && this.bufferSize == bufferSize
    {
      this.inner, this.capacity, this.bufferSize := inner, capacity, bufferSize;
    }

    /** `names` are the identities the allocator gives to the new buffers. */
    static method New(capacity: nat, bufferSize: nat, names: nat -> nat) returns (r: Result<BufferPool, PoolPanic>)
      ensures r == Err(ZeroCapacity) <==> capacity == 0
      ensures r == Err(ZeroSize) <==> capacity > 0 && bufferSize == 0
      ensures r.Err? ==> r.error != UnequalSizes
      ensures r.Ok? ==>
        && fresh(r.value) && fresh(r.value.inner)
        && r.value.capacity == capacity && r.value.bufferSize == bufferSize
        && r.value.inner.View() == FreshPool(seq(capacity, i requires 0 <= i => PinnedBuffer(names(i), bufferSize)))
    {
      if capacity == 0 {
        return Err(ZeroCapacity);
      }
      if bufferSize == 0 {
        return Err(ZeroSize);
      }
      var available := [];
      for i := 0 to capacity
        invariant available == seq(i, j requires 0 <= j => PinnedBuffer(names(j), bufferSize))
      {
        available := available + [PinnedBuffer(names(i), bufferSize)];
      }
      var inner := new PoolInner(available);
      var pool := new BufferPool(inner, capacity, bufferSize);
      r := Ok(pool);
    }

    /** `factory(i)` is what the i-th call of the caller's closure returns. */
    static method WithFactory(capacity: nat, factory: nat -> PinnedBuffer) returns (r: Result<BufferPool, PoolPanic>)
      ensures r == Err(ZeroCapacity) <==> capacity == 0
      ensures r == Err(UnequalSizes) <==> exists i: nat | i < capacity :: factory(i).size != factory(0).size
      ensures r.Err? ==> r.error != ZeroSize
      ensures r.Ok? ==>
        && fresh(r.value) && fresh(r.value.inner)
        && r.value.capacity == capacity && r.value.bufferSize == factory(0).size
        && r.value.inner.View() == FreshPool(seq(capacity, i requires 0 <= i => factory(i)))
        && AllOfSize(r.value.inner.available, r.value.bufferSize)
    {
      if capacity == 0 {
        return Err(ZeroCapacity);
      }
      var available := [];
      var bufferSize := 0;
      for i := 0 to capacity
        invariant available == seq(i, j requires 0 <= j => factory(j))
        invariant i > 0 ==> bufferSize == factory(0).size
        invariant AllOfSize(available, bufferSize)
        invariant forall j: nat | j < i :: factory(j).size == factory(0).size
      {
        var buffer := factory(i);
        if i == 0 {
          bufferSize := buffer.size;
        } else if buffer.size != bufferSize {
          return Err(UnequalSizes);
        }
        available := available + [buffer];
      }
      var inner := new PoolInner(available);
      var pool := new BufferPool(inner, capacity, bufferSize);
      r := Ok(pool);
    }

    method TryGet() returns (r: Result<Option<PooledBuffer>, PoolError>)
      modifies inner`available, inner`inUse, inner`totalAllocations, inner`failedAllocations
      ensures inner.View() == AfterGet(old(inner.View()))
      ensures r.Err? <==> old(inner.poisoned)
      ensures r.Ok? ==> (r.value.Some? <==> old(inner.available) != [])
      ensures r.Ok? && r.value.Some? ==>
        fresh(r.value.value) && r.value.value.pool == inner && r.value.value.buffer == Some(old(inner.available)[0])
    {
      if inner.poisoned {
        return Err(PoolPoisoned);
      }
      if inner.available != [] {
        var buffer := inner.available[0];
        inner.available := inner.available[1..];
        inner.inUse := inner.inUse + 1;
        inner.totalAllocations := inner.totalAllocations + 1;
        var handle := new PooledBuffer(buffer, inner);
        r := Ok(Some(handle));
      } else {
        inner.failedAllocations := inner.failedAllocations + 1;
        r := Ok(None);
      }
    }

    /** The first locked section of `TryGetFast`: changes nothing and reserves nothing. */
    method PeekAvailable() returns (r: Result<bool, PoolError>)
      ensures r == if inner.poisoned then Err(PoolPoisoned) else Ok(inner.available != [])
    {
      if inner.poisoned {
        return Err(PoolPoisoned);
      }
      r := Ok(inner.available != []);
    }

    /**
     The contract is for a caller that nobody interrupts between the two
     locked sections; `PeekStep` and `FastGetStep` below interleave them.
     */
    method TryGetFast() returns (r: Result<Option<PooledBuffer>, PoolError>)
      modifies inner`available, inner`inUse, inner`totalAllocations, inner`failedAllocations
      ensures inner.View() == if old(inner.available) == [] then old(inner.View()) else AfterGet(old(inner.View()))
      ensures r.Err? <==> old(inner.poisoned)
      ensures r.Ok? ==> (r.value.Some? <==> old(inner.available) != [])
      ensures r.Ok? && r.value.Some? ==>
        fresh(r.value.value) && r.value.value.pool == inner && r.value.value.buffer == Some(old(inner.available)[0])
    {
      var peek := PeekAvailable();
      if peek.Err? {
        return Err(peek.error);
      }
      if !peek.value {
        return Ok(None);
      }
      r := TryGet();
    }

    method TakeSnapshot() returns (r: Result<Snapshot, PoolError>)
      ensures r.Err? <==> inner.poisoned
      ensures r.Ok? ==> r.value == SnapshotOf(inner.View(), capacity)
    {
      if inner.poisoned {
        return Err(PoolPoisoned);
      }
      var available := |inner.available|;
      r := Ok(Snapshot(available, inner.inUse, inner.available == [], available == capacity));
    }
  }

  function SnapshotOf(p: Pool, capacity: nat): Snapshot {
    Snapshot(|p.available|, p.inUse, p.available == [], |p.available| == capacity)
  }

  // ----- Runs -------------------------------------------------------------

  /**
   A pool with everything around it.  `held` are the buffers of live handles,
   `detached` those taken away from the pool, `lost` those freed because the
   lock was poisoned.  `peeked` counts the callers of the fast path between
   its two sections.  `queued` and `handedOut` record, in order, every buffer
   ever put in the queue and every buffer ever taken from it.
   */
  datatype System = System(
    pool: Pool,
    held: multiset<PinnedBuffer>,
    detached: multiset<PinnedBuffer>,
    lost: multiset<PinnedBuffer>,
    peeked: nat,
    queued: seq<PinnedBuffer>,
    handedOut: seq<PinnedBuffer>)

  /** Each step is one critical section of one thread. */
  datatype Step =
    | GetStep                        // try_get
    | PeekStep                       // the first section of try_get_fast
    | FastGetStep                    // its second section, after the peek found a buffer
    | DropStep(b: PinnedBuffer)      // of the handle holding b
    | DetachStep(b: PinnedBuffer)
    | PoisonStep                     // a thread panics inside the lock

  function Start(buffers: seq<PinnedBuffer>): System {
    System(FreshPool(buffers), multiset{}, multiset{}, multiset{}, 0, buffers, [])
  }

  predicate Enabled(s: System, step: Step) {
    match step
    case DropStep(b) => b in s.held
    case DetachStep(b) => b in s.held
    case FastGetStep => s.peeked > 0
    case _ => true
  }

  function AfterGetStep(s: System): System {
    var p := s.pool;
    if p.poisoned || p.available == [] then s.(pool := AfterGet(p))
    else s.(pool := AfterGet(p), held := s.held + multiset{p.available[0]}, handedOut := s.handedOut + [p.available[0]])
  }

  function After(s: System, step: Step): System
    requires Enabled(s, step)
  {
    match step
    case GetStep => AfterGetStep(s)
    case PeekStep =>
      if !s.pool.poisoned && s.pool.available != [] then s.(peeked := s.peeked + 1) else s
    case FastGetStep => AfterGetStep(s.(peeked := s.peeked - 1))
    case DropStep(b) =>
      var t := s.(pool := AfterReturn(s.pool, b), held := s.held - multiset{b});
      if s.pool.poisoned then t.(lost := s.lost + multiset{b}) else t.(queued := s.queued + [b])
    case DetachStep(b) => s.(held := s.held - multiset{b}, detached := s.detached + multiset{b})
    case PoisonStep => s.(pool := s.pool.(poisoned := true))
  }

  predicate IsRun(s: System, steps: seq<Step>)
    decreases |steps|
  {
    steps == [] || (Enabled(s, steps[0]) && IsRun(After(s, steps[0]), steps[1..]))
  }

  function AfterAll(s: System, steps: seq<Step>): System
    requires IsRun(s, steps)
    decreases |steps|
  {
    if steps == [] then s else AfterAll(After(s, steps[0]), steps[1..])
  }

  /** Every buffer the pool started with is in exactly one place. */
  ghost predicate Conserved(s: System, buffers: seq<PinnedBuffer>) {
    multiset(s.pool.available) + s.held + s.detached + s.lost == multiset(buffers)
  }

  /** Buffers leave the queue in the order in which they entered it. */
  ghost predicate FirstInFirstOut(s: System) {
    s.queued == s.handedOut + s.pool.available
  }

  /** The counters say what happened. */
  ghost predicate Counted(s: System) {
    && s.pool.inUse == |s.held| + |s.detached| + |s.lost|
    && s.pool.taken == |s.handedOut|
    && (!s.pool.poisoned ==> s.lost == multiset{})
  }

  ghost predicate Inv(s: System, buffers: seq<PinnedBuffer>) {
    Conserved(s, buffers) && FirstInFirstOut(s) && Counted(s)
  }

  lemma GetKeepsInv(s: System, buffers: seq<PinnedBuffer>)
    requires Inv(s, buffers)
    ensures Inv(AfterGetStep(s), buffers)
  {
    var q := s.pool.available;
    if !s.pool.poisoned && q != [] {
      assert q == [q[0]] + q[1..];
      assert multiset(q) == multiset{q[0]} + multiset(q[1..]);
    }
  }

  /** Moving one element between two of four parts keeps the whole. */
  lemma MoveOne(from: multiset<PinnedBuffer>, to: multiset<PinnedBuffer>, x: multiset<PinnedBuffer>, y: multiset<PinnedBuffer>, b: PinnedBuffer)
    requires b in from
    ensures from - multiset{b} + (to + multiset{b}) + x + y == from + to + x + y
    ensures |from - multiset{b}| == |from| - 1
  {
  }

  lemma Regroup(a: multiset<PinnedBuffer>, b: multiset<PinnedBuffer>, c: multiset<PinnedBuffer>, d: multiset<PinnedBuffer>)
    ensures a + b + c + d == b + a + c + d == b + d + a + c == b + c + a + d
  {
  }

  lemma DropKeepsInv(s: System, b: PinnedBuffer, buffers: seq<PinnedBuffer>)
    requires Inv(s, buffers) && b in s.held
    ensures Inv(After(s, DropStep(b)), buffers)
  {
    var t := After(s, DropStep(b));
    var q := multiset(s.pool.available);
    if s.pool.poisoned {
      MoveOne(s.held, s.lost, q, s.detached, b);
      Regroup(q, t.held, s.detached, t.lost);
      Regroup(q, s.held, s.detached, s.lost);
    } else {
      MoveOne(s.held, q, s.detached, s.lost, b);
      assert multiset(t.pool.available) == q + multiset{b};
      Regroup(q + multiset{b}, t.held, s.detached, s.lost);
      Regroup(q, s.held, s.detached, s.lost);
    }
  }

  lemma DetachKeepsInv(s: System, b: PinnedBuffer, buffers: seq<PinnedBuffer>)
    requires Inv(s, buffers) && b in s.held
    ensures Inv(After(s, DetachStep(b)), buffers)
  {
  }

  lemma StepKeepsInv(s: System, step: Step, buffers: seq<PinnedBuffer>)
    requires Inv(s, buffers) && Enabled(s, step)
    ensures Inv(After(s, step), buffers)
  {
    match step
    case GetStep => GetKeepsInv(s, buffers);
    case FastGetStep => GetKeepsInv(s.(peeked := s.peeked - 1), buffers);
    case DropStep(b) => DropKeepsInv(s, b, buffers);
    case DetachStep(b) => DetachKeepsInv(s, b, buffers);
    case PeekStep =>
    case PoisonStep =>
  }

  lemma {:induction false} RunKeepsInv(s: System, steps: seq<Step>, buffers: seq<PinnedBuffer>)
    requires Inv(s, buffers) && IsRun(s, steps)
    ensures Inv(AfterAll(s, steps), buffers)
    decreases |steps|
  {
    if steps != [] {
      StepKeepsInv(s, steps[0], buffers);
      RunKeepsInv(After(s, steps[0]), steps[1..], buffers);
    }
  }

  /** The buffers available and the counter of those in use always add up to the capacity. */
  lemma AvailableAndInUseMakeCapacity(buffers: seq<PinnedBuffer>, steps: seq<Step>)
    requires IsRun(Start(buffers), steps)
    ensures var s := AfterAll(Start(buffers), steps);
      && |s.pool.available| + s.pool.inUse == |buffers|
      && s.pool.inUse == |s.held| + |s.detached| + |s.lost|
      && (!s.pool.poisoned ==> s.pool.inUse == |s.held| + |s.detached|)
  {
    RunKeepsInv(Start(buffers), steps, buffers);
    var s := AfterAll(Start(buffers), steps);
    assert |multiset(s.pool.available) + s.held + s.detached + s.lost| == |multiset(buffers)|;
  }

  /** With distinct buffers, none is ever in two places or twice in one. */
  lemma EachBufferIsInOnePlace(buffers: seq<PinnedBuffer>, steps: seq<Step>, b: PinnedBuffer)
    requires IsRun(Start(buffers), steps)
    requires multiset(buffers)[b] == 1
    ensures var s := AfterAll(Start(buffers), steps);
      multiset(s.pool.available)[b] + s.held[b] + s.detached[b] + s.lost[b] == 1
  {
    RunKeepsInv(Start(buffers), steps, buffers);
    var s := AfterAll(Start(buffers), steps);
    assert (multiset(s.pool.available) + s.held + s.detached + s.lost)[b] == 1;
  }

  /** A buffer given back is counted back: the saturating subtraction is an ordinary one. */
  lemma ReturnNeverSaturates(buffers: seq<PinnedBuffer>, steps: seq<Step>, b: PinnedBuffer)
    requires IsRun(Start(buffers), steps)
    requires Enabled(AfterAll(Start(buffers), steps), DropStep(b))
    ensures var p := AfterAll(Start(buffers), steps).pool;
      !p.poisoned ==> AfterReturn(p, b).inUse + 1 == p.inUse
  {
    RunKeepsInv(Start(buffers), steps, buffers);
  }

  /** The k-th buffer handed out is the k-th one ever queued, and everything queued is handed out or still waiting. */
  lemma BuffersLeaveInQueueOrder(buffers: seq<PinnedBuffer>, steps: seq<Step>, k: nat)
    requires IsRun(Start(buffers), steps)
    requires k < AfterAll(Start(buffers), steps).pool.taken
    ensures var s := AfterAll(Start(buffers), steps);
      && k < |s.handedOut| == s.pool.taken && k < |s.queued| == s.pool.taken + |s.pool.available|
      && s.handedOut[k] == s.queued[k]
  {
    RunKeepsInv(Start(buffers), steps, buffers);
  }

  /** A snapshot says "full" exactly when no buffer is out, which a detached buffer rules out for good. */
  lemma FullMeansNothingIsOut(buffers: seq<PinnedBuffer>, steps: seq<Step>)
    requires IsRun(Start(buffers), steps)
    ensures var s := AfterAll(Start(buffers), steps);
      var shot := SnapshotOf(s.pool, |buffers|);
      && shot.available == |s.pool.available| && shot.inUse == |s.held| + |s.detached| + |s.lost|
      && (shot.isEmpty <==> s.pool.available == [])
      && (shot.isFull <==> s.held == s.detached == s.lost == multiset{})
      && shot.available + shot.inUse == |buffers|
      && (shot.isEmpty <==> shot.inUse == |buffers|)
  {
    AvailableAndInUseMakeCapacity(buffers, steps);
  }

  lemma {:induction false} DetachedStaysOut(s: System, steps: seq<Step>, b: PinnedBuffer)
    requires IsRun(s, steps)
    ensures AfterAll(s, steps).detached[b] >= s.detached[b]
    decreases |steps|
  {
    if steps != [] {
      DetachedStaysOut(After(s, steps[0]), steps[1..], b);
    }
  }

  function Refusals(s: System, steps: seq<Step>): nat
    requires IsRun(s, steps)
    decreases |steps|
  {
    if steps == [] then 0
    else
      var asks := steps[0].GetStep? || steps[0].FastGetStep?;
      (if asks && !s.pool.poisoned && s.pool.available == [] then 1 else 0) + Refusals(After(s, steps[0]), steps[1..])
  }

  /** The failure counter counts the requests that found the queue empty; a refusal by the peek alone is not counted. */
  lemma {:induction false} RefusedCountsEmptyRequests(s: System, steps: seq<Step>)
    requires IsRun(s, steps)
    ensures AfterAll(s, steps).pool.refused == s.pool.refused + Refusals(s, steps)
    decreases |steps|
  {
    if steps != [] {
      RefusedCountsEmptyRequests(After(s, steps[0]), steps[1..]);
    }
  }

  /** A caller whose peek saw a buffer can still be refused: another thread may come first. */
  lemma PeekIsNotAReservation(b: PinnedBuffer)
    ensures var steps := [PeekStep, GetStep, FastGetStep];
      && IsRun(Start([b]), steps)
      && AfterAll(Start([b]), steps).pool.refused == 1
      && AfterAll(Start([b]), steps).held == multiset{b}
  {
  }
}
