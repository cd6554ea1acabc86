/**
 A buffer that moves between user space and the kernel.

 All handles to a buffer share one mutex-protected cell.  Each method below is
 one critical section, so an interleaving of threads and handles is a sequence
 of cell steps.  A panic inside a critical section poisons the mutex, after
 which every later lock attempt panics too.
 */
module BufferOwnership {
  import opened Wrappers

  newtype byte = b: int | 0 <= b < 256

  type Bytes = seq<byte>

  datatype Ownership =
    | User(bytes: Bytes)
    | Kernel(bytes: Bytes, submissionId: nat)
    | Returning

  datatype Cell = Cell(state: Ownership, poisoned: bool)

  datatype OwnershipError = OwnedByKernel(submissionId: nat) | Transitioning

  datatype Outcome<+T> = Returned(value: T) | Panicked

  // ----- One critical section each ---------------------------------------

  /** `try_access`: user bytes move out into a guard. */
  function AccessCell(c: Cell): (Cell, Outcome<Option<Bytes>>) {
    if c.poisoned then (c, Panicked)
    else match c.state
      case User(bytes) => (c.(state := Returning), Returned(Some(bytes)))
      case _ => (c, Returned(None))
  }

  /** `give_to_kernel`: answers with the buffer's length. */
  function GiveCell(c: Cell, id: nat): (Cell, Outcome<Result<nat, OwnershipError>>) {
    if c.poisoned then (c, Panicked)
    else match c.state
      case User(bytes) => (c.(state := Kernel(bytes, id)), Returned(Ok(|bytes|)))
      case Kernel(_, owner) => (c, Returned(Err(OwnedByKernel(owner))))
      case Returning => (c, Returned(Err(Transitioning)))
  }

  /** `return_from_kernel`: panics, and so poisons, unless the kernel owns it under this id. */
  function ReturnCell(c: Cell, id: nat): (Cell, Outcome<()>) {
    if c.poisoned then (c, Panicked)
    else if c.state.Kernel? && c.state.submissionId == id then (c.(state := User(c.state.bytes)), Returned(()))
    else (c.(poisoned := true), Panicked)
  }

  /** Dropping a guard writes its bytes back whatever the state is. */
  function DropGuardCell(c: Cell, bytes: Bytes): (Cell, Outcome<()>) {
    if c.poisoned then (c, Panicked) else (c.(state := User(bytes)), Returned(()))
  }

  // ----- Handles and guards ----------------------------------------------

  class BufferCell {
    var state: Ownership
    var poisoned: bool

    function View(): Cell
      reads this
    {
      Cell(state, poisoned)
    }

    constructor (bytes: Bytes)
      ensures View() == Cell(User(bytes), false)
    {
      state := User(bytes);
      poisoned := false;
    }
  }

  class OwnedBuffer {
    const inner: BufferCell
    const size: nat

    constructor (size: nat)
      ensures fresh(inner) && inner.View() == Cell(User(seq(size, _ => 0)), false) && this.size == size
    {
      inner := new BufferCell(seq(size, _ => 0));
      this.size := size;
    }

    constructor FromSlice(data: Bytes)
      ensures fresh(inner) && inner.View() == Cell(User(data), false) && this.size == |data|
    {
      inner := new BufferCell(data);
      this.size := |data|;
    }

    constructor Handle(inner: BufferCell, size: nat)
      ensures this.inner == inner && this.size == size
    {
      this.inner := inner;
      this.size := size;
    }

    method CloneHandle() returns (handle: OwnedBuffer)
      ensures fresh(handle) && handle.inner == inner && handle.size == size
    {
      handle := new OwnedBuffer.Handle(inner, size);
    }

    method TryAccess() returns (r: Outcome<Option<BufferAccessGuard>>)
      modifies inner
      ensures inner.View() == AccessCell(old(inner.View())).0
      ensures match AccessCell(old(inner.View())).1
        case Panicked => r == Panicked
        case Returned(None) => r == Returned(None)
        case Returned(Some(bytes)) =>
          && r.Returned? && r.value.Some? && fresh(r.value.value)
          && r.value.value.buffer == bytes && r.value.value.ownership == inner
    {
      if inner.poisoned {
        return Panicked;
      }
      match inner.state {
        case User(bytes) =>
          inner.state := Returning;
          var guard := new BufferAccessGuard(bytes, inner);
          r := Returned(Some(guard));
        case Kernel(_, _) =>
          r := Returned(None);
        case Returning =>
          r := Returned(None);
      }
    }

    method GiveToKernel(id: nat) returns (r: Outcome<Result<nat, OwnershipError>>)
      modifies inner
      ensures (inner.View(), r) == GiveCell(old(inner.View()), id)
    {
      if inner.poisoned {
        return Panicked;
      }
      match inner.state {
        case User(bytes) =>
          inner.state := Kernel(bytes, id);
          r := Returned(Ok(|bytes|));
        case Kernel(_, owner) =>
          r := Returned(Err(OwnedByKernel(owner)));
        case Returning =>
          r := Returned(Err(Transitioning));
      }
    }

    method ReturnFromKernel(id: nat) returns (r: Outcome<()>)
      modifies inner
      ensures (inner.View(), r) == ReturnCell(old(inner.View()), id)
    {
      if inner.poisoned {
        return Panicked;
      }
      match inner.state {
        case Kernel(bytes, owner) =>
          if owner == id {
            inner.state := User(bytes);
            return Returned(());
          }
        case _ =>
      }
      inner.poisoned := true;
      r := Panicked;
    }
  }

  class BufferAccessGuard {
    var buffer: Bytes
    const ownership: BufferCell

    constructor (buffer: Bytes, ownership: BufferCell)
      ensures this.buffer == buffer && this.ownership == ownership
    {
      this.buffer := buffer;
      this.ownership := ownership;
    }

    /** A write through `DerefMut` cannot change the length. */
    method Write(data: Bytes)
      requires |data| == |buffer|
      modifies this
      ensures buffer == data
    {
      buffer := data;
    }

    method Drop() returns (r: Outcome<()>)
      modifies this, ownership
      ensures (ownership.View(), r) == DropGuardCell(old(ownership.View()), old(buffer))
      ensures buffer == []
    {
      var bytes := buffer;
      buffer := [];
      if ownership.poisoned {
        return Panicked;
      }
      ownership.state := User(bytes);
      r := Returned(());
    }
  }

  // ----- Any interleaving of any handles ---------------------------------

  /**
   One buffer, the guards that currently exist, and the contents a sequential
   reader would expect: what the last writer, user or kernel, left.
   */
  datatype Shared = Shared(cell: Cell, guards: map<nat, Bytes>, size: nat, contents: Bytes)

  datatype Step =
    | AccessStep(guard: nat)                 // try_access; the new guard, if any, gets this name
    | WriteStep(guard: nat, data: Bytes)
    | DropStep(guard: nat)
    | GiveStep(id: nat)
    | ReturnStep(id: nat)
    | KernelWriteStep(data: Bytes)           // the kernel fills the buffer it owns

  predicate Enabled(s: Shared, step: Step) {
    match step
    case AccessStep(guard) => guard !in s.guards
    case WriteStep(guard, data) => guard in s.guards && |data| == |s.guards[guard]|
    case DropStep(guard) => guard in s.guards
    case GiveStep(_) => true
    case ReturnStep(_) => true
    case KernelWriteStep(data) => s.cell.state.Kernel? && |data| == |s.cell.state.bytes|
  }

  function After(s: Shared, step: Step): Shared
    requires Enabled(s, step)
  {
    match step
    case AccessStep(guard) =>
      var (cell, r) := AccessCell(s.cell);
      if r.Returned? && r.value.Some? then s.(cell := cell, guards := s.guards[guard := r.value.value])
      else s.(cell := cell)
    case WriteStep(guard, data) =>
      s.(guards := s.guards[guard := data], contents := data)
    case DropStep(guard) =>
      s.(cell := DropGuardCell(s.cell, s.guards[guard]).0, guards := s.guards - {guard})
    case GiveStep(id) =>
      s.(cell := GiveCell(s.cell, id).0)
    case ReturnStep(id) =>
      s.(cell := ReturnCell(s.cell, id).0)
    case KernelWriteStep(data) =>
      s.(cell := s.cell.(state := Kernel(data, s.cell.state.submissionId)), contents := data)
  }

  predicate IsRun(s: Shared, steps: seq<Step>)
    decreases |steps|
  {
    steps == [] || (Enabled(s, steps[0]) && IsRun(After(s, steps[0]), steps[1..]))
  }

  function AfterAll(s: Shared, steps: seq<Step>): Shared
    requires IsRun(s, steps)
    decreases |steps|
  {
    if steps == [] then s else AfterAll(After(s, steps[0]), steps[1..])
  }

  function NewShared(data: Bytes): Shared {
    Shared(Cell(User(data), false), map[], |data|, data)
  }

  /** Number of places that hold the byte storage. */
  function Places(s: Shared): nat {
    (if s.cell.state.Returning? then 0 else 1) + |s.guards|
  }

  /**
   The storage is with the user, with the kernel or in the one guard; it is in
   transition exactly while that guard exists; and it never changes its size
   or loses a write.
   */
  predicate SingleOwner(s: Shared) {
    && (s.cell.state.Returning? <==> s.guards != map[])
    && |s.guards| <= 1
    && (!s.cell.state.Returning? ==> s.cell.state.bytes == s.contents)
    && (forall g | g in s.guards :: s.guards[g] == s.contents)
    && |s.contents| == s.size
  }

  /** Once poisoned, the storage may be dropped together with a guard, but is never duplicated. */
  predicate AtMostOneOwner(s: Shared) {
    && (!s.cell.state.Returning? ==> s.guards == map[])
    && |s.guards| <= 1
  }

  lemma StepKeepsSingleOwner(s: Shared, step: Step)
    requires SingleOwner(s) && Enabled(s, step)
    ensures !After(s, step).cell.poisoned ==> SingleOwner(After(s, step))
    ensures AtMostOneOwner(After(s, step))
  {
    match step {
      case DropStep(guard) => OnlyGuard(s.guards, guard);
      case WriteStep(guard, data) => OnlyGuard(s.guards, guard);
      case _ =>
    }
  }

  lemma OnlyGuard(guards: map<nat, Bytes>, guard: nat)
    requires guard in guards && |guards| <= 1
    ensures guards == map[guard := guards[guard]]
  {
    assert |guards - {guard}| == 0 by {
      assert guards.Keys == {guard} + (guards.Keys - {guard});
      assert |guards.Keys - {guard}| == 0;
      assert (guards - {guard}).Keys == guards.Keys - {guard};
    }
    assert guards - {guard} == map[];
    assert guards.Keys == {guard};
  }

  /**
   Single ownership over any interleaving: while the mutex is not poisoned
   the storage is in exactly one place with its size and last contents.
   */
  lemma {:induction false} RunsKeepSingleOwner(s: Shared, steps: seq<Step>)
    requires SingleOwner(s) && IsRun(s, steps)
    ensures var t := AfterAll(s, steps);
      !t.cell.poisoned ==> SingleOwner(t) && Places(t) == 1
    decreases |steps|
  {
    if steps == [] {
      assert |s.guards| == 0 <==> s.guards == map[];
    } else {
      var t := After(s, steps[0]);
      StepKeepsSingleOwner(s, steps[0]);
      if t.cell.poisoned {
        PoisonStays(t, steps[1..]);
      } else {
        RunsKeepSingleOwner(t, steps[1..]);
      }
    }
  }

  lemma {:induction false} PoisonStays(s: Shared, steps: seq<Step>)
    requires s.cell.poisoned && IsRun(s, steps)
    ensures AfterAll(s, steps).cell.poisoned
    decreases |steps|
  {
    if steps != [] {
      PoisonStays(After(s, steps[0]), steps[1..]);
    }
  }

  /** Once poisoned, every attempt to use the buffer panics and changes nothing. */
  lemma PoisonedPanics(c: Cell, id: nat, bytes: Bytes)
    requires c.poisoned
    ensures AccessCell(c) == (c, Panicked) && GiveCell(c, id) == (c, Panicked)
    ensures ReturnCell(c, id) == (c, Panicked) && DropGuardCell(c, bytes) == (c, Panicked)
  {
  }

  /** Even after a panic the storage never exists twice. */
  lemma {:induction false} NeverTwoOwners(s: Shared, steps: seq<Step>)
    requires AtMostOneOwner(s) && IsRun(s, steps)
    requires !s.cell.poisoned ==> SingleOwner(s)
    ensures Places(AfterAll(s, steps)) <= 1
    decreases |steps|
  {
    if steps != [] {
      var step := steps[0];
      if !s.cell.poisoned {
        StepKeepsSingleOwner(s, step);
      } else if step.DropStep? || step.WriteStep? {
        OnlyGuard(s.guards, step.guard);
      }
      NeverTwoOwners(After(s, step), steps[1..]);
    }
  }

  /** The one way to poison the buffer: returning it when the kernel does not own it under that id. */
  predicate Misreturns(s: Shared, step: Step) {
    step.ReturnStep? && !(s.cell.state.Kernel? && s.cell.state.submissionId == step.id)
  }

  predicate NeverMisreturns(s: Shared, steps: seq<Step>)
    requires IsRun(s, steps)
    decreases |steps|
  {
    steps == [] || (!Misreturns(s, steps[0]) && NeverMisreturns(After(s, steps[0]), steps[1..]))
  }

  lemma {:induction false} PoisonedIffMisreturned(s: Shared, steps: seq<Step>)
    requires !s.cell.poisoned && IsRun(s, steps)
    ensures AfterAll(s, steps).cell.poisoned <==> !NeverMisreturns(s, steps)
    decreases |steps|
  {
    if steps != [] {
      var t := After(s, steps[0]);
      if t.cell.poisoned {
        PoisonStays(t, steps[1..]);
      } else {
        PoisonedIffMisreturned(t, steps[1..]);
      }
    }
  }

  /** The unconditional write in the guard's drop only ever replaces `Returning`. */
  lemma GuardDropOverwritesNothing(data: Bytes, steps: seq<Step>, guard: nat)
    requires IsRun(NewShared(data), steps)
    requires var s := AfterAll(NewShared(data), steps);
      !s.cell.poisoned && guard in s.guards
    ensures var s := AfterAll(NewShared(data), steps);
      && s.cell.state == Returning
      && s.guards == map[guard := s.contents]
      && After(s, DropStep(guard)).cell.state == User(s.contents)
  {
    RunsKeepSingleOwner(NewShared(data), steps);
    var s := AfterAll(NewShared(data), steps);
    OnlyGuard(s.guards, guard);
  }

  /** What the last write of a run left, read off its steps alone. */
  function LastWrite(data: Bytes, steps: seq<Step>): Bytes
    decreases |steps|
  {
    if steps == [] then data
    else if steps[0].WriteStep? || steps[0].KernelWriteStep? then LastWrite(steps[0].data, steps[1..])
    else LastWrite(data, steps[1..])
  }

  lemma {:induction false} ContentsAreTheLastWrite(s: Shared, steps: seq<Step>)
    requires IsRun(s, steps)
    ensures AfterAll(s, steps).contents == LastWrite(s.contents, steps)
    decreases |steps|
  {
    if steps != [] {
      ContentsAreTheLastWrite(After(s, steps[0]), steps[1..]);
    }
  }

  /**
   In every reachable state: while a guard is out or the kernel has the
   buffer, an access finds nothing and giving it away fails, saying why.
   Otherwise an access reads what the last user or kernel write left, and
   giving it away answers its original size.
   */
  lemma AccessReadsLastWrite(data: Bytes, steps: seq<Step>, id: nat)
    requires IsRun(NewShared(data), steps) && !AfterAll(NewShared(data), steps).cell.poisoned
    ensures var s := AfterAll(NewShared(data), steps);
      var access, give := AccessCell(s.cell).1, GiveCell(s.cell, id).1;
      if s.guards != map[] then access == Returned(None) && give == Returned(Err(Transitioning))
      else if s.cell.state.Kernel? then access == Returned(None) && give == Returned(Err(OwnedByKernel(s.cell.state.submissionId)))
      else
        && access == Returned(Some(LastWrite(data, steps))) && |LastWrite(data, steps)| == |data|
        && give == Returned(Ok(|data|))
  {
    RunsKeepSingleOwner(NewShared(data), steps);
    ContentsAreTheLastWrite(NewShared(data), steps);
    SizeIsFixed(NewShared(data), steps);
  }

  /**
   A buffer given to the kernel stays with it, whatever else is tried, until
   it is returned under the same id; then the user has it again with what the
   kernel wrote.  A return under any other id panics.
   */
  lemma KernelKeepsItUntilReturned(data: Bytes, earlier: seq<Step>, id: nat, later: seq<Step>)
    requires IsRun(NewShared(data), earlier)
    requires var s := AfterAll(NewShared(data), earlier);
      && !s.cell.poisoned && s.guards == map[] && !s.cell.state.Kernel?
      && IsRun(After(s, GiveStep(id)), later)
    requires forall step | step in later :: !step.ReturnStep?
    ensures var u := AfterAll(After(AfterAll(NewShared(data), earlier), GiveStep(id)), later);
      && u.cell == Cell(Kernel(LastWrite(LastWrite(data, earlier), later), id), false)
      && ReturnCell(u.cell, id) == (Cell(User(LastWrite(LastWrite(data, earlier), later)), false), Returned(()))
      && forall other | other != id :: ReturnCell(u.cell, other) == (u.cell.(poisoned := true), Panicked)
  {
    RunsKeepSingleOwner(NewShared(data), earlier);
    ContentsAreTheLastWrite(NewShared(data), earlier);
    var t := After(AfterAll(NewShared(data), earlier), GiveStep(id));
    StaysWithKernel(t, later, id);
    ContentsAreTheLastWrite(t, later);
  }

  lemma {:induction false} StaysWithKernel(s: Shared, steps: seq<Step>, id: nat)
    requires s.cell == Cell(Kernel(s.contents, id), false) && s.guards == map[] && IsRun(s, steps)
    requires forall step | step in steps :: !step.ReturnStep?
    ensures var t := AfterAll(s, steps); t.cell == Cell(Kernel(t.contents, id), false)
    decreases |steps|
  {
    if steps != [] {
      StaysWithKernel(After(s, steps[0]), steps[1..], id);
    }
  }

  lemma {:induction false} SizeIsFixed(s: Shared, steps: seq<Step>)
    requires IsRun(s, steps)
    ensures AfterAll(s, steps).size == s.size
    decreases |steps|
  {
    if steps != [] {
      SizeIsFixed(After(s, steps[0]), steps[1..]);
    }
  }
}
