/**
 The registration tables for file descriptors and buffers: first-fit slot
 allocation, handles that name a slot, and marks for slots in use.
 */
module Registries {
  import opened Wrappers

  /** Slot indices are handed out as 32-bit numbers. */
  const U32_RANGE: nat := 0x1_0000_0000

  datatype RegistryError = InvalidDescriptor | EmptyBuffer | NotRegistered | InFlight

  /** A pinned buffer; `name` stands for its identity. */
  datatype PinnedBuffer = PinnedBuffer(name: nat, size: nat)

  datatype RegisteredFd = RegisteredFd(index: nat, fd: int)

  datatype RegisteredBuffer = RegisteredBuffer(index: nat, size: nat)

  type Table<T> = seq<Option<T>>

  /** The first empty slot. */
  function Position<T>(table: Table<T>): (r: Option<nat>)
    ensures r.Some? ==> r.value < |table| && table[r.value].None?
    ensures r.Some? ==> forall i | 0 <= i < r.value :: table[i].Some?
    ensures r.None? ==> forall i | 0 <= i < |table| :: table[i].Some?
  {
    if table == [] then None
    else if table[0].None? then Some(0)
    else
      assert forall i | 1 <= i < |table| :: table[i] == table[1..][i - 1];
      var r := Position(table[1..]);
      if r.Some? then Some(r.value + 1) else None
  }

  function Occupied<T>(table: Table<T>): (n: nat)
    ensures n <= |table|
  {
    if table == [] then 0 else (if table[0].Some? then 1 else 0) + Occupied(table[1..])
  }

  /** First-fit insertion, with the index truncated to 32 bits as the cast does. */
  function Insert<T>(table: Table<T>, item: T): (Table<T>, nat) {
    var p := Position(table);
    if p.Some? then
      var index := p.value % U32_RANGE;
      (table[index := Some(item)], index)
    else
      var index := |table| % U32_RANGE;
      ((table + [None])[index := Some(item)], index)
  }

  predicate HoldsFd(table: Table<int>, h: RegisteredFd) {
    h.index < |table| && table[h.index] == Some(h.fd)
  }

  predicate HoldsBuffer(table: Table<PinnedBuffer>, h: RegisteredBuffer) {
    h.index < |table| && table[h.index].Some? && table[h.index].value.size == h.size
  }

  class Registry {
    var registeredFds: Table<int>
    var registeredBuffers: Table<PinnedBuffer>
    var fdsInUse: set<nat>
    var buffersInUse: set<nat>

    constructor ()
      ensures registeredFds == [] && registeredBuffers == [] && fdsInUse == {} && buffersInUse == {}
    {
      registeredFds, registeredBuffers, fdsInUse, buffersInUse := [], [], {}, {};
    }

    method RegisterFd(fd: int) returns (r: Result<RegisteredFd, RegistryError>)
      modifies this`registeredFds
      ensures fd < 0 ==> r == Err(InvalidDescriptor) && registeredFds == old(registeredFds)
      ensures fd >= 0 ==> r.Ok? && r.value.fd == fd && (registeredFds, r.value.index) == Insert(old(registeredFds), fd)
    {
      if fd < 0 {
        return Err(InvalidDescriptor);
      }
      var index: nat;
      var empty := Position(registeredFds);
      if empty.Some? {
        index := empty.value % U32_RANGE;
      } else {
        index := |registeredFds| % U32_RANGE;
        registeredFds := registeredFds + [None];
      }
      registeredFds := registeredFds[index := Some(fd)];
      r := Ok(RegisteredFd(index, fd));
    }

    method RegisterBuffer(buffer: PinnedBuffer) returns (r: Result<RegisteredBuffer, RegistryError>)
      modifies this`registeredBuffers
      ensures buffer.size == 0 ==> r == Err(EmptyBuffer) && registeredBuffers == old(registeredBuffers)
      ensures buffer.size > 0 ==>
        r.Ok? && r.value.size == buffer.size && (registeredBuffers, r.value.index) == Insert(old(registeredBuffers), buffer)
    {
      if buffer.size == 0 {
        return Err(EmptyBuffer);
      }
      var index: nat;
      var empty := Position(registeredBuffers);
      if empty.Some? {
        index := empty.value % U32_RANGE;
      } else {
        index := |registeredBuffers| % U32_RANGE;
        registeredBuffers := registeredBuffers + [None];
      }
      registeredBuffers := registeredBuffers[index := Some(buffer)];
      r := Ok(RegisteredBuffer(index, buffer.size));
    }

    /** Consumes the handle, also when it fails. */
    method UnregisterFd(h: RegisteredFd) returns (r: Result<(), RegistryError>)
      modifies this`registeredFds
      ensures r == if !HoldsFd(old(registeredFds), h) then Err(NotRegistered)
                   else if h.index in fdsInUse then Err(InFlight)
                   else Ok(())
      ensures registeredFds == if r.Ok? then old(registeredFds)[h.index := None] else old(registeredFds)
    {
      if h.index >= |registeredFds| {
        return Err(NotRegistered);
      }
      if registeredFds[h.index].None? {
        return Err(NotRegistered);
      }
      if registeredFds[h.index].value != h.fd {
        return Err(NotRegistered);
      }
      if h.index in fdsInUse {
        return Err(InFlight);
      }
      registeredFds := registeredFds[h.index := None];
      r := Ok(());
    }

    method UnregisterBuffer(h: RegisteredBuffer) returns (r: Result<PinnedBuffer, RegistryError>)
      modifies this`registeredBuffers
      ensures r == if !HoldsBuffer(old(registeredBuffers), h) then Err(NotRegistered)
                   else if h.index in buffersInUse then Err(InFlight)
                   else Ok(old(registeredBuffers)[h.index].value)
      ensures registeredBuffers == if r.Ok? then old(registeredBuffers)[h.index := None] else old(registeredBuffers)
    {
      if h.index >= |registeredBuffers| {
        return Err(NotRegistered);
      }
      if registeredBuffers[h.index].None? {
        return Err(NotRegistered);
      }
      var buffer := registeredBuffers[h.index].value;
      if buffer.size != h.size {
        return Err(NotRegistered);
      }
      if h.index in buffersInUse {
        return Err(InFlight);
      }
      registeredBuffers := registeredBuffers[h.index := None];
      r := Ok(buffer);
    }

    /** Looks at the slot only, not at which descriptor the handle was made for. */
    method MarkFdInUse(h: RegisteredFd) returns (r: Result<(), RegistryError>)
      modifies this`fdsInUse
      ensures r.Ok? <==> h.index < |registeredFds| && registeredFds[h.index].Some?
      ensures r.Err? ==> r.error == NotRegistered
      ensures fdsInUse == old(fdsInUse) + if r.Ok? then {h.index} else {}
    {
      if h.index >= |registeredFds| || registeredFds[h.index].None? {
        return Err(NotRegistered);
      }
      fdsInUse := fdsInUse + {h.index};
      r := Ok(());
    }

    method MarkFdNotInUse(h: RegisteredFd)
      modifies this`fdsInUse
      ensures fdsInUse == old(fdsInUse) - {h.index}
    {
      fdsInUse := fdsInUse - {h.index};
    }

    method MarkBufferInUse(h: RegisteredBuffer) returns (r: Result<(), RegistryError>)
      modifies this`buffersInUse
      ensures r.Ok? <==> h.index < |registeredBuffers| && registeredBuffers[h.index].Some?
      ensures r.Err? ==> r.error == NotRegistered
      ensures buffersInUse == old(buffersInUse) + if r.Ok? then {h.index} else {}
    {
      if h.index >= |registeredBuffers| || registeredBuffers[h.index].None? {
        return Err(NotRegistered);
      }
      buffersInUse := buffersInUse + {h.index};
      r := Ok(());
    }

    method MarkBufferNotInUse(h: RegisteredBuffer)
      modifies this`buffersInUse
      ensures buffersInUse == old(buffersInUse) - {h.index}
    {
      buffersInUse := buffersInUse - {h.index};
    }
  }

  // ----- Runs of one table ------------------------------------------------

  /** A handle as its owner has it: the slot it names and what was registered through it. */
  datatype Handle<T> = Handle(index: nat, item: T)

  /**
   One table with everything around it.  `handles` are the live handles, each
   under a name of its own; they cannot be copied and are consumed by
   unregistering.  `flying` counts the operations in flight per slot, and
   `peak` is the most items ever registered at once.
   */
  datatype System<T> =
    System(table: Table<T>, inUse: set<nat>, handles: map<nat, Handle<T>>, named: nat, flying: multiset<nat>, peak: nat)

  datatype Step<T> =
    | RegisterStep(item: T)
    | UnregisterStep(name: nat)    // through the live handle of this name
    | ForgetStep(name: nat)        // the handle is dropped without unregistering
    | BeginStep(name: nat)         // an operation marks the handle's slot in use
    | EndStep(index: nat)          // an operation on the slot completes

  function Start<T>(): System<T> {
    System([], {}, map[], 0, multiset{}, 0)
  }

  predicate Enabled<T>(s: System<T>, step: Step<T>) {
    match step
    case RegisterStep(_) => |s.table| < U32_RANGE
    case UnregisterStep(name) => name in s.handles
    case ForgetStep(name) => name in s.handles
    case BeginStep(name) => name in s.handles
    case EndStep(index) => s.flying[index] > 0
  }

  function Max(a: nat, b: nat): nat { if a < b then b else a }

  function After<T>(s: System<T>, step: Step<T>): System<T>
    requires Enabled(s, step)
  {
    match step
    case RegisterStep(item) =>
      var (table, index) := Insert(s.table, item);
      s.(table := table, handles := s.handles[s.named := Handle(index, item)], named := s.named + 1,
         peak := Max(s.peak, Occupied(table)))
    case UnregisterStep(name) =>
      var index := s.handles[name].index;
      if index < |s.table| && index !in s.inUse
      then s.(table := s.table[index := None], handles := s.handles - {name})
      else s.(handles := s.handles - {name})
    case ForgetStep(name) =>
      s.(handles := s.handles - {name})
    case BeginStep(name) =>
      var index := s.handles[name].index;
      if index < |s.table| && s.table[index].Some?
      then s.(inUse := s.inUse + {index}, flying := s.flying[index := s.flying[index] + 1])
      else s
    case EndStep(index) =>
      s.(inUse := s.inUse - {index}, flying := s.flying[index := s.flying[index] - 1])
  }

  predicate IsRun<T>(s: System<T>, steps: seq<Step<T>>)
    decreases |steps|
  {
    steps == [] || (Enabled(s, steps[0]) && IsRun(After(s, steps[0]), steps[1..]))
  }

  function AfterAll<T>(s: System<T>, steps: seq<Step<T>>): System<T>
    requires IsRun(s, steps)
    decreases |steps|
  {
    if steps == [] then s else AfterAll(After(s, steps[0]), steps[1..])
  }

  /**
   No slot is wasted, live handles lead to what was registered through them
   and share no slot, and only occupied slots are in use.
   */
  ghost predicate Inv<T>(s: System<T>) {
    && |s.table| == s.peak <= U32_RANGE
    && (forall n | n in s.handles :: n < s.named && Holds(s.table, s.handles[n]))
    && (forall n, m | n in s.handles && m in s.handles && n != m :: s.handles[n].index != s.handles[m].index)
    && (forall i | i in s.inUse :: i < |s.table| && s.table[i].Some?)
  }

  predicate Holds<T(==)>(table: Table<T>, h: Handle<T>) {
    h.index < |table| && table[h.index] == Some(h.item)
  }

  lemma {:induction false} OccupiedUpdate<T>(table: Table<T>, i: nat, slot: Option<T>)
    requires i < |table|
    ensures Occupied(table[i := slot])
         == Occupied(table) - (if table[i].Some? then 1 else 0) + (if slot.Some? then 1 else 0)
  {
    var after := table[i := slot];
    if i == 0 {
      assert after[1..] == table[1..];
    } else {
      assert after[1..] == table[1..][i - 1 := slot];
      OccupiedUpdate(table[1..], i - 1, slot);
    }
  }

  lemma {:induction false} FullTable<T>(table: Table<T>)
    requires forall i | 0 <= i < |table| :: table[i].Some?
    ensures Occupied(table) == |table|
  {
    if table != [] {
      FullTable(table[1..]);
    }
  }

  lemma {:induction false} OccupiedAppend<T>(table: Table<T>, slot: Option<T>)
    ensures Occupied(table + [slot]) == Occupied(table) + if slot.Some? then 1 else 0
  {
    if table == [] {
      assert table + [slot] == [slot];
    } else {
      assert (table + [slot])[1..] == table[1..] + [slot];
      OccupiedAppend(table[1..], slot);
    }
  }

  lemma SmallIndexIsNotTruncated(index: nat)
    requires index < U32_RANGE
    ensures index % U32_RANGE == index
  {
  }

  lemma InsertReusesFirstGap<T>(table: Table<T>, item: T)
    requires |table| < U32_RANGE && Position(table).Some?
    ensures var p := Position(table).value;
      && Insert(table, item) == (table[p := Some(item)], p)
      && Occupied(table[p := Some(item)]) == Occupied(table) + 1
  {
    var p := Position(table).value;
    SmallIndexIsNotTruncated(p);
    OccupiedUpdate(table, p, Some(item));
  }

  lemma InsertGrowsFullTable<T>(table: Table<T>, item: T)
    requires |table| < U32_RANGE && Position(table).None?
    ensures Insert(table, item) == (table + [Some(item)], |table|)
    ensures Occupied(table + [Some(item)]) == |table| + 1
  {
    SmallIndexIsNotTruncated(|table|);
    assert (table + [None])[|table| := Some(item)] == table + [Some(item)];
    FullTable(table);
    OccupiedAppend(table, Some(item));
  }

  /** An insertion fills one empty slot; the table grows only when every slot is taken. */
  lemma InsertMeaning<T>(table: Table<T>, item: T)
    requires |table| < U32_RANGE
    ensures var (after, index) := Insert(table, item);
      && index < |after| && after[index] == Some(item)
      && (index < |table| ==> table[index].None? && |after| == |table|)
      && (index >= |table| ==> |after| == |table| + 1 && Occupied(after) == |after|)
      && forall j | 0 <= j < |table| && j != index :: after[j] == table[j]
  {
    if Position(table).Some? {
      InsertReusesFirstGap(table, item);
    } else {
      InsertGrowsFullTable(table, item);
    }
  }

  /** A registration never takes the slot of a live handle or one in use. */
  lemma RegisteredSlotIsFree<T>(s: System<T>, item: T)
    requires Inv(s) && Enabled(s, RegisterStep(item))
    ensures var index := Insert(s.table, item).1;
      index !in s.inUse && forall n | n in s.handles :: s.handles[n].index != index
  {
    InsertMeaning(s.table, item);
    assert forall n | n in s.handles :: Holds(s.table, s.handles[n]);
  }

  lemma RegisterKeepsInv<T>(s: System<T>, item: T)
    requires Inv(s) && Enabled(s, RegisterStep(item))
    ensures Inv(After(s, RegisterStep(item)))
  {
    InsertMeaning(s.table, item);
    RegisteredSlotIsFree(s, item);
  }

  lemma UnregisterKeepsInv<T>(s: System<T>, name: nat)
    requires Inv(s) && name in s.handles
    ensures Inv(After(s, UnregisterStep(name)))
  {
    assert Holds(s.table, s.handles[name]);
  }

  lemma StepKeepsInv<T>(s: System<T>, step: Step<T>)
    requires Inv(s) && Enabled(s, step)
    ensures Inv(After(s, step))
  {
    match step
    case RegisterStep(item) => RegisterKeepsInv(s, item);
    case UnregisterStep(name) => UnregisterKeepsInv(s, name);
    case _ =>
  }

  lemma {:induction false} RunsKeepInv<T>(s: System<T>, steps: seq<Step<T>>)
    requires Inv(s) && IsRun(s, steps)
    ensures Inv(AfterAll(s, steps))
    decreases |steps|
  {
    if steps != [] {
      StepKeepsInv(s, steps[0]);
      RunsKeepInv(After(s, steps[0]), steps[1..]);
    }
  }

  /** How often the table was full: its length is the largest number of items registered at once. */
  function HighWater<T>(s: System<T>, steps: seq<Step<T>>): nat
    requires IsRun(s, steps)
    decreases |steps|
  {
    if steps == [] then Occupied(s.table)
    else Max(Occupied(s.table), HighWater(After(s, steps[0]), steps[1..]))
  }

  lemma {:induction false} PeakIsHighWater<T>(s: System<T>, steps: seq<Step<T>>)
    requires IsRun(s, steps) && Inv(s)
    ensures AfterAll(s, steps).peak == Max(s.peak, HighWater(s, steps))
    decreases |steps|
  {
    if steps == [] {
      assert Occupied(s.table) <= |s.table|;
    } else {
      var step := steps[0];
      var t := After(s, step);
      StepKeepsInv(s, step);
      PeakIsHighWater(t, steps[1..]);
      if step.UnregisterStep? && t.table != s.table {
        OccupiedUpdate(s.table, s.handles[step.name].index, None);
      }
      assert t.peak == Max(s.peak, Occupied(t.table)) by {
        assert Occupied(t.table) <= |t.table| == t.peak;
        assert step.RegisterStep? || t.peak == s.peak;
      }
      assert Occupied(s.table) <= s.peak;
      assert HighWater(t, steps[1..]) >= Occupied(t.table);
    }
  }

  /** First-fit reuse wastes no slot: the table is as long as the most items ever registered at once. */
  lemma TableLengthIsHighWater<T>(steps: seq<Step<T>>)
    requires IsRun(Start<T>(), steps)
    ensures |AfterAll(Start<T>(), steps).table| == HighWater(Start<T>(), steps)
  {
    RunsKeepInv(Start<T>(), steps);
    PeakIsHighWater(Start<T>(), steps);
  }

  /**
   Over any run, live handles name distinct slots that still hold what was
   registered, and unregistering gives exactly that back, leaving all other
   handles alone.
   */
  lemma UnregisterReturnsWhatWasRegistered<T>(steps: seq<Step<T>>, name: nat)
    requires IsRun(Start<T>(), steps) && name in AfterAll(Start<T>(), steps).handles
    ensures var s := AfterAll(Start<T>(), steps); var t := After(s, UnregisterStep(name)); var h := s.handles[name];
      && Holds(s.table, h)
      && (t.table[h.index].None? <==> h.index !in s.inUse)
      && forall n | n in s.handles && n != name ::
           s.handles[n].index != h.index && n in t.handles && t.handles[n] == s.handles[n] && Holds(t.table, s.handles[n])
  {
    RunsKeepInv(Start<T>(), steps);
    var s := AfterAll(Start<T>(), steps);
    StepKeepsInv(s, UnregisterStep(name));
  }

  /** A live descriptor handle always passes the checks of `UnregisterFd`. */
  lemma LiveFdHandleIsHonoured(steps: seq<Step<int>>, name: nat)
    requires IsRun(Start<int>(), steps) && name in AfterAll(Start<int>(), steps).handles
    ensures var s := AfterAll(Start<int>(), steps); HoldsFd(s.table, RegisteredFd(s.handles[name].index, s.handles[name].item))
  {
    RunsKeepInv(Start<int>(), steps);
  }

  /** A live buffer handle, made with the size of its buffer, always passes those of `UnregisterBuffer`. */
  lemma LiveBufferHandleIsHonoured(steps: seq<Step<PinnedBuffer>>, name: nat)
    requires IsRun(Start<PinnedBuffer>(), steps) && name in AfterAll(Start<PinnedBuffer>(), steps).handles
    ensures var s := AfterAll(Start<PinnedBuffer>(), steps);
      HoldsBuffer(s.table, RegisteredBuffer(s.handles[name].index, s.handles[name].item.size))
  {
    RunsKeepInv(Start<PinnedBuffer>(), steps);
  }

  // ----- Protection of slots in use --------------------------------------

  /** Every slot with an operation in flight is marked, so it cannot be unregistered. */
  ghost predicate Protected<T>(s: System<T>) {
    forall i | i in s.flying :: i in s.inUse
  }

  /** The marks are a set: the first of two operations on a slot to finish clears the mark of both. */
  predicate ClearsSharedMark<T>(s: System<T>, step: Step<T>) {
    step.EndStep? && s.flying[step.index] > 1
  }

  lemma StepKeepsProtectionIff<T>(s: System<T>, step: Step<T>)
    requires Protected(s) && Enabled(s, step)
    ensures Protected(After(s, step)) <==> !ClearsSharedMark(s, step)
  {
  }

  ghost predicate ProtectedThroughout<T>(s: System<T>, steps: seq<Step<T>>)
    requires IsRun(s, steps)
    decreases |steps|
  {
    Protected(s) && (steps != [] ==> ProtectedThroughout(After(s, steps[0]), steps[1..]))
  }

  predicate NeverSharesMark<T>(s: System<T>, steps: seq<Step<T>>)
    requires IsRun(s, steps)
    decreases |steps|
  {
    steps != [] ==> !ClearsSharedMark(s, steps[0]) && NeverSharesMark(After(s, steps[0]), steps[1..])
  }

  /** Slots in use stay protected over a run exactly when no operation ends while another uses its slot. */
  lemma {:induction false} ProtectedIffMarksNotShared<T>(s: System<T>, steps: seq<Step<T>>)
    requires Protected(s) && IsRun(s, steps)
    ensures ProtectedThroughout(s, steps) <==> NeverSharesMark(s, steps)
    decreases |steps|
  {
    if steps != [] {
      StepKeepsProtectionIff(s, steps[0]);
      if Protected(After(s, steps[0])) {
        ProtectedIffMarksNotShared(After(s, steps[0]), steps[1..]);
      }
    }
  }

  /** A protected slot survives an attempt to unregister it while an operation uses it. */
  lemma ProtectedSlotIsNotUnregistered<T>(s: System<T>, name: nat)
    requires Protected(s) && name in s.handles && s.handles[name].index in s.flying
    ensures After(s, UnregisterStep(name)).table == s.table
  {
  }

  /** Two operations on one descriptor: after the first ends, it can be unregistered under the second. */
  lemma SharedMarkLosesProtection(fd: int)
    ensures var steps := [RegisterStep(fd), BeginStep(0), BeginStep(0), EndStep(0), UnregisterStep(0)];
      && IsRun(Start<int>(), steps)
      && AfterAll(Start<int>(), steps).flying == multiset{0}
      && AfterAll(Start<int>(), steps).table == [None]
  {
    var steps := [RegisterStep(fd), BeginStep(0), BeginStep(0), EndStep(0), UnregisterStep(0)];
    var s0: System<int> := Start();
    var s1 := System([Some(fd)], {}, map[0 := Handle(0, fd)], 1, multiset{}, 1);
    var s2 := s1.(inUse := {0}, flying := multiset{0});
    var s3 := s1.(inUse := {0}, flying := multiset{0, 0});
    var s4 := s1.(flying := multiset{0});
    var s5 := System([None], {}, map[], 1, multiset{0}, 1);
    assert After(s0, steps[0]) == s1;
    assert After(s1, steps[1]) == s2;
    assert After(s2, steps[2]) == s3;
    assert After(s3, steps[3]) == s4;
    assert After(s4, steps[4]) == s5;
    RunStep(s4, steps[4..]);
    RunStep(s3, steps[3..]);
    RunStep(s2, steps[2..]);
    RunStep(s1, steps[1..]);
    RunStep(s0, steps);
  }

  lemma RunStep<T>(s: System<T>, steps: seq<Step<T>>)
    requires steps != [] && Enabled(s, steps[0]) && IsRun(After(s, steps[0]), steps[1..])
    ensures IsRun(s, steps) && AfterAll(s, steps) == AfterAll(After(s, steps[0]), steps[1..])
  {
  }
}
