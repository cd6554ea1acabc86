/**
 Lock-free counters updated by any number of threads.

 A call is a little program of atomic steps; a run interleaves the steps of
 any number of calls in any order.  A weak compare-exchange may fail although
 the value matches.  Counters are 64 bits wide and wrap around.
 */
module PerfCounters {

  const WORD: nat := 0x1_0000_0000_0000_0000
  const U64_MAX: nat := WORD - 1

  function Min(a: int, b: int): int { if a < b then a else b }

  function Max(a: int, b: int): int { if a < b then b else a }

  // ----- PerfCounter::record ---------------------------------------------

  datatype RecordPc =
    | AddCount
    | AddTotal
    | LoadMin
    | MinLoop(currentMin: nat)
    | LoadMax
    | MaxLoop(currentMax: nat)
    | Finished

  datatype RecordCall = RecordCall(nanos: nat, pc: RecordPc)

  datatype Counter = Counter(count: nat, totalNs: nat, minNs: nat, maxNs: nat)

  /** The shared counter and all calls ever made, finished ones included. */
  datatype Recording = Recording(counter: Counter, calls: seq<RecordCall>)

  const NEW_RECORDING := Recording(Counter(0, 0, U64_MAX, 0), [])

  datatype RecordStep =
    | CallRecord(nanos: nat)              // a thread enters `record` with this duration
    | Advance(call: nat, spurious: bool)  // the next atomic step of a call

  predicate RecordEnabled(s: Recording, step: RecordStep) {
    step.Advance? ==> step.call < |s.calls|
  }

  /** `compare_exchange_weak` on the minimum or the maximum. */
  function Exchange(current: nat, expected: nat, desired: nat, spurious: bool): (nat, bool) {
    if current == expected && !spurious then (desired, true) else (current, false)
  }

  function AdvanceRecord(c: Counter, call: RecordCall, spurious: bool): (Counter, RecordCall) {
    match call.pc
    case AddCount =>
      (c.(count := (c.count + 1) % WORD), call.(pc := AddTotal))
    case AddTotal =>
      (c.(totalNs := (c.totalNs + call.nanos) % WORD), call.(pc := LoadMin))
    case LoadMin =>
      (c, call.(pc := MinLoop(c.minNs)))
    case MinLoop(current) =>
      if call.nanos < current then
        var (value, done) := Exchange(c.minNs, current, call.nanos, spurious);
        (c.(minNs := value), call.(pc := if done then LoadMax else MinLoop(value)))
      else (c, call.(pc := LoadMax))
    case LoadMax =>
      (c, call.(pc := MaxLoop(c.maxNs)))
    case MaxLoop(current) =>
      if call.nanos > current then
        var (value, done) := Exchange(c.maxNs, current, call.nanos, spurious);
        (c.(maxNs := value), call.(pc := if done then Finished else MaxLoop(value)))
      else (c, call.(pc := Finished))
    case Finished => (c, call)
  }

  function AfterRecord(s: Recording, step: RecordStep): Recording
    requires RecordEnabled(s, step)
  {
    match step
    case CallRecord(nanos) =>
      s.(calls := s.calls + [RecordCall(nanos % WORD, AddCount)])
    case Advance(i, spurious) =>
      var (counter, call) := AdvanceRecord(s.counter, s.calls[i], spurious);
      Recording(counter, s.calls[i := call])
  }

  predicate IsRecordRun(s: Recording, steps: seq<RecordStep>)
    decreases |steps|
  {
    steps == [] || (RecordEnabled(s, steps[0]) && IsRecordRun(AfterRecord(s, steps[0]), steps[1..]))
  }

  function AfterRecords(s: Recording, steps: seq<RecordStep>): Recording
    requires IsRecordRun(s, steps)
    decreases |steps|
  {
    if steps == [] then s else AfterRecords(AfterRecord(s, steps[0]), steps[1..])
  }

  /** No call is in the middle of its work. */
  predicate Quiet(s: Recording) {
    forall i | 0 <= i < |s.calls| :: s.calls[i].pc.Finished?
  }

  // What the counter should say about a list of durations.

  function Durations(calls: seq<RecordCall>): (d: seq<nat>)
    ensures |d| == |calls|
  {
    seq(|calls|, i requires 0 <= i < |calls| => calls[i].nanos)
  }

  function Sum(d: seq<nat>): nat {
    if d == [] then 0 else d[0] + Sum(d[1..])
  }

  predicate IsMinimum(d: seq<nat>, m: nat) {
    (forall i | 0 <= i < |d| :: m <= d[i]) && (m in d || (m == U64_MAX && d == []))
  }

  predicate IsMaximum(d: seq<nat>, m: nat) {
    (forall i | 0 <= i < |d| :: d[i] <= m) && (m in d || (m == 0 && d == []))
  }

  // The invariant, with the partial sums over calls that passed a given point.

  function Counted(calls: seq<RecordCall>): nat {
    if calls == [] then 0
    else (if calls[0].pc.AddCount? then 0 else 1) + Counted(calls[1..])
  }

  function Totalled(calls: seq<RecordCall>): nat {
    if calls == [] then 0
    else (if calls[0].pc.AddCount? || calls[0].pc.AddTotal? then 0 else calls[0].nanos) + Totalled(calls[1..])
  }

  lemma {:induction false} CountedUpdate(calls: seq<RecordCall>, i: nat, call: RecordCall)
    requires i < |calls|
    ensures Counted(calls[i := call]) ==
      Counted(calls) - (if calls[i].pc.AddCount? then 0 else 1) + (if call.pc.AddCount? then 0 else 1)
  {
    var after := calls[i := call];
    if i == 0 {
      assert after[1..] == calls[1..];
    } else {
      assert after[1..] == calls[1..][i - 1 := call];
      CountedUpdate(calls[1..], i - 1, call);
    }
  }

  lemma {:induction false} TotalledUpdate(calls: seq<RecordCall>, i: nat, call: RecordCall)
    requires i < |calls|
    ensures Totalled(calls[i := call]) ==
      Totalled(calls) - (if calls[i].pc.AddCount? || calls[i].pc.AddTotal? then 0 else calls[i].nanos)
                      + (if call.pc.AddCount? || call.pc.AddTotal? then 0 else call.nanos)
  {
    var after := calls[i := call];
    if i == 0 {
      assert after[1..] == calls[1..];
    } else {
      assert after[1..] == calls[1..][i - 1 := call];
      TotalledUpdate(calls[1..], i - 1, call);
    }
  }

  lemma {:induction false} SumsOfNewCall(calls: seq<RecordCall>, call: RecordCall)
    requires call.pc.AddCount?
    ensures Counted(calls + [call]) == Counted(calls) && Totalled(calls + [call]) == Totalled(calls)
  {
    if calls == [] {
      assert calls + [call] == [call] && [call][1..] == [];
    } else {
      assert (calls + [call])[1..] == calls[1..] + [call];
      SumsOfNewCall(calls[1..], call);
    }
  }

  predicate PastMin(pc: RecordPc) {
    pc.LoadMax? || pc.MaxLoop? || pc.Finished?
  }

  predicate SumsInv(s: Recording) {
    && s.counter.count == Counted(s.calls) % WORD
    && s.counter.totalNs == Totalled(s.calls) % WORD
  }

  /**
   The minimum is a recorded value, is not above any call that went past it,
   and has only come down since a call last saw it.
   */
  predicate MinInv(minNs: nat, calls: seq<RecordCall>) {
    && (minNs == U64_MAX || exists i :: 0 <= i < |calls| && calls[i].nanos == minNs)
    && (forall i | 0 <= i < |calls| && PastMin(calls[i].pc) :: minNs <= calls[i].nanos)
    && (forall i | 0 <= i < |calls| && calls[i].pc.MinLoop? :: minNs <= calls[i].pc.currentMin)
  }

  predicate MaxInv(maxNs: nat, calls: seq<RecordCall>) {
    && (maxNs == 0 || exists i :: 0 <= i < |calls| && calls[i].nanos == maxNs)
    && (forall i | 0 <= i < |calls| && calls[i].pc.Finished? :: calls[i].nanos <= maxNs)
    && (forall i | 0 <= i < |calls| && calls[i].pc.MaxLoop? :: calls[i].pc.currentMax <= maxNs)
  }

  predicate RecordInv(s: Recording) {
    && SumsInv(s)
    && MinInv(s.counter.minNs, s.calls)
    && MaxInv(s.counter.maxNs, s.calls)
    && forall i | 0 <= i < |s.calls| :: s.calls[i].nanos <= U64_MAX
  }

  /** Reducing an addend first does not change a sum's remainder. */
  lemma AddWraps(a: int, b: int)
    ensures (a % WORD + b) % WORD == (a + b) % WORD
  {
  }

  lemma AdvanceKeepsSums(s: Recording, k: nat, spurious: bool)
    requires SumsInv(s) && k < |s.calls|
    ensures SumsInv(AfterRecord(s, Advance(k, spurious)))
  {
    var t := AfterRecord(s, Advance(k, spurious));
    CountedUpdate(s.calls, k, t.calls[k]);
    TotalledUpdate(s.calls, k, t.calls[k]);
    AddWraps(Counted(s.calls), 1);
    AddWraps(Totalled(s.calls), s.calls[k].nanos);
  }

  lemma AdvanceKeepsMin(s: Recording, k: nat, spurious: bool)
    requires MinInv(s.counter.minNs, s.calls) && k < |s.calls|
    ensures var t := AfterRecord(s, Advance(k, spurious)); MinInv(t.counter.minNs, t.calls)
  {
    var t := AfterRecord(s, Advance(k, spurious));
    assert t.calls[k].nanos == s.calls[k].nanos && t.counter.minNs <= s.counter.minNs;
    if t.counter.minNs != s.counter.minNs {
      assert t.calls[k].nanos == t.counter.minNs;
    } else if t.counter.minNs != U64_MAX {
      var i :| 0 <= i < |s.calls| && s.calls[i].nanos == s.counter.minNs;
      assert t.calls[i].nanos == t.counter.minNs;
    }
  }

  lemma AdvanceKeepsMax(s: Recording, k: nat, spurious: bool)
    requires MaxInv(s.counter.maxNs, s.calls) && k < |s.calls|
    ensures var t := AfterRecord(s, Advance(k, spurious)); MaxInv(t.counter.maxNs, t.calls)
  {
    var t := AfterRecord(s, Advance(k, spurious));
    assert t.calls[k].nanos == s.calls[k].nanos && s.counter.maxNs <= t.counter.maxNs;
    if t.counter.maxNs != s.counter.maxNs {
      assert t.calls[k].nanos == t.counter.maxNs;
    } else if t.counter.maxNs != 0 {
      var i :| 0 <= i < |s.calls| && s.calls[i].nanos == s.counter.maxNs;
      assert t.calls[i].nanos == t.counter.maxNs;
    }
  }

  lemma NewCallKeepsInv(s: Recording, nanos: nat)
    requires RecordInv(s)
    ensures RecordInv(AfterRecord(s, CallRecord(nanos)))
  {
    var t := AfterRecord(s, CallRecord(nanos));
    SumsOfNewCall(s.calls, RecordCall(nanos % WORD, AddCount));
    assert forall i | 0 <= i < |s.calls| :: t.calls[i] == s.calls[i];
  }

  lemma RecordStepKeepsInv(s: Recording, step: RecordStep)
    requires RecordInv(s) && RecordEnabled(s, step)
    ensures RecordInv(AfterRecord(s, step))
  {
    match step {
      case CallRecord(nanos) =>
        NewCallKeepsInv(s, nanos);
      case Advance(k, spurious) =>
        AdvanceKeepsSums(s, k, spurious);
        AdvanceKeepsMin(s, k, spurious);
        AdvanceKeepsMax(s, k, spurious);
    }
  }

  lemma {:induction false} RecordRunsKeepInv(s: Recording, steps: seq<RecordStep>)
    requires RecordInv(s) && IsRecordRun(s, steps)
    ensures RecordInv(AfterRecords(s, steps))
    decreases |steps|
  {
    if steps != [] {
      RecordStepKeepsInv(s, steps[0]);
      RecordRunsKeepInv(AfterRecord(s, steps[0]), steps[1..]);
    }
  }

  lemma {:induction false} QuietSums(calls: seq<RecordCall>)
    requires forall i | 0 <= i < |calls| :: calls[i].pc.Finished?
    ensures Counted(calls) == |calls| && Totalled(calls) == Sum(Durations(calls))
  {
    if calls != [] {
      QuietSums(calls[1..]);
      assert Durations(calls)[1..] == Durations(calls[1..]);
    }
  }

  /** The durations the callers of a run passed, in order and as 64-bit words, read off its steps alone. */
  function DurationsOf(steps: seq<RecordStep>): seq<nat>
    decreases |steps|
  {
    if steps == [] then []
    else (match steps[0] case CallRecord(nanos) => [nanos % 0x1_0000_0000_0000_0000] case Advance(_, _) => []) + DurationsOf(steps[1..])
  }

  lemma {:induction false} CallsAreWhatWasRecorded(s: Recording, steps: seq<RecordStep>)
    requires IsRecordRun(s, steps)
    ensures Durations(AfterRecords(s, steps).calls) == Durations(s.calls) + DurationsOf(steps)
    decreases |steps|
  {
    if steps != [] {
      var t := AfterRecord(s, steps[0]);
      CallsAreWhatWasRecorded(t, steps[1..]);
      match steps[0]
      case CallRecord(nanos) => assert Durations(t.calls) == Durations(s.calls) + [nanos % WORD];
      case Advance(i, _) => assert Durations(t.calls) == Durations(s.calls);
    }
  }

  predicate Describes(c: Counter, d: seq<nat>) {
    && c.count == |d| % WORD
    && c.totalNs == Sum(d) % WORD
    && IsMinimum(d, c.minNs)
    && IsMaximum(d, c.maxNs)
  }

  lemma QuietMinimum(minNs: nat, calls: seq<RecordCall>)
    requires MinInv(minNs, calls) && forall i | 0 <= i < |calls| :: calls[i].pc.Finished? && calls[i].nanos <= U64_MAX
    ensures IsMinimum(Durations(calls), minNs)
  {
    var d := Durations(calls);
    if calls != [] {
      assert d[0] in d;
      if minNs != U64_MAX {
        var i :| 0 <= i < |calls| && calls[i].nanos == minNs;
        assert d[i] == minNs;
      }
    }
  }

  lemma QuietMaximum(maxNs: nat, calls: seq<RecordCall>)
    requires MaxInv(maxNs, calls) && forall i | 0 <= i < |calls| :: calls[i].pc.Finished?
    ensures IsMaximum(Durations(calls), maxNs)
  {
    var d := Durations(calls);
    if calls != [] {
      assert d[0] in d;
      if maxNs != 0 {
        var i :| 0 <= i < |calls| && calls[i].nanos == maxNs;
        assert d[i] == maxNs;
      }
    }
  }

  /** Whenever no call is in flight the counter describes exactly the durations its callers passed. */
  lemma CounterIsExactWhenQuiet(steps: seq<RecordStep>)
    requires IsRecordRun(NEW_RECORDING, steps) && Quiet(AfterRecords(NEW_RECORDING, steps))
    ensures Describes(AfterRecords(NEW_RECORDING, steps).counter, DurationsOf(steps))
  {
    RecordRunsKeepInv(NEW_RECORDING, steps);
    CallsAreWhatWasRecorded(NEW_RECORDING, steps);
    var s := AfterRecords(NEW_RECORDING, steps);
    assert Durations(s.calls) == DurationsOf(steps);
    QuietSums(s.calls);
    QuietMinimum(s.counter.minNs, s.calls);
    QuietMaximum(s.counter.maxNs, s.calls);
  }

  /** How many steps of its own a call still needs when nobody disturbs it. */
  function RecordStepsLeft(c: Counter, call: RecordCall): nat {
    match call.pc
    case AddCount => 6
    case AddTotal => 5
    case LoadMin => 4
    case MinLoop(current) => if current == c.minNs then 3 else 4
    case LoadMax => 2
    case MaxLoop(current) => if current == c.maxNs then 1 else 2
    case Finished => 0
  }

  function AdvanceAlone(i: nat, n: nat): seq<RecordStep> {
    if n == 0 then [] else [Advance(i, false)] + AdvanceAlone(i, n - 1)
  }

  /** From every state, any call that runs alone without spurious failures finishes in at most six steps. */
  lemma {:induction false} LoneRecordFinishes(s: Recording, i: nat, n: nat)
    requires i < |s.calls| && RecordStepsLeft(s.counter, s.calls[i]) <= n
    ensures IsRecordRun(s, AdvanceAlone(i, n))
    ensures var t := AfterRecords(s, AdvanceAlone(i, n)); i < |t.calls| && t.calls[i].pc.Finished?
    ensures RecordStepsLeft(s.counter, s.calls[i]) <= 6
    decreases n
  {
    if n > 0 {
      var steps := AdvanceAlone(i, n);
      assert steps[0] == Advance(i, false) && steps[1..] == AdvanceAlone(i, n - 1);
      LoneRecordFinishes(AfterRecord(s, steps[0]), i, n - 1);
    }
  }

  // ----- MemoryTracker ----------------------------------------------------

  datatype MemoryPc =
    | AddAllocated
    | AddAllocs(newAllocated: nat)
    | LoadPeak(newAllocated: nat)
    | PeakLoop(newAllocated: nat, currentPeak: nat)
    | SubAllocated
    | AddDeallocs
    | MemoryDone

  /** `isAlloc` tells `record_alloc` from `record_dealloc`; `added` is what the alloc's add produced. */
  datatype MemoryCall = MemoryCall(isAlloc: bool, size: nat, added: nat, pc: MemoryPc)

  datatype Tracker = Tracker(inUse: nat, peak: nat, totalAllocs: nat, totalDeallocs: nat)

  /**
   `highest` is the largest value `inUse` ever had; `underflow` the largest
   value left by a deallocation of more than was allocated at that moment.
   */
  datatype Tracking = Tracking(tracker: Tracker, calls: seq<MemoryCall>, highest: nat, underflow: nat)

  const NEW_TRACKING := Tracking(Tracker(0, 0, 0, 0), [], 0, 0)

  datatype MemoryStep =
    | CallAlloc(size: nat)
    | CallDealloc(size: nat)
    | AdvanceMemory(call: nat, spurious: bool)

  predicate MemoryEnabled(s: Tracking, step: MemoryStep) {
    match step
    case CallAlloc(size) => size < WORD
    case CallDealloc(size) => size < WORD
    case AdvanceMemory(i, _) => i < |s.calls|
  }

  function AdvanceTracker(m: Tracker, call: MemoryCall, spurious: bool): (Tracker, MemoryCall) {
    match call.pc
    case AddAllocated =>
      var now := (m.inUse + call.size) % WORD;
      (m.(inUse := now), call.(pc := AddAllocs(now), added := now))
    case AddAllocs(now) =>
      (m.(totalAllocs := (m.totalAllocs + 1) % WORD), call.(pc := LoadPeak(now)))
    case LoadPeak(now) =>
      (m, call.(pc := PeakLoop(now, m.peak)))
    case PeakLoop(now, current) =>
      if now > current then
        var (value, done) := Exchange(m.peak, current, now, spurious);
        (m.(peak := value), call.(pc := if done then MemoryDone else PeakLoop(now, value)))
      else (m, call.(pc := MemoryDone))
    case SubAllocated =>
      (m.(inUse := (m.inUse - call.size) % WORD), call.(pc := AddDeallocs))
    case AddDeallocs =>
      (m.(totalDeallocs := (m.totalDeallocs + 1) % WORD), call.(pc := MemoryDone))
    case MemoryDone => (m, call)
  }

  function AfterMemory(s: Tracking, step: MemoryStep): Tracking
    requires MemoryEnabled(s, step)
  {
    match step
    case CallAlloc(size) => s.(calls := s.calls + [MemoryCall(true, size, 0, AddAllocated)])
    case CallDealloc(size) => s.(calls := s.calls + [MemoryCall(false, size, 0, SubAllocated)])
    case AdvanceMemory(i, spurious) =>
      var (m, call) := AdvanceTracker(s.tracker, s.calls[i], spurious);
      var underflows := s.calls[i].pc.SubAllocated? && s.calls[i].size > s.tracker.inUse;
      Tracking(m, s.calls[i := call], Max(s.highest, m.inUse),
               if underflows then Max(s.underflow, m.inUse) else s.underflow)
  }

  predicate IsMemoryRun(s: Tracking, steps: seq<MemoryStep>)
    decreases |steps|
  {
    steps == [] || (MemoryEnabled(s, steps[0]) && IsMemoryRun(AfterMemory(s, steps[0]), steps[1..]))
  }

  function AfterMemories(s: Tracking, steps: seq<MemoryStep>): Tracking
    requires IsMemoryRun(s, steps)
    decreases |steps|
  {
    if steps == [] then s else AfterMemories(AfterMemory(s, steps[0]), steps[1..])
  }

  predicate MemoryQuiet(s: Tracking) {
    forall i | 0 <= i < |s.calls| :: s.calls[i].pc.MemoryDone?
  }

  /** Bytes added minus bytes subtracted by the calls that already changed `inUse`. */
  function Net(calls: seq<MemoryCall>): int {
    if calls == [] then 0
    else
      (if calls[0].pc.AddAllocated? || calls[0].pc.SubAllocated? then 0 else Change(calls[0])) + Net(calls[1..])
  }

  function Change(call: MemoryCall): int {
    if call.isAlloc then call.size else 0 - call.size
  }

  lemma {:induction false} NetUpdate(calls: seq<MemoryCall>, i: nat, call: MemoryCall)
    requires i < |calls| && call.isAlloc == calls[i].isAlloc && call.size == calls[i].size
    requires !call.pc.AddAllocated? && !call.pc.SubAllocated?
    ensures Net(calls[i := call]) == Net(calls) +
      if calls[i].pc.AddAllocated? || calls[i].pc.SubAllocated? then Change(call) else 0
  {
    var after := calls[i := call];
    if i == 0 {
      assert after[1..] == calls[1..];
    } else {
      assert after[1..] == calls[1..][i - 1 := call];
      NetUpdate(calls[1..], i - 1, call);
    }
  }

  lemma {:induction false} NetOfNewCall(calls: seq<MemoryCall>, call: MemoryCall)
    requires call.pc.AddAllocated? || call.pc.SubAllocated?
    ensures Net(calls + [call]) == Net(calls)
  {
    if calls == [] {
      assert calls + [call] == [call] && [call][1..] == [];
    } else {
      assert (calls + [call])[1..] == calls[1..] + [call];
      NetOfNewCall(calls[1..], call);
    }
  }

  /** Has this call announced itself in the counter of its kind? */
  predicate HasAnnounced(call: MemoryCall) {
    call.pc.LoadPeak? || call.pc.PeakLoop? || call.pc.MemoryDone?
  }

  function Announced(calls: seq<MemoryCall>, isAlloc: bool): nat {
    if calls == [] then 0
    else (if calls[0].isAlloc == isAlloc && HasAnnounced(calls[0]) then 1 else 0) + Announced(calls[1..], isAlloc)
  }

  /** What a caller asked for. */
  datatype Request = Request(isAlloc: bool, size: nat)

  /** What the callers of a run asked for, in order, read off its steps alone. */
  function RequestsOf(steps: seq<MemoryStep>): seq<Request>
    decreases |steps|
  {
    if steps == [] then []
    else
      (match steps[0]
       case CallAlloc(size) => [Request(true, size)]
       case CallDealloc(size) => [Request(false, size)]
       case AdvanceMemory(_, _) => [])
      + RequestsOf(steps[1..])
  }

  function Requests(calls: seq<MemoryCall>): (r: seq<Request>)
    ensures |r| == |calls|
  {
    seq(|calls|, i requires 0 <= i < |calls| => Request(calls[i].isAlloc, calls[i].size))
  }

  function OfKind(requests: seq<Request>, isAlloc: bool): nat {
    if requests == [] then 0
    else (if requests[0].isAlloc == isAlloc then 1 else 0) + OfKind(requests[1..], isAlloc)
  }

  /** Bytes asked for minus bytes given back. */
  function Balance(requests: seq<Request>): int {
    if requests == [] then 0
    else (if requests[0].isAlloc then requests[0].size else 0 - requests[0].size) + Balance(requests[1..])
  }

  lemma {:induction false} CallsAreWhatWasRequested(s: Tracking, steps: seq<MemoryStep>)
    requires IsMemoryRun(s, steps)
    ensures Requests(AfterMemories(s, steps).calls) == Requests(s.calls) + RequestsOf(steps)
    decreases |steps|
  {
    if steps != [] {
      var t := AfterMemory(s, steps[0]);
      CallsAreWhatWasRequested(t, steps[1..]);
      match steps[0]
      case CallAlloc(size) => assert Requests(t.calls) == Requests(s.calls) + [Request(true, size)];
      case CallDealloc(size) => assert Requests(t.calls) == Requests(s.calls) + [Request(false, size)];
      case AdvanceMemory(_, _) => assert Requests(t.calls) == Requests(s.calls);
    }
  }

  lemma {:induction false} AnnouncedUpdate(calls: seq<MemoryCall>, isAlloc: bool, i: nat, call: MemoryCall)
    requires i < |calls| && call.isAlloc == calls[i].isAlloc
    ensures Announced(calls[i := call], isAlloc) == Announced(calls, isAlloc)
      + (if call.isAlloc == isAlloc && HasAnnounced(call) then 1 else 0)
      - (if call.isAlloc == isAlloc && HasAnnounced(calls[i]) then 1 else 0)
  {
    var after := calls[i := call];
    if i == 0 {
      assert after[1..] == calls[1..];
    } else {
      assert after[1..] == calls[1..][i - 1 := call];
      AnnouncedUpdate(calls[1..], isAlloc, i - 1, call);
    }
  }

  lemma {:induction false} AnnouncedOfNewCall(calls: seq<MemoryCall>, isAlloc: bool, call: MemoryCall)
    requires !HasAnnounced(call)
    ensures Announced(calls + [call], isAlloc) == Announced(calls, isAlloc)
  {
    if calls == [] {
      assert calls + [call] == [call] && [call][1..] == [];
    } else {
      assert (calls + [call])[1..] == calls[1..] + [call];
      AnnouncedOfNewCall(calls[1..], isAlloc, call);
    }
  }

  lemma {:induction false} AllAnnouncedWhenQuiet(calls: seq<MemoryCall>, isAlloc: bool)
    requires forall i | 0 <= i < |calls| :: calls[i].pc.MemoryDone?
    ensures Announced(calls, isAlloc) == OfKind(Requests(calls), isAlloc)
  {
    if calls != [] {
      assert Requests(calls)[1..] == Requests(calls[1..]);
      AllAnnouncedWhenQuiet(calls[1..], isAlloc);
    }
  }

  lemma {:induction false} NetWhenQuiet(calls: seq<MemoryCall>)
    requires forall i | 0 <= i < |calls| :: calls[i].pc.MemoryDone?
    ensures Net(calls) == Balance(Requests(calls))
  {
    if calls != [] {
      assert Requests(calls)[1..] == Requests(calls[1..]);
      NetWhenQuiet(calls[1..]);
    }
  }

  predicate TotalsInv(s: Tracking) {
    && s.tracker.inUse == Net(s.calls) % WORD
    && s.tracker.totalAllocs == Announced(s.calls, true) % WORD
    && s.tracker.totalDeallocs == Announced(s.calls, false) % WORD
  }

  /** A call agrees with itself: an alloc is at an alloc's point and remembers what its add produced. */
  predicate WellFormedCall(c: MemoryCall) {
    c.size < WORD && match c.pc
    case AddAllocated => c.isAlloc && c.added == 0
    case AddAllocs(now) => c.isAlloc && now == c.added
    case LoadPeak(now) => c.isAlloc && now == c.added
    case PeakLoop(now, _) => c.isAlloc && now == c.added
    case SubAllocated => !c.isAlloc && c.added == 0
    case AddDeallocs => !c.isAlloc && c.added == 0
    case MemoryDone => !c.isAlloc ==> c.added == 0
  }

  /** The largest value any alloc's add produced so far. */
  function HighestAdded(calls: seq<MemoryCall>): (h: nat)
    ensures forall i | 0 <= i < |calls| :: calls[i].added <= h
    ensures h == 0 || exists i :: 0 <= i < |calls| && calls[i].added == h
  {
    if calls == [] then 0
    else
      var rest := HighestAdded(calls[1..]);
      assert forall i | 1 <= i < |calls| :: calls[i] == calls[1..][i - 1];
      if calls[0].added >= rest then calls[0].added
      else
        assert exists i :: 0 <= i < |calls[1..]| && calls[1..][i].added == rest;
        rest
  }

  /** The peak is not below any finished add and only grows. */
  predicate PeakInv(peak: nat, calls: seq<MemoryCall>) {
    && peak <= HighestAdded(calls)
    && (forall i | 0 <= i < |calls| && calls[i].pc.MemoryDone? :: calls[i].added <= peak)
    && (forall i | 0 <= i < |calls| && calls[i].pc.PeakLoop? :: calls[i].pc.currentPeak <= peak)
  }

  /** All that `inUse` ever was came from an add or from an underflow. */
  predicate HighestInv(s: Tracking) {
    && s.highest == Max(HighestAdded(s.calls), s.underflow)
    && s.tracker.inUse <= s.highest
  }

  predicate MemoryInv(s: Tracking) {
    && TotalsInv(s)
    && (forall i | 0 <= i < |s.calls| :: WellFormedCall(s.calls[i]))
    && HighestInv(s)
    && PeakInv(s.tracker.peak, s.calls)
  }

  lemma HighestIsDetermined(a: seq<MemoryCall>, h: nat)
    requires forall i | 0 <= i < |a| :: a[i].added <= h
    requires h == 0 || exists i :: 0 <= i < |a| && a[i].added == h
    ensures HighestAdded(a) == h
  {
  }

  /** Adding one more produced value to a list of calls. */
  lemma HighestAfterUpdate(calls: seq<MemoryCall>, i: nat, call: MemoryCall)
    requires i < |calls| && calls[i].added <= call.added
    ensures HighestAdded(calls[i := call]) == Max(HighestAdded(calls), call.added)
  {
    var after := calls[i := call];
    var h := Max(HighestAdded(calls), call.added);
    if h > call.added {
      var k :| 0 <= k < |calls| && calls[k].added == HighestAdded(calls);
      assert k != i && after[k].added == h;
    } else {
      assert after[i].added == h;
    }
    HighestIsDetermined(after, h);
  }

  lemma HighestOfNewCall(calls: seq<MemoryCall>, call: MemoryCall)
    requires call.added == 0
    ensures HighestAdded(calls + [call]) == HighestAdded(calls)
  {
    var h := HighestAdded(calls);
    if h != 0 {
      var k :| 0 <= k < |calls| && calls[k].added == h;
      assert (calls + [call])[k].added == h;
    }
    HighestIsDetermined(calls + [call], h);
  }

  lemma AdvanceKeepsTotals(s: Tracking, k: nat, spurious: bool)
    requires k < |s.calls| && WellFormedCall(s.calls[k]) && TotalsInv(s)
    ensures TotalsInv(AfterMemory(s, AdvanceMemory(k, spurious)))
  {
    var t := AfterMemory(s, AdvanceMemory(k, spurious));
    NetUpdate(s.calls, k, t.calls[k]);
    AnnouncedUpdate(s.calls, true, k, t.calls[k]);
    AnnouncedUpdate(s.calls, false, k, t.calls[k]);
    AddWraps(Net(s.calls), Change(s.calls[k]));
    AddWraps(Announced(s.calls, true), 1);
    AddWraps(Announced(s.calls, false), 1);
  }

  lemma AdvanceKeepsHighest(s: Tracking, k: nat, spurious: bool)
    requires k < |s.calls| && WellFormedCall(s.calls[k]) && HighestInv(s)
    requires s.tracker.inUse < WORD && s.calls[k].size < WORD
    ensures HighestInv(AfterMemory(s, AdvanceMemory(k, spurious)))
  {
    var t := AfterMemory(s, AdvanceMemory(k, spurious));
    HighestAfterUpdate(s.calls, k, t.calls[k]);
  }

  lemma AdvanceKeepsPeak(s: Tracking, k: nat, spurious: bool)
    requires k < |s.calls| && WellFormedCall(s.calls[k]) && PeakInv(s.tracker.peak, s.calls)
    ensures var t := AfterMemory(s, AdvanceMemory(k, spurious)); PeakInv(t.tracker.peak, t.calls)
  {
    var t := AfterMemory(s, AdvanceMemory(k, spurious));
    HighestAfterUpdate(s.calls, k, t.calls[k]);
    assert s.tracker.peak <= t.tracker.peak;
  }

  lemma MemoryAdvanceKeepsInv(s: Tracking, k: nat, spurious: bool)
    requires MemoryInv(s) && k < |s.calls|
    ensures MemoryInv(AfterMemory(s, AdvanceMemory(k, spurious)))
  {
    assert WellFormedCall(s.calls[k]);
    AdvanceKeepsTotals(s, k, spurious);
    AdvanceKeepsHighest(s, k, spurious);
    AdvanceKeepsPeak(s, k, spurious);
    assert WellFormedCall(AfterMemory(s, AdvanceMemory(k, spurious)).calls[k]);
  }

  lemma NewCallKeepsTotals(s: Tracking, call: MemoryCall)
    requires TotalsInv(s) && (call.pc.AddAllocated? || call.pc.SubAllocated?)
    ensures TotalsInv(s.(calls := s.calls + [call]))
  {
    NetOfNewCall(s.calls, call);
    AnnouncedOfNewCall(s.calls, true, call);
    AnnouncedOfNewCall(s.calls, false, call);
  }

  lemma NewMemoryCallKeepsInv(s: Tracking, call: MemoryCall)
    requires MemoryInv(s) && WellFormedCall(call) && call.added == 0
    requires call.pc.AddAllocated? || call.pc.SubAllocated?
    ensures MemoryInv(s.(calls := s.calls + [call]))
  {
    var t := s.(calls := s.calls + [call]);
    NewCallKeepsTotals(s, call);
    HighestOfNewCall(s.calls, call);
    assert HighestInv(t);
    assert PeakInv(t.tracker.peak, t.calls);
  }

  lemma MemoryStepKeepsInv(s: Tracking, step: MemoryStep)
    requires MemoryInv(s) && MemoryEnabled(s, step)
    ensures MemoryInv(AfterMemory(s, step))
  {
    match step {
      case CallAlloc(size) =>
        NewMemoryCallKeepsInv(s, MemoryCall(true, size, 0, AddAllocated));
      case CallDealloc(size) =>
        NewMemoryCallKeepsInv(s, MemoryCall(false, size, 0, SubAllocated));
      case AdvanceMemory(k, spurious) =>
        MemoryAdvanceKeepsInv(s, k, spurious);
    }
  }

  lemma {:induction false} MemoryRunsKeepInv(s: Tracking, steps: seq<MemoryStep>)
    requires MemoryInv(s) && IsMemoryRun(s, steps)
    ensures MemoryInv(AfterMemories(s, steps))
    decreases |steps|
  {
    if steps != [] {
      MemoryStepKeepsInv(s, steps[0]);
      MemoryRunsKeepInv(AfterMemory(s, steps[0]), steps[1..]);
    }
  }

  /** The most that was in use at any moment of a run. */
  function MostInUse(s: Tracking, steps: seq<MemoryStep>): nat
    requires IsMemoryRun(s, steps)
    decreases |steps|
  {
    if steps == [] then s.tracker.inUse
    else Max(s.tracker.inUse, MostInUse(AfterMemory(s, steps[0]), steps[1..]))
  }

  lemma {:induction false} HighestIsMostInUse(s: Tracking, steps: seq<MemoryStep>)
    requires IsMemoryRun(s, steps) && s.tracker.inUse <= s.highest
    ensures AfterMemories(s, steps).highest == Max(s.highest, MostInUse(s, steps))
    decreases |steps|
  {
    if steps != [] {
      HighestIsMostInUse(AfterMemory(s, steps[0]), steps[1..]);
    }
  }

  /**
   Whenever no call is in flight: the recorded peak is the highest value any
   allocation produced, even when deallocations came between its add and its
   exchange; and it is the highest value `inUse` ever had exactly when no
   underflowing deallocation left a larger one.
   */
  lemma PeakIsExactWhenQuiet(steps: seq<MemoryStep>)
    requires IsMemoryRun(NEW_TRACKING, steps) && MemoryQuiet(AfterMemories(NEW_TRACKING, steps))
    ensures var s := AfterMemories(NEW_TRACKING, steps);
      && s.tracker.peak == HighestAdded(s.calls)
      && s.highest == Max(s.tracker.peak, s.underflow)
      && (s.tracker.peak == s.highest <==> s.underflow <= s.tracker.peak)
      && s.highest == MostInUse(NEW_TRACKING, steps)
      && s.tracker.inUse == Balance(RequestsOf(steps)) % WORD
      && s.tracker.totalAllocs == OfKind(RequestsOf(steps), true) % WORD
      && s.tracker.totalDeallocs == OfKind(RequestsOf(steps), false) % WORD
  {
    MemoryRunsKeepInv(NEW_TRACKING, steps);
    CallsAreWhatWasRequested(NEW_TRACKING, steps);
    HighestIsMostInUse(NEW_TRACKING, steps);
    assert Requests(AfterMemories(NEW_TRACKING, steps).calls) == RequestsOf(steps);
    NetWhenQuiet(AfterMemories(NEW_TRACKING, steps).calls);
    AllAnnouncedWhenQuiet(AfterMemories(NEW_TRACKING, steps).calls, true);
    AllAnnouncedWhenQuiet(AfterMemories(NEW_TRACKING, steps).calls, false);
    var s := AfterMemories(NEW_TRACKING, steps);
    var h := HighestAdded(s.calls);
    if h != 0 {
      var i :| 0 <= i < |s.calls| && s.calls[i].added == h;
      assert s.calls[i].pc.MemoryDone?;
    }
  }

  /** At its atomic step, a deallocation takes away more than is in use. */
  predicate Underflows(s: Tracking, step: MemoryStep)
    requires MemoryEnabled(s, step)
  {
    step.AdvanceMemory? && s.calls[step.call].pc.SubAllocated? && s.calls[step.call].size > s.tracker.inUse
  }

  predicate NeverUnderflows(s: Tracking, steps: seq<MemoryStep>)
    requires IsMemoryRun(s, steps)
    decreases |steps|
  {
    steps == [] || (!Underflows(s, steps[0]) && NeverUnderflows(AfterMemory(s, steps[0]), steps[1..]))
  }

  lemma {:induction false} UnderflowStaysUnlessItHappens(s: Tracking, steps: seq<MemoryStep>)
    requires IsMemoryRun(s, steps) && NeverUnderflows(s, steps)
    ensures AfterMemories(s, steps).underflow == s.underflow
    decreases |steps|
  {
    if steps != [] {
      UnderflowStaysUnlessItHappens(AfterMemory(s, steps[0]), steps[1..]);
    }
  }

  /** When no deallocation takes away more than is in use, the peak is the most that was ever in use. */
  lemma PeakIsTheMostEverInUse(steps: seq<MemoryStep>)
    requires IsMemoryRun(NEW_TRACKING, steps) && MemoryQuiet(AfterMemories(NEW_TRACKING, steps))
    requires NeverUnderflows(NEW_TRACKING, steps)
    ensures AfterMemories(NEW_TRACKING, steps).tracker.peak == MostInUse(NEW_TRACKING, steps)
  {
    PeakIsExactWhenQuiet(steps);
    UnderflowStaysUnlessItHappens(NEW_TRACKING, steps);
  }

  /** A single deallocation of one byte wraps around, and the peak does not see it. */
  lemma UnderflowIsNotInThePeak()
    ensures var steps := [CallDealloc(1), AdvanceMemory(0, false), AdvanceMemory(0, false)];
      && IsMemoryRun(NEW_TRACKING, steps) && MemoryQuiet(AfterMemories(NEW_TRACKING, steps))
      && AfterMemories(NEW_TRACKING, steps).tracker.peak == 0
      && MostInUse(NEW_TRACKING, steps) == U64_MAX
  {
    var steps := [CallDealloc(1), AdvanceMemory(0, false), AdvanceMemory(0, false)];
    var call := MemoryCall(false, 1, 0, SubAllocated);
    var s1 := Tracking(Tracker(0, 0, 0, 0), [call], 0, 0);
    var s2 := Tracking(Tracker(U64_MAX, 0, 0, 0), [call.(pc := AddDeallocs)], U64_MAX, U64_MAX);
    var s3 := Tracking(Tracker(U64_MAX, 0, 0, 1), [call.(pc := MemoryDone)], U64_MAX, U64_MAX);
    assert AfterMemory(NEW_TRACKING, steps[0]) == s1;
    assert AfterMemory(s1, steps[1]) == s2;
    assert AfterMemory(s2, steps[2]) == s3;
    assert steps[1..][1..] == [steps[2]] && steps[1..][1..][1..] == [];
    assert AfterMemories(s2, [steps[2]]) == s3;
    HighestIsMostInUse(NEW_TRACKING, steps);
  }

  function MemoryStepsLeft(m: Tracker, call: MemoryCall): nat {
    match call.pc
    case AddAllocated => 4
    case AddAllocs(_) => 3
    case LoadPeak(_) => 2
    case PeakLoop(_, current) => if current == m.peak then 1 else 2
    case SubAllocated => 2
    case AddDeallocs => 1
    case MemoryDone => 0
  }

  function AdvanceMemoryAlone(i: nat, n: nat): seq<MemoryStep> {
    if n == 0 then [] else [AdvanceMemory(i, false)] + AdvanceMemoryAlone(i, n - 1)
  }

  /** From every state, any call that runs alone without spurious failures finishes in at most four steps. */
  lemma {:induction false} LoneMemoryCallFinishes(s: Tracking, i: nat, n: nat)
    requires i < |s.calls| && MemoryStepsLeft(s.tracker, s.calls[i]) <= n
    ensures IsMemoryRun(s, AdvanceMemoryAlone(i, n))
    ensures var t := AfterMemories(s, AdvanceMemoryAlone(i, n)); i < |t.calls| && t.calls[i].pc.MemoryDone?
    ensures MemoryStepsLeft(s.tracker, s.calls[i]) <= 4
    decreases n
  {
    if n > 0 {
      var steps := AdvanceMemoryAlone(i, n);
      assert steps[0] == AdvanceMemory(i, false) && steps[1..] == AdvanceMemoryAlone(i, n - 1);
      LoneMemoryCallFinishes(AfterMemory(s, steps[0]), i, n - 1);
    }
  }
}
