/**
 Any interleaving of submissions, polls, drops and kernel completions of
 operations that own their buffer.
 */
module CancellationRuns {
  import opened Wrappers
  import opened Completions
  import opened OperationTracking
  import opened Wakers
  import opened CancellationSafety

  /**
   Buffers are named by numbers, and each step below sees the classes of
   `CancellationSafety` through the same functions their contracts use.
   */
  datatype System = System(
    check: CheckState<nat>,
    live: map<nat, OpState<nat>>,       // operation objects that still exist
    kernel: set<nat>,                   // submissions whose buffer the kernel still uses
    queue: map<nat, IoResult>,          // completed, not reported yet
    kernelResults: map<nat, IoResult>,  // every result the kernel ever produced
    bufferOf: map<nat, nat>,            // the buffer each submission was made with
    yielded: set<nat>,                  // orphans handed back by handle_completion
    nextId: nat
  )

  const START := System(CheckState(map[], map[], map[], []), map[], {}, map[], map[], map[], {}, IdOf(0))

  /** `queued`: the backend refused the submission after its entry was queued, so the kernel runs it all the same. */
  datatype Step =
    | SubmitStep(buffer: nat)                         // the backend accepted it
    | RefusedStep(buffer: nat, queued: bool)          // it did not: an already failed operation
    | RefusedAcceptStep(buffer: nat, queued: bool, reachable: bool) // refused after the operation was built: it is dropped at once
    | KernelStep(id: nat, result: IoResult)
    | PollStep(id: nat, answer: Result<seq<Completion>, string>, waker: Waker, reachable: bool)
    | DropStep(id: nat, reachable: bool)
    | ReleaseStep(id: nat)                            // SafeOperation::complete
    | CleanupStep                                     // cleanup_all_orphans

  ghost predicate Enabled(s: System, step: Step) {
    match step
    case SubmitStep(_) => s.nextId + 1 < U64_RANGE
    case RefusedStep(_, _) => s.nextId + 1 < U64_RANGE
    case RefusedAcceptStep(_, _, _) => s.nextId + 1 < U64_RANGE
    case KernelStep(id, _) => id in s.kernel
    case PollStep(id, answer, _, _) => id in s.live && FromQueue(s.queue, answer)
    case DropStep(id, _) => id in s.live
    case ReleaseStep(id) => id in s.live
    case CleanupStep => true
  }

  /** A submission under the next id; `runs` says whether the kernel got it. */
  function Submitted(s: System, op: OpState<nat>, buffer: nat, runs: bool): System {
    s.(live := s.live[s.nextId := op],
       kernel := s.kernel + (if runs then {s.nextId} else {}),
       bufferOf := s.bufferOf[s.nextId := buffer],
       nextId := s.nextId + 1)
  }

  /** Dropping an operation object. */
  function Dropped(s: System, id: nat, reachable: bool): System
    requires id in s.live
  {
    s.(live := s.live - {id}, check := s.check.(orphans := AfterDrop(s.check.orphans, id, s.live[id], reachable)))
  }

  ghost function Checked(s: System, id: nat, answer: Result<seq<Completion>, string>): System {
    var after := AfterCheck(s.check, id, answer).0;
    s.(check := after,
       queue := s.queue - (if id !in s.check.cache && answer.Ok? then CompletionIds(answer.value) else {}),
       yielded := s.yielded + (s.check.orphans.Keys - after.orphans.Keys))
  }

  /** The future's own part of a poll, after the ring was searched. */
  function Polled(s: System, id: nat, check: Result<Option<IoResult>, string>, waker: Waker, reachable: bool)
    : (System, Poll<Result<(int, nat), SafetyError>>)
    requires id in s.live
  {
    var (f, r) := AfterFuturePoll(FutureState(Some(s.live[id]), s.check.orphans, s.check.wakers), id, check, waker, reachable);
    (s.(live := if f.operation.Some? then s.live[id := f.operation.value] else s.live - {id},
        check := s.check.(orphans := f.orphans, wakers := f.wakers)),
     r)
  }

  ghost function AfterPoll(s: System, id: nat, answer: Result<seq<Completion>, string>, waker: Waker, reachable: bool)
    : (System, Poll<Result<(int, nat), SafetyError>>)
    requires id in s.live
  {
    var searched := if IsFailed(s.live[id]) then s else Checked(s, id, answer);
    Polled(searched, id, AfterCheck(s.check, id, answer).1, waker, reachable)
  }

  ghost function After(s: System, step: Step): System
    requires Enabled(s, step)
  {
    match step
    case SubmitStep(buffer) => Submitted(s, OpState(Some(buffer), false), buffer, true)
    case RefusedStep(buffer, queued) => Submitted(s, OpState(Some(buffer), true), buffer, queued)
    case RefusedAcceptStep(buffer, queued, reachable) =>
      Dropped(Submitted(s, OpState(Some(buffer), false), buffer, queued), s.nextId, reachable)
    case KernelStep(id, result) =>
      s.(kernel := s.kernel - {id}, queue := s.queue[id := result], kernelResults := s.kernelResults[id := result])
    case PollStep(id, answer, waker, reachable) => AfterPoll(s, id, answer, waker, reachable).0
    case DropStep(id, reachable) => Dropped(s, id, reachable)
    case ReleaseStep(id) => s.(live := s.live - {id})
    case CleanupStep => s.(check := s.check.(orphans := map[]))
  }

  ghost predicate IsRun(s: System, steps: seq<Step>)
    decreases |steps|
  {
    steps == [] || (Enabled(s, steps[0]) && IsRun(After(s, steps[0]), steps[1..]))
  }

  ghost function AfterAll(s: System, steps: seq<Step>): System
    requires IsRun(s, steps)
    decreases |steps|
  {
    if steps == [] then s else AfterAll(After(s, steps[0]), steps[1..])
  }

  // ----- Safety and the invariant behind it ------------------------------

  /** The buffer of `id` is kept alive by the operation or by the orphan map, by exactly one of them. */
  predicate HeldOnce(s: System, id: nat) {
    && id in s.bufferOf
    && if id in s.live then s.live[id].buffer == Some(s.bufferOf[id]) && id !in s.check.orphans
       else id in s.check.orphans && s.check.orphans[id] == s.bufferOf[id]
  }

  /** No buffer is freed, or free to be reused, while the kernel may still write to it. */
  ghost predicate Safe(s: System) {
    forall id | id in s.kernel :: HeldOnce(s, id)
  }

  ghost predicate Apart(s: System) {
    && s.kernel !! s.queue.Keys && s.kernel !! s.check.cache.Keys && s.queue.Keys !! s.check.cache.Keys
    && s.live.Keys !! s.check.orphans.Keys
    && s.yielded !! s.live.Keys && s.yielded !! s.check.orphans.Keys && s.yielded !! s.kernel
  }

  /** Every operation object has the buffer it was made with. */
  ghost predicate OwnBuffers(s: System) {
    forall id | id in s.live :: id in s.bufferOf && s.live[id].buffer == Some(s.bufferOf[id])
  }

  /** A pending operation's result is still to come, or waits in the queue or in the cache. */
  ghost predicate PendingAreAwaited(s: System) {
    forall id | id in s.live && !s.live[id].completed :: id in s.kernel || id in s.queue || id in s.check.cache
  }

  ghost predicate Agrees(m: map<nat, IoResult>, kernelResults: map<nat, IoResult>) {
    forall id | id in m :: id in kernelResults && kernelResults[id] == m[id]
  }

  /** Every result, wherever it is, is the one the kernel produced for its id. */
  ghost predicate ResultsAreTheKernels(s: System) {
    s.kernel !! s.kernelResults.Keys && Agrees(s.queue, s.kernelResults) && Agrees(s.check.cache, s.kernelResults)
  }

  /** No waker is left behind for a result that is already in the cache. */
  ghost predicate NoLostWakeup(s: System) {
    s.check.wakers.Keys !! s.check.cache.Keys
  }

  /** Only ids already handed out are in use. */
  ghost predicate IdsWereIssued(s: System) {
    && Below(s.live.Keys, s.nextId) && Below(s.check.orphans.Keys, s.nextId)
    && Below(s.kernel, s.nextId) && Below(s.kernelResults.Keys, s.nextId) && Below(s.yielded, s.nextId)
  }

  predicate Below(ids: set<nat>, bound: nat) {
    forall id | id in ids :: id < bound
  }

  ghost predicate Inv(s: System) {
    && Safe(s) && Apart(s) && OwnBuffers(s) && PendingAreAwaited(s) && ResultsAreTheKernels(s) && IdsWereIssued(s)
    && NoLostWakeup(s)
  }

  /** The steps that let go of a buffer the kernel still uses. */
  ghost predicate Breaks(s: System, step: Step)
    requires Enabled(s, step)
  {
    match step
    case RefusedAcceptStep(_, queued, reachable) => queued && !reachable
    case PollStep(id, answer, _, reachable) => id in s.kernel && (s.live[id].completed || (answer.Err? && !reachable))
    case DropStep(id, reachable) => id in s.kernel && (s.live[id].completed || !reachable)
    case ReleaseStep(id) => id in s.kernel
    case CleanupStep => exists id :: id in s.kernel && id in s.check.orphans
    case _ => false
  }

  // ----- The search for one completion -----------------------------------

  /** The completions among these ids that the search for `target` caches, waking their tasks. */
  function Cached(s: CheckState<nat>, target: nat, ids: set<nat>): set<nat> {
    ids - {target} - s.orphans.Keys
  }

  lemma CachedOneMore(s: CheckState<nat>, target: nat, ids: set<nat>, id: nat)
    ensures Cached(s, target, ids + {id}) == Cached(s, target, ids) + if id == target || id in s.orphans then {} else {id}
  {
  }

  /** What the search for `target` did after it looked at the completions with these ids. */
  predicate Searched(s: CheckState<nat>, after: CheckState<nat>, target: nat, found: Option<IoResult>, ids: set<nat>) {
    && after.orphans == s.orphans - ids
    && after.cache.Keys == s.cache.Keys + Cached(s, target, ids)
    && after.wakers == s.wakers - Cached(s, target, ids)
    && (found.Some? <==> target in ids && target !in s.orphans)
  }

  lemma SearchOneMore(s: CheckState<nat>, before: CheckState<nat>, target: nat, found: Option<IoResult>, ids: set<nat>, c: Completion)
    requires Searched(s, before, target, found, ids) && c.id !in ids && c.id !in s.cache
    ensures var (after, now) := CheckOne(before, target, found, c);
      Searched(s, after, target, now, ids + {c.id}) && (now == found || (now == Some(c.result) && c.id == target))
  {
    CachedOneMore(s, target, ids, c.id);
    assert before.orphans - {c.id} == s.orphans - (ids + {c.id});
    assert before.wakers - {c.id} == s.wakers - (Cached(s, target, ids) + {c.id});
    assert before.cache - {c.id} == before.cache || c.id in before.cache;
    assert c.id !in before.cache;
  }

  lemma {:induction false} CheckMeaning(s: CheckState<nat>, target: nat, cs: seq<Completion>)
    requires DistinctCompletions(cs) && CompletionIds(cs) !! s.cache.Keys
    ensures var (after, found) := CheckMany(s, target, cs);
      Searched(s, after, target, found, CompletionIds(cs)) && (found.Some? ==> Completion(target, found.value) in cs)
  {
    if cs == [] {
      assert s.orphans - {} == s.orphans && s.wakers - {} == s.wakers;
    } else {
      var init, last := cs[..|cs| - 1], cs[|cs| - 1];
      DistinctPrefix(cs);
      CheckMeaning(s, target, init);
      var (before, found) := CheckMany(s, target, init);
      SearchOneMore(s, before, target, found, CompletionIds(init), last);
    }
  }

  /** The completions found and cached by the search keep their results. */
  lemma {:induction false} CheckKeepsResults(s: CheckState<nat>, target: nat, cs: seq<Completion>, results: map<nat, IoResult>)
    requires forall c | c in cs :: c.id in results && results[c.id] == c.result
    requires Agrees(s.cache, results)
    ensures var (after, found) := CheckMany(s, target, cs);
      Agrees(after.cache, results) && (found.Some? ==> target in results && results[target] == found.value)
  {
    if cs != [] {
      CheckKeepsResults(s, target, cs[..|cs| - 1], results);
      assert cs[|cs| - 1] in cs;
    }
  }

  /** The completions a poll for `id` takes from the backend. */
  ghost function Taken(s: System, id: nat, answer: Result<seq<Completion>, string>): set<nat> {
    if id !in s.check.cache && answer.Ok? then CompletionIds(answer.value) else {}
  }

  /** What a poll's search does to the system. */
  ghost predicate CheckEffect(s: System, t: System, id: nat, taken: set<nat>) {
    && taken <= s.queue.Keys
    && t == s.(check := t.check, queue := s.queue - taken, yielded := s.yielded + (s.check.orphans.Keys * taken))
    && t.check.orphans == s.check.orphans - taken
    && t.check.cache.Keys == s.check.cache.Keys + (taken - s.check.orphans.Keys) - {id}
    && t.check.wakers == s.check.wakers - (taken - s.check.orphans.Keys - {id})
    && Agrees(t.check.cache, s.kernelResults)
  }

  /** ... and what it answers: the kernel's result exactly when that was cached or is reported now. */
  ghost predicate CheckAnswer(s: System, id: nat, answer: Result<seq<Completion>, string>) {
    AfterCheck(s.check, id, answer).1 ==
      if id !in s.check.cache && answer.Err? then Err(answer.error)
      else if (id in s.check.cache || id in Taken(s, id, answer)) && id in s.kernelResults then Ok(Some(s.kernelResults[id]))
      else Ok(None)
  }

  lemma SearchReported(s: System, id: nat, cs: seq<Completion>)
    requires Inv(s) && FromQueue(s.queue, Ok(cs)) && id !in s.check.cache
    ensures CompletionIds(cs) <= s.queue.Keys
    ensures var (after, found) := CheckMany(s.check, id, cs);
      && Searched(s.check, after, id, found, CompletionIds(cs))
      && Agrees(after.cache, s.kernelResults)
      && (found.Some? ==> id in s.kernelResults && s.kernelResults[id] == found.value)
  {
    MembersHaveIds(cs);
    assert CompletionIds(cs) <= s.queue.Keys;
    CheckMeaning(s.check, id, cs);
    CheckKeepsResults(s.check, id, cs, s.kernelResults);
  }

  lemma EffectOfReport(s: System, id: nat, cs: seq<Completion>)
    requires Inv(s) && FromQueue(s.queue, Ok(cs)) && id !in s.check.cache
    ensures CheckEffect(s, Checked(s, id, Ok(cs)), id, CompletionIds(cs))
  {
    SearchReported(s, id, cs);
    var t := Checked(s, id, Ok(cs));
    assert s.check.orphans.Keys - t.check.orphans.Keys == s.check.orphans.Keys * CompletionIds(cs);
  }

  lemma EffectWithoutReport(s: System, id: nat, answer: Result<seq<Completion>, string>)
    requires Inv(s) && (id in s.check.cache || answer.Err?)
    ensures CheckEffect(s, Checked(s, id, answer), id, {})
  {
    assert s.check.orphans - {} == s.check.orphans && s.queue - {} == s.queue && s.check.wakers - {} == s.check.wakers;
  }

  lemma PollSearch(s: System, id: nat, answer: Result<seq<Completion>, string>)
    requires Inv(s) && id in s.live && FromQueue(s.queue, answer)
    ensures CheckEffect(s, Checked(s, id, answer), id, Taken(s, id, answer))
    ensures CheckAnswer(s, id, answer)
  {
    if id !in s.check.cache && answer.Ok? {
      EffectOfReport(s, id, answer.value);
      SearchReported(s, id, answer.value);
    } else {
      EffectWithoutReport(s, id, answer);
    }
  }

  // ----- Step by step -----------------------------------------------------

  /** The search keeps the invariant, except that the operation itself may no longer be awaited: its result was found. */
  ghost predicate InvBut(s: System, id: nat) {
    && Safe(s) && Apart(s) && OwnBuffers(s) && ResultsAreTheKernels(s) && IdsWereIssued(s) && NoLostWakeup(s)
    && forall k | k in s.live && k != id && !s.live[k].completed :: k in s.kernel || k in s.queue || k in s.check.cache
  }

  lemma SearchKeepsInv(s: System, t: System, id: nat, taken: set<nat>)
    requires Inv(s) && id in s.live && CheckEffect(s, t, id, taken)
    ensures InvBut(t, id)
    ensures id !in taken && id !in s.check.cache ==> Inv(t)
  {
    assert t.check.orphans.Keys == s.check.orphans.Keys - taken;
    assert t.queue.Keys == s.queue.Keys - taken;
  }

  lemma DropKeepsInv(s: System, id: nat, reachable: bool)
    requires InvBut(s, id) && id in s.live
    ensures var t := Dropped(s, id, reachable);
      var breaks := id in s.kernel && (s.live[id].completed || !reachable);
      (breaks ==> !Safe(t)) && (!breaks ==> Inv(t))
  {
    var t := Dropped(s, id, reachable);
    if id in s.kernel && (s.live[id].completed || !reachable) {
      assert HeldOnce(s, id) && !HeldOnce(t, id);
    } else {
      forall k | k in t.kernel
        ensures HeldOnce(t, k)
      {
        assert HeldOnce(s, k);
      }
    }
  }

  lemma ForgetLiveKeepsInv(s: System, id: nat)
    requires InvBut(s, id) && id in s.live && id !in s.kernel
    ensures Inv(s.(live := s.live - {id}))
  {
    forall k | k in s.kernel
      ensures HeldOnce(s.(live := s.live - {id}), k)
    {
      assert HeldOnce(s, k);
    }
  }

  lemma WakersDoNotMatter(s: System, wakers: map<nat, Waker>, id: nat)
    requires wakers.Keys !! s.check.cache.Keys && NoLostWakeup(s)
    ensures var t := s.(check := s.check.(wakers := wakers)); (Inv(t) <==> Inv(s)) && (InvBut(t, id) <==> InvBut(s, id))
  {
    var t := s.(check := s.check.(wakers := wakers));
    assert forall k :: HeldOnce(t, k) <==> HeldOnce(s, k);
  }

  lemma PollSafety(s: System, id: nat, answer: Result<seq<Completion>, string>, waker: Waker, reachable: bool)
    requires Inv(s) && id in s.live && FromQueue(s.queue, answer)
    ensures var t := AfterPoll(s, id, answer, waker, reachable).0;
      var breaks := id in s.kernel && (s.live[id].completed || (answer.Err? && !reachable));
      (breaks ==> !Safe(t)) && (!breaks ==> Inv(t))
  {
    var t := AfterPoll(s, id, answer, waker, reachable).0;
    if IsFailed(s.live[id]) {
      if id in s.kernel {
        assert !HeldOnce(t, id);
      } else {
        ForgetLiveKeepsInv(s, id);
        assert t == s.(live := s.live - {id});
      }
    } else {
      var u := Checked(s, id, answer);
      PollSearch(s, id, answer);
      SearchKeepsInv(s, u, id, Taken(s, id, answer));
      PolledSafety(u, id, AfterCheck(s.check, id, answer).1, waker, reachable);
    }
  }

  /** The future's own part. */
  lemma PolledSafety(s: System, id: nat, check: Result<Option<IoResult>, string>, waker: Waker, reachable: bool)
    requires InvBut(s, id) && id in s.live && !s.live[id].completed
    requires check.Ok? && check.value.Some? ==> id !in s.kernel
    requires check.Ok? && check.value.None? ==> Inv(s) && id !in s.check.cache
    ensures var t := Polled(s, id, check, waker, reachable).0;
      var breaks := id in s.kernel && check.Err? && !reachable;
      (breaks ==> !Safe(t)) && (!breaks ==> Inv(t))
  {
    match check
    case Ok(Some(_)) =>
      ForgetLiveKeepsInv(s, id);
      WakersDoNotMatter(s.(live := s.live - {id}), s.check.wakers - {id}, id);
    case Ok(None) =>
      WakersDoNotMatter(s, s.check.wakers[id := waker], id);
      assert s.live[id := s.live[id]] == s.live;
    case Err(_) =>
      DropKeepsInv(s, id, reachable);
      var t := Dropped(s, id, reachable);
      WakersDoNotMatter(t, s.check.wakers - {id}, id);
  }

  lemma SubmittedKeepsInv(s: System, op: OpState<nat>, buffer: nat, runs: bool)
    requires Inv(s) && op.buffer == Some(buffer)
    ensures InvBut(Submitted(s, op, buffer, runs), s.nextId)
    ensures op.completed || runs ==> Inv(Submitted(s, op, buffer, runs))
  {
    var t := Submitted(s, op, buffer, runs);
    assert s.nextId !in s.kernel && s.nextId !in s.check.orphans;
    forall k | k in t.kernel
      ensures HeldOnce(t, k)
    {
      assert k in s.kernel ==> HeldOnce(s, k);
    }
  }

  lemma CleanupSafety(s: System)
    requires Inv(s)
    ensures var t := After(s, CleanupStep);
      if Breaks(s, CleanupStep) then !Safe(t) else Inv(t)
  {
  }

  lemma KernelStepKeepsInv(s: System, id: nat, result: IoResult)
    requires Inv(s) && id in s.kernel
    ensures Inv(After(s, KernelStep(id, result)))
  {
    var t := After(s, KernelStep(id, result));
    assert HeldOnce(s, id);
    forall k | k in t.kernel
      ensures HeldOnce(t, k)
    {
      assert HeldOnce(s, k);
    }
    assert id < s.nextId;
  }

  /** A step keeps every kernel buffer held exactly when it is not one of the breaking ones. */
  lemma StepIsSafeIff(s: System, step: Step)
    requires Inv(s) && Enabled(s, step)
    ensures Breaks(s, step) ==> !Safe(After(s, step))
    ensures !Breaks(s, step) ==> Inv(After(s, step))
  {
    match step
    case SubmitStep(buffer) => SubmittedKeepsInv(s, OpState(Some(buffer), false), buffer, true);
    case RefusedStep(buffer, queued) => SubmittedKeepsInv(s, OpState(Some(buffer), true), buffer, queued);
    case RefusedAcceptStep(buffer, queued, reachable) =>
      SubmittedKeepsInv(s, OpState(Some(buffer), false), buffer, queued);
      assert s.nextId !in s.kernel;
      DropKeepsInv(Submitted(s, OpState(Some(buffer), false), buffer, queued), s.nextId, reachable);
    case KernelStep(id, result) => KernelStepKeepsInv(s, id, result);
    case PollStep(id, answer, waker, reachable) => PollSafety(s, id, answer, waker, reachable);
    case DropStep(id, reachable) => DropKeepsInv(s, id, reachable);
    case ReleaseStep(id) =>
      if id in s.kernel {
        assert HeldOnce(s, id) && !HeldOnce(After(s, step), id);
      } else {
        ForgetLiveKeepsInv(s, id);
      }
    case CleanupStep => CleanupSafety(s);
  }

  // ----- Whole runs -------------------------------------------------------

  ghost predicate SafeThroughout(s: System, steps: seq<Step>)
    requires IsRun(s, steps)
    decreases |steps|
  {
    Safe(s) && (steps != [] ==> SafeThroughout(After(s, steps[0]), steps[1..]))
  }

  ghost predicate NeverBreaks(s: System, steps: seq<Step>)
    requires IsRun(s, steps)
    decreases |steps|
  {
    steps != [] ==> !Breaks(s, steps[0]) && NeverBreaks(After(s, steps[0]), steps[1..])
  }

  lemma StartIsSound()
    ensures Inv(START)
  {
  }

  /** Kernel-use safety under cancellation, with the exact condition for it. */
  lemma {:induction false} RunIsSafeIff(s: System, steps: seq<Step>)
    requires Inv(s) && IsRun(s, steps)
    ensures SafeThroughout(s, steps) <==> NeverBreaks(s, steps)
    ensures NeverBreaks(s, steps) ==> Inv(AfterAll(s, steps))
    decreases |steps|
  {
    if steps != [] {
      StepIsSafeIff(s, steps[0]);
      if Breaks(s, steps[0]) {
        assert !Safe(After(s, steps[0]));
      } else {
        RunIsSafeIff(After(s, steps[0]), steps[1..]);
      }
    }
  }

  /** What the kernel produced in a run, read off its steps alone. */
  function KernelResults(steps: seq<Step>): map<nat, IoResult>
    decreases |steps|
  {
    if steps == [] then map[] else ResultOf(steps[0]) + KernelResults(steps[1..])
  }

  function ResultOf(step: Step): map<nat, IoResult> {
    if step.KernelStep? then map[step.id := step.result] else map[]
  }

  /** The buffer each submission of a run was made with, read off its steps alone; `next` is the first id. */
  function BuffersGiven(steps: seq<Step>, next: nat): map<nat, nat>
    decreases |steps|
  {
    if steps == [] then map[]
    else BufferGiven(steps[0], next) + BuffersGiven(steps[1..], if Submits(steps[0]) then next + 1 else next)
  }

  predicate Submits(step: Step) {
    step.SubmitStep? || step.RefusedStep? || step.RefusedAcceptStep?
  }

  function BufferGiven(step: Step, next: nat): map<nat, nat> {
    if Submits(step) then map[next := step.buffer] else map[]
  }

  lemma PollAddsNoHistory(s: System, id: nat, answer: Result<seq<Completion>, string>, waker: Waker, reachable: bool)
    requires id in s.live
    ensures var t := AfterPoll(s, id, answer, waker, reachable).0;
      t.kernelResults == s.kernelResults && t.bufferOf == s.bufferOf && t.nextId == s.nextId
  {
  }

  lemma StepAddsResult(s: System, step: Step)
    requires Enabled(s, step)
    ensures After(s, step).kernelResults == s.kernelResults + ResultOf(step)
  {
    if step.PollStep? {
      PollAddsNoHistory(s, step.id, step.answer, step.waker, step.reachable);
    }
  }

  lemma StepAddsBuffer(s: System, step: Step)
    requires Enabled(s, step)
    ensures After(s, step).bufferOf == s.bufferOf + BufferGiven(step, s.nextId)
    ensures After(s, step).nextId == if Submits(step) then s.nextId + 1 else s.nextId
  {
    if step.PollStep? {
      PollAddsNoHistory(s, step.id, step.answer, step.waker, step.reachable);
    }
  }

  lemma SumIsAssociative<T>(a: map<nat, T>, b: map<nat, T>, c: map<nat, T>)
    ensures (a + b) + c == a + (b + c)
  {
  }

  lemma {:induction false} ResultsComeFromTheKernel(s: System, steps: seq<Step>)
    requires IsRun(s, steps)
    ensures AfterAll(s, steps).kernelResults == s.kernelResults + KernelResults(steps)
    decreases |steps|
  {
    if steps != [] {
      StepAddsResult(s, steps[0]);
      ResultsComeFromTheKernel(After(s, steps[0]), steps[1..]);
      SumIsAssociative(s.kernelResults, ResultOf(steps[0]), KernelResults(steps[1..]));
    }
  }

  lemma {:induction false} BuffersComeFromTheCallers(s: System, steps: seq<Step>)
    requires IsRun(s, steps)
    ensures AfterAll(s, steps).bufferOf == s.bufferOf + BuffersGiven(steps, s.nextId)
    decreases |steps|
  {
    if steps != [] {
      var t := After(s, steps[0]);
      StepAddsBuffer(s, steps[0]);
      BuffersComeFromTheCallers(t, steps[1..]);
      SumIsAssociative(s.bufferOf, BufferGiven(steps[0], s.nextId), BuffersGiven(steps[1..], t.nextId));
    }
  }

  lemma HistoryIsTheRuns(steps: seq<Step>)
    requires IsRun(START, steps)
    ensures var s := AfterAll(START, steps); s.kernelResults == KernelResults(steps) && s.bufferOf == BuffersGiven(steps, 1)
  {
    ResultsComeFromTheKernel(START, steps);
    BuffersComeFromTheCallers(START, steps);
  }

  /**
   The answer for an operation of which the kernel said `result`: its own byte
   count or error and the buffer the operation was made with.  A negative
   count wraps at 64 bits.
   */
  predicate Gives(r: Poll<Result<(int, nat), SafetyError>>, result: IoResult, buffer: nat) {
    && r.Ready?
    && match result
       case Ok(bytes) =>
         && r.value.Ok? && r.value.value.1 == buffer
         && (0 <= bytes < U64_RANGE ==> r.value.value.0 == bytes)
         && 0 <= r.value.value.0 < U64_RANGE && (r.value.value.0 - bytes) % U64_RANGE == 0
       case Err(message) => r.value == Err(CompletionFailed(message))
  }

  lemma PolledGives(s: System, id: nat, result: IoResult, waker: Waker, reachable: bool)
    requires id in s.live && !s.live[id].completed && s.live[id].buffer.Some?
    ensures Gives(Polled(s, id, Ok(Some(result)), waker, reachable).1, result, s.live[id].buffer.value)
  {
    if result.Ok? {
      WrapsAround(result.value);
    }
  }

  lemma PollAnswers(s: System, id: nat, answer: Result<seq<Completion>, string>, waker: Waker, reachable: bool)
    requires Inv(s) && id in s.live && FromQueue(s.queue, answer)
    ensures var r := AfterPoll(s, id, answer, waker, reachable).1;
      if s.live[id].completed then r == Ready(Err(FailedDuringSubmission))
      else if id in s.check.cache || id in Taken(s, id, answer) then
        id in s.kernelResults && id in s.bufferOf && Gives(r, s.kernelResults[id], s.bufferOf[id])
      else r == if answer.Ok? then Pending else Ready(Err(CheckFailed(answer.error)))
  {
    if !s.live[id].completed {
      PollSearch(s, id, answer);
      if id in s.check.cache || id in Taken(s, id, answer) {
        PolledGives(Checked(s, id, answer), id, s.kernelResults[id], waker, reachable);
      }
    }
  }

  /** Whatever happened before, a poll hands out a result only for an operation the kernel completed, and it is the kernel's. */
  lemma PollAnswersTheKernelsResult(steps: seq<Step>, id: nat, answer: Result<seq<Completion>, string>, waker: Waker, reachable: bool)
    requires IsRun(START, steps) && NeverBreaks(START, steps)
    requires Enabled(AfterAll(START, steps), PollStep(id, answer, waker, reachable))
    ensures var s := AfterAll(START, steps); var results, buffers := KernelResults(steps), BuffersGiven(steps, 1);
      var r := AfterPoll(s, id, answer, waker, reachable).1;
      if s.live[id].completed then r == Ready(Err(FailedDuringSubmission))
      else if id in s.check.cache || id in Taken(s, id, answer) then
        id in results && id in buffers && Gives(r, results[id], buffers[id])
      else r == if answer.Ok? then Pending else Ready(Err(CheckFailed(answer.error)))
  {
    StartIsSound();
    RunIsSafeIff(START, steps);
    HistoryIsTheRuns(steps);
    PollAnswers(AfterAll(START, steps), id, answer, waker, reachable);
  }

  lemma WrapsAround(bytes: int)
    ensures 0 <= AsUsize(bytes) < U64_RANGE && (AsUsize(bytes) - bytes) % U64_RANGE == 0
    ensures 0 <= bytes < U64_RANGE ==> AsUsize(bytes) == bytes
  {
    assert bytes == U64_RANGE * (bytes / U64_RANGE) + bytes % U64_RANGE;
    MultiplesHaveNoRemainder(-(bytes / U64_RANGE));
  }

  lemma MultiplesHaveNoRemainder(k: int)
    ensures (U64_RANGE * k) % U64_RANGE == 0
  {
  }

  /** A poll that meets an orphan's completion takes it out of the map and hands it back. */
  lemma ReportedOrphansAreYielded(s: System, id: nat, cs: seq<Completion>, orphan: nat)
    requires Inv(s) && id in s.live && FromQueue(s.queue, Ok(cs)) && id !in s.check.cache
    requires orphan in CompletionIds(cs) && orphan in s.check.orphans
    ensures orphan in Checked(s, id, Ok(cs)).yielded
    ensures orphan !in Checked(s, id, Ok(cs)).check.orphans && orphan !in Checked(s, id, Ok(cs)).check.cache
  {
    MembersHaveIds(cs);
    assert CompletionIds(cs) <= s.queue.Keys;
    CheckMeaning(s.check, id, cs);
  }

  // ----- Wake-ups ---------------------------------------------------------

  /** The search wakes whoever waits for a completion it caches. */
  lemma {:induction false} CheckWakes(s: CheckState<nat>, target: nat, cs: seq<Completion>, id: nat)
    requires DistinctCompletions(cs) && CompletionIds(cs) !! s.cache.Keys
    ensures s.woken <= CheckMany(s, target, cs).0.woken
    ensures id in Cached(s, target, CompletionIds(cs)) && id in s.wakers ==>
      WokenBetween(s.woken, CheckMany(s, target, cs).0.woken, Wakeup(id, s.wakers[id]))
  {
    if cs != [] {
      var init, last := cs[..|cs| - 1], cs[|cs| - 1];
      DistinctPrefix(cs);
      CheckMeaning(s, target, init);
      CheckWakes(s, target, init, id);
      var (before, found) := CheckMany(s, target, init);
      var after := CheckOne(before, target, found, last).0;
      if id in Cached(s, target, CompletionIds(cs)) && id in s.wakers {
        if id == last.id {
          assert after.woken[|before.woken|] == Wakeup(id, s.wakers[id]);
        } else {
          WokenEarlier(s.woken, before.woken, after.woken, Wakeup(id, s.wakers[id]));
        }
      }
    }
  }

  /** A waker stays registered as it was, or its task was woken. */
  ghost predicate KeptOrWoken(before: CheckState<nat>, after: CheckState<nat>, id: nat) {
    id in before.wakers ==>
      || (id in after.wakers && after.wakers[id] == before.wakers[id])
      || WokenBetween(before.woken, after.woken, Wakeup(id, before.wakers[id]))
  }

  lemma SearchKeepsOrWakes(s: System, target: nat, answer: Result<seq<Completion>, string>, id: nat)
    requires Inv(s) && FromQueue(s.queue, answer)
    ensures var t := Checked(s, target, answer); s.check.woken <= t.check.woken && KeptOrWoken(s.check, t.check, id)
  {
    if target !in s.check.cache && answer.Ok? {
      SearchReported(s, target, answer.value);
      CheckWakes(s.check, target, answer.value, id);
    }
  }

  predicate Polls(step: Step, id: nat) {
    step.PollStep? && step.id == id
  }

  lemma StepKeepsOrWakes(s: System, step: Step, id: nat)
    requires Inv(s) && Enabled(s, step)
    ensures s.check.woken <= After(s, step).check.woken
    ensures !Polls(step, id) ==> KeptOrWoken(s.check, After(s, step).check, id)
  {
    if step.PollStep? {
      SearchKeepsOrWakes(s, step.id, step.answer, id);
    }
  }

  lemma {:induction false} RunWokenGrows(s: System, steps: seq<Step>)
    requires Inv(s) && IsRun(s, steps) && NeverBreaks(s, steps)
    ensures s.check.woken <= AfterAll(s, steps).check.woken
    decreases |steps|
  {
    if steps != [] {
      StepIsSafeIff(s, steps[0]);
      StepKeepsOrWakes(s, steps[0], 0);
      RunWokenGrows(After(s, steps[0]), steps[1..]);
    }
  }

  lemma {:induction false} RunKeepsOrWakes(s: System, steps: seq<Step>, id: nat)
    requires Inv(s) && IsRun(s, steps) && NeverBreaks(s, steps) && id in s.check.wakers
    requires forall step | step in steps :: !Polls(step, id)
    ensures KeptOrWoken(s.check, AfterAll(s, steps).check, id)
    decreases |steps|
  {
    if steps != [] {
      var t, u, w := After(s, steps[0]), AfterAll(s, steps), Wakeup(id, s.check.wakers[id]);
      StepIsSafeIff(s, steps[0]);
      StepKeepsOrWakes(s, steps[0], id);
      RunWokenGrows(t, steps[1..]);
      if WokenBetween(s.check.woken, t.check.woken, w) {
        WokenEarlier(s.check.woken, t.check.woken, u.check.woken, w);
      } else {
        RunKeepsOrWakes(t, steps[1..], id);
        if WokenBetween(t.check.woken, u.check.woken, w) {
          WokenEarlier(s.check.woken, t.check.woken, u.check.woken, w);
        }
      }
    }
  }

  /** Any other answer about a looked-up operation leaves no waker behind for it. */
  lemma ReadyPollUnregisters(s: System, id: nat, answer: Result<seq<Completion>, string>, waker: Waker, reachable: bool)
    requires Inv(s) && id in s.live && !s.live[id].completed
    requires AfterPoll(s, id, answer, waker, reachable).1.Ready?
    ensures id !in AfterPoll(s, id, answer, waker, reachable).0.check.wakers
    ensures id !in AfterPoll(s, id, answer, waker, reachable).0.live
  {
  }

  lemma PendingPollRegisters(s: System, id: nat, answer: Result<seq<Completion>, string>, waker: Waker, reachable: bool)
    requires Inv(s) && id in s.live && FromQueue(s.queue, answer)
    requires AfterPoll(s, id, answer, waker, reachable).1.Pending?
    ensures var t := AfterPoll(s, id, answer, waker, reachable).0; id in t.check.wakers && t.check.wakers[id] == waker
    ensures !Breaks(s, PollStep(id, answer, waker, reachable))
  {
  }

  /**
   No lost wake-up.  After a poll that was left pending, and until the future
   is polled again, its waker stays registered or was called; it was called
   if by then the result is in the cache.
   */
  lemma PendingFutureIsWoken(earlier: seq<Step>, id: nat, answer: Result<seq<Completion>, string>, waker: Waker,
                             reachable: bool, later: seq<Step>)
    requires IsRun(START, earlier) && NeverBreaks(START, earlier)
    requires var s := AfterAll(START, earlier);
      var poll := PollStep(id, answer, waker, reachable);
      && Enabled(s, poll) && AfterPoll(s, id, answer, waker, reachable).1.Pending?
      && IsRun(After(s, poll), later) && NeverBreaks(After(s, poll), later)
      && forall step | step in later :: !Polls(step, id)
    ensures var t := After(AfterAll(START, earlier), PollStep(id, answer, waker, reachable));
      var u := AfterAll(t, later);
      var woken := WokenBetween(t.check.woken, u.check.woken, Wakeup(id, waker));
      && ((id in u.check.wakers && u.check.wakers[id] == waker) || woken)
      && (id in u.check.cache ==> woken)
  {
    StartIsSound();
    RunIsSafeIff(START, earlier);
    var s := AfterAll(START, earlier);
    var poll := PollStep(id, answer, waker, reachable);
    PendingPollRegisters(s, id, answer, waker, reachable);
    StepIsSafeIff(s, poll);
    RunKeepsOrWakes(After(s, poll), later, id);
    RunIsSafeIff(After(s, poll), later);
  }

  // ----- Orphans that are never handed back ------------------------------

  /** The map holds an orphan whose completion will not come, or came before it was orphaned. */
  predicate Stuck(s: System, id: nat) {
    id in s.check.orphans && id !in s.kernel && id !in s.queue
  }

  ghost predicate NoneStuck(s: System) {
    forall id | id in s.check.orphans :: !Stuck(s, id)
  }

  /**
   The steps that leave an orphan nobody will reclaim: an accept refused
   before it was queued, and dropping a pending operation whose completion
   was cached for it.
   */
  predicate LeavesStuck(s: System, step: Step) {
    match step
    case RefusedAcceptStep(_, queued, reachable) => reachable && !queued
    case DropStep(id, reachable) => reachable && id in s.live && !s.live[id].completed && id in s.check.cache
    case _ => false
  }

  /** A dropped pending operation is stuck exactly when its completion was cached for it. */
  lemma DropLeavesStuckOrphanIff(s: System, id: nat)
    requires Inv(s) && id in s.live && !s.live[id].completed
    ensures Stuck(After(s, DropStep(id, true)), id) <==> id in s.check.cache
  {
  }

  lemma PollLeavesNoneStuck(s: System, id: nat, answer: Result<seq<Completion>, string>, waker: Waker, reachable: bool)
    requires Inv(s) && NoneStuck(s) && id in s.live && FromQueue(s.queue, answer)
    ensures NoneStuck(AfterPoll(s, id, answer, waker, reachable).0)
  {
    PollSearch(s, id, answer);
  }

  /** A step keeps every orphan reclaimable exactly when it is not one of those two. */
  lemma StepLeavesNoneStuckIff(s: System, step: Step)
    requires Inv(s) && NoneStuck(s) && Enabled(s, step)
    ensures NoneStuck(After(s, step)) <==> !LeavesStuck(s, step)
  {
    var t := After(s, step);
    match step
    case RefusedAcceptStep(_, queued, reachable) =>
      assert s.nextId !in s.kernel && s.nextId !in s.queue && s.nextId !in s.check.orphans;
      if LeavesStuck(s, step) {
        assert s.nextId in t.check.orphans && Stuck(t, s.nextId);
      }
    case PollStep(id, answer, waker, reachable) => PollLeavesNoneStuck(s, id, answer, waker, reachable);
    case DropStep(id, reachable) =>
      if LeavesStuck(s, step) {
        assert id in t.check.orphans && Stuck(t, id);
      }
    case _ =>
  }

  ghost predicate NoneStuckThroughout(s: System, steps: seq<Step>)
    requires IsRun(s, steps)
    decreases |steps|
  {
    NoneStuck(s) && (steps != [] ==> NoneStuckThroughout(After(s, steps[0]), steps[1..]))
  }

  ghost predicate NeverLeavesStuck(s: System, steps: seq<Step>)
    requires IsRun(s, steps)
    decreases |steps|
  {
    steps != [] ==> !LeavesStuck(s, steps[0]) && NeverLeavesStuck(After(s, steps[0]), steps[1..])
  }

  /** In a safe run every orphan can be reclaimed at every moment exactly when neither of those steps is taken. */
  lemma {:induction false} OrphansAreReclaimableIff(s: System, steps: seq<Step>)
    requires Inv(s) && NoneStuck(s) && IsRun(s, steps) && NeverBreaks(s, steps)
    ensures NoneStuckThroughout(s, steps) <==> NeverLeavesStuck(s, steps)
    decreases |steps|
  {
    if steps != [] {
      StepIsSafeIff(s, steps[0]);
      StepLeavesNoneStuckIff(s, steps[0]);
      if NoneStuck(After(s, steps[0])) {
        OrphansAreReclaimableIff(After(s, steps[0]), steps[1..]);
      }
    }
  }

  lemma StuckOrphanStays(s: System, step: Step, id: nat)
    requires Inv(s) && Enabled(s, step) && Stuck(s, id) && !step.CleanupStep?
    ensures Stuck(After(s, step), id)
  {
    if step.PollStep? {
      PollSearch(s, step.id, step.answer);
    }
  }

  lemma {:induction false} StuckOrphansStay(s: System, steps: seq<Step>, id: nat)
    requires Inv(s) && IsRun(s, steps) && NeverBreaks(s, steps) && Stuck(s, id) && CleanupStep !in steps
    ensures Stuck(AfterAll(s, steps), id)
    decreases |steps|
  {
    if steps != [] {
      StepIsSafeIff(s, steps[0]);
      StuckOrphanStays(s, steps[0], id);
      StuckOrphansStay(After(s, steps[0]), steps[1..], id);
    }
  }

  /** Without a cleanup it shows at the end of the run. */
  lemma {:induction false} NoneStuckInTheEndIff(s: System, steps: seq<Step>)
    requires Inv(s) && NoneStuck(s) && IsRun(s, steps) && NeverBreaks(s, steps) && CleanupStep !in steps
    ensures NoneStuck(AfterAll(s, steps)) <==> NeverLeavesStuck(s, steps)
    decreases |steps|
  {
    if steps != [] {
      var t := After(s, steps[0]);
      StepIsSafeIff(s, steps[0]);
      StepLeavesNoneStuckIff(s, steps[0]);
      if NoneStuck(t) {
        NoneStuckInTheEndIff(t, steps[1..]);
      } else {
        var id :| id in t.check.orphans && Stuck(t, id);
        StuckOrphansStay(t, steps[1..], id);
        assert id in AfterAll(s, steps).check.orphans;
      }
    }
  }

  /** A refused accept alone leaves an orphan that is never handed back. */
  lemma RefusedAcceptIsStuck(buffer: nat)
    ensures var steps := [RefusedAcceptStep(buffer, false, true)];
      IsRun(START, steps) && NeverBreaks(START, steps) && Stuck(AfterAll(START, steps), 1)
  {
    var step := RefusedAcceptStep(buffer, false, true);
    OneStepMore(START, step, []);
    assert [step] + [] == [step];
  }

  /** Dropping a pending operation and then emptying the orphan map frees a buffer the kernel still uses. */
  lemma CleanupFreesABufferInUse(buffer: nat)
    ensures var steps := [SubmitStep(buffer), DropStep(1, true), CleanupStep];
      IsRun(START, steps) && 1 in AfterAll(START, steps).kernel && !Safe(AfterAll(START, steps))
  {
    var steps := [SubmitStep(buffer), DropStep(1, true), CleanupStep];
    var s1 := START.(live := map[1 := OpState(Some(buffer), false)], kernel := {1}, bufferOf := map[1 := buffer], nextId := 2);
    var s2 := s1.(live := map[], check := START.check.(orphans := map[1 := buffer]));
    var s3 := s1.(live := map[]);
    assert After(START, steps[0]) == s1 && After(s1, steps[1]) == s2 && After(s2, steps[2]) == s3;
    assert steps[1..][1..] == [CleanupStep] && steps[1..][1..][1..] == [];
    assert AfterAll(s2, [CleanupStep]) == s3;
    assert !HeldOnce(s3, 1);
  }

  /** Both operations were submitted and completed, and nobody polled yet. */
  function BothQueued(x: IoResult, y: IoResult): System {
    START.(live := map[1 := OpState(Some(0), false), 2 := OpState(Some(1), false)],
           queue := map[1 := x, 2 := y], kernelResults := map[1 := x, 2 := y], bufferOf := map[1 := 0, 2 := 1], nextId := 3)
  }

  lemma TwoSubmissionsComplete(x: IoResult, y: IoResult, rest: seq<Step>)
    requires var s := BothQueued(x, y); IsRun(s, rest) && NeverBreaks(s, rest)
    ensures var steps := [SubmitStep(0), SubmitStep(1), KernelStep(1, x), KernelStep(2, y)] + rest;
      && IsRun(START, steps) && NeverBreaks(START, steps)
      && AfterAll(START, steps) == AfterAll(BothQueued(x, y), rest)
  {
    var a, b, c, d := SubmitStep(0), SubmitStep(1), KernelStep(1, x), KernelStep(2, y);
    var s1 := START.(live := map[1 := OpState(Some(0), false)], kernel := {1}, bufferOf := map[1 := 0], nextId := 2);
    var s4 := BothQueued(x, y);
    var s2 := s4.(kernel := {1, 2}, queue := map[], kernelResults := map[]);
    var s3 := s4.(kernel := {2}, queue := map[1 := x], kernelResults := map[1 := x]);
    assert After(START, a) == s1 && After(s1, b) == s2 && After(s2, c) == s3;
    assert After(s3, d) == s4;
    OneStepMore(s3, d, rest);
    OneStepMore(s2, c, [d] + rest);
    OneStepMore(s1, b, [c] + ([d] + rest));
    OneStepMore(START, a, [b] + ([c] + ([d] + rest)));
    assert [a, b, c, d] + rest == [a] + ([b] + ([c] + ([d] + rest)));
  }

  /** A poll for the first operation reports the second's completion too; dropping the second then leaves its buffer in the map. */
  lemma StuckOrphanIsReachable(x: IoResult, y: IoResult, w: Waker)
    ensures var rest := [PollStep(1, Ok([Completion(1, x), Completion(2, y)]), w, true), DropStep(2, true)];
      var steps := [SubmitStep(0), SubmitStep(1), KernelStep(1, x), KernelStep(2, y)] + rest;
      IsRun(START, steps) && NeverBreaks(START, steps) && Stuck(AfterAll(START, steps), 2)
  {
    var cs := [Completion(1, x), Completion(2, y)];
    var poll, drop := PollStep(1, Ok(cs), w, true), DropStep(2, true);
    var s := BothQueued(x, y);
    PollTakesBoth(s, cs, x, y, w);
    var t := After(s, poll);
    OneStepMore(t, drop, []);
    OneStepMore(s, poll, [drop]);
    assert [poll] + [drop] == [poll, drop] && [drop] + [] == [drop];
    TwoSubmissionsComplete(x, y, [poll, drop]);
  }

  lemma PollTakesBoth(s: System, cs: seq<Completion>, x: IoResult, y: IoResult, w: Waker)
    requires cs == [Completion(1, x), Completion(2, y)] && s.queue == map[1 := x, 2 := y]
    requires s.check == START.check && s.live.Keys == {1, 2} && s.yielded == {} && s.live[1].completed == false
    ensures FromQueue(s.queue, Ok(cs))
    ensures AfterPoll(s, 1, Ok(cs), w, true).0
         == s.(live := s.live - {1}, queue := map[], check := START.check.(cache := map[2 := y]))
  {
    assert cs[..1] == [cs[0]] && cs[..1][..0] == [] && cs[0].id == 1 && cs[1].id == 2;
    assert CompletionIds(cs) == {1, 2};
    assert CheckMany(s.check, 1, cs[..1]) == (s.check, Some(x));
    assert s.check.wakers - {2} == map[] && s.check.woken + [] == [] && map[][2 := y] == map[2 := y];
    assert CheckOne(s.check, 1, Some(x), cs[1]) == (s.check.(cache := map[2 := y]), Some(x));
    assert CheckMany(s.check, 1, cs) == (s.check.(cache := map[2 := y]), Some(x));
    assert s.queue - {1, 2} == map[];
  }

  lemma OneStepMore(s: System, step: Step, rest: seq<Step>)
    requires Enabled(s, step) && !Breaks(s, step)
    requires IsRun(After(s, step), rest) && NeverBreaks(After(s, step), rest)
    ensures IsRun(s, [step] + rest) && NeverBreaks(s, [step] + rest)
    ensures AfterAll(s, [step] + rest) == AfterAll(After(s, step), rest)
  {
  }
}
