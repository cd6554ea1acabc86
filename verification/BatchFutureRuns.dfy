/**
 Whole runs of a batch future: any number of polls, each with any list of
 completions the ring may report, or an error.
 */
module BatchFutureRuns {
  import opened Wrappers
  import opened Completions
  import opened DependencyGraph
  import opened BatchResults
  import opened BatchFutures

  function Fresh(ids: Ids): FutureState {
    FutureState(seq(|ids|, _ => None), false)
  }

  ghost predicate Consistent(s: FutureState, ids: Ids) {
    |s.slots| == |ids| && (s.completed ==> AllFilled(s.slots))
  }

  ghost function AfterPolls(s: FutureState, ids: Ids, failFast: bool, reports: seq<Report>): FutureState
    decreases |reports|
  {
    if reports == [] then s
    else AfterPolls(AfterPoll(s, ids, failFast, reports[0]).0, ids, failFast, reports[1..])
  }

  /** What the `k`-th poll of a run answers. */
  ghost function AnswerAt(s: FutureState, ids: Ids, failFast: bool, reports: seq<Report>, k: nat)
    : Poll<Result<BatchResult, string>>
    requires k < |reports|
  {
    AfterPoll(AfterPolls(s, ids, failFast, reports[..k]), ids, failFast, reports[k]).1
  }

  /** All completions a run of polls was handed, in order. */
  function Delivered(reports: seq<Report>): seq<Completion> {
    if reports == [] then []
    else (if reports[0].Ok? then reports[0].value else []) + Delivered(reports[1..])
  }

  // ----- Bookkeeping ------------------------------------------------------

  lemma {:induction false} AfterPollsConcat(s: FutureState, ids: Ids, failFast: bool, a: seq<Report>, b: seq<Report>)
    ensures AfterPolls(s, ids, failFast, a + b) == AfterPolls(AfterPolls(s, ids, failFast, a), ids, failFast, b)
    decreases |a|
  {
    if a == [] {
      assert a + b == b;
    } else {
      assert (a + b)[1..] == a[1..] + b;
      AfterPollsConcat(AfterPoll(s, ids, failFast, a[0]).0, ids, failFast, a[1..], b);
    }
  }

  lemma {:induction false} DeliveredConcat(a: seq<Report>, b: seq<Report>)
    ensures Delivered(a + b) == Delivered(a) + Delivered(b)
  {
    if a == [] {
      assert a + b == b;
    } else {
      assert (a + b)[1..] == a[1..] + b;
      DeliveredConcat(a[1..], b);
    }
  }

  lemma OnePollMore(s: FutureState, ids: Ids, failFast: bool, reports: seq<Report>, k: nat)
    requires k < |reports|
    ensures AfterPolls(s, ids, failFast, reports[..k + 1])
         == AfterPoll(AfterPolls(s, ids, failFast, reports[..k]), ids, failFast, reports[k]).0
    ensures Delivered(reports[..k + 1])
         == Delivered(reports[..k]) + if reports[k].Ok? then reports[k].value else []
  {
    assert reports[..k + 1] == reports[..k] + [reports[k]];
    AfterPollsConcat(s, ids, failFast, reports[..k], [reports[k]]);
    DeliveredConcat(reports[..k], [reports[k]]);
    assert [reports[k]][1..] == [];
  }

  lemma RecordedTwice(slots: Slots, ids: Ids, a: seq<Completion>, b: seq<Completion>)
    requires |slots| == |ids|
    ensures Recorded(Recorded(slots, ids, a), ids, b) == Recorded(slots, ids, a + b)
  {
    forall i | 0 <= i < |slots| && ids[i].Some?
      ensures FirstReport(a + b, ids[i].value)
           == if FirstReport(a, ids[i].value).Some? then FirstReport(a, ids[i].value) else FirstReport(b, ids[i].value)
    {
      FirstReportOfConcat(a, b, ids[i].value);
    }
  }

  // ----- Write-once slots, final answers ----------------------------------

  lemma {:induction false} SlotsAreWriteOnce(s: FutureState, ids: Ids, failFast: bool, reports: seq<Report>)
    requires Consistent(s, ids)
    ensures Consistent(AfterPolls(s, ids, failFast, reports), ids)
    ensures forall i | 0 <= i < |ids| && s.slots[i].Some? ::
              AfterPolls(s, ids, failFast, reports).slots[i] == s.slots[i]
    decreases |reports|
  {
    if reports != [] {
      SlotsAreWriteOnce(AfterPoll(s, ids, failFast, reports[0]).0, ids, failFast, reports[1..]);
    }
  }

  /** A `Ready(Ok)` answer means every slot is filled and lists exactly the slots. */
  lemma ReadyMeansFilled(s: FutureState, ids: Ids, failFast: bool, report: Report)
    requires Consistent(s, ids)
    ensures var (after, answer) := AfterPoll(s, ids, failFast, report);
      answer.Ready? && answer.value.Ok? ==>
        && AllFilled(after.slots)
        && answer.value.value.results == Collect(after.slots)
        && forall i | 0 <= i < |ids| :: after.slots[i] == Some(answer.value.value.results[i])
  {
  }

  /** Once a run has answered `Ready(Ok)`, every later `Ready(Ok)` gives the same result. */
  lemma AnswersAgree(s: FutureState, ids: Ids, failFast: bool, reports: seq<Report>, j: nat, k: nat)
    requires Consistent(s, ids) && j <= k < |reports|
    requires var a := AnswerAt(s, ids, failFast, reports, j); a.Ready? && a.value.Ok?
    requires var b := AnswerAt(s, ids, failFast, reports, k); b.Ready? && b.value.Ok?
    ensures AnswerAt(s, ids, failFast, reports, j) == AnswerAt(s, ids, failFast, reports, k)
  {
    if j < k {
      SlotsAreWriteOnce(s, ids, failFast, reports[..j]);
      SlotsAreWriteOnce(s, ids, failFast, reports[..k]);
      OnePollMore(s, ids, failFast, reports, j);
      var first := AfterPolls(s, ids, failFast, reports[..j + 1]);
      assert reports[..k] == reports[..j + 1] + reports[j + 1..k];
      AfterPollsConcat(s, ids, failFast, reports[..j + 1], reports[j + 1..k]);
      SlotsAreWriteOnce(s, ids, failFast, reports[..j + 1]);
      SlotsAreWriteOnce(first, ids, failFast, reports[j + 1..k]);
      var second := AfterPolls(s, ids, failFast, reports[..k]);
      SlotsAreWriteOnce(second, ids, failFast, [reports[k]]);
      OnePollMore(s, ids, failFast, reports, k);
      ReadyMeansFilled(AfterPolls(s, ids, failFast, reports[..j]), ids, failFast, reports[j]);
      ReadyMeansFilled(second, ids, failFast, reports[k]);
      assert Collect(first.slots) == Collect(AfterPolls(s, ids, failFast, reports[..k + 1]).slots);
    }
  }

  // ----- Without fail-fast ------------------------------------------------

  /** The slots depend on the completions alone, however they were split across polls. */
  lemma {:induction false} SlotsAreFirstReports(s: FutureState, ids: Ids, reports: seq<Report>)
    requires Consistent(s, ids)
    ensures AfterPolls(s, ids, false, reports).slots == Recorded(s.slots, ids, Delivered(reports))
    decreases |reports|
  {
    if reports != [] {
      var next := AfterPoll(s, ids, false, reports[0]).0;
      SlotsAreFirstReports(next, ids, reports[1..]);
      if s.completed {
        assert Recorded(s.slots, ids, Delivered(reports[1..])) == Recorded(s.slots, ids, Delivered(reports));
      } else if reports[0].Ok? {
        RecordedTwice(s.slots, ids, reports[0].value, Delivered(reports[1..]));
      } else {
        assert Delivered(reports) == Delivered(reports[1..]);
      }
    }
  }

  predicate AllIdsPresent(ids: Ids) {
    forall i | 0 <= i < |ids| :: ids[i].Some?
  }

  predicate DistinctIds(ids: Ids) {
    forall i, j | 0 <= i < j < |ids| && ids[i].Some? :: ids[i] != ids[j]
  }

  /** An entry tells what became of its operation: the byte count of a success, the message of a failure. */
  predicate Tells(entry: OperationResult, r: IoResult) {
    match r
    case Ok(bytes) => entry == Success(bytes)
    case Err(message) => entry == Error(message)
  }

  /**
   Without fail-fast, a poll the ring answers is ready exactly when every
   operation of the batch has been reported, and an error of the ring is
   passed on.  Entry `i` of the result tells what was first reported for
   operation `i`; nothing is ever cancelled.
   */
  lemma BatchDeliversReportedResults(ids: Ids, reports: seq<Report>, k: nat)
    requires AllIdsPresent(ids) && DistinctIds(ids) && k < |reports|
    ensures var cs := Delivered(reports[..k + 1]);
      var answer := AnswerAt(Fresh(ids), ids, false, reports, k);
      && (reports[k].Ok? ==> (answer.Ready? <==> forall i | 0 <= i < |ids| :: Reported(cs, ids[i].value)))
      && (answer.Ready? && answer.value.Err? ==> reports[k] == Err(answer.value.error))
      && (answer.Ready? && answer.value.Ok? ==>
            |answer.value.value.results| == |ids| && forall i | 0 <= i < |ids| ::
              && FirstReport(cs, ids[i].value).Some?
              && Tells(answer.value.value.results[i], FirstReport(cs, ids[i].value).value)
              && !answer.value.value.results[i].Cancelled?)
  {
    var s := Fresh(ids);
    var cs := Delivered(reports[..k + 1]);
    SlotsAreWriteOnce(s, ids, false, reports[..k]);
    SlotsAreFirstReports(s, ids, reports[..k + 1]);
    OnePollMore(s, ids, false, reports, k);
    var after := AfterPolls(s, ids, false, reports[..k + 1]);
    forall i | 0 <= i < |ids|
      ensures after.slots[i].Some? <==> Reported(cs, ids[i].value)
      ensures after.slots[i].Some? ==>
                && FirstReport(cs, ids[i].value).Some?
                && Tells(after.slots[i].value, FirstReport(cs, ids[i].value).value)
                && !after.slots[i].value.Cancelled?
    {
      FirstReportIsReported(cs, ids[i].value);
      assert Owns(ids, i);
    }
    ReadyMeansFilled(AfterPolls(s, ids, false, reports[..k]), ids, false, reports[k]);
  }

  /**
   When the ring reports only what the backend computed, the ready answer is
   the backend's result for each operation, for every order and every split.
   */
  lemma BatchDeliversBackendResults(ids: Ids, reports: seq<Report>, k: nat, backend: map<nat, IoResult>)
    requires AllIdsPresent(ids) && DistinctIds(ids) && k < |reports|
    requires forall c | c in Delivered(reports[..k + 1]) :: c.id in backend && backend[c.id] == c.result
    ensures var answer := AnswerAt(Fresh(ids), ids, false, reports, k);
      answer.Ready? && answer.value.Ok? ==>
        |answer.value.value.results| == |ids| && forall i | 0 <= i < |ids| ::
          && ids[i].value in backend
          && Tells(answer.value.value.results[i], backend[ids[i].value])
          && !answer.value.value.results[i].Cancelled?
  {
    BatchDeliversReportedResults(ids, reports, k);
    var cs := Delivered(reports[..k + 1]);
    forall i | 0 <= i < |ids|
      ensures FirstReport(cs, ids[i].value).Some? ==>
                Completion(ids[i].value, FirstReport(cs, ids[i].value).value) in cs
    {
      FirstReportIsReported(cs, ids[i].value);
    }
  }

  /** The table lookup finds what a search through the ids would. */
  function LinearSearch(ids: Ids, id: nat): (r: Option<nat>)
    ensures r.Some? ==> r.value < |ids| && ids[r.value] == Some(id)
    ensures r.None? ==> forall i | 0 <= i < |ids| :: ids[i] != Some(id)
  {
    if ids == [] then None
    else if ids[0] == Some(id) then Some(0)
    else
      assert forall i | 1 <= i < |ids| :: ids[i] == ids[1..][i - 1];
      var r := LinearSearch(ids[1..], id);
      if r.Some? then Some(r.value + 1) else None
  }

  lemma LookupIsLinearSearch(ids: Ids, table: map<nat, nat>, id: nat)
    requires IsIdTable(ids, table) && DistinctIds(ids)
    ensures LinearSearch(ids, id) == if id in table then Some(table[id]) else None
  {
  }

  // ----- With fail-fast ---------------------------------------------------

  ghost predicate HasErrorReport(ids: Ids, cs: seq<Completion>) {
    exists i: nat :: i < |ids| && SlotReport(ids, cs, i).Some? && SlotReport(ids, cs, i).value.Error?
  }

  lemma ReportsArePermanent(ids: Ids, a: seq<Completion>, b: seq<Completion>, i: nat)
    requires i < |ids| && SlotReport(ids, a, i).Some?
    ensures SlotReport(ids, a + b, i) == SlotReport(ids, a, i)
  {
    FirstReportOfConcat(a, b, ids[i].value);
  }

  /** Until an operation of the batch fails, fail-fast makes no difference. */
  lemma {:induction false} NoErrorNoDifference(ids: Ids, reports: seq<Report>, k: nat)
    requires k <= |reports| && !HasErrorReport(ids, Delivered(reports[..k]))
    ensures AfterPolls(Fresh(ids), ids, true, reports[..k]) == AfterPolls(Fresh(ids), ids, false, reports[..k])
  {
    if k > 0 {
      OnePollMore(Fresh(ids), ids, true, reports, k - 1);
      OnePollMore(Fresh(ids), ids, false, reports, k - 1);
      var a, cs := Delivered(reports[..k - 1]), Delivered(reports[..k]);
      var b := if reports[k - 1].Ok? then reports[k - 1].value else [];
      if HasErrorReport(ids, a) {
        var i: nat :| i < |ids| && SlotReport(ids, a, i).Some? && SlotReport(ids, a, i).value.Error?;
        ReportsArePermanent(ids, a, b, i);
      }
      NoErrorNoDifference(ids, reports, k - 1);
      var s := AfterPolls(Fresh(ids), ids, false, reports[..k - 1]);
      SlotsAreWriteOnce(Fresh(ids), ids, false, reports[..k - 1]);
      SlotsAreFirstReports(Fresh(ids), ids, reports[..k - 1]);
      RecordedTwice(Fresh(ids).slots, ids, a, b);
      assert !NewError(s.slots, Recorded(s.slots, ids, b));
    }
  }

  /**
   The first poll that learns of a failure answers at once: what had been
   reported up to and including that poll, and `Cancelled` for exactly the
   operations nobody reported.
   */
  lemma FailFastAnswersAtFirstError(ids: Ids, reports: seq<Report>, k: nat)
    requires k < |reports| && reports[k].Ok?
    requires !HasErrorReport(ids, Delivered(reports[..k]))
    requires HasErrorReport(ids, Delivered(reports[..k + 1]))
    ensures AnswerAt(Fresh(ids), ids, true, reports, k) == Ready(Ok(NewBatchResult(seq(|ids|,
      i requires 0 <= i < |ids| =>
        var r := SlotReport(ids, Delivered(reports[..k + 1]), i);
        if r.Some? then r.value else Cancelled))))
    ensures AllIdsPresent(ids) && DistinctIds(ids) ==>
      var results := AnswerAt(Fresh(ids), ids, true, reports, k).value.value.results;
      forall i | 0 <= i < |ids| ::
        var report := FirstReport(Delivered(reports[..k + 1]), ids[i].value);
        if report.Some? then Tells(results[i], report.value) && !results[i].Cancelled? else results[i].Cancelled?
  {
    var start := Fresh(ids);
    var a, b := Delivered(reports[..k]), reports[k].value;
    NoErrorNoDifference(ids, reports, k);
    OnePollMore(start, ids, true, reports, k);
    SlotsAreWriteOnce(start, ids, false, reports[..k]);
    SlotsAreFirstReports(start, ids, reports[..k]);
    RecordedTwice(start.slots, ids, a, b);
    var s := AfterPolls(start, ids, true, reports[..k]);
    var slots := Recorded(s.slots, ids, b);
    var i: nat :| i < |ids| && SlotReport(ids, a + b, i).Some? && SlotReport(ids, a + b, i).value.Error?;
    if s.slots[i].Some? {
      ReportsArePermanent(ids, a, b, i);
      assert false;
    }
    assert NewlyFilled(s.slots, slots, i);
    assert Collect(FillCancelled(slots)) == seq(|ids|, i requires 0 <= i < |ids| =>
      var r := SlotReport(ids, a + b, i);
      if r.Some? then r.value else Cancelled);
    forall i | 0 <= i < |ids| && AllIdsPresent(ids) && DistinctIds(ids)
      ensures Owns(ids, i)
    {
    }
  }

  /**
   A ready answer is repeated whatever the ring then says, except that the
   fail-fast path does not mark the future completed: after it, an error from
   the ring is passed on instead.
   */
  lemma ReadyIsLatchedUnlessFailFastFired(s: FutureState, ids: Ids, failFast: bool, report: Report, error: string)
    requires Consistent(s, ids) && !s.completed && report.Ok?
    requires AfterPoll(s, ids, failFast, report).1.Ready?
    ensures var (after, answer) := AfterPoll(s, ids, failFast, report);
      && (AfterPoll(after, ids, failFast, Err(error)).1 == answer
          <==> !(failFast && NewError(s.slots, Recorded(s.slots, ids, report.value))))
      && forall cs :: AfterPoll(after, ids, failFast, Ok(cs)).1 == answer
  {
    var (after, answer) := AfterPoll(s, ids, failFast, report);
    ReadyMeansFilled(s, ids, failFast, report);
    forall cs
      ensures AfterPoll(after, ids, failFast, Ok(cs)).1 == answer
    {
      assert Recorded(after.slots, ids, cs) == after.slots;
    }
  }

  lemma FailFastAnswerMayBeFollowedByError()
    ensures var ids: Ids := [Some(1)];
      var reports: seq<Report> := [Ok([Completion(1, Err("EIO"))]), Err("queue closed")];
      && AnswerAt(Fresh(ids), ids, true, reports, 0) == Ready(Ok(NewBatchResult([Error("EIO")])))
      && AnswerAt(Fresh(ids), ids, true, reports, 1) == Ready(Err("queue closed"))
  {
    var ids: Ids := [Some(1)];
    var cs := [Completion(1, Err("EIO"))];
    var reports: seq<Report> := [Ok(cs), Err("queue closed")];
    assert reports[..0] == [] && reports[..1] == [Ok(cs)];
    OnePollMore(Fresh(ids), ids, true, reports, 0);
    var slots := Recorded(Fresh(ids).slots, ids, cs);
    assert Owns(ids, 0) && slots[0] == Some(Error("EIO"));
    assert NewlyFilled(Fresh(ids).slots, slots, 0);
    assert FillCancelled(slots) == [Some(Error("EIO"))];
    assert Collect(FillCancelled(slots)) == [Error("EIO")];
  }
}
