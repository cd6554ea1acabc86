/** Completion lists: what a backend or a ring reports, in order. */
module Completions {
  import opened Wrappers

  /** The result the kernel reports for one operation: a byte count or an error. */
  type IoResult = Result<int, string>

  /** One entry of a completion list: the operation's id and its result. */
  datatype Completion = Completion(id: nat, result: IoResult)

  /** The first result a list of completions reports for `id`. */
  function FirstReport(cs: seq<Completion>, id: nat): Option<IoResult> {
    if cs == [] then None
    else if cs[0].id == id then Some(cs[0].result)
    else FirstReport(cs[1..], id)
  }

  lemma {:induction false} FirstReportOfConcat(a: seq<Completion>, b: seq<Completion>, id: nat)
    ensures FirstReport(a + b, id) == if FirstReport(a, id).Some? then FirstReport(a, id) else FirstReport(b, id)
  {
    if a == [] {
      assert a + b == b;
    } else {
      assert (a + b)[1..] == a[1..] + b;
      FirstReportOfConcat(a[1..], b, id);
    }
  }

  ghost predicate Reported(cs: seq<Completion>, id: nat) {
    exists c :: c in cs && c.id == id
  }

  lemma {:induction false} FirstReportIsReported(cs: seq<Completion>, id: nat)
    ensures FirstReport(cs, id).Some? <==> Reported(cs, id)
    ensures FirstReport(cs, id).Some? ==> Completion(id, FirstReport(cs, id).value) in cs
  {
    if cs != [] {
      FirstReportIsReported(cs[1..], id);
      if cs[0].id == id {
        assert cs[0] in cs;
      } else if Reported(cs, id) {
        var c :| c in cs && c.id == id;
        assert c in cs[1..];
      }
    }
  }

  ghost function CompletionIds(cs: seq<Completion>): set<nat> {
    set c | c in cs :: c.id
  }

  ghost predicate DistinctCompletions(cs: seq<Completion>) {
    forall i, j | 0 <= i < j < |cs| :: cs[i].id != cs[j].id
  }

  /** A backend answer is an error, or any duplicate-free part of its queue in any order. */
  ghost predicate FromQueue(queue: map<nat, IoResult>, answer: Result<seq<Completion>, string>) {
    answer.Ok? ==>
      && DistinctCompletions(answer.value)
      && forall c | c in answer.value :: c.id in queue && queue[c.id] == c.result
  }

  lemma DistinctPrefix(cs: seq<Completion>)
    requires DistinctCompletions(cs) && cs != []
    ensures var init, last := cs[..|cs| - 1], cs[|cs| - 1];
      && DistinctCompletions(init) && last.id !in CompletionIds(init)
      && CompletionIds(cs) == CompletionIds(init) + {last.id}
      && forall c :: c in cs <==> c in init || c == last
  {
  }

  lemma MembersHaveIds(cs: seq<Completion>)
    ensures forall c | c in cs :: c.id in CompletionIds(cs)
  {
  }
}
