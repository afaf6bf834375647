/** What becomes of every action: the answers given in a run against the outcomes and counters it reports, and
    against what the registry has lost. */
module Ledger {
  import opened Artifacts
  import opened Apply

  /** The action a step brings to an end in this way: deleted when its deletion is accepted, skipped when it is not
      found, failed when it is rejected for want of a provider or answered in any other way. */
  ghost function EndedBy(p: Setup, s: State, step: Step, status: Status): set<nat>
    requires Enabled(p, s, step)
  {
    if step.Reject? && status.Failed? then {s.workers[step.worker].action}
    else if step.Answer? && (match status
                             case Deleted => step.response.Accepted?
                             case Skipped => step.response.NotFound?
                             case Failed => step.response.Precondition? || step.response.Failure?)
    then {s.workers[step.worker].action}
    else {}
  }

  /** The actions that ended in this way, reported or not. */
  ghost function Ended(p: Setup, steps: seq<Step>, status: Status): set<nat>
    requires After(p, steps).Some?
  {
    if |steps| == 0 then {}
    else
      var init, last := steps[..|steps| - 1], steps[|steps| - 1];
      Ended(p, init, status) + EndedBy(p, After(p, init).value, last, status)
  }

  /** The outcome says so. */
  ghost predicate Recorded(outcomes: seq<Outcome>, i: nat, status: Status) {
    exists k :: 0 <= k < |outcomes| && outcomes[k] == Outcome(i, status)
  }

  /** The worker is about to say so. */
  predicate Reports(w: Worker, i: nat, status: Status) { w.Sending? && w.action == i && w.status == status }

  ghost predicate Pending(ws: seq<Worker>, i: nat, status: Status) {
    exists w :: 0 <= w < |ws| && Reports(ws[w], i, status)
  }

  ghost predicate Tracked(s: State, status: Status, ended: set<nat>) {
    forall i: nat :: i in ended <==> Recorded(s.outcomes, i, status) || Pending(s.workers, i, status)
  }

  lemma RecordedStep(outcomes: seq<Outcome>, o: Outcome, i: nat, status: Status)
    ensures Recorded(outcomes + [o], i, status) <==> Recorded(outcomes, i, status) || o == Outcome(i, status)
  {
    var all := outcomes + [o];
    if Recorded(outcomes, i, status) {
      var k :| 0 <= k < |outcomes| && outcomes[k] == Outcome(i, status);
      assert all[k] == outcomes[k];
    }
    if Recorded(all, i, status) {
      var k :| 0 <= k < |all| && all[k] == Outcome(i, status);
      if k < |outcomes| { assert outcomes[k] == all[k]; }
    }
    assert all[|outcomes|] == o;
  }

  lemma PendingStep(ws: seq<Worker>, w: nat, x: Worker, i: nat, status: Status)
    requires w < |ws|
    ensures Pending(ws[w := x], i, status) ==> Pending(ws, i, status) || Reports(x, i, status)
    ensures Pending(ws, i, status) ==> Pending(ws[w := x], i, status) || Reports(ws[w], i, status)
    ensures Reports(x, i, status) ==> Pending(ws[w := x], i, status)
    ensures Reports(ws[w], i, status) ==> Pending(ws, i, status)
  {
    var us := ws[w := x];
    if v :| 0 <= v < |us| && Reports(us[v], i, status) {
      if v != w { assert ws[v] == us[v]; }
    }
    if v :| 0 <= v < |ws| && Reports(ws[v], i, status) {
      if v != w { assert us[v] == ws[v]; }
    }
    assert us[w] == x;
  }

  lemma DeliverTracks(p: Setup, s: State, w: nat, status: Status, ended: set<nat>)
    requires Tracked(s, status, ended) && Enabled(p, s, Deliver(w))
    ensures Tracked(Next(p, s, Deliver(w)), status, ended)
  {
    var t, o := Next(p, s, Deliver(w)), Outcome(s.workers[w].action, s.workers[w].status);
    forall i: nat ensures i in ended <==> Recorded(t.outcomes, i, status) || Pending(t.workers, i, status) {
      RecordedStep(s.outcomes, o, i, status);
      PendingStep(s.workers, w, t.workers[w], i, status);
      assert Reports(s.workers[w], i, status) <==> o == Outcome(i, status);
    }
  }

  /** Replacing a worker that sends nothing. */
  lemma MoveTracks(s: State, w: nat, x: Worker, status: Status, ended: set<nat>)
    requires Tracked(s, status, ended) && w < |s.workers| && !s.workers[w].Sending?
    ensures var more := if x.Sending? && x.status == status then {x.action} else {};
            Tracked(s.(workers := s.workers[w := x]), status, ended + more)
  {
    forall i: nat
      ensures Pending(s.workers[w := x], i, status) <==> Pending(s.workers, i, status) || Reports(x, i, status)
    {
      PendingStep(s.workers, w, x, i, status);
    }
  }

  lemma TrackedStep(p: Setup, s: State, step: Step, status: Status, ended: set<nat>)
    requires Tracked(s, status, ended) && Enabled(p, s, step)
    ensures Tracked(Next(p, s, step), status, ended + EndedBy(p, s, step, status))
  {
    match step
    case Deliver(w) => DeliverTracks(p, s, w, status, ended);
    case Dispatch(w) => MoveTracks(s, w, Holding(s.sent), status, ended);
    case Reject(w) => MoveTracks(s, w, Sending(s.workers[w].action, Failed, true), status, ended);
    case Call(w) => MoveTracks(s, w, Calling(s.workers[w].action), status, ended);
    case Answer(w, r) => AnswerTracks(p, s, w, r, status, ended);
    case Cancel(w) => MoveTracks(s, w, Idle, status, ended);
    case Exit(w) => MoveTracks(s, w, Done, status, ended);
    case _ =>
  }

  lemma AnswerTracks(p: Setup, s: State, w: nat, r: Response, status: Status, ended: set<nat>)
    requires Tracked(s, status, ended) && Enabled(p, s, Answer(w, r))
    ensures Tracked(Next(p, s, Answer(w, r)), status, ended + EndedBy(p, s, Answer(w, r), status))
  {
    var x := Next(p, s, Answer(w, r)).workers[w];
    MoveTracks(s, w, x, status, ended);
    assert Next(p, s, Answer(w, r)) == s.(workers := s.workers[w := x]);
    assert EndedBy(p, s, Answer(w, r), status) == if x.status == status then {x.action} else {};
  }

  lemma {:induction false} AlwaysTracked(p: Setup, steps: seq<Step>, status: Status)
    requires After(p, steps).Some?
    ensures Tracked(After(p, steps).value, status, Ended(p, steps, status))
  {
    if |steps| == 0 {
      forall i: nat ensures !Pending(Start(p).workers, i, status) { }
    } else {
      var init := steps[..|steps| - 1];
      AlwaysTracked(p, init, status);
      TrackedStep(p, After(p, init).value, steps[|steps| - 1], status, Ended(p, init, status));
    }
  }

  lemma {:induction false} RecordedIsReported(outcomes: seq<Outcome>, k: nat)
    requires k < |outcomes|
    ensures ReportedCount(outcomes, outcomes[k].action) >= 1
  {
    ReportedMeansPresent(outcomes, outcomes[k].action);
  }

  lemma {:induction false} ReportedTwice(outcomes: seq<Outcome>, a: nat, b: nat)
    requires a < b < |outcomes| && outcomes[a].action == outcomes[b].action
    ensures ReportedCount(outcomes, outcomes[a].action) >= 2
  {
    var init := outcomes[..|outcomes| - 1];
    if b < |init| {
      ReportedTwice(init, a, b);
    } else {
      ReportedMeansPresent(init, outcomes[a].action);
      assert init[a].action == outcomes[a].action;
    }
  }

  lemma SameOutcome(outcomes: seq<Outcome>, j: nat, k: nat)
    requires j < |outcomes| && k < |outcomes| && outcomes[j].action == outcomes[k].action
    requires ReportedCount(outcomes, outcomes[k].action) <= 1
    ensures j == k
  {
    if j < k { ReportedTwice(outcomes, j, k); }
    if k < j { ReportedTwice(outcomes, k, j); }
  }

  /** A reported action is with no worker and has one outcome. */
  lemma OneFate(p: Setup, s: State, k: nat, status: Status)
    requires Conserved(p, s) && k < |s.outcomes|
    ensures var o := s.outcomes[k];
            Recorded(s.outcomes, o.action, status) || Pending(s.workers, o.action, status) <==> o.status == status
  {
    var o := s.outcomes[k];
    assert Balanced(p, s, o.action);
    RecordedIsReported(s.outcomes, k);
    if Recorded(s.outcomes, o.action, status) {
      var j :| 0 <= j < |s.outcomes| && s.outcomes[j] == Outcome(o.action, status);
      SameOutcome(s.outcomes, j, k);
    }
    if Pending(s.workers, o.action, status) {
      var w :| 0 <= w < |s.workers| && Reports(s.workers[w], o.action, status);
      HolderCounts(s.workers, w, o.action);
    }
    assert o.status == status ==> Recorded(s.outcomes, o.action, status);
  }

  /** In every reachable state an outcome has a status exactly when its action ended in that way: deleted when its
      deletion was accepted, skipped when it was not found, failed otherwise. */
  lemma OutcomesTell(p: Setup, steps: seq<Step>, k: nat, status: Status)
    requires WellFormed(p) && After(p, steps).Some? && k < |After(p, steps).value.outcomes|
    ensures var o := After(p, steps).value.outcomes[k];
            o.status == status <==> o.action in Ended(p, steps, status)
  {
    AlwaysTracked(p, steps, status);
    Invariants(p, steps);
    OneFate(p, After(p, steps).value, k, status);
  }

  ghost function WithStatus(outcomes: seq<Outcome>, status: Status): set<nat> {
    set k | 0 <= k < |outcomes| && outcomes[k].status == status :: outcomes[k].action
  }

  lemma {:induction false} StatusCount(outcomes: seq<Outcome>, status: Status)
    requires forall i: nat :: ReportedCount(outcomes, i) <= 1
    ensures |WithStatus(outcomes, status)| == CountOf(outcomes, status)
  {
    if |outcomes| > 0 {
      var init, last := outcomes[..|outcomes| - 1], outcomes[|outcomes| - 1];
      assert forall i: nat :: ReportedCount(init, i) <= ReportedCount(outcomes, i);
      StatusCount(init, status);
      ReportedMeansPresent(init, last.action);
      assert ReportedCount(outcomes, last.action) <= 1;
      assert last.action !in WithStatus(init, status);
      WithStatusStep(outcomes, status);
    }
  }

  lemma WithStatusStep(outcomes: seq<Outcome>, status: Status)
    requires |outcomes| > 0
    ensures var init, last := outcomes[..|outcomes| - 1], outcomes[|outcomes| - 1];
            WithStatus(outcomes, status)
            == WithStatus(init, status) + (if last.status == status then {last.action} else {})
  {
    var init, last := outcomes[..|outcomes| - 1], outcomes[|outcomes| - 1];
    forall i | i in WithStatus(init, status) ensures i in WithStatus(outcomes, status) {
      var k :| 0 <= k < |init| && init[k].status == status && init[k].action == i;
      assert outcomes[k] == init[k];
    }
    forall i | i in WithStatus(outcomes, status)
      ensures i in WithStatus(init, status) + (if last.status == status then {last.action} else {})
    {
      var k :| 0 <= k < |outcomes| && outcomes[k].status == status && outcomes[k].action == i;
      if k < |init| { assert init[k] == outcomes[k]; }
    }
  }

  lemma WithStatusIsRecorded(outcomes: seq<Outcome>, status: Status)
    ensures forall i: nat :: i in WithStatus(outcomes, status) <==> Recorded(outcomes, i, status)
  {
    forall i: nat | Recorded(outcomes, i, status) ensures i in WithStatus(outcomes, status) {
      var k :| 0 <= k < |outcomes| && outcomes[k] == Outcome(i, status);
      assert outcomes[k].status == status && outcomes[k].action == i;
    }
  }

  lemma EndedOnReturn(p: Setup, steps: seq<Step>, status: Status)
    requires WellFormed(p) && After(p, steps).Some? && After(p, steps).value.returned
    ensures var s := After(p, steps).value;
            && (forall i: nat :: i in Ended(p, steps, status) <==> Recorded(s.outcomes, i, status))
            && |Ended(p, steps, status)| == CountOf(s.outcomes, status)
  {
    AlwaysTracked(p, steps, status);
    Invariants(p, steps);
    CountersAddUp(p, steps);
    NothingPending(p, After(p, steps).value, status, Ended(p, steps, status));
  }

  lemma NothingPending(p: Setup, s: State, status: Status, ended: set<nat>)
    requires Explained(p, s) && s.returned && Tracked(s, status, ended)
    requires forall i: nat :: ReportedCount(s.outcomes, i) <= 1
    ensures (forall i: nat :: i in ended <==> Recorded(s.outcomes, i, status)) && |ended| == CountOf(s.outcomes, status)
  {
    StatusCount(s.outcomes, status);
    WithStatusIsRecorded(s.outcomes, status);
    assert forall i: nat :: !Pending(s.workers, i, status);
    assert ended == WithStatus(s.outcomes, status);
  }

  /** On return the counters tell the answers apart: deleted is the number of deletions accepted, skipped before its
      adjustment the number not found, failed the number rejected or answered otherwise. */
  lemma CountersTell(p: Setup, steps: seq<Step>)
    requires WellFormed(p) && After(p, steps).Some? && After(p, steps).value.returned
    ensures var s := After(p, steps).value;
            && s.deleted == |Ended(p, steps, Deleted)|
            && s.skipped == |Ended(p, steps, Skipped)|
            && s.failed == |Ended(p, steps, Failed)|
  {
    Invariants(p, steps);
    EndedOnReturn(p, steps, Deleted);
    EndedOnReturn(p, steps, Skipped);
    EndedOnReturn(p, steps, Failed);
  }

  // What the registry has lost.

  /** The actions whose artifacts are gone from the registry after a run, reported or not: the deletion was accepted,
      or found nothing to delete. */
  ghost function Gone(p: Setup, steps: seq<Step>): set<nat>
    requires After(p, steps).Some?
  {
    Ended(p, steps, Deleted) + Ended(p, steps, Skipped)
  }

  /** A worker is about to report that the action is gone. */
  ghost predicate AboutToReport(ws: seq<Worker>, i: nat) { Pending(ws, i, Deleted) || Pending(ws, i, Skipped) }

  lemma SettledIff(outcomes: seq<Outcome>, i: nat)
    ensures Settled(outcomes, i) <==> Recorded(outcomes, i, Deleted) || Recorded(outcomes, i, Skipped)
  {
    if Settled(outcomes, i) {
      var k :| 0 <= k < |outcomes| && outcomes[k].action == i && !outcomes[k].status.Failed?;
      assert outcomes[k] == Outcome(i, Deleted) || outcomes[k] == Outcome(i, Skipped);
    }
  }

  lemma PendingIsDispatched(p: Setup, s: State, i: nat, status: Status)
    requires Conserved(p, s) && Pending(s.workers, i, status)
    ensures i < s.sent
  {
    var w :| 0 <= w < |s.workers| && Reports(s.workers[w], i, status);
    assert Balanced(p, s, i);
    HolderCounts(s.workers, w, i);
  }

  /** In every reachable state what the registry has lost is what the outcomes report as deleted or not found
      together with what workers are about to report so, and all of it was dispatched. */
  lemma GoneIsReportedOrInFlight(p: Setup, steps: seq<Step>, i: nat)
    requires WellFormed(p) && After(p, steps).Some?
    ensures var s := After(p, steps).value;
            && (i in Gone(p, steps) <==> Settled(s.outcomes, i) || AboutToReport(s.workers, i))
            && (i in Gone(p, steps) ==> i < s.sent <= p.actions)
  {
    var s := After(p, steps).value;
    AlwaysTracked(p, steps, Deleted);
    AlwaysTracked(p, steps, Skipped);
    SettledIff(s.outcomes, i);
    Invariants(p, steps);
    assert Balanced(p, s, i);
    ReportedMeansPresent(s.outcomes, i);
    if Pending(s.workers, i, Deleted) { PendingIsDispatched(p, s, i, Deleted); }
    if Pending(s.workers, i, Skipped) { PendingIsDispatched(p, s, i, Skipped); }
  }

  lemma GoneIsKnown(p: Setup, steps: seq<Step>)
    requires WellFormed(p) && After(p, steps).Some?
    ensures var s := After(p, steps).value;
            forall i: nat :: (i in Gone(p, steps) <==> Settled(s.outcomes, i) || AboutToReport(s.workers, i))
                             && (i in Gone(p, steps) ==> i < p.actions)
  {
    var s := After(p, steps).value;
    forall i: nat ensures (i in Gone(p, steps) <==> Settled(s.outcomes, i) || AboutToReport(s.workers, i))
                          && (i in Gone(p, steps) ==> i < p.actions)
    {
      GoneIsReportedOrInFlight(p, steps, i);
    }
  }

  /** No action ends in two ways. */
  lemma RecordedOnce(p: Setup, steps: seq<Step>, i: nat)
    requires WellFormed(p) && After(p, steps).Some? && After(p, steps).value.returned
    ensures !(i in Ended(p, steps, Deleted) && i in Ended(p, steps, Skipped))
  {
    var s := After(p, steps).value;
    EndedOnReturn(p, steps, Deleted);
    if i in Ended(p, steps, Deleted) {
      var k :| 0 <= k < |s.outcomes| && s.outcomes[k] == Outcome(i, Deleted);
      OutcomesTell(p, steps, k, Skipped);
    }
  }

  /** On return nothing is in flight: the registry has lost exactly what the outcomes say, as many artifacts as
      the counters say; what is left of the plan is the failed actions and those never dispatched. */
  lemma GoneOnReturn(p: Setup, steps: seq<Step>)
    requires WellFormed(p) && After(p, steps).Some? && After(p, steps).value.returned
    ensures var s := After(p, steps).value;
            && (forall i: nat :: i in Gone(p, steps) <==> Settled(s.outcomes, i))
            && |Gone(p, steps)| == s.deleted + s.skipped
            && p.actions - |Gone(p, steps)| == s.failed + (p.actions - s.sent)
  {
    var s := After(p, steps).value;
    EndedOnReturn(p, steps, Deleted);
    EndedOnReturn(p, steps, Skipped);
    CountersTell(p, steps);
    CountersAddUp(p, steps);
    forall i: nat ensures i in Gone(p, steps) <==> Settled(s.outcomes, i) { SettledIff(s.outcomes, i); }
    forall i: nat ensures !(i in Ended(p, steps, Deleted) && i in Ended(p, steps, Skipped)) {
      RecordedOnce(p, steps, i);
    }
    assert Ended(p, steps, Deleted) !! Ended(p, steps, Skipped);
  }
}
