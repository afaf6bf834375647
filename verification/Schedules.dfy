/** When the outcome of `Apply` does not depend on the schedule: every interleaving of feeder, workers and collector,
    with fixed responses and a caller that does not cancel. */
module Schedules {
  import opened Artifacts
  import opened Orders
  import opened Apply
  import Ledger

  /** Deleting the action cancels the run: it has no provider, or a precondition fails. */
  predicate Fatal(p: Setup, responses: nat -> Response, i: nat) {
    !Configured(p, i) || responses(i).Precondition?
  }

  /** No action but the last cancels the run. */
  ghost predicate Calm(p: Setup, responses: nat -> Response) {
    forall i: nat :: i + 1 < p.actions ==> !Fatal(p, responses, i)
  }

  /** The caller does not cancel, and every action gets its own fixed response. */
  ghost predicate Follows(p: Setup, steps: seq<Step>, responses: nat -> Response) {
    |steps| == 0 ||
    (var init, last := steps[..|steps| - 1], steps[|steps| - 1];
     && Follows(p, init, responses)
     && !last.CallerCancel?
     && (last.Answer? && After(p, init).Some? && Enabled(p, After(p, init).value, last) ==>
           last.response == responses(After(p, init).value.workers[last.worker].action)))
  }

  /** A run up to the return of `Apply`. */
  ghost predicate Complete(p: Setup, steps: seq<Step>, responses: nat -> Response) {
    After(p, steps).Some? && After(p, steps).value.returned && Follows(p, steps, responses)
  }

  function StatusFor(p: Setup, responses: nat -> Response, i: nat): Status {
    if !Configured(p, i) then Failed
    else
      match responses(i)
      case Accepted => Deleted
      case NotFound => Skipped
      case Precondition => Failed
      case Failure => Failed
  }

  /** The outcomes of deleting one action after the other, whatever happens. */
  function Sequential(p: Setup, responses: nat -> Response): seq<Outcome> {
    seq(p.actions, i requires 0 <= i < p.actions => Outcome(i, StatusFor(p, responses, i)))
  }

  // When only the last action can cancel.

  /** Statuses are those of the responses, and nothing cancels before everything is dispatched. */
  ghost predicate Determined(p: Setup, s: State, responses: nat -> Response) {
    && !s.callerCancelled
    && (s.cancelled ==> s.sent == p.actions)
    && (forall w :: 0 <= w < |s.workers| && s.workers[w].Cancelling? ==> s.sent == p.actions)
    && (forall w :: 0 <= w < |s.workers| && s.workers[w].Sending? ==>
          && s.workers[w].status == StatusFor(p, responses, s.workers[w].action)
          && (s.workers[w].fatal ==> s.sent == p.actions))
    && (forall k :: 0 <= k < |s.outcomes| ==>
          s.outcomes[k].status == StatusFor(p, responses, s.outcomes[k].action))
  }

  lemma FatalIsLast(p: Setup, s: State, w: nat, responses: nat -> Response)
    requires Conserved(p, s) && Calm(p, responses) && w < |s.workers|
    requires (s.workers[w].Holding? || s.workers[w].Calling?) && Fatal(p, responses, s.workers[w].action)
    ensures s.sent == p.actions
  {
    OccupiedIsDispatched(p, s, w);
  }

  lemma DeterminedStep(p: Setup, s: State, step: Step, responses: nat -> Response)
    requires Conserved(p, s) && Truthful(p, s) && Calm(p, responses) && Determined(p, s, responses)
    requires Enabled(p, s, step) && !step.CallerCancel?
    requires step.Answer? ==> step.response == responses(s.workers[step.worker].action)
    ensures Determined(p, Next(p, s, step), responses)
  {
    if (step.Answer? && step.response.Precondition?) || step.Reject? {
      FatalIsLast(p, s, step.worker, responses);
    }
  }

  lemma {:induction false} AlwaysDetermined(p: Setup, steps: seq<Step>, responses: nat -> Response)
    requires WellFormed(p) && Calm(p, responses) && After(p, steps).Some? && Follows(p, steps, responses)
    ensures Determined(p, After(p, steps).value, responses)
  {
    if |steps| > 0 {
      var init := steps[..|steps| - 1];
      AlwaysDetermined(p, init, responses);
      Invariants(p, init);
      AlwaysTruthful(p, init);
      DeterminedStep(p, After(p, init).value, steps[|steps| - 1], responses);
    }
  }

  /** Every complete run has exactly the outcomes of the sequential one, in some order. */
  lemma OutcomesAreSequential(p: Setup, steps: seq<Step>, responses: nat -> Response)
    requires WellFormed(p) && Calm(p, responses) && Complete(p, steps, responses)
    ensures var s := After(p, steps).value;
            && Distinct(s.outcomes)
            && |s.outcomes| == p.actions
            && forall o :: o in s.outcomes <==> o in Sequential(p, responses)
  {
    var s := After(p, steps).value;
    Invariants(p, steps);
    AlwaysDetermined(p, steps, responses);
    CountersAddUp(p, steps);
    assert s.workers[0].Done? && s.feeder.Closed?;
    NothingHeld(s.workers, 0);
    forall a, b | 0 <= a < b < |s.outcomes| ensures s.outcomes[a] != s.outcomes[b] {
      if s.outcomes[a].action == s.outcomes[b].action { Ledger.ReportedTwice(s.outcomes, a, b); }
    }
    forall o | o in s.outcomes ensures o in Sequential(p, responses) {
      ReportedMeansPresent(s.outcomes, o.action);
      assert Sequential(p, responses)[o.action] == o;
    }
    forall o | o in Sequential(p, responses) ensures o in s.outcomes {
      ReportedMeansPresent(s.outcomes, o.action);
      var k :| 0 <= k < |s.outcomes| && s.outcomes[k].action == o.action;
      assert s.outcomes[k] == o;
    }
  }

  ghost function WithStatus(outcomes: seq<Outcome>, status: Status): set<Outcome> {
    set o | o in outcomes && o.status == status
  }

  lemma {:induction false} CountIsCardinality(outcomes: seq<Outcome>, status: Status)
    requires Distinct(outcomes)
    ensures CountOf(outcomes, status) == |WithStatus(outcomes, status)|
  {
    if |outcomes| > 0 {
      var init, last := outcomes[..|outcomes| - 1], outcomes[|outcomes| - 1];
      CountIsCardinality(init, status);
      assert last !in init;
      LastWithStatus(outcomes, status);
    }
  }

  lemma LastWithStatus(outcomes: seq<Outcome>, status: Status)
    requires |outcomes| > 0
    ensures var init, last := outcomes[..|outcomes| - 1], outcomes[|outcomes| - 1];
            WithStatus(outcomes, status) == WithStatus(init, status) + (if last.status == status then {last} else {})
  {
    var init, last := outcomes[..|outcomes| - 1], outcomes[|outcomes| - 1];
    assert outcomes == init + [last];
  }

  /** Outcomes in the order of their artifact keys. */
  ghost function ByKey(keys: seq<string>): (Outcome, Outcome) -> bool {
    (a: Outcome, b: Outcome) => a.action < |keys| && b.action < |keys| && Less(keys[a.action], keys[b.action])
  }

  /** `sort.Slice` of the outcomes by artifact key. */
  ghost predicate SortedByKey(sorted: seq<Outcome>, outcomes: seq<Outcome>, keys: seq<string>) {
    Permutation(sorted, outcomes) && forall i, j :: 0 <= i < j < |sorted| ==> !ByKey(keys)(sorted[j], sorted[i])
  }

  lemma SortedIsOrdered(p: Setup, sorted: seq<Outcome>, outcomes: seq<Outcome>, keys: seq<string>,
                        responses: nat -> Response)
    requires SortedByKey(sorted, outcomes, keys) && Distinct(outcomes) && Distinct(keys) && |keys| == p.actions
    requires forall o :: o in outcomes <==> o in Sequential(p, responses)
    ensures Ordered(ByKey(keys), sorted) && forall o :: o in sorted <==> o in outcomes
  {
    DistinctFromMultiset(sorted, outcomes);
    forall i, j | 0 <= i < j < |sorted| ensures ByKey(keys)(sorted[i], sorted[j]) {
      assert sorted[i] in outcomes && sorted[j] in outcomes && sorted[i] != sorted[j];
      var a, b := sorted[i].action, sorted[j].action;
      assert a != b && a < |keys| && b < |keys|;
      assert keys[a] != keys[b] by { if a < b {} else {} }
      LessTotal(keys[a], keys[b]);
    }
  }

  /** Schedule independence: with distinct artifact keys, and when no action but the last cancels, every complete
      run, with any number of workers, gives the same sorted outcomes, the same counters, and hence the same error,
      as deleting one action after the other. */
  lemma ScheduleIndependence(p: Setup, steps: seq<Step>, responses: nat -> Response, keys: seq<string>,
                             sorted: seq<Outcome>, reference: seq<Outcome>)
    requires WellFormed(p) && Calm(p, responses) && Complete(p, steps, responses)
    requires Distinct(keys) && |keys| == p.actions
    requires SortedByKey(sorted, After(p, steps).value.outcomes, keys)
    requires SortedByKey(reference, Sequential(p, responses), keys)
    ensures var s, all := After(p, steps).value, Sequential(p, responses);
            && sorted == reference
            && s.deleted == CountOf(all, Deleted) && FinalSkipped(p, s) == CountOf(all, Skipped)
            && s.failed == CountOf(all, Failed)
  {
    var s, all := After(p, steps).value, Sequential(p, responses);
    OutcomesAreSequential(p, steps, responses);
    SortedIsOrdered(p, sorted, s.outcomes, keys, responses);
    SortedIsOrdered(p, reference, all, keys, responses);
    LessLaws();
    OrderedIsUnique(ByKey(keys), sorted, reference);
    Invariants(p, steps);
    CountersAddUp(p, steps);
    assert Distinct(all);
    forall status ensures CountOf(s.outcomes, status) == CountOf(all, status) {
      CountIsCardinality(s.outcomes, status);
      CountIsCardinality(all, status);
      assert WithStatus(s.outcomes, status) == WithStatus(all, status);
    }
    StatusesAddUp(all);
  }

  // When an earlier one cancels.

  lemma ExtendFollowing(p: Setup, steps: seq<Step>, s: State, step: Step, responses: nat -> Response)
    returns (more: seq<Step>, t: State)
    requires After(p, steps) == Some(s) && Enabled(p, s, step) && Follows(p, steps, responses)
    requires !step.CallerCancel? && (step.Answer? ==> step.response == responses(s.workers[step.worker].action))
    ensures t == Next(p, s, step) && After(p, more) == Some(t) && Follows(p, more, responses)
  {
    more, t := Extend(p, steps, s, step);
    assert more[..|more| - 1] == steps;
  }

  lemma {:induction false} ExitsFollow(p: Setup, steps: seq<Step>, more: seq<Step>, responses: nat -> Response)
    requires Follows(p, steps, responses) && steps <= more && forall k :: |steps| <= k < |more| ==> more[k].Exit?
    ensures Follows(p, more, responses)
  {
    if |steps| < |more| {
      ExitsFollow(p, steps, more[..|more| - 1], responses);
    } else {
      assert steps == more;
    }
  }

  /** One worker is at work, or none; the others are idle, and the feeder has not left. */
  ghost predicate Alone(p: Setup, s: State, first: Worker) {
    && |s.workers| == p.Workers() && s.workers[0] == first
    && (forall w :: 0 < w < |s.workers| ==> s.workers[w].Idle?)
    && s.feeder.Feeding? && !s.outcomesClosed && !s.returned && !s.callerCancelled && s.sent <= p.actions
  }

  /** Between two actions: every worker is idle and everything dispatched is reported. */
  ghost predicate Paused(p: Setup, s: State) {
    Alone(p, s, Idle) && |s.outcomes| == s.sent
  }

  /** The worker takes the next action and learns how it ends. */
  lemma TryNext(p: Setup, steps: seq<Step>, s: State, responses: nat -> Response) returns (more: seq<Step>, t: State)
    requires WellFormed(p) && After(p, steps) == Some(s) && Follows(p, steps, responses)
    requires Paused(p, s) && s.sent < p.actions
    ensures After(p, more) == Some(t) && Follows(p, more, responses)
    ensures Alone(p, t, Sending(s.sent, StatusFor(p, responses, s.sent), Fatal(p, responses, s.sent)))
    ensures t.sent == s.sent + 1 && t.outcomes == s.outcomes && t.cancelled == s.cancelled
  {
    more, t := ExtendFollowing(p, steps, s, Dispatch(0), responses);
    more, t := EndNext(p, more, t, s.sent, responses);
  }

  lemma EndNext(p: Setup, steps: seq<Step>, s: State, i: nat, responses: nat -> Response)
    returns (more: seq<Step>, t: State)
    requires WellFormed(p) && After(p, steps) == Some(s) && Follows(p, steps, responses)
    requires Alone(p, s, Holding(i)) && i < p.actions
    ensures After(p, more) == Some(t) && Follows(p, more, responses)
    ensures Alone(p, t, Sending(i, StatusFor(p, responses, i), Fatal(p, responses, i)))
    ensures t.sent == s.sent && t.outcomes == s.outcomes && t.cancelled == s.cancelled
  {
    if Configured(p, i) {
      more, t := ExtendFollowing(p, steps, s, Call(0), responses);
      more, t := ExtendFollowing(p, more, t, Answer(0, responses(i)), responses);
    } else {
      assert i < |p.configured|;
      more, t := ExtendFollowing(p, steps, s, Reject(0), responses);
    }
  }

  /** One worker deletes the next action on its own. */
  lemma DeleteNext(p: Setup, steps: seq<Step>, s: State, responses: nat -> Response) returns (more: seq<Step>, t: State)
    requires WellFormed(p) && After(p, steps) == Some(s) && Follows(p, steps, responses)
    requires Paused(p, s) && s.sent < p.actions
    ensures After(p, more) == Some(t) && Follows(p, more, responses)
    ensures Paused(p, t) && t.sent == s.sent + 1 && t.cancelled == (s.cancelled || Fatal(p, responses, s.sent))
  {
    more, t := TryNext(p, steps, s, responses);
    more, t := ExtendFollowing(p, more, t, Deliver(0), responses);
    if Fatal(p, responses, s.sent) {
      more, t := ExtendFollowing(p, more, t, Cancel(0), responses);
    }
  }

  lemma {:induction false} DeleteFirst(p: Setup, n: nat, responses: nat -> Response)
    returns (steps: seq<Step>, s: State)
    requires WellFormed(p) && n <= p.actions
    ensures After(p, steps) == Some(s) && Follows(p, steps, responses) && Paused(p, s) && s.sent == n
    ensures n > 0 && Fatal(p, responses, n - 1) ==> s.cancelled
  {
    if n == 0 {
      steps, s := [], Start(p);
    } else {
      steps, s := DeleteFirst(p, n - 1, responses);
      steps, s := DeleteNext(p, steps, s, responses);
    }
  }

  /** From a pause in which the feeder may leave, the run can return with what has been reported. */
  lemma ReturnFrom(p: Setup, steps: seq<Step>, s: State, responses: nat -> Response) returns (more: seq<Step>)
    requires After(p, steps) == Some(s) && Follows(p, steps, responses) && Paused(p, s)
    requires s.sent == p.actions || s.cancelled
    ensures Complete(p, more, responses) && After(p, more).value.outcomes == s.outcomes
  {
    var t: State;
    more, t := ExtendFollowing(p, steps, s, Leave, responses);
    more, t := ExtendFollowing(p, more, t, CloseJobs, responses);
    var before := more;
    more, t := WorkersExit(p, before, t, 0);
    ExitsFollow(p, before, more, responses);
    more, t := ExtendFollowing(p, more, t, CloseOutcomes, responses);
    more, t := ExtendFollowing(p, more, t, Return, responses);
  }

  /** When an action but the last cancels, one run stops at it and another deletes everything. */
  lemma TwoRuns(p: Setup, responses: nat -> Response, i: nat) returns (short: seq<Step>, long: seq<Step>)
    requires WellFormed(p) && i < p.actions && Fatal(p, responses, i)
    ensures Complete(p, short, responses) && |After(p, short).value.outcomes| == i + 1
    ensures Complete(p, long, responses) && |After(p, long).value.outcomes| == p.actions
  {
    short := RunThrough(p, responses, i + 1);
    long := RunThrough(p, responses, p.actions);
  }

  /** A run can return after the first actions if the last of them cancels it or none are left. */
  lemma RunThrough(p: Setup, responses: nat -> Response, n: nat) returns (steps: seq<Step>)
    requires WellFormed(p) && n <= p.actions && (n == p.actions || (n > 0 && Fatal(p, responses, n - 1)))
    ensures Complete(p, steps, responses) && |After(p, steps).value.outcomes| == n
  {
    var first, s := DeleteFirst(p, n, responses);
    steps := ReturnFrom(p, first, s, responses);
  }

  /** All complete runs report the same outcomes. */
  ghost predicate Independent(p: Setup, responses: nat -> Response) {
    forall a, b :: Complete(p, a, responses) && Complete(p, b, responses) ==>
      Permutation(After(p, a).value.outcomes, After(p, b).value.outcomes)
  }

  /** The outcomes do not depend on the schedule exactly when no action but the last cancels the run. */
  lemma IndependentIff(p: Setup, responses: nat -> Response)
    requires WellFormed(p)
    ensures Independent(p, responses) <==> Calm(p, responses)
  {
    if Calm(p, responses) {
      forall a, b | Complete(p, a, responses) && Complete(p, b, responses)
        ensures Permutation(After(p, a).value.outcomes, After(p, b).value.outcomes)
      {
        OutcomesAreSequential(p, a, responses);
        OutcomesAreSequential(p, b, responses);
        SameElements(After(p, a).value.outcomes, After(p, b).value.outcomes);
      }
    } else {
      var i: nat :| i + 1 < p.actions && Fatal(p, responses, i);
      var short, long := TwoRuns(p, responses, i);
      DifferentLengths(After(p, short).value.outcomes, After(p, long).value.outcomes);
    }
  }

  lemma DifferentLengths<T>(a: seq<T>, b: seq<T>)
    requires |a| != |b|
    ensures !Permutation(a, b)
  {
    assert |multiset(a)| == |a| && |multiset(b)| == |b|;
  }

  lemma SameElements<T>(a: seq<T>, b: seq<T>)
    requires Distinct(a) && Distinct(b) && forall x :: x in a <==> x in b
    ensures Permutation(a, b)
  {
    forall x ensures multiset(a)[x] == multiset(b)[x] {
      OccursOnce(a, x);
      OccursOnce(b, x);
      assert x in a <==> x in multiset(a);
      assert x in b <==> x in multiset(b);
    }
  }
}
