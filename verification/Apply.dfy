/** The concurrent deletion protocol: a feeder, workers, two unbuffered channels, a closer, a collector and a
    cancellation flag, as a labelled transition system over every interleaving. */
module Apply {
  import opened Artifacts

  /** What `client.Delete` answers. */
  datatype Response = Accepted | NotFound | Precondition | Failure

  datatype Status = Deleted | Skipped | Failed

  /** Actions are named by their index in the plan. */
  datatype Outcome = Outcome(action: nat, status: Status)

  /** The run: how many actions, the concurrency setting, and which actions have a configured provider. */
  datatype Setup = Setup(actions: nat, concurrency: int, configured: seq<bool>) {
    /** A non-positive concurrency setting means four workers. */
    function Workers(): (n: nat)
      ensures n > 0
      ensures concurrency > 0 ==> n == concurrency
      ensures concurrency <= 0 ==> n == 4
    {
      if concurrency <= 0 then 4 else concurrency
    }
  }

  ghost predicate WellFormed(p: Setup) { |p.configured| == p.actions }

  datatype Worker =
    | Idle                                               // receiving from jobs
    | Holding(action: nat)                               // received, provider not looked up yet
    | Calling(action: nat)                               // inside client.Delete
    | Sending(action: nat, status: Status, fatal: bool)  // sending on outcomes
    | Cancelling                                         // outcome delivered, about to call cancel
    | Done

  datatype Feeder = Feeding | Leaving | Closed

  datatype State = State(
    sent: nat,
    feeder: Feeder,
    workers: seq<Worker>,
    calls: seq<nat>,
    outcomes: seq<Outcome>,
    deleted: nat,
    skipped: nat,
    failed: nat,
    cancelled: bool,
    callerCancelled: bool,
    outcomesClosed: bool,
    returned: bool)

  datatype Step =
    | Dispatch(worker: nat)                // jobs <- action meets an idle worker
    | Leave                                // the feeder's loop ends, or its select takes ctx.Done
    | CloseJobs
    | Reject(worker: nat)                  // no provider for the action
    | Call(worker: nat)                    // client.Delete is entered
    | Answer(worker: nat, response: Response)
    | Deliver(worker: nat)                 // outcomes <- outcome meets the collector
    | Cancel(worker: nat)
    | Exit(worker: nat)                    // jobs is closed
    | CloseOutcomes                        // all workers are done
    | Return                               // the collector's loop ends
    | CallerCancel                         // the caller's context is cancelled

  function StatusOf(r: Response): Status {
    match r
    case Accepted => Deleted
    case NotFound => Skipped
    case Precondition => Failed
    case Failure => Failed
  }

  ghost function Start(p: Setup): State {
    State(0, Feeding, seq(p.Workers(), _ => Idle), [], [], 0, 0, 0, false, false, false, false)
  }

  ghost predicate Enabled(p: Setup, s: State, step: Step) {
    match step
    case Dispatch(w) => w < |s.workers| && s.workers[w].Idle? && s.feeder.Feeding? && s.sent < p.actions
    case Leave => s.feeder.Feeding? && (s.sent == p.actions || s.cancelled)
    case CloseJobs => s.feeder.Leaving?
    case Reject(w) =>
      w < |s.workers| && s.workers[w].Holding? && s.workers[w].action < |p.configured|
      && !p.configured[s.workers[w].action]
    case Call(w) =>
      w < |s.workers| && s.workers[w].Holding? && s.workers[w].action < |p.configured|
      && p.configured[s.workers[w].action]
    case Answer(w, _) => w < |s.workers| && s.workers[w].Calling?
    case Deliver(w) => w < |s.workers| && s.workers[w].Sending? && !s.outcomesClosed && !s.returned
    case Cancel(w) => w < |s.workers| && s.workers[w].Cancelling?
    case Exit(w) => w < |s.workers| && s.workers[w].Idle? && s.feeder.Closed?
    case CloseOutcomes => !s.outcomesClosed && forall w :: 0 <= w < |s.workers| ==> s.workers[w].Done?
    case Return => s.outcomesClosed && !s.returned
    case CallerCancel => !s.callerCancelled
  }

  ghost function Next(p: Setup, s: State, step: Step): State
    requires Enabled(p, s, step)
  {
    match step
    case Dispatch(w) => s.(sent := s.sent + 1, workers := s.workers[w := Holding(s.sent)])
    case Leave => s.(feeder := Leaving)
    case CloseJobs => s.(feeder := Closed)
    case Reject(w) => s.(workers := s.workers[w := Sending(s.workers[w].action, Failed, true)])
    case Call(w) =>
      s.(workers := s.workers[w := Calling(s.workers[w].action)], calls := s.calls + [s.workers[w].action])
    case Answer(w, r) => s.(workers := s.workers[w := Sending(s.workers[w].action, StatusOf(r), r.Precondition?)])
    case Deliver(w) =>
      var status := s.workers[w].status;
      s.(outcomes := s.outcomes + [Outcome(s.workers[w].action, status)],
         workers := s.workers[w := if s.workers[w].fatal then Cancelling else Idle],
         deleted := s.deleted + (if status.Deleted? then 1 else 0),
         skipped := s.skipped + (if status.Skipped? then 1 else 0),
         failed := s.failed + (if status.Failed? then 1 else 0))
    case Cancel(w) => s.(workers := s.workers[w := Idle], cancelled := true)
    case Exit(w) => s.(workers := s.workers[w := Done])
    case CloseOutcomes => s.(outcomesClosed := true)
    case Return => s.(returned := true)
    case CallerCancel => s.(callerCancelled := true, cancelled := true)
  }

  /** The state after a run, if every step of it was enabled. */
  ghost function After(p: Setup, steps: seq<Step>): Option<State> {
    if |steps| == 0 then Some(Start(p))
    else
      match After(p, steps[..|steps| - 1])
      case None => None
      case Some(s) =>
        var last := steps[|steps| - 1];
        if Enabled(p, s, last) then Some(Next(p, s, last)) else None
  }

  // Where each action is.

  function Holds(w: Worker, i: nat): nat {
    match w
    case Holding(j) => if i == j then 1 else 0
    case Calling(j) => if i == j then 1 else 0
    case Sending(j, _, _) => if i == j then 1 else 0
    case _ => 0
  }

  /** How many workers hold action `i`. */
  function HeldCount(ws: seq<Worker>, i: nat): nat {
    if |ws| == 0 then 0 else Holds(ws[0], i) + HeldCount(ws[1..], i)
  }

  predicate Configured(p: Setup, i: nat) { i < |p.configured| && p.configured[i] }

  /** A worker has passed action `i` to `Delete` and not reported it yet. */
  function HasCalled(p: Setup, w: Worker, i: nat): nat {
    if Configured(p, i) && !w.Holding? then Holds(w, i) else 0
  }

  function CalledCount(p: Setup, ws: seq<Worker>, i: nat): nat {
    if |ws| == 0 then 0 else HasCalled(p, ws[0], i) + CalledCount(p, ws[1..], i)
  }

  /** How many outcomes report action `i`. */
  function ReportedCount(outcomes: seq<Outcome>, i: nat): nat {
    if |outcomes| == 0 then 0
    else ReportedCount(outcomes[..|outcomes| - 1], i) + (if outcomes[|outcomes| - 1].action == i then 1 else 0)
  }

  /** How often action `i` was passed to `Delete`. */
  function CallCount(calls: seq<nat>, i: nat): nat {
    if |calls| == 0 then 0 else CallCount(calls[..|calls| - 1], i) + (if calls[|calls| - 1] == i then 1 else 0)
  }

  /** How many outcomes have a status. */
  function CountOf(outcomes: seq<Outcome>, status: Status): nat {
    if |outcomes| == 0 then 0
    else CountOf(outcomes[..|outcomes| - 1], status) + (if outcomes[|outcomes| - 1].status == status then 1 else 0)
  }

  function Occupied(w: Worker): nat { if w.Holding? || w.Calling? || w.Sending? then 1 else 0 }

  function AllOccupied(ws: seq<Worker>): nat {
    if |ws| == 0 then 0 else Occupied(ws[0]) + AllOccupied(ws[1..])
  }

  /** Stages a worker still has to go through. */
  function StagesLeft(w: Worker): nat {
    match w
    case Done => 0
    case Idle => 1
    case Cancelling => 2
    case Sending(_, _, _) => 3
    case Calling(_) => 4
    case Holding(_) => 5
  }

  function AllStagesLeft(ws: seq<Worker>): nat {
    if |ws| == 0 then 0 else StagesLeft(ws[0]) + AllStagesLeft(ws[1..])
  }

  lemma {:induction false} ReplaceWorker(p: Setup, ws: seq<Worker>, w: nat, x: Worker, i: nat)
    requires w < |ws|
    ensures HeldCount(ws[w := x], i) == HeldCount(ws, i) - Holds(ws[w], i) + Holds(x, i)
    ensures CalledCount(p, ws[w := x], i) == CalledCount(p, ws, i) - HasCalled(p, ws[w], i) + HasCalled(p, x, i)
    ensures AllStagesLeft(ws[w := x]) == AllStagesLeft(ws) - StagesLeft(ws[w]) + StagesLeft(x)
    ensures AllOccupied(ws[w := x]) == AllOccupied(ws) - Occupied(ws[w]) + Occupied(x)
  {
    var us := ws[w := x];
    if w > 0 {
      assert us[1..] == ws[1..][w - 1 := x];
      ReplaceWorker(p, ws[1..], w - 1, x, i);
    } else {
      assert us[1..] == ws[1..];
    }
  }

  lemma {:induction false} AllIdle(p: Setup, n: nat, i: nat)
    ensures var ws := seq(n, _ => Idle);
            HeldCount(ws, i) == 0 && CalledCount(p, ws, i) == 0 && AllStagesLeft(ws) == n && AllOccupied(ws) == 0
  {
    if n > 0 {
      AllIdle(p, n - 1, i);
      assert seq(n, _ => Idle)[1..] == seq(n - 1, _ => Idle);
    }
  }

  lemma {:induction false} NothingHeld(ws: seq<Worker>, i: nat)
    requires forall w :: 0 <= w < |ws| ==> ws[w].Done?
    ensures HeldCount(ws, i) == 0 && AllOccupied(ws) == 0
  {
    if |ws| > 0 {
      NothingHeld(ws[1..], i);
    }
  }

  lemma {:induction false} CalledWithinHeld(p: Setup, ws: seq<Worker>, i: nat)
    ensures CalledCount(p, ws, i) <= HeldCount(ws, i)
  {
    if |ws| > 0 {
      CalledWithinHeld(p, ws[1..], i);
    }
  }

  // Invariants of every reachable state.

  /** A dispatched action is with exactly one worker or in exactly one outcome, an action not dispatched is
      nowhere, and the calls made for an action are those in flight and those reported. */
  ghost predicate Balanced(p: Setup, s: State, i: nat) {
    && HeldCount(s.workers, i) + ReportedCount(s.outcomes, i) == (if i < s.sent then 1 else 0)
    && CallCount(s.calls, i)
       == CalledCount(p, s.workers, i) + (if Configured(p, i) then ReportedCount(s.outcomes, i) else 0)
  }

  /** The sums over workers and outcomes. */
  ghost predicate Summed(s: State) {
    && AllOccupied(s.workers) + |s.outcomes| == s.sent
    && s.deleted == CountOf(s.outcomes, Deleted)
    && s.skipped == CountOf(s.outcomes, Skipped)
    && s.failed == CountOf(s.outcomes, Failed)
  }

  ghost predicate Conserved(p: Setup, s: State) {
    && |s.workers| == p.Workers()
    && s.sent <= p.actions
    && (forall i: nat :: Balanced(p, s, i))
    && Summed(s)
  }

  /** Why workers are cancelling, done, or about to cancel. */
  ghost predicate WorkersExplained(s: State) {
    && (forall w :: 0 <= w < |s.workers| && s.workers[w].Cancelling? ==> s.failed > 0)
    && (forall w :: 0 <= w < |s.workers| && s.workers[w].Sending? && s.workers[w].fatal ==> s.workers[w].status.Failed?)
    && (forall w :: 0 <= w < |s.workers| && s.workers[w].Done? ==> s.feeder.Closed?)
  }

  /** Why things are closed, cancelled or done. */
  ghost predicate Explained(p: Setup, s: State) {
    && (!s.feeder.Feeding? ==> s.sent == p.actions || s.cancelled)
    && (s.cancelled ==> s.callerCancelled || s.failed > 0)
    && WorkersExplained(s)
    && (s.outcomesClosed ==> forall w :: 0 <= w < |s.workers| ==> s.workers[w].Done?)
    && (s.returned ==> s.outcomesClosed)
  }

  predicate MovesWorker(step: Step) {
    step.Dispatch? || step.Reject? || step.Call? || step.Answer? || step.Deliver? || step.Cancel? || step.Exit?
  }

  lemma ReportedStep(outcomes: seq<Outcome>, o: Outcome, i: nat)
    ensures ReportedCount(outcomes + [o], i) == ReportedCount(outcomes, i) + (if o.action == i then 1 else 0)
  {
    assert (outcomes + [o])[..|outcomes + [o]| - 1] == outcomes;
  }

  lemma CallStep(calls: seq<nat>, j: nat, i: nat)
    ensures CallCount(calls + [j], i) == CallCount(calls, i) + (if i == j then 1 else 0)
  {
    assert (calls + [j])[..|calls + [j]| - 1] == calls;
  }

  lemma DeliverBalances(p: Setup, s: State, w: nat, i: nat)
    requires Balanced(p, s, i) && Enabled(p, s, Deliver(w))
    ensures Balanced(p, Next(p, s, Deliver(w)), i)
  {
    var t := Next(p, s, Deliver(w));
    var x := if s.workers[w].fatal then Cancelling else Idle;
    assert t.workers == s.workers[w := x] && t.calls == s.calls && t.sent == s.sent;
    ReplaceWorker(p, s.workers, w, x, i);
    assert Holds(x, i) == 0 && HasCalled(p, x, i) == 0;
    ReportedStep(s.outcomes, Outcome(s.workers[w].action, s.workers[w].status), i);
  }

  lemma CallBalances(p: Setup, s: State, w: nat, i: nat)
    requires Balanced(p, s, i) && Enabled(p, s, Call(w))
    ensures Balanced(p, Next(p, s, Call(w)), i)
  {
    var t := Next(p, s, Call(w));
    var j := s.workers[w].action;
    assert t.workers == s.workers[w := Calling(j)] && t.outcomes == s.outcomes && t.sent == s.sent;
    ReplaceWorker(p, s.workers, w, Calling(j), i);
    CallStep(s.calls, j, i);
    assert HasCalled(p, s.workers[w], i) == 0 && Holds(s.workers[w], i) == Holds(Calling(j), i);
  }

  /** The other steps of a worker keep the action it holds. */
  lemma QuietMoveBalances(p: Setup, s: State, w: nat, x: Worker, i: nat)
    requires Balanced(p, s, i) && w < |s.workers|
    requires Holds(x, i) == Holds(s.workers[w], i) && HasCalled(p, x, i) == HasCalled(p, s.workers[w], i)
    ensures Balanced(p, s.(workers := s.workers[w := x]), i)
  {
    ReplaceWorker(p, s.workers, w, x, i);
  }

  lemma DispatchBalances(p: Setup, s: State, w: nat, i: nat)
    requires Balanced(p, s, i) && Enabled(p, s, Dispatch(w))
    ensures Balanced(p, Next(p, s, Dispatch(w)), i)
  {
    ReplaceWorker(p, s.workers, w, Holding(s.sent), i);
  }

  lemma BalancedStep(p: Setup, s: State, step: Step, i: nat)
    requires Balanced(p, s, i) && Enabled(p, s, step)
    ensures Balanced(p, Next(p, s, step), i)
  {
    match step
    case Dispatch(w) => DispatchBalances(p, s, w, i);
    case Call(w) => CallBalances(p, s, w, i);
    case Deliver(w) => DeliverBalances(p, s, w, i);
    case Reject(w) => QuietMoveBalances(p, s, w, Sending(s.workers[w].action, Failed, true), i);
    case Answer(w, r) => QuietMoveBalances(p, s, w, Sending(s.workers[w].action, StatusOf(r), r.Precondition?), i);
    case Cancel(w) => QuietMoveBalances(p, s, w, Idle, i);
    case Exit(w) => QuietMoveBalances(p, s, w, Done, i);
    case _ =>
  }

  lemma DeliverSums(p: Setup, s: State, w: nat)
    requires Summed(s) && Enabled(p, s, Deliver(w))
    ensures Summed(Next(p, s, Deliver(w)))
  {
    var t := Next(p, s, Deliver(w));
    ReplaceWorker(p, s.workers, w, t.workers[w], 0);
    assert t.outcomes[..|t.outcomes| - 1] == s.outcomes;
  }

  lemma SummedStep(p: Setup, s: State, step: Step)
    requires Summed(s) && Enabled(p, s, step)
    ensures Summed(Next(p, s, step))
  {
    if step.Deliver? {
      DeliverSums(p, s, step.worker);
    } else if MovesWorker(step) {
      ReplaceWorker(p, s.workers, step.worker, Next(p, s, step).workers[step.worker], 0);
    }
  }

  lemma ConservedStep(p: Setup, s: State, step: Step)
    requires Conserved(p, s) && Enabled(p, s, step)
    ensures Conserved(p, Next(p, s, step))
  {
    var t := Next(p, s, step);
    forall i: nat ensures Balanced(p, t, i) {
      BalancedStep(p, s, step, i);
    }
    SummedStep(p, s, step);
    assert |t.workers| == |s.workers| && t.sent <= p.actions;
  }

  lemma WorkersExplainedStep(p: Setup, s: State, step: Step)
    requires WorkersExplained(s) && Enabled(p, s, step)
    ensures WorkersExplained(Next(p, s, step))
  {
    var t := Next(p, s, step);
    if MovesWorker(step) {
      var v := step.worker;
      assert t.workers == s.workers[v := t.workers[v]] && t.failed >= s.failed && t.feeder == s.feeder;
      assert t.workers[v].Cancelling? ==> t.failed > 0;
      assert t.workers[v].Sending? && t.workers[v].fatal ==> t.workers[v].status.Failed?;
      assert t.workers[v].Done? ==> t.feeder.Closed?;
    }
  }

  lemma ExplainedStep(p: Setup, s: State, step: Step)
    requires Explained(p, s) && Enabled(p, s, step)
    ensures Explained(p, Next(p, s, step))
  {
    WorkersExplainedStep(p, s, step);
    var t := Next(p, s, step);
    assert s.cancelled ==> t.cancelled;
    assert t.cancelled ==> t.callerCancelled || t.failed > 0;
    assert MovesWorker(step) ==> !s.workers[step.worker].Done?;
  }

  /** Every reachable state conserves the actions and is explained. */
  lemma {:induction false} Invariants(p: Setup, steps: seq<Step>)
    requires WellFormed(p) && After(p, steps).Some?
    ensures Conserved(p, After(p, steps).value) && Explained(p, After(p, steps).value)
  {
    if |steps| == 0 {
      forall i: nat ensures Balanced(p, Start(p), i) { AllIdle(p, p.Workers(), i); }
      AllIdle(p, p.Workers(), 0);
    } else {
      var init := steps[..|steps| - 1];
      Invariants(p, init);
      ConservedStep(p, After(p, init).value, steps[|steps| - 1]);
      ExplainedStep(p, After(p, init).value, steps[|steps| - 1]);
    }
  }

  // Safety over whole runs.

  /** In every reachable state the dispatched actions are a prefix of the plan, each of them is with exactly one
      worker or in exactly one outcome, and none has been passed to `Delete` twice. */
  lemma Conservation(p: Setup, steps: seq<Step>, i: nat)
    requires WellFormed(p) && After(p, steps).Some?
    ensures var s := After(p, steps).value;
            && s.sent <= p.actions
            && HeldCount(s.workers, i) + ReportedCount(s.outcomes, i) == (if i < s.sent then 1 else 0)
            && CallCount(s.calls, i) <= (if i < s.sent && Configured(p, i) then 1 else 0)
  {
    var s := After(p, steps).value;
    Invariants(p, steps);
    assert Balanced(p, s, i);
    CalledWithinHeld(p, s.workers, i);
    NotConfiguredNotCalled(p, s.workers, i);
  }

  lemma {:induction false} NotConfiguredNotCalled(p: Setup, ws: seq<Worker>, i: nat)
    ensures !Configured(p, i) ==> CalledCount(p, ws, i) == 0
  {
    if |ws| > 0 {
      NotConfiguredNotCalled(p, ws[1..], i);
    }
  }

  // Termination and progress.

  ghost function Measure(p: Setup, s: State): int {
    5 * (p.actions - s.sent) + AllStagesLeft(s.workers)
    + (match s.feeder case Feeding => 2 case Leaving => 1 case Closed => 0)
    + (if s.outcomesClosed then 0 else 1) + (if s.returned then 0 else 1) + (if s.callerCancelled then 0 else 1)
  }

  lemma MeasureDecreases(p: Setup, s: State, step: Step)
    requires Enabled(p, s, step)
    ensures Measure(p, Next(p, s, step)) < Measure(p, s)
  {
    if MovesWorker(step) {
      ReplaceWorker(p, s.workers, step.worker, Next(p, s, step).workers[step.worker], 0);
    }
  }

  lemma {:induction false} MeasureBoundsRun(p: Setup, steps: seq<Step>)
    requires WellFormed(p) && After(p, steps).Some?
    ensures |steps| + Measure(p, After(p, steps).value) <= 5 * p.actions + p.Workers() + 5
  {
    if |steps| == 0 {
      AllIdle(p, p.Workers(), 0);
    } else {
      var init := steps[..|steps| - 1];
      MeasureBoundsRun(p, init);
      MeasureDecreases(p, After(p, init).value, steps[|steps| - 1]);
    }
  }

  /** Termination: no run, whatever the responses and cancellations, is longer than this. */
  lemma RunsAreBounded(p: Setup, steps: seq<Step>)
    requires WellFormed(p) && After(p, steps).Some?
    ensures |steps| <= 5 * p.actions + p.Workers() + 5
  {
    MeasureBoundsRun(p, steps);
    Invariants(p, steps);
  }

  /** No deadlock: until `Apply` has returned, some step other than a cancellation by the caller is enabled, and
      no worker that sends an outcome waits for ever or sends on a closed channel. */
  lemma NoDeadlock(p: Setup, steps: seq<Step>) returns (step: Step)
    requires WellFormed(p) && After(p, steps).Some? && !After(p, steps).value.returned
    ensures Enabled(p, After(p, steps).value, step) && !step.CallerCancel?
    ensures var s := After(p, steps).value;
            forall w :: 0 <= w < |s.workers| && s.workers[w].Sending? ==> !s.outcomesClosed && Enabled(p, s, Deliver(w))
  {
    var s := After(p, steps).value;
    Invariants(p, steps);
    if w :| 0 <= w < |s.workers| && !s.workers[w].Idle? && !s.workers[w].Done? {
      match s.workers[w]
      case Holding(i) =>
        OccupiedIsDispatched(p, s, w);
        step := if p.configured[i] then Call(w) else Reject(w);
      case Calling(i) => step := Answer(w, Accepted);
      case Sending(i, _, _) => step := Deliver(w);
      case Cancelling => step := Cancel(w);
    } else if s.feeder.Feeding? {
      if s.sent == p.actions || s.cancelled {
        step := Leave;
      } else {
        assert s.workers[0].Idle?;
        step := Dispatch(0);
      }
    } else if s.feeder.Leaving? {
      step := CloseJobs;
    } else if w :| 0 <= w < |s.workers| && s.workers[w].Idle? {
      step := Exit(w);
    } else {
      step := if s.outcomesClosed then Return else CloseOutcomes;
    }
  }

  lemma OccupiedIsDispatched(p: Setup, s: State, w: nat)
    requires Conserved(p, s) && w < |s.workers| && (s.workers[w].Holding? || s.workers[w].Calling?)
    ensures s.workers[w].action < s.sent <= p.actions
  {
    var i := s.workers[w].action;
    assert Balanced(p, s, i);
    HolderCounts(s.workers, w, i);
  }

  lemma {:induction false} HolderCounts(ws: seq<Worker>, w: nat, i: nat)
    requires w < |ws|
    ensures HeldCount(ws, i) >= Holds(ws[w], i)
  {
    if w > 0 {
      HolderCounts(ws[1..], w - 1, i);
    }
  }

  // What `Apply` returns.

  /** The skipped counter after the adjustment that makes the counters add up. */
  ghost function FinalSkipped(p: Setup, s: State): int {
    s.skipped + (p.actions - s.deleted - s.skipped - s.failed)
  }

  lemma {:induction false} StatusesAddUp(outcomes: seq<Outcome>)
    ensures CountOf(outcomes, Deleted) + CountOf(outcomes, Skipped) + CountOf(outcomes, Failed) == |outcomes|
  {
    if |outcomes| > 0 {
      StatusesAddUp(outcomes[..|outcomes| - 1]);
    }
  }

  /** On return exactly the dispatched prefix is reported, once each; the adjustment is the number of actions
      never dispatched, and the counters add up to the plan. */
  lemma CountersAddUp(p: Setup, steps: seq<Step>)
    requires WellFormed(p) && After(p, steps).Some? && After(p, steps).value.returned
    ensures var s := After(p, steps).value;
            && (forall i: nat :: ReportedCount(s.outcomes, i) == if i < s.sent then 1 else 0)
            && FinalSkipped(p, s) - s.skipped == p.actions - s.sent >= 0
            && s.deleted + FinalSkipped(p, s) + s.failed == p.actions
  {
    var s := After(p, steps).value;
    Invariants(p, steps);
    StatusesAddUp(s.outcomes);
    NothingHeld(s.workers, 0);
    forall i: nat ensures ReportedCount(s.outcomes, i) == if i < s.sent then 1 else 0 {
      NothingHeld(s.workers, i);
      assert Balanced(p, s, i);
    }
  }

  lemma {:induction false} ReportedMeansPresent(outcomes: seq<Outcome>, i: nat)
    ensures ReportedCount(outcomes, i) > 0 <==> exists k :: 0 <= k < |outcomes| && outcomes[k].action == i
  {
    if |outcomes| > 0 {
      var init := outcomes[..|outcomes| - 1];
      ReportedMeansPresent(init, i);
      if ReportedCount(init, i) > 0 {
        var k :| 0 <= k < |init| && init[k].action == i;
        assert outcomes[k].action == i;
      }
      if k :| 0 <= k < |outcomes| && outcomes[k].action == i {
        if k < |init| { assert init[k].action == i; }
      }
    }
  }

  lemma {:induction false} CountZero(outcomes: seq<Outcome>, status: Status, k: nat)
    requires CountOf(outcomes, status) == 0 && k < |outcomes|
    ensures outcomes[k].status != status
  {
    var init := outcomes[..|outcomes| - 1];
    if k < |init| {
      CountZero(init, status, k);
    }
  }

  /** Actions without a provider are only ever reported as failed. */
  ghost predicate Truthful(p: Setup, s: State) {
    && (forall w :: 0 <= w < |s.workers| && s.workers[w].Calling? ==> Configured(p, s.workers[w].action))
    && (forall w :: 0 <= w < |s.workers| && s.workers[w].Sending? && !s.workers[w].status.Failed? ==>
          Configured(p, s.workers[w].action))
    && (forall k :: 0 <= k < |s.outcomes| && !s.outcomes[k].status.Failed? ==> Configured(p, s.outcomes[k].action))
  }

  lemma TruthfulStep(p: Setup, s: State, step: Step)
    requires Truthful(p, s) && Enabled(p, s, step)
    ensures Truthful(p, Next(p, s, step))
  {
  }

  lemma {:induction false} AlwaysTruthful(p: Setup, steps: seq<Step>)
    requires After(p, steps).Some?
    ensures Truthful(p, After(p, steps).value)
  {
    if |steps| > 0 {
      var init := steps[..|steps| - 1];
      AlwaysTruthful(p, init);
      TruthfulStep(p, After(p, init).value, steps[|steps| - 1]);
    }
  }

  /** When nothing failed and the caller did not cancel, every action was dispatched. */
  lemma AllAreSent(p: Setup, steps: seq<Step>)
    requires WellFormed(p) && After(p, steps).Some?
    requires var s := After(p, steps).value; s.returned && s.failed == 0 && !s.callerCancelled
    ensures After(p, steps).value.sent == p.actions
  {
    var s := After(p, steps).value;
    Invariants(p, steps);
    assert s.workers[0].Done? && s.feeder.Closed?;
  }

  /** Completeness: a nil result without cancellation by the caller means every planned action was passed to
      `Delete` exactly once and ended deleted or not found. */
  lemma NilMeansDone(p: Setup, steps: seq<Step>, i: nat) returns (k: nat)
    requires WellFormed(p) && After(p, steps).Some? && i < p.actions
    requires var s := After(p, steps).value; s.returned && s.failed == 0 && !s.callerCancelled
    ensures var s := After(p, steps).value;
            && s.sent == p.actions && CallCount(s.calls, i) == 1
            && k < |s.outcomes| && s.outcomes[k].action == i && s.outcomes[k].status in {Deleted, Skipped}
  {
    var s := After(p, steps).value;
    Invariants(p, steps);
    CountersAddUp(p, steps);
    AlwaysTruthful(p, steps);
    AllAreSent(p, steps);
    ReportedMeansPresent(s.outcomes, i);
    k :| 0 <= k < |s.outcomes| && s.outcomes[k].action == i;
    CountZero(s.outcomes, Failed, k);
    assert Balanced(p, s, i);
    CalledWithinHeld(p, s.workers, i);
    NothingHeld(s.workers, i);
  }

  lemma Extend(p: Setup, steps: seq<Step>, s: State, step: Step) returns (more: seq<Step>, t: State)
    requires After(p, steps) == Some(s) && Enabled(p, s, step)
    ensures more == steps + [step] && t == Next(p, s, step) && After(p, more) == Some(t)
  {
    more, t := steps + [step], Next(p, s, step);
    assert more[..|more| - 1] == steps;
  }

  /** The action was attempted and is gone from the registry, as far as the outcomes say. */
  ghost predicate Settled(outcomes: seq<Outcome>, i: nat) {
    exists k :: 0 <= k < |outcomes| && outcomes[k].action == i && !outcomes[k].status.Failed?
  }

  /** Exactly when a nil result means that everything was done: it carries an outcome for every action. */
  lemma NilMeansDoneIff(p: Setup, steps: seq<Step>)
    requires WellFormed(p) && After(p, steps).Some?
    requires After(p, steps).value.returned && After(p, steps).value.failed == 0
    ensures var s := After(p, steps).value;
            (forall i: nat :: i < p.actions ==> Settled(s.outcomes, i)) <==> |s.outcomes| == p.actions
  {
    var s := After(p, steps).value;
    Invariants(p, steps);
    CountersAddUp(p, steps);
    NothingHeld(s.workers, 0);
    assert |s.outcomes| == s.sent;
    forall i: nat ensures Settled(s.outcomes, i) <==> i < s.sent {
      ReportedMeansPresent(s.outcomes, i);
      assert ReportedCount(s.outcomes, i) == if i < s.sent then 1 else 0;
      if i < s.sent {
        var k :| 0 <= k < |s.outcomes| && s.outcomes[k].action == i;
        CountZero(s.outcomes, Failed, k);
      }
    }
    if |s.outcomes| < p.actions {
      assert !Settled(s.outcomes, s.sent);
    }
  }

  /** All idle workers leave once the jobs channel is closed. */
  lemma {:induction false} WorkersExit(p: Setup, steps: seq<Step>, s: State, left: nat)
    returns (more: seq<Step>, t: State)
    requires After(p, steps) == Some(s) && s.feeder.Closed? && left <= |s.workers|
    requires forall w :: 0 <= w < |s.workers| ==> s.workers[w] == if w < left then Done else Idle
    ensures After(p, more) == Some(t)
    ensures |t.workers| == |s.workers| && forall w :: 0 <= w < |t.workers| ==> t.workers[w].Done?
    ensures t == s.(workers := t.workers)
    ensures steps <= more && forall k :: |steps| <= k < |more| ==> more[k].Exit?
    decreases |s.workers| - left
  {
    if left == |s.workers| {
      more, t := steps, s;
    } else {
      more, t := Extend(p, steps, s, Exit(left));
      more, t := WorkersExit(p, more, t, left + 1);
    }
  }

  /** Without the outcomes a nil result means nothing: whatever the plan and the concurrency, the caller can cancel
      before the first action is sent, and `Apply` returns nil having attempted nothing. */
  lemma NilWithNothingDone(p: Setup) returns (steps: seq<Step>)
    requires WellFormed(p)
    ensures After(p, steps).Some?
    ensures var s := After(p, steps).value;
            && s.returned && s.failed == 0 && s.callerCancelled
            && s.sent == 0 && s.calls == [] && s.outcomes == []
  {
    var s := Start(p);
    steps := [];
    steps, s := Extend(p, steps, s, CallerCancel);
    steps, s := Extend(p, steps, s, Leave);
    steps, s := Extend(p, steps, s, CloseJobs);
    steps, s := WorkersExit(p, steps, s, 0);
    steps, s := Extend(p, steps, s, CloseOutcomes);
    steps, s := Extend(p, steps, s, Return);
  }

  /** A run that returns nil, and in which the caller cancels only if it may. */
  ghost predicate ReturnsNil(p: Setup, steps: seq<Step>, mayCancel: bool) {
    && After(p, steps).Some? && After(p, steps).value.returned && After(p, steps).value.failed == 0
    && (mayCancel || !After(p, steps).value.callerCancelled)
  }

  /** A nil result always means that everything was done. */
  ghost predicate NilSettles(p: Setup, mayCancel: bool) {
    forall steps, i: nat :: ReturnsNil(p, steps, mayCancel) && i < p.actions ==>
      Settled(After(p, steps).value.outcomes, i)
  }

  /** That is so exactly for callers that do not cancel, and for empty plans. */
  lemma NilSettlesIff(p: Setup, mayCancel: bool)
    requires WellFormed(p)
    ensures NilSettles(p, mayCancel) <==> !mayCancel || p.actions == 0
  {
    if mayCancel && p.actions > 0 {
      var steps := NilWithNothingDone(p);
      assert ReturnsNil(p, steps, mayCancel) && !Settled(After(p, steps).value.outcomes, 0);
    } else {
      forall steps, i: nat | ReturnsNil(p, steps, mayCancel) && i < p.actions
        ensures Settled(After(p, steps).value.outcomes, i)
      {
        var k := NilMeansDone(p, steps, i);
      }
    }
  }
}
