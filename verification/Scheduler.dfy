/** The scheduler loop: which occurrences of the schedule it runs, which it counts as skipped. */
module Scheduler {
  import opened Artifacts

  /** `schedule.Next`. */
  type Schedule = int -> int

  /** The schedule's next occurrence is later than the time asked about, and the first such. */
  ghost predicate Least(next: Schedule, occurs: int -> bool) {
    forall t {:trigger MovesToNext(next, occurs, t)} {:trigger next(t)} :: MovesToNext(next, occurs, t)
  }

  /** From this time the schedule moves to the first occurrence after it. */
  ghost predicate MovesToNext(next: Schedule, occurs: int -> bool, t: int) {
    next(t) > t && occurs(next(t)) && forall u :: t < u < next(t) ==> !occurs(u)
  }

  /** The occurrences in `(after, upTo]`. */
  ghost function Occurrences(occurs: int -> bool, after: int, upTo: int): set<int> {
    set t | after < t <= upTo && occurs(t)
  }

  lemma OccurrencesSplit(occurs: int -> bool, a: int, b: int, c: int)
    requires a <= b <= c
    ensures |Occurrences(occurs, a, c)| == |Occurrences(occurs, a, b)| + |Occurrences(occurs, b, c)|
  {
    var x, y := Occurrences(occurs, a, b), Occurrences(occurs, b, c);
    assert Occurrences(occurs, a, c) == x + y;
    assert x !! y;
  }

  lemma OneOccurrence(next: Schedule, occurs: int -> bool, t: int)
    requires MovesToNext(next, occurs, t)
    ensures |Occurrences(occurs, t, next(t))| == 1
  {
    assert Occurrences(occurs, t, next(t)) == {next(t)};
  }

  // When the count of skipped occurrences comes to an end.

  /** The `k`-th time the counting loop looks at. */
  function Candidate(next: Schedule, started: int, k: nat): int {
    if k == 0 then next(started) else next(Candidate(next, started, k - 1))
  }

  /** The loop stops: one of its candidates is later than the finish. */
  ghost predicate Stops(next: Schedule, started: int, finished: int) {
    exists k: nat :: Candidate(next, started, k) > finished
  }

  /** The schedule moves forward from every time of a range. */
  ghost predicate Advances(next: Schedule, started: int, finished: int) {
    forall t :: started <= t <= finished ==> next(t) > t
  }

  /** From the start, and from every occurrence up to the finish, it moves to the first occurrence after it. */
  ghost predicate LeastWithin(next: Schedule, occurs: int -> bool, started: int, finished: int) {
    forall t {:trigger MovesToNext(next, occurs, t)} ::
      t == started || (started <= t <= finished && occurs(t)) ==> MovesToNext(next, occurs, t)
  }

  lemma {:induction false} CandidatesClimb(next: Schedule, started: int, finished: int, k: nat) returns (j: nat)
    requires Advances(next, started, finished) && started <= finished
    ensures Candidate(next, started, j) > finished || (j == k && Candidate(next, started, k) > started + k)
  {
    if k == 0 {
      j := 0;
    } else {
      j := CandidatesClimb(next, started, finished, k - 1);
      if Candidate(next, started, j) <= finished {
        j := k;
      }
    }
  }

  /** A schedule that moves forward from every time of the range stops, however it behaves elsewhere. */
  lemma AdvancingStops(next: Schedule, started: int, finished: int)
    requires Advances(next, started, finished) && started <= finished
    ensures Stops(next, started, finished)
  {
    var j := CandidatesClimb(next, started, finished, finished - started);
    assert Candidate(next, started, j) > finished;
  }

  lemma {:induction false} OccurrencesClimb(next: Schedule, occurs: int -> bool, started: int, finished: int, k: nat)
    returns (j: nat)
    requires LeastWithin(next, occurs, started, finished)
    ensures Candidate(next, started, j) > finished
            || (j == k && Candidate(next, started, k) > started + k && occurs(Candidate(next, started, k)))
  {
    if k == 0 {
      j := 0;
      assert MovesToNext(next, occurs, started);
    } else {
      j := OccurrencesClimb(next, occurs, started, finished, k - 1);
      if Candidate(next, started, j) <= finished {
        j := k;
        assert MovesToNext(next, occurs, Candidate(next, started, k - 1));
      }
    }
  }

  /** A schedule that moves from occurrence to occurrence stops. */
  lemma LeastStops(next: Schedule, occurs: int -> bool, started: int, finished: int)
    requires LeastWithin(next, occurs, started, finished)
    ensures Stops(next, started, finished)
  {
    if started <= finished {
      var j := OccurrencesClimb(next, occurs, started, finished, finished - started);
      assert Candidate(next, started, j) > finished;
    } else {
      assert MovesToNext(next, occurs, started) && Candidate(next, started, 0) > finished;
    }
  }

  /** Once below a time the schedule does not leave behind, the candidates stay below it. */
  lemma {:induction false} CandidatesStayBelow(next: Schedule, started: int, t: int, k: nat)
    requires forall u :: u <= t ==> next(u) <= t
    requires started <= t
    ensures Candidate(next, started, k) <= t
  {
    if k > 0 {
      CandidatesStayBelow(next, started, t, k - 1);
    }
  }

  /** With a monotone schedule the loop stops exactly when the schedule moves forward from every time between
      start and finish. */
  lemma StopsIff(next: Schedule, started: int, finished: int)
    requires started <= finished && forall t, u :: t <= u ==> next(t) <= next(u)
    ensures Stops(next, started, finished) <==> Advances(next, started, finished)
  {
    if Advances(next, started, finished) {
      AdvancingStops(next, started, finished);
    } else {
      var t :| started <= t <= finished && next(t) <= t;
      forall k: nat ensures Candidate(next, started, k) <= finished {
        CandidatesStayBelow(next, started, t, k);
      }
    }
  }

  /** A schedule that returns the next occurrence when its search finds one, and the zero time when it does not. */
  ghost predicate LeastOrZero(next: Schedule, occurs: int -> bool, zero: int) {
    forall t {:trigger MovesToNext(next, occurs, t)} {:trigger next(t)} ::
      next(t) == zero || MovesToNext(next, occurs, t)
  }

  /** The search succeeds from the start and from every occurrence up to the finish. */
  ghost predicate Found(next: Schedule, occurs: int -> bool, started: int, finished: int) {
    forall t :: started <= t <= finished && (t == started || occurs(t)) ==> next(t) > t
  }

  /** With such a schedule, started from a time it returned, the loop stops exactly when the search succeeds from
      the start and from every occurrence up to the finish: after one failure it begins again at the zero time and
      never gets past the occurrence where the search failed. When it stops it visits every occurrence. */
  lemma SearchStopsIff(next: Schedule, occurs: int -> bool, zero: int, started: int, finished: int)
    requires LeastOrZero(next, occurs, zero) && zero <= started <= finished && (occurs(started) || started == zero)
    ensures Stops(next, started, finished) <==> Found(next, occurs, started, finished)
    ensures Stops(next, started, finished) ==> LeastWithin(next, occurs, started, finished)
  {
    if t :| started <= t <= finished && (t == started || occurs(t)) && next(t) <= t {
      forall k: nat ensures Candidate(next, started, k) <= t {
        NeverPast(next, occurs, zero, started, t, k);
      }
    } else {
      LeastStops(next, occurs, started, finished);
    }
  }

  lemma {:induction false} NeverPast(next: Schedule, occurs: int -> bool, zero: int, started: int, t: int, k: nat)
    requires LeastOrZero(next, occurs, zero) && zero <= started <= t && next(t) <= t
    requires occurs(t) || (t == started && started == zero)
    ensures zero <= Candidate(next, started, k) <= t
  {
    if k > 0 {
      NeverPast(next, occurs, zero, started, t, k - 1);
    }
    var c := if k == 0 then started else Candidate(next, started, k - 1);
    assert Candidate(next, started, k) == next(c);
    assert next(c) == zero || MovesToNext(next, occurs, c);
  }

  /** A schedule without occurrences, such as 30 February, always answers the zero time: the loop never stops. */
  lemma NothingToFind(zero: int, started: int, finished: int)
    requires zero <= started <= finished
    ensures LeastOrZero((t: int) => zero, (t: int) => false, zero) && !Stops((t: int) => zero, started, finished)
  {
    var next: Schedule := (t: int) => zero;
    forall k: nat ensures Candidate(next, started, k) == zero { }
  }

  /** The loop runs exactly when it stops, and counts the candidates up to the finish; when the schedule finds the
      first later occurrence from every time in between, that is the number of occurrences after the start and up to
      the finish. */
  method SkippedOccurrences(next: Schedule, ghost occurs: int -> bool, started: int, finished: int)
    returns (skipped: nat)
    requires Stops(next, started, finished)
    ensures Candidate(next, started, skipped) > finished
    ensures forall k :: 0 <= k < skipped ==> Candidate(next, started, k) <= finished
    ensures LeastWithin(next, occurs, started, finished) ==> skipped == |Occurrences(occurs, started, finished)|
  {
    ghost var bound: nat :| Candidate(next, started, bound) > finished;
    skipped := 0;
    var candidate := next(started);
    while candidate <= finished
      invariant candidate == Candidate(next, started, skipped) && skipped <= bound
      invariant forall k :: 0 <= k < skipped ==> Candidate(next, started, k) <= finished
      decreases bound - skipped
    {
      skipped := skipped + 1;
      candidate := next(candidate);
    }
    if LeastWithin(next, occurs, started, finished) {
      CandidatesAreOccurrences(next, occurs, started, finished, skipped);
    }
  }

  /** The first candidates are the occurrences, in order and without gaps. */
  lemma {:induction false} CandidatesCount(next: Schedule, occurs: int -> bool, started: int, finished: int, k: nat)
    requires LeastWithin(next, occurs, started, finished) && started <= finished
    requires forall j :: 0 <= j < k ==> Candidate(next, started, j) <= finished
    ensures var last := if k == 0 then started else Candidate(next, started, k - 1);
            && started <= last <= finished && (last == started || occurs(last))
            && k == |Occurrences(occurs, started, last)|
  {
    if k == 0 {
      assert Occurrences(occurs, started, started) == {};
    } else {
      CandidatesCount(next, occurs, started, finished, k - 1);
      var before := if k == 1 then started else Candidate(next, started, k - 2);
      var last := Candidate(next, started, k - 1);
      assert MovesToNext(next, occurs, before) && last == next(before);
      OneOccurrence(next, occurs, before);
      OccurrencesSplit(occurs, started, before, last);
    }
  }

  lemma CandidatesAreOccurrences(next: Schedule, occurs: int -> bool, started: int, finished: int, skipped: nat)
    requires LeastWithin(next, occurs, started, finished) && Candidate(next, started, skipped) > finished
    requires forall k :: 0 <= k < skipped ==> Candidate(next, started, k) <= finished
    ensures skipped == |Occurrences(occurs, started, finished)|
  {
    if finished < started {
      assert MovesToNext(next, occurs, started) && Candidate(next, started, 0) > started;
      assert Occurrences(occurs, started, finished) == {};
    } else {
      CandidatesCount(next, occurs, started, finished, skipped);
      var last := if skipped == 0 then started else Candidate(next, started, skipped - 1);
      assert MovesToNext(next, occurs, last) && next(last) > finished;
      assert Occurrences(occurs, started, finished) == Occurrences(occurs, started, last);
    }
  }

  // The loop around it.

  /** The clock as one iteration reads it: at the top of the loop, when the timer fires and the run starts, and
      when the run has finished. */
  datatype Tick = Tick(now: int, fired: int, finished: int)

  /** The clock never goes back and no timer fires early. */
  ghost predicate Monotone(next: Schedule, ticks: seq<Tick>) {
    && (forall i :: 0 <= i < |ticks| ==> next(ticks[i].now) <= ticks[i].fired <= ticks[i].finished)
    && (forall i :: 0 < i < |ticks| ==> ticks[i - 1].finished <= ticks[i].now)
  }

  /** Occurrences that fell while a run was active, after the one it served. */
  ghost function Skipped(next: Schedule, occurs: int -> bool, ticks: seq<Tick>): nat {
    if |ticks| == 0 then 0
    else
      var last := ticks[|ticks| - 1];
      Skipped(next, occurs, ticks[..|ticks| - 1]) + |Occurrences(occurs, next(last.now), last.finished)|
  }

  /** Occurrences that fell between the end of a run and the next reading of the clock. */
  ghost function Lost(occurs: int -> bool, ticks: seq<Tick>): nat {
    if |ticks| <= 1 then 0
    else
      Lost(occurs, ticks[..|ticks| - 1]) + |Occurrences(occurs, ticks[|ticks| - 2].finished, ticks[|ticks| - 1].now)|
  }

  /** When a run began and ended. */
  datatype Span = Span(begun: int, ended: int)

  /** The run at start-up, if there is one, is over before the loop first reads the clock. */
  ghost predicate StartsFirst(startup: Option<Span>, ticks: seq<Tick>) {
    startup.Some? ==>
      && startup.value.begun <= startup.value.ended
      && (|ticks| > 0 ==> startup.value.ended <= ticks[0].now)
  }

  /** All runs: the one at start-up and one for each iteration. */
  function RunsOf(startup: Option<Span>, ticks: seq<Tick>): seq<Span> {
    (if startup.Some? then [startup.value] else [])
    + seq(|ticks|, i requires 0 <= i < |ticks| => Span(ticks[i].fired, ticks[i].finished))
  }

  /** The occurrences the iterations serve. */
  function Handled(next: Schedule, ticks: seq<Tick>): seq<int> {
    seq(|ticks|, i requires 0 <= i < |ticks| => next(ticks[i].now))
  }

  /** The scheduler's gauge and counter, with what it has run so far. */
  class Loop {
    var nextRun: int
    var skippedOverlaps: nat
    var handled: seq<int>
    var runs: seq<Span>

    constructor ()
      ensures skippedOverlaps == 0 && handled == [] && runs == []
    {
      nextRun, skippedOverlaps, handled, runs := 0, 0, [], [];
    }

    method Iterate(next: Schedule, ghost occurs: int -> bool, tick: Tick)
      requires Least(next, occurs)
      modifies this
      ensures nextRun == next(tick.now)
      ensures handled == old(handled) + [nextRun] && runs == old(runs) + [Span(tick.fired, tick.finished)]
      ensures skippedOverlaps == old(skippedOverlaps) + |Occurrences(occurs, nextRun, tick.finished)|
    {
      nextRun := next(tick.now);
      handled, runs := handled + [nextRun], runs + [Span(tick.fired, tick.finished)];
      LeastStops(next, occurs, nextRun, tick.finished);
      var skipped := SkippedOccurrences(next, occurs, nextRun, tick.finished);
      if skipped > 0 {
        skippedOverlaps := skippedOverlaps + skipped;
      }
    }

    /** The run at start-up, when configured, and then any number of iterations, until the context is cancelled. */
    method Run(next: Schedule, ghost occurs: int -> bool, startup: Option<Span>, ticks: seq<Tick>)
      requires Least(next, occurs) && skippedOverlaps == 0 && handled == [] && runs == []
      modifies this
      ensures runs == RunsOf(startup, ticks) && handled == Handled(next, ticks)
      ensures nextRun == if |ticks| > 0 then next(ticks[|ticks| - 1].now) else old(nextRun)
      ensures skippedOverlaps == Skipped(next, occurs, ticks)
    {
      if startup.Some? {
        runs := [startup.value];
      }
      assert RunsOf(startup, ticks[..0]) == runs;
      for i := 0 to |ticks|
        invariant runs == RunsOf(startup, ticks[..i]) && handled == Handled(next, ticks[..i])
        invariant nextRun == if i > 0 then next(ticks[i - 1].now) else old(nextRun)
        invariant skippedOverlaps == Skipped(next, occurs, ticks[..i])
      {
        assert ticks[..i + 1][..i] == ticks[..i];
        RunsStep(startup, ticks, i);
        assert Handled(next, ticks[..i + 1]) == Handled(next, ticks[..i]) + [next(ticks[i].now)];
        Iterate(next, occurs, ticks[i]);
      }
      assert ticks[..|ticks|] == ticks;
    }
  }

  lemma RunsStep(startup: Option<Span>, ticks: seq<Tick>, i: nat)
    requires i < |ticks|
    ensures RunsOf(startup, ticks[..i + 1]) == RunsOf(startup, ticks[..i]) + [Span(ticks[i].fired, ticks[i].finished)]
  {
  }

  lemma MonotonePrefix(next: Schedule, ticks: seq<Tick>)
    requires |ticks| > 0 && Monotone(next, ticks)
    ensures Monotone(next, ticks[..|ticks| - 1])
  {
    var init := ticks[..|ticks| - 1];
    assert forall i :: 0 <= i < |init| ==> init[i] == ticks[i];
  }

  lemma {:induction false} ClockAscends(next: Schedule, occurs: int -> bool, ticks: seq<Tick>, i: nat, j: nat)
    requires Least(next, occurs) && Monotone(next, ticks) && i <= j < |ticks|
    ensures ticks[i].now <= ticks[j].now && ticks[i].now < ticks[i].finished && ticks[i].finished <= ticks[j].finished
    ensures i < j ==> ticks[i].finished <= ticks[j].now
  {
    if i < j {
      ClockAscends(next, occurs, ticks, i, j - 1);
      assert ticks[j - 1].finished <= ticks[j].now;
    }
  }

  /** The occurrences the iterations serve strictly increase. */
  lemma HandledAscend(next: Schedule, occurs: int -> bool, ticks: seq<Tick>, i: nat, j: nat)
    requires Least(next, occurs) && Monotone(next, ticks) && i < j < |ticks|
    ensures Handled(next, ticks)[i] < Handled(next, ticks)[j]
  {
    ClockAscends(next, occurs, ticks, i, j);
    assert next(ticks[i].now) <= ticks[i].finished <= ticks[j].now < next(ticks[j].now);
  }

  /** No two runs overlap, the one at start-up included. */
  lemma RunsNeverOverlap(next: Schedule, occurs: int -> bool, startup: Option<Span>, ticks: seq<Tick>, i: nat, j: nat)
    requires Least(next, occurs) && Monotone(next, ticks) && StartsFirst(startup, ticks)
    requires i < j < |RunsOf(startup, ticks)|
    ensures RunsOf(startup, ticks)[i].ended < RunsOf(startup, ticks)[j].begun
  {
    var before := if startup.Some? then 1 else 0;
    var b := j - before;
    assert RunsOf(startup, ticks)[j] == Span(ticks[b].fired, ticks[b].finished);
    assert ticks[b].now < next(ticks[b].now) <= ticks[b].fired;
    if i < before {
      ClockAscends(next, occurs, ticks, 0, b);
    } else {
      ClockAscends(next, occurs, ticks, i - before, b);
      assert RunsOf(startup, ticks)[i] == Span(ticks[i - before].fired, ticks[i - before].finished);
    }
  }

  /** Accounting: every occurrence from the first clock reading to the last finish is served, counted as
      skipped, or fell between one finish and the next clock reading. */
  lemma {:induction false} EveryOccurrenceIsAccountedFor(next: Schedule, occurs: int -> bool, ticks: seq<Tick>)
    requires Least(next, occurs) && Monotone(next, ticks) && |ticks| > 0
    ensures |ticks| + Skipped(next, occurs, ticks) + Lost(occurs, ticks)
            == |Occurrences(occurs, ticks[0].now, ticks[|ticks| - 1].finished)|
  {
    var init, last := ticks[..|ticks| - 1], ticks[|ticks| - 1];
    assert MovesToNext(next, occurs, last.now);
    OneOccurrence(next, occurs, last.now);
    OccurrencesSplit(occurs, last.now, next(last.now), last.finished);
    if |init| > 0 {
      MonotonePrefix(next, ticks);
      EveryOccurrenceIsAccountedFor(next, occurs, init);
      var previous := ticks[|ticks| - 2];
      ClockAscends(next, occurs, ticks, 0, |ticks| - 2);
      OccurrencesSplit(occurs, ticks[0].now, previous.finished, last.now);
      OccurrencesSplit(occurs, ticks[0].now, last.now, last.finished);
    } else {
      assert Skipped(next, occurs, init) == 0;
    }
  }
}
