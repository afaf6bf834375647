/** Planning, applying and planning again. */
module EndToEnd {
  import opened Artifacts
  import opened Orders
  import opened Policy
  import opened Config
  import opened Engine
  import opened Planning
  import opened Convergence
  import opened Recognition
  import Apply
  import Ledger

  /** The gate in front of `Apply`. */
  predicate Stale(p: Engine.Plan, fingerprint: string, started: int) {
    p.version != FORMAT_VERSION || p.fingerprint != fingerprint || started > p.expiresAt
  }

  /** A fresh plan is accepted for one hour, and only with the configuration it was made from. */
  lemma PlanStaysFresh(lib: Library, policies: map<string, PolicyConfig>, fingerprint: string, lister: Lister, now: int,
                       current: string, started: int)
    requires LibraryOk(lib) && PlanOf(lib, policies, fingerprint, lister, now).Ok?
    ensures Stale(PlanOf(lib, policies, fingerprint, lister, now).value, current, started)
            <==> current != fingerprint || started > now + HOUR
  {
  }

  /** The keys of some actions of a plan. */
  ghost function KeysAt(actions: seq<Action>, indices: set<nat>): set<string> {
    set i | i in indices && i < |actions| :: Key(actions[i].artifact)
  }

  lemma KeysAtCardinality(actions: seq<Action>, indices: set<nat>)
    requires Distinct(ActionKeys(actions)) && forall i :: i in indices ==> i < |actions|
    ensures |KeysAt(actions, indices)| == |indices|
  {
    var key := (i: nat) => if i < |actions| then ActionKeys(actions)[i] else "";
    forall i, j | i in indices && j in indices && key(i) == key(j) ensures i == j {
      if i < j {} else {}
    }
    forall k ensures k in KeysAt(actions, indices) <==> exists i :: i in indices && key(i) == k {
      if i :| i in indices && key(i) == k { assert Key(actions[i].artifact) == k; }
      if k in KeysAt(actions, indices) {
        var i :| i in indices && i < |actions| && Key(actions[i].artifact) == k;
        assert key(i) == k;
      }
    }
    InjectiveImage(indices, key, KeysAt(actions, indices));
  }

  lemma KeysAtMembers(actions: seq<Action>, indices: set<nat>, i: nat)
    requires Distinct(ActionKeys(actions)) && i < |actions|
    ensures Key(actions[i].artifact) in KeysAt(actions, indices) <==> i in indices
  {
    if j: nat :| j in indices && j < |actions| && Key(actions[j].artifact) == Key(actions[i].artifact) {
      assert ActionKeys(actions)[j] == ActionKeys(actions)[i];
      if j < i {} else {}
    }
  }

  /** What is left of a plan after some of its actions, one by one and in number. */
  lemma RestOfPlan(p: Engine.Plan, indices: set<nat>)
    requires Ascending(ActionKeys(p.actions)) && forall i :: i in indices ==> i < |p.actions|
    ensures var gone := KeysAt(p.actions, indices);
            var left := RemainingActions(p.actions, gone);
            && gone <= PlannedKeys(p) && |gone| == |indices| && |left| == |p.actions| - |indices|
            && forall i :: 0 <= i < |p.actions| ==> (p.actions[i] in left <==> i !in indices)
  {
    var gone := KeysAt(p.actions, indices);
    AscendingIsDistinct(ActionKeys(p.actions));
    KeysAtCardinality(p.actions, indices);
    forall k | k in gone ensures k in PlannedKeys(p) {
      var i :| i in indices && i < |p.actions| && Key(p.actions[i].artifact) == k;
      assert ActionKeys(p.actions)[i] == k;
    }
    RemainingCount(p, gone);
    RemainingMembers(p.actions, gone);
    forall i: nat | i < |p.actions| ensures p.actions[i] in RemainingActions(p.actions, gone) <==> i !in indices {
      KeysAtMembers(p.actions, indices, i);
    }
  }

  lemma RemainingCount(p: Engine.Plan, gone: set<string>)
    requires Ascending(ActionKeys(p.actions)) && gone <= PlannedKeys(p)
    ensures |RemainingActions(p.actions, gone)| == |p.actions| - |gone|
  {
    var keys, left := ActionKeys(p.actions), ActionKeys(RemainingActions(p.actions, gone));
    RemainingAscend(p.actions, gone);
    AscendingIsDistinct(keys);
    AscendingIsDistinct(left);
    DistinctCardinality(keys);
    DistinctCardinality(left);
    forall k ensures k in left <==> k in keys && k !in gone { RemainingHasKeys(p.actions, gone, k); }
    assert Elements(left) == Elements(keys) - gone;
  }

  /** The second plan is the first without some of its actions. */
  ghost predicate LeavesOut(p: Engine.Plan, again: Result<Engine.Plan, PlanError>, indices: set<nat>) {
    again == Ok(p.(actions := RemainingActions(p.actions, KeysAt(p.actions, indices)),
                   discovered := p.discovered - |indices|))
  }

  /** Planning again after some actions of a plan took effect. */
  lemma ResumeWithout(lib: Library, registries: set<string>, policies: map<string, PolicyConfig>,
                      fingerprint: string, lister: Lister, now: int, p: Engine.Plan, indices: set<nat>)
    requires LibraryOk(lib) && Validated(lib, registries, policies)
    requires PlanOf(lib, policies, fingerprint, lister, now) == Ok(p)
    requires AllCoherent(Evaluations(lib, policies, lister, now).value)
    requires forall i :: i in indices ==> i < |p.actions|
    ensures Ascending(ActionKeys(p.actions))
    ensures LeavesOut(p, PlanOf(lib, policies, fingerprint, Shrunk(lister, KeysAt(p.actions, indices)), now), indices)
  {
    PlanIsTheVote(Evaluations(lib, policies, lister, now).value, fingerprint, now);
    RestOfPlan(p, indices);
    Resumable(lib, registries, policies, fingerprint, lister, now, KeysAt(p.actions, indices));
  }

  /** The second plan is the first without the actions that took effect in a run, reported or not. Once the run has
      returned, those left are as many as it counted failed or never dispatched. */
  ghost predicate Resumes(p: Engine.Plan, again: Result<Engine.Plan, PlanError>,
                          setup: Apply.Setup, steps: seq<Apply.Step>)
    requires Apply.After(setup, steps).Some?
  {
    var s, gone := Apply.After(setup, steps).value, Ledger.Gone(setup, steps);
    && LeavesOut(p, again, gone)
    && (forall i :: 0 <= i < |p.actions| ==>
          (p.actions[i] in again.value.actions <==>
             !Apply.Settled(s.outcomes, i) && !Ledger.AboutToReport(s.workers, i)))
    && (s.returned ==> |again.value.actions| == s.failed + (setup.actions - s.sent))
  }

  lemma RunResumes(p: Engine.Plan, again: Result<Engine.Plan, PlanError>, setup: Apply.Setup, steps: seq<Apply.Step>)
    requires Apply.WellFormed(setup) && Apply.After(setup, steps).Some? && setup.actions == |p.actions|
    requires Ascending(ActionKeys(p.actions))
    requires LeavesOut(p, again, Ledger.Gone(setup, steps))
    ensures Resumes(p, again, setup, steps)
  {
    Ledger.GoneIsKnown(setup, steps);
    RestOfPlan(p, Ledger.Gone(setup, steps));
    if Apply.After(setup, steps).value.returned {
      Ledger.GoneOnReturn(setup, steps);
    }
  }

  /** A call of `Apply` for a plan, up to some point: the gate lets no step pass when the plan is stale. */
  ghost predicate Called(p: Engine.Plan, current: string, started: int, setup: Apply.Setup, steps: seq<Apply.Step>) {
    && Apply.WellFormed(setup) && Apply.After(setup, steps).Some? && setup.actions == |p.actions|
    && (Stale(p, current, started) ==> steps == [])
  }

  /** However a call of `Apply` went, and wherever it stands, planning again at the same instant against what the
      registry still holds resumes it; a call that found the plan stale leaves the plan as it was. */
  lemma ResumeAfterApply(lib: Library, registries: set<string>, policies: map<string, PolicyConfig>,
                         fingerprint: string, lister: Lister, now: int, p: Engine.Plan,
                         current: string, started: int, setup: Apply.Setup, steps: seq<Apply.Step>)
    requires LibraryOk(lib) && Validated(lib, registries, policies)
    requires PlanOf(lib, policies, fingerprint, lister, now) == Ok(p)
    requires AllCoherent(Evaluations(lib, policies, lister, now).value)
    requires Called(p, current, started, setup, steps)
    ensures var left := Shrunk(lister, KeysAt(p.actions, Ledger.Gone(setup, steps)));
            var again := PlanOf(lib, policies, fingerprint, left, now);
            && Resumes(p, again, setup, steps)
            && (current != fingerprint || started > now + HOUR ==> again == Ok(p))
  {
    var indices := Ledger.Gone(setup, steps);
    Ledger.GoneIsKnown(setup, steps);
    ResumeWithout(lib, registries, policies, fingerprint, lister, now, p, indices);
    var left := Shrunk(lister, KeysAt(p.actions, indices));
    var again := PlanOf(lib, policies, fingerprint, left, now);
    RunResumes(p, again, setup, steps);
    PlanStaysFresh(lib, policies, fingerprint, lister, now, current, started);
    if Stale(p, current, started) {
      NothingGone(p, again);
    }
  }

  lemma NothingGone(p: Engine.Plan, again: Result<Engine.Plan, PlanError>)
    requires LeavesOut(p, again, {})
    ensures again == Ok(p)
  {
    AllRemain(p.actions, KeysAt(p.actions, {}));
  }

  lemma {:induction false} AllRemain(actions: seq<Action>, gone: set<string>)
    requires gone == {}
    ensures RemainingActions(actions, gone) == actions
  {
    if |actions| > 0 {
      AllRemain(actions[..|actions| - 1], gone);
      assert actions == actions[..|actions| - 1] + [actions[|actions| - 1]];
    }
  }

  /** A nil result comes only from a fresh plan and its own configuration, and when the caller did not cut the run
      short there is nothing left to plan. */
  lemma NilResultSettles(lib: Library, registries: set<string>, policies: map<string, PolicyConfig>,
                         fingerprint: string, lister: Lister, now: int, p: Engine.Plan,
                         current: string, started: int, setup: Apply.Setup, steps: seq<Apply.Step>)
    requires LibraryOk(lib) && Validated(lib, registries, policies)
    requires PlanOf(lib, policies, fingerprint, lister, now) == Ok(p)
    requires AllCoherent(Evaluations(lib, policies, lister, now).value)
    requires Called(p, current, started, setup, steps)
    requires var s := Apply.After(setup, steps).value; s.returned && s.failed == 0 && !s.callerCancelled
    ensures current == fingerprint && started <= now + HOUR
    ensures var left := Shrunk(lister, KeysAt(p.actions, Ledger.Gone(setup, steps)));
            var again := PlanOf(lib, policies, fingerprint, left, now);
            again.Ok? && again.value.actions == []
  {
    ResumeAfterApply(lib, registries, policies, fingerprint, lister, now, p, current, started, setup, steps);
    PlanStaysFresh(lib, policies, fingerprint, lister, now, current, started);
    Apply.AllAreSent(setup, steps);
  }

  /** Age is judged by the newest tag: an artifact with recognised tags is deleted only when every one of them
      is old enough and all of them belong to one app. */
  lemma NewestTagDecides(lib: Library, raw: Artifact, tags: Tags, rule: Rule, now: int, rank: nat, v: Version)
    requires LibraryOk(lib) && Parsed(lib, raw, tags).Ok?
    requires v.tag in raw.tags && RecognisedAs(lib, tags, v.tag, v)
    requires Deletes(Parsed(lib, raw, tags).value, rule, now, rank)
    ensures Sub(now, v.date) >= rule.deleteOlderThan > 0
    ensures forall w: Version :: w.tag in raw.tags && RecognisedAs(lib, tags, w.tag, w) ==>
              AppGroup(w.app) == AppGroup(v.app)
  {
    var a := Parsed(lib, raw, tags).value;
    VersionsAre(lib, raw, tags);
    VersionIn(lib, raw, tags, v);
    NewestVersionDecides(a, rule, now, rank, v);
    forall w: Version | w.tag in raw.tags && RecognisedAs(lib, tags, w.tag, w)
      ensures AppGroup(w.app) == AppGroup(v.app)
    {
      VersionIn(lib, raw, tags, w);
    }
  }

  lemma NewestVersionDecides(a: Artifact, rule: Rule, now: int, rank: nat, v: Version)
    requires Descend(a.versions) && v in a.versions && Deletes(a, rule, now, rank)
    ensures Sub(now, v.date) >= rule.deleteOlderThan > 0
    ensures forall w :: w in a.versions ==> AppGroup(w.app) == AppGroup(v.app)
  {
    DeletesIff(a, rule, now, rank);
    assert !Applies(SharedDigest, a, rule, now, rank);
    var i :| 0 <= i < |a.versions| && a.versions[i] == v;
    assert a.versions[0].date >= v.date;
    forall w | w in a.versions ensures AppGroup(w.app) == AppGroup(v.app) {
      var j :| 0 <= j < |a.versions| && a.versions[j] == w;
    }
  }
}
