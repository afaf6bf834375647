/** Carrying out any part of a plan and planning again yields exactly the rest of the plan. */
module Convergence {
  import opened Artifacts
  import opened Orders
  import opened Policy
  import opened Config
  import opened Engine
  import opened Retention
  import opened Planner
  import opened Planning

  /** Every listing with some artifacts gone and everything else as it was. */
  function Shrunk(lister: Lister, gone: set<string>): Lister {
    (name: string, t: nat) =>
      match lister(name, t)
      case None => None
      case Some(arts) => Some(Without(arts, gone))
  }

  ghost function ShrunkEvaluation(e: Evaluation, gone: set<string>): Evaluation {
    e.(decisions := Remaining(e.decisions, gone))
  }

  ghost function ShrunkAll(es: seq<Evaluation>, gone: set<string>): seq<Evaluation> {
    seq(|es|, x requires 0 <= x < |es| => ShrunkEvaluation(es[x], gone))
  }

  function RemainingActions(actions: seq<Action>, gone: set<string>): seq<Action> {
    if |actions| == 0 then []
    else
      var init, last := RemainingActions(actions[..|actions| - 1], gone), actions[|actions| - 1];
      if Key(last.artifact) in gone then init else init + [last]
  }

  /** What an evaluation must satisfy for the removal not to disturb it. */
  ghost predicate Removable(lib: Library, e: Evaluation, now: int, gone: set<string>)
    requires LibraryOk(lib)
  {
    && e.decisions == Decisions(lib.stableSort, ArtifactsOf(e.decisions), e.rule, now)
    && Reserve(e.rule) >= 1
    && CoherentListing(ArtifactsOf(e.decisions), e.rule.groupByApp)
    && VotedOut(e.decisions, gone)
  }

  ghost predicate AllRemovable(lib: Library, es: seq<Evaluation>, now: int, gone: set<string>)
    requires LibraryOk(lib)
  {
    forall x :: 0 <= x < |es| ==> Removable(lib, es[x], now, gone)
  }

  // One evaluation.

  lemma {:induction false} SameSurvivors(arts: seq<Artifact>, parsed: seq<Artifact>, gone: set<string>)
    requires |arts| == |parsed| && forall i :: 0 <= i < |arts| ==> Key(arts[i]) == Key(parsed[i])
    ensures Survivors(arts, gone) == Survivors(parsed, gone)
  {
    if |arts| > 0 {
      SameSurvivors(arts[..|arts| - 1], parsed[..|parsed| - 1], gone);
    }
  }

  /** Parsing commutes with removal. */
  lemma ParseThenRemove(lib: Library, arts: seq<Artifact>, tags: Tags, gone: set<string>)
    requires Sequence(ParseResults(lib, arts, tags)).Ok?
    ensures Sequence(ParseResults(lib, Without(arts, gone), tags))
            == Ok(Without(Sequence(ParseResults(lib, arts, tags)).value, gone))
  {
    var parsed, e := Sequence(ParseResults(lib, arts, tags)).value, Survivors(arts, gone);
    SequenceIff(ParseResults(lib, arts, tags));
    forall i | 0 <= i < |arts| ensures Key(arts[i]) == Key(parsed[i]) {
      assert ParseResults(lib, arts, tags)[i] == Ok(parsed[i]);
    }
    SameSurvivors(arts, parsed, gone);
    SurvivorsEmbed(arts, gone);
    SurvivorsEmbed(parsed, gone);
    forall k | 0 <= k < |e| ensures Parsed(lib, Without(arts, gone)[k], tags) == Ok(Without(parsed, gone)[k]) {
      assert ParseResults(lib, arts, tags)[e[k]] == Ok(parsed[e[k]]);
    }
    SequenceOf(ParseResults(lib, Without(arts, gone), tags), Without(parsed, gone));
  }

  /** Something is left of a non-empty listing. */
  lemma NeverEmptied(lib: Library, e: Evaluation, now: int, gone: set<string>)
    requires LibraryOk(lib) && Removable(lib, e, now, gone) && |e.decisions| > 0
    ensures |Remaining(e.decisions, gone)| > 0
  {
    var arts := ArtifactsOf(e.decisions);
    var i := SomethingIsKept(lib.stableSort, arts, e.rule, now);
    SurvivorsEmbed(arts, gone);
    RemainingAt(e.decisions, arts, gone);
    assert Key(arts[i]) !in gone;
    assert i in Survivors(arts, gone);
  }

  lemma TargetShrinks(lib: Library, name: string, p: PolicyConfig, rule: Rule, target: Target,
                      lister: Lister, t: nat, now: int, gone: set<string>)
    requires LibraryOk(lib)
    requires EvaluateTarget(lib, name, p, rule, target, lister(name, t), now).Ok?
    requires Removable(lib, EvaluateTarget(lib, name, p, rule, target, lister(name, t), now).value, now, gone)
    ensures EvaluateTarget(lib, name, p, rule, target, Shrunk(lister, gone)(name, t), now)
            == Ok(ShrunkEvaluation(EvaluateTarget(lib, name, p, rule, target, lister(name, t), now).value, gone))
  {
    var arts := lister(name, t).value;
    var e := EvaluateTarget(lib, name, p, rule, target, lister(name, t), now).value;
    var parsed := Sequence(ParseResults(lib, arts, p.tags)).value;
    SequenceIff(ParseResults(lib, arts, p.tags));
    assert ArtifactsOf(e.decisions) == parsed;
    ParseThenRemove(lib, arts, p.tags, gone);
    DecisionsSurviveRemoval(lib.stableSort, parsed, rule, now, gone);
    NeverEmptied(lib, e, now, gone);
    SequenceIff(ParseResults(lib, Without(arts, gone), p.tags));
    assert |Without(arts, gone)| == |Remaining(e.decisions, gone)|;
  }

  // All evaluations.

  lemma PolicyShrinks(lib: Library, name: string, p: PolicyConfig, rule: Rule, lister: Lister, now: int,
                      gone: set<string>)
    requires LibraryOk(lib) && EvaluatePolicy(lib, name, p, rule, lister, now).Ok?
    requires AllRemovable(lib, EvaluatePolicy(lib, name, p, rule, lister, now).value, now, gone)
    ensures EvaluatePolicy(lib, name, p, rule, Shrunk(lister, gone), now)
            == Ok(ShrunkAll(EvaluatePolicy(lib, name, p, rule, lister, now).value, gone))
  {
    var results := TargetResults(lib, name, p, rule, lister, now);
    var shrunk := TargetResults(lib, name, p, rule, Shrunk(lister, gone), now);
    var es := Sequence(results).value;
    SequenceIff(results);
    forall t | 0 <= t < |results| ensures shrunk[t] == Ok(ShrunkEvaluation(es[t], gone)) {
      assert results[t] == Ok(es[t]);
      TargetShrinks(lib, name, p, rule, p.targets[t], lister, t, now, gone);
    }
    SequenceOf(shrunk, ShrunkAll(es, gone));
  }

  lemma ShrunkConcat(lib: Library, a: seq<Evaluation>, b: seq<Evaluation>, now: int, gone: set<string>)
    requires LibraryOk(lib) && AllRemovable(lib, a + b, now, gone)
    ensures AllRemovable(lib, a, now, gone) && AllRemovable(lib, b, now, gone)
    ensures ShrunkAll(a + b, gone) == ShrunkAll(a, gone) + ShrunkAll(b, gone)
  {
    assert forall x :: 0 <= x < |a| ==> (a + b)[x] == a[x];
    assert forall x :: 0 <= x < |b| ==> (a + b)[|a| + x] == b[x];
  }

  lemma {:induction false} AllShrink(lib: Library, policies: map<string, PolicyConfig>, names: seq<string>,
                                     lister: Lister, now: int, gone: set<string>)
    requires LibraryOk(lib) && forall i :: 0 <= i < |names| ==> names[i] in policies
    requires EvaluateAll(lib, policies, names, lister, now).Ok?
    requires AllRemovable(lib, EvaluateAll(lib, policies, names, lister, now).value, now, gone)
    ensures EvaluateAll(lib, policies, names, Shrunk(lister, gone), now)
            == Ok(ShrunkAll(EvaluateAll(lib, policies, names, lister, now).value, gone))
  {
    if |names| == 0 {
      assert ShrunkAll([], gone) == [];
    } else {
      var init, name := names[..|names| - 1], names[|names| - 1];
      var rule := RuleOf(lib, policies[name]).value;
      var a := EvaluateAll(lib, policies, init, lister, now).value;
      var b := EvaluatePolicy(lib, name, policies[name], rule, lister, now).value;
      assert EvaluateAll(lib, policies, names, lister, now).value == a + b;
      ShrunkConcat(lib, a, b, now, gone);
      AllShrink(lib, policies, init, lister, now, gone);
      PolicyShrinks(lib, name, policies[name], rule, lister, now, gone);
    }
  }

  // Votes.

  function RemainingVotes(votes: seq<Vote>, gone: set<string>): seq<Vote> {
    if |votes| == 0 then []
    else
      var init, last := RemainingVotes(votes[..|votes| - 1], gone), votes[|votes| - 1];
      if last.key in gone then init else init + [last]
  }

  lemma {:induction false} RemainingVotesConcat(a: seq<Vote>, b: seq<Vote>, gone: set<string>)
    ensures RemainingVotes(a + b, gone) == RemainingVotes(a, gone) + RemainingVotes(b, gone)
  {
    if |b| == 0 {
      assert a + b == a;
    } else {
      assert (a + b)[..|a + b| - 1] == a + b[..|b| - 1];
      RemainingVotesConcat(a, b[..|b| - 1], gone);
    }
  }

  lemma {:induction false} VotesOfRemaining(policy: string, ds: seq<Decision>, gone: set<string>)
    ensures VotesOf(policy, Remaining(ds, gone)) == RemainingVotes(VotesOf(policy, ds), gone)
  {
    if |ds| > 0 {
      var init := ds[..|ds| - 1];
      VotesOfRemaining(policy, init, gone);
      assert VotesOf(policy, ds)[..|ds| - 1] == VotesOf(policy, init);
    }
  }

  lemma {:induction false} AllVotesShrink(es: seq<Evaluation>, gone: set<string>)
    ensures AllVotes(ShrunkAll(es, gone)) == RemainingVotes(AllVotes(es), gone)
  {
    if |es| > 0 {
      var init, e := es[..|es| - 1], es[|es| - 1];
      AllVotesShrink(init, gone);
      VotesOfRemaining(e.policy, e.decisions, gone);
      RemainingVotesConcat(AllVotes(init), VotesOf(e.policy, e.decisions), gone);
      assert ShrunkAll(es, gone)[..|es| - 1] == ShrunkAll(init, gone);
    }
  }

  lemma {:induction false} KeysShrink(votes: seq<Vote>, gone: set<string>)
    ensures SeenKeys(RemainingVotes(votes, gone)) == SeenKeys(votes) - gone
    ensures ProtectedKeys(RemainingVotes(votes, gone)) == ProtectedKeys(votes) - gone
  {
    if |votes| > 0 {
      var init, rest := votes[..|votes| - 1], RemainingVotes(votes, gone);
      KeysShrink(init, gone);
      SeenKeysStep(votes);
      if votes[|votes| - 1].key !in gone {
        SeenKeysStep(rest);
        assert rest[..|rest| - 1] == RemainingVotes(init, gone);
      }
    }
  }

  lemma {:induction false} LiveActionsShrink(votes: seq<Vote>, gone: set<string>)
    ensures LiveActions(RemainingVotes(votes, gone)) == LiveActions(votes) - gone
  {
    if |votes| > 0 {
      var init, last, rest := votes[..|votes| - 1], votes[|votes| - 1], RemainingVotes(votes, gone);
      LiveActionsShrink(init, gone);
      if last.key !in gone {
        assert rest[..|rest| - 1] == RemainingVotes(init, gone);
      }
    }
  }

  lemma AgreedShrinks(votes: seq<Vote>, gone: set<string>)
    requires gone <= UnanimousKeys(votes)
    ensures var rest := RemainingVotes(votes, gone);
            && Agreed(rest) == Agreed(votes) - gone
            && ProtectedKeys(rest) == ProtectedKeys(votes)
            && |SeenKeys(rest)| == |SeenKeys(votes)| - |gone|
  {
    KeysShrink(votes, gone);
    LiveActionsShrink(votes, gone);
    SweepLeavesAgreed(votes);
    SweepLeavesAgreed(RemainingVotes(votes, gone));
    SeenKeysSplit(votes);
    assert ProtectedKeys(votes) - gone == ProtectedKeys(votes);
    assert |SeenKeys(votes) - gone| == |SeenKeys(votes)| - |gone|;
  }

  // Limits.

  lemma {:induction false} CountsShrink(ds: seq<Decision>, scope: Scope, gone: set<string>)
    requires VotedOut(ds, gone)
    ensures Total(Remaining(ds, gone), scope) == Total(ds, scope) - Hits(ds, scope, gone)
    ensures Deleted(Remaining(ds, gone), scope) == Deleted(ds, scope) - Hits(ds, scope, gone)
    ensures Deleted(ds, scope) <= Total(ds, scope)
  {
    if |ds| > 0 {
      var init, last := ds[..|ds| - 1], ds[|ds| - 1];
      assert forall i :: 0 <= i < |init| ==> init[i] == ds[i];
      CountsShrink(init, scope, gone);
      if Key(last.artifact) in gone {
        assert last.delete && Remaining(ds, gone) == Remaining(init, gone);
      } else {
        CountsOfLast(Remaining(init, gone), last, scope);
        assert Remaining(ds, gone) == Remaining(init, gone) + [last];
      }
    }
  }

  lemma CountsOfLast(ds: seq<Decision>, d: Decision, scope: Scope)
    ensures Total(ds + [d], scope) == Total(ds, scope) + (if InScope(d.artifact, scope) then 1 else 0)
    ensures Deleted(ds + [d], scope) == Deleted(ds, scope) + (if d.delete && InScope(d.artifact, scope) then 1 else 0)
  {
    assert (ds + [d])[..|ds + [d]| - 1] == ds;
  }

  /** Taking deletions out of both sides never raises the rounded percentage. */
  lemma PercentShrinks(part: nat, total: nat, removed: nat)
    requires removed <= part <= total
    ensures Percent(part - removed, total - removed) <= Percent(part, total)
  {
    PercentNonNegative(part, total);
    if total - removed > 0 {
      var a, b, x := part as real, total as real, removed as real;
      FractionShrinks(a, b, x);
      var p, q := (a - x) * 10000.0 / (b - x), a * 10000.0 / b;
      assert p <= q;
      assert Percent(part - removed, total - removed) == Round(p) as real / 100.0;
      assert (p + 0.5).Floor <= (q + 0.5).Floor;
    }
  }

  lemma FractionShrinks(a: real, b: real, x: real)
    requires 0.0 <= x <= a <= b && x < b
    ensures 0.0 <= (a - x) * 10000.0 / (b - x) <= a * 10000.0 / b
  {
    assert x * a <= x * b;
    assert (a - x) * 10000.0 * b <= a * 10000.0 * (b - x);
    FractionsCompare((a - x) * 10000.0, b - x, a * 10000.0, b);
  }

  lemma FractionsCompare(a: real, b: real, c: real, d: real)
    requires a >= 0.0 && b > 0.0 && d > 0.0 && a * d <= c * b
    ensures 0.0 <= a / b <= c / d
  {
    var p, q := a / b, c / d;
    if p > q { PositiveProduct(p - q, b * d); }
    assert p * b == a && q * d == c;
    assert (p - q) * (b * d) == (p * b) * d - (q * d) * b;
  }

  lemma PositiveProduct(x: real, y: real)
    requires x > 0.0 && y > 0.0
    ensures x * y > 0.0
  {
  }

  lemma LimitsStillHold(e: Evaluation, gone: set<string>)
    requires VotedOut(e.decisions, gone) && WithinLimits(e)
    ensures WithinLimits(ShrunkEvaluation(e, gone))
  {
    var small := ShrunkEvaluation(e, gone);
    forall scope ensures Admits(small.rule, Deleted(small.decisions, scope), Total(small.decisions, scope)) {
      CountsShrink(e.decisions, scope, gone);
      assert Admits(e.rule, Deleted(e.decisions, scope), Total(e.decisions, scope));
      PercentShrinks(Deleted(e.decisions, scope), Total(e.decisions, scope), Hits(e.decisions, scope, gone));
    }
  }

  // The rest of the plan.

  lemma {:induction false} RemainingMembers(actions: seq<Action>, gone: set<string>)
    ensures forall a :: a in RemainingActions(actions, gone) <==> a in actions && Key(a.artifact) !in gone
  {
    if |actions| > 0 {
      RemainingMembers(actions[..|actions| - 1], gone);
      assert actions == actions[..|actions| - 1] + [actions[|actions| - 1]];
    }
  }

  lemma {:induction false} RemainingAscend(actions: seq<Action>, gone: set<string>)
    requires Ascending(ActionKeys(actions))
    ensures Ascending(ActionKeys(RemainingActions(actions, gone)))
  {
    if |actions| > 0 {
      var init, last := actions[..|actions| - 1], actions[|actions| - 1];
      assert ActionKeys(init) == ActionKeys(actions)[..|init|];
      RemainingAscend(init, gone);
      RemainingMembers(init, gone);
      var rest := RemainingActions(init, gone);
      forall i | 0 <= i < |rest| ensures Less(ActionKeys(rest)[i], Key(last.artifact)) {
        assert rest[i] in init;
        var j :| 0 <= j < |init| && init[j] == rest[i];
        assert Less(ActionKeys(actions)[j], ActionKeys(actions)[|actions| - 1]);
      }
      assert ActionKeys(rest + [last]) == ActionKeys(rest) + [Key(last.artifact)];
    }
  }

  lemma RemainingHasKeys(actions: seq<Action>, gone: set<string>, k: string)
    ensures k in ActionKeys(RemainingActions(actions, gone)) <==> k in ActionKeys(actions) && k !in gone
  {
    var rest := RemainingActions(actions, gone);
    RemainingMembers(actions, gone);
    if k in ActionKeys(rest) {
      var i :| 0 <= i < |rest| && ActionKeys(rest)[i] == k;
      assert rest[i] in actions;
      var j :| 0 <= j < |actions| && actions[j] == rest[i];
      assert ActionKeys(actions)[j] == k;
    }
    if k in ActionKeys(actions) && k !in gone {
      var j :| 0 <= j < |actions| && ActionKeys(actions)[j] == k;
      assert actions[j] in rest;
      var i :| 0 <= i < |rest| && rest[i] == actions[j];
      assert ActionKeys(rest)[i] == k;
    }
  }

  lemma ActionsShrink(all: map<string, Action>, gone: set<string>)
    requires forall k :: k in all ==> Key(all[k].artifact) == k
    ensures InKeyOrder(all - gone) == RemainingActions(InKeyOrder(all), gone)
  {
    var before, after := InKeyOrder(all), InKeyOrder(all - gone);
    var rest := RemainingActions(before, gone);
    InKeyOrderIs(all);
    InKeyOrderIs(all - gone);
    RemainingAscend(before, gone);
    RemainingMembers(before, gone);
    forall k ensures k in ActionKeys(rest) <==> k in ActionKeys(after) {
      RemainingHasKeys(before, gone, k);
    }
    AscendingIsUnique(ActionKeys(rest), ActionKeys(after));
    forall i | 0 <= i < |rest| ensures rest[i] == after[i] {
      assert rest[i] in before;
      assert ActionKeys(rest)[i] == ActionKeys(after)[i];
    }
  }

  lemma InKeyOrderIs(all: map<string, Action>)
    requires forall k :: k in all ==> Key(all[k].artifact) == k
    ensures var actions := InKeyOrder(all);
            && ActionKeys(actions) == Enumeration(all.Keys)
            && forall i :: 0 <= i < |actions| ==>
                Key(actions[i].artifact) in all && actions[i] == all[Key(actions[i].artifact)]
  {
    var names := Enumeration(all.Keys);
    assert forall i :: 0 <= i < |names| ==> names[i] in names;
  }

  lemma AgreedKeysMatch(es: seq<Evaluation>)
    ensures forall k :: k in Agreed(AllVotes(es)) ==> Key(Agreed(AllVotes(es))[k].artifact) == k
  {
    forall k | k in Agreed(AllVotes(es)) ensures Key(Agreed(AllVotes(es))[k].artifact) == k {
      var x, i := LastDecisionExists(es, k);
    }
  }

  lemma PlannedAreUnanimous(es: seq<Evaluation>, fingerprint: string, now: int)
    requires Conclude(es, fingerprint, now).Ok?
    ensures PlannedKeys(Conclude(es, fingerprint, now).value) == UnanimousKeys(AllVotes(es))
  {
    PlanActions(es, fingerprint, now);
  }

  lemma PlanShrinks(votes: seq<Vote>, fingerprint: string, now: int, gone: set<string>)
    requires gone <= UnanimousKeys(votes) && forall k :: k in Agreed(votes) ==> Key(Agreed(votes)[k].artifact) == k
    ensures var p := PlanFrom(votes, fingerprint, now);
            PlanFrom(RemainingVotes(votes, gone), fingerprint, now)
            == p.(actions := RemainingActions(p.actions, gone), discovered := p.discovered - |gone|)
  {
    AgreedShrinks(votes, gone);
    ActionsShrink(Agreed(votes), gone);
  }

  lemma ConclusionShrinks(es: seq<Evaluation>, fingerprint: string, now: int, gone: set<string>)
    requires Conclude(es, fingerprint, now).Ok?
    requires gone <= PlannedKeys(Conclude(es, fingerprint, now).value)
    ensures var p := Conclude(es, fingerprint, now).value;
            Conclude(ShrunkAll(es, gone), fingerprint, now)
            == Ok(p.(actions := RemainingActions(p.actions, gone), discovered := p.discovered - |gone|))
  {
    PlannedAreUnanimous(es, fingerprint, now);
    AgreedKeysMatch(es);
    PlanShrinks(AllVotes(es), fingerprint, now, gone);
    AllVotesShrink(es, gone);
    AllLimitsStillHold(es, fingerprint, now, gone);
  }

  lemma AllLimitsStillHold(es: seq<Evaluation>, fingerprint: string, now: int, gone: set<string>)
    requires Conclude(es, fingerprint, now).Ok?
    requires gone <= PlannedKeys(Conclude(es, fingerprint, now).value)
    ensures AllWithinLimits(ShrunkAll(es, gone))
  {
    forall x | 0 <= x < |es| ensures WithinLimits(ShrunkAll(es, gone)[x]) {
      PlannedWereVotedOut(es, fingerprint, now, x, gone);
      LimitsStillHold(es[x], gone);
    }
  }

  /** The groups of every evaluation are ranked consistently. */
  ghost predicate AllCoherent(es: seq<Evaluation>) {
    forall e :: e in es ==> CoherentListing(ArtifactsOf(e.decisions), e.rule.groupByApp)
  }

  /** Resumability. After any part of a plan has been carried out, planning again at the same instant
      succeeds and plans exactly the rest: same actions, same order, same reasons, same protected count. */
  lemma Resumable(lib: Library, registries: set<string>, policies: map<string, PolicyConfig>, fingerprint: string,
                  lister: Lister, now: int, gone: set<string>)
    requires LibraryOk(lib) && Validated(lib, registries, policies)
    requires PlanOf(lib, policies, fingerprint, lister, now).Ok?
    requires AllCoherent(Evaluations(lib, policies, lister, now).value)
    requires gone <= PlannedKeys(PlanOf(lib, policies, fingerprint, lister, now).value)
    ensures var p := PlanOf(lib, policies, fingerprint, lister, now).value;
            PlanOf(lib, policies, fingerprint, Shrunk(lister, gone), now)
            == Ok(p.(actions := RemainingActions(p.actions, gone), discovered := p.discovered - |gone|))
  {
    var names := Enumeration(policies.Keys);
    assert forall i :: 0 <= i < |names| ==> names[i] in names;
    PlannedIsRemovable(lib, registries, policies, fingerprint, lister, now, gone);
    AllShrink(lib, policies, names, lister, now, gone);
    ConclusionShrinks(Evaluations(lib, policies, lister, now).value, fingerprint, now, gone);
  }

  lemma PlannedIsRemovable(lib: Library, registries: set<string>, policies: map<string, PolicyConfig>,
                           fingerprint: string, lister: Lister, now: int, gone: set<string>)
    requires LibraryOk(lib) && Validated(lib, registries, policies)
    requires PlanOf(lib, policies, fingerprint, lister, now).Ok?
    requires AllCoherent(Evaluations(lib, policies, lister, now).value)
    requires gone <= PlannedKeys(PlanOf(lib, policies, fingerprint, lister, now).value)
    ensures AllRemovable(lib, Evaluations(lib, policies, lister, now).value, now, gone)
  {
    var es := Evaluations(lib, policies, lister, now).value;
    EvaluationsAreGenuine(lib, policies, lister, now);
    forall x | 0 <= x < |es| ensures Removable(lib, es[x], now, gone) {
      assert es[x] in es;
      assert Genuine(lib, policies, es[x], now) && !Breaks(lib, registries, policies[es[x].policy], Fault.KeepAtLeast);
      PlannedWereVotedOut(es, fingerprint, now, x, gone);
    }
  }

  /** Convergence: once the whole plan has been carried out there is nothing left to plan. */
  lemma Converges(lib: Library, registries: set<string>, policies: map<string, PolicyConfig>, fingerprint: string,
                  lister: Lister, now: int)
    requires LibraryOk(lib) && Validated(lib, registries, policies)
    requires PlanOf(lib, policies, fingerprint, lister, now).Ok?
    requires AllCoherent(Evaluations(lib, policies, lister, now).value)
    ensures var p := PlanOf(lib, policies, fingerprint, lister, now).value;
            var again := PlanOf(lib, policies, fingerprint, Shrunk(lister, PlannedKeys(p)), now);
            again.Ok? && again.value.actions == []
  {
    var p := PlanOf(lib, policies, fingerprint, lister, now).value;
    Resumable(lib, registries, policies, fingerprint, lister, now, PlannedKeys(p));
    forall i | 0 <= i < |p.actions| ensures Key(p.actions[i].artifact) in PlannedKeys(p) {
      assert ActionKeys(p.actions)[i] == Key(p.actions[i].artifact);
    }
    NothingRemains(p.actions, PlannedKeys(p));
  }

  lemma {:induction false} NothingRemains(actions: seq<Action>, gone: set<string>)
    requires forall i :: 0 <= i < |actions| ==> Key(actions[i].artifact) in gone
    ensures RemainingActions(actions, gone) == []
  {
    if |actions| > 0 {
      NothingRemains(actions[..|actions| - 1], gone);
    }
  }
}
