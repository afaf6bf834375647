/** The planner as the source runs it: maps that are inserted into, overwritten and deleted from while the
    policies are walked, proved to compute the declarative plan of `Engine.PlanOf`. */
module Planner {
  import opened Artifacts
  import opened Orders
  import opened Policy
  import opened Config
  import opened Engine

  /** What the source keeps of one evaluation for the limit check. */
  datatype Limit = Limit(policy: string, total: nat, deletes: nat, rule: Rule,
                         repositoryTotals: map<string, nat>, repositoryDeletes: map<string, nat>)

  function Count(m: map<string, nat>, k: string): nat { if k in m then m[k] else 0 }

  ghost predicate Counts(l: Limit, ds: seq<Decision>) {
    && l.total == Total(ds, Everything)
    && l.deletes == Deleted(ds, Everything)
    && (forall r :: Count(l.repositoryTotals, r) == Total(ds, Repository(r)))
    && (forall r :: Count(l.repositoryDeletes, r) == Deleted(ds, Repository(r)))
  }

  ghost predicate Describes(l: Limit, e: Evaluation) {
    l.policy == e.policy && l.rule == e.rule && Counts(l, e.decisions)
  }

  method CountDecision(l: Limit, d: Decision, ghost ds: seq<Decision>) returns (r: Limit)
    requires Counts(l, ds)
    ensures Counts(r, ds + [d]) && r.policy == l.policy && r.rule == l.rule
  {
    assert (ds + [d])[..|ds + [d]| - 1] == ds;
    var repository := d.artifact.repository;
    r := l.(total := l.total + 1,
            repositoryTotals := l.repositoryTotals[repository := Count(l.repositoryTotals, repository) + 1]);
    if d.delete {
      r := r.(deletes := l.deletes + 1,
              repositoryDeletes := l.repositoryDeletes[repository := Count(l.repositoryDeletes, repository) + 1]);
    }
  }

  /** The `actions` map while votes arrive: a delete vote inserts or overwrites, any other vote removes. */
  function LiveActions(votes: seq<Vote>): map<string, Action> {
    if |votes| == 0 then map[]
    else
      var init, last := LiveActions(votes[..|votes| - 1]), votes[|votes| - 1];
      if last.delete then init[last.key := last.action] else init - {last.key}
  }

  /** The live actions are the keys whose last vote is to delete, with the action of that vote. */
  lemma {:induction false} LiveActionsAre(votes: seq<Vote>)
    ensures forall k :: k in LiveActions(votes) <==> k in SeenKeys(votes) && LastVote(votes, k).delete
    ensures forall k :: k in LiveActions(votes) ==> LiveActions(votes)[k] == LastVote(votes, k).action
  {
    if |votes| > 0 {
      var init, last := votes[..|votes| - 1], votes[|votes| - 1];
      LiveActionsAre(init);
      SeenKeysStep(votes);
    }
  }

  lemma SeenKeysStep(votes: seq<Vote>)
    requires |votes| > 0
    ensures var init, last := votes[..|votes| - 1], votes[|votes| - 1];
            && SeenKeys(votes) == SeenKeys(init) + {last.key}
            && ProtectedKeys(votes) == ProtectedKeys(init) + (if last.delete then {} else {last.key})
  {
    var init, last := votes[..|votes| - 1], votes[|votes| - 1];
    forall k | k in SeenKeys(init) ensures k in SeenKeys(votes) {
      var i :| 0 <= i < |init| && init[i].key == k;
      assert votes[i].key == k;
    }
    forall k | k in ProtectedKeys(init) ensures k in ProtectedKeys(votes) {
      var i :| 0 <= i < |init| && !init[i].delete && init[i].key == k;
      assert votes[i] == init[i];
    }
    forall k | k in SeenKeys(votes) ensures k in SeenKeys(init) + {last.key} {
      var i :| 0 <= i < |votes| && votes[i].key == k;
      if i < |init| { assert init[i] == votes[i]; }
    }
    forall k | k in ProtectedKeys(votes) ensures k in ProtectedKeys(init) + (if last.delete then {} else {last.key}) {
      var i :| 0 <= i < |votes| && !votes[i].delete && votes[i].key == k;
      if i < |init| { assert init[i] == votes[i]; }
    }
  }

  lemma {:induction false} LastVoteIsAVote(votes: seq<Vote>, k: string)
    requires k in SeenKeys(votes)
    ensures exists i :: 0 <= i < |votes| && votes[i] == LastVote(votes, k) && votes[i].key == k
  {
    var n := |votes| - 1;
    if votes[n].key != k {
      SeenEarlier(votes, k);
      LastVoteIsAVote(votes[..n], k);
      var i :| 0 <= i < n && votes[..n][i] == LastVote(votes[..n], k) && votes[..n][i].key == k;
      assert votes[i] == LastVote(votes, k);
    }
  }

  /** Removing the protected keys from the live actions leaves the agreed deletions. */
  lemma SweepLeavesAgreed(votes: seq<Vote>)
    ensures LiveActions(votes) - ProtectedKeys(votes) == Agreed(votes)
  {
    var swept, agreed := LiveActions(votes) - ProtectedKeys(votes), Agreed(votes);
    LiveActionsAre(votes);
    forall k ensures k in swept <==> k in agreed {
      if k in SeenKeys(votes) {
        LastVoteIsAVote(votes, k);
        assert k in ProtectedKeys(votes) <==> exists i :: 0 <= i < |votes| && !votes[i].delete && votes[i].key == k;
      }
    }
  }

  /** The local state of `Plan`. */
  class Tally {
    var actions: map<string, Action>
    var protected: set<string>
    var discovered: set<string>
    var limits: seq<Limit>

    constructor ()
      ensures Reflects([]) && fresh(this)
    {
      actions, protected, discovered, limits := map[], {}, {}, [];
    }

    ghost predicate Holds(votes: seq<Vote>)
      reads this
    {
      && actions == LiveActions(votes)
      && protected == ProtectedKeys(votes)
    }

    /** The state after some evaluations. */
    ghost predicate Reflects(es: seq<Evaluation>)
      reads this
    {
      && Holds(AllVotes(es))
      && discovered == SeenKeys(AllVotes(es))
      && |limits| == |es|
      && forall i :: 0 <= i < |es| ==> Describes(limits[i], es[i])
    }

    /** One decision: a vote on a key. */
    method Record(policy: string, d: Decision, ghost votes: seq<Vote>)
      requires Holds(votes)
      modifies this`actions, this`protected
      ensures Holds(votes + [VoteOf(policy, d)])
    {
      var key := Key(d.artifact);
      ghost var more := votes + [VoteOf(policy, d)];
      SeenKeysStep(more);
      assert more[..|more| - 1] == votes;
      if !d.delete {
        protected := protected + {key};
        actions := actions - {key};
      } else {
        actions := actions[key := Action(policy, d.reasons, d.artifact)];
      }
    }

    /** All decisions of one evaluation, with the counts its limits need. */
    method RecordAll(policy: string, rule: Rule, ds: seq<Decision>, ghost es: seq<Evaluation>)
      requires Holds(AllVotes(es))
      requires |limits| == |es| && forall i :: 0 <= i < |es| ==> Describes(limits[i], es[i])
      modifies this`actions, this`protected, this`limits
      ensures Holds(AllVotes(es + [Evaluation(policy, rule, ds)]))
      ensures |limits| == |es| + 1
      ensures forall i :: 0 <= i < |limits| ==> Describes(limits[i], (es + [Evaluation(policy, rule, ds)])[i])
    {
      var limit := Limit(policy, 0, 0, rule, map[], map[]);
      ghost var before := AllVotes(es);
      assert before + VotesOf(policy, ds[..0]) == before;
      for i := 0 to |ds|
        invariant Holds(before + VotesOf(policy, ds[..i]))
        invariant Counts(limit, ds[..i]) && limit.policy == policy && limit.rule == rule
        invariant limits == old(limits)
      {
        assert ds[..i + 1] == ds[..i] + [ds[i]];
        assert before + VotesOf(policy, ds[..i + 1]) == before + VotesOf(policy, ds[..i]) + [VoteOf(policy, ds[i])];
        Record(policy, ds[i], before + VotesOf(policy, ds[..i]));
        limit := CountDecision(limit, ds[i], ds[..i]);
      }
      assert ds[..|ds|] == ds;
      ghost var e := Evaluation(policy, rule, ds);
      assert (es + [e])[..|es|] == es;
      limits := limits + [limit];
    }

    /** Parse a listing, noting every key that was discovered. */
    method ParseListing(lib: Library, arts: seq<Artifact>, tags: Tags) returns (r: Result<seq<Artifact>, ()>)
      modifies this`discovered
      ensures r == Sequence(ParseResults(lib, arts, tags))
      ensures r.Ok? ==> discovered == old(discovered) + Keys(r.value)
    {
      ghost var results := ParseResults(lib, arts, tags);
      var parsed: seq<Artifact> := [];
      for i := 0 to |arts|
        invariant Sequence(results[..i]) == Ok(parsed)
        invariant discovered == old(discovered) + Keys(parsed)
      {
        SequenceStep(results, i, parsed);
        var a := ParseArtifact(lib, arts[i], tags);
        if a.Err? {
          return Err(());
        }
        assert Keys(parsed + [a.value]) == Keys(parsed) + {Key(a.value)};
        parsed := parsed + [a.value];
        discovered := discovered + {Key(a.value)};
      }
      assert results[..|arts|] == results;
      r := Ok(parsed);
    }

    /** One target: parse what was listed, evaluate it, record the votes. */
    method AddTarget(lib: Library, name: string, p: PolicyConfig, rule: Rule, target: Target,
                     listing: Option<seq<Artifact>>, now: int, ghost es: seq<Evaluation>)
      returns (error: Option<PlanError>)
      requires LibraryOk(lib) && Reflects(es)
      modifies this
      ensures match EvaluateTarget(lib, name, p, rule, target, listing, now)
              case Err(e) => error == Some(e)
              case Ok(e) => error == None && Reflects(es + [e])
    {
      if listing.None? {
        return Some(DiscoveryFailed(name, target.registry));
      }
      if |listing.value| == 0 {
        return Some(NothingDiscovered(name, target.registry));
      }
      var parsed := ParseListing(lib, listing.value, p.tags);
      if parsed.Err? {
        return Some(BadParser(name));
      }
      var ds := Evaluate(lib.stableSort, parsed.value, rule, now);
      RecordAll(name, rule, ds, es);
      ghost var e := Evaluation(name, rule, ds);
      assert (es + [e])[..|es|] == es;
      SeenAfter(AllVotes(es), name, ds, parsed.value);
      error := None;
    }

    method AddPolicy(lib: Library, name: string, p: PolicyConfig, rule: Rule, lister: Lister, now: int,
                     ghost es: seq<Evaluation>) returns (error: Option<PlanError>)
      requires LibraryOk(lib) && Reflects(es)
      modifies this
      ensures match EvaluatePolicy(lib, name, p, rule, lister, now)
              case Err(e) => error == Some(e)
              case Ok(more) => error == None && Reflects(es + more)
    {
      ghost var results := TargetResults(lib, name, p, rule, lister, now);
      ghost var more: seq<Evaluation> := [];
      assert es + more == es;
      for t := 0 to |p.targets|
        invariant Sequence(results[..t]) == Ok(more)
        invariant Reflects(es + more)
      {
        SequenceStep(results, t, more);
        error := AddTarget(lib, name, p, rule, p.targets[t], lister(name, t), now, es + more);
        if error.Some? {
          return;
        }
        assert es + more + [results[t].value] == es + (more + [results[t].value]);
        more := more + [results[t].value];
      }
      assert results[..|p.targets|] == results;
      error := None;
    }

    /** One policy: its rule and then its targets. */
    method AddNamed(lib: Library, policies: map<string, PolicyConfig>, name: string, lister: Lister, now: int,
                    ghost es: seq<Evaluation>) returns (error: Option<PlanError>)
      requires LibraryOk(lib) && name in policies && Reflects(es)
      modifies this
      ensures match PolicyResult(lib, policies, name, lister, now)
              case Err(e) => error == Some(e)
              case Ok(more) => error == None && Reflects(es + more)
    {
      var rule := BuildRule(lib, policies[name]);
      if rule.None? {
        return Some(BadRule(name));
      }
      error := AddPolicy(lib, name, policies[name], rule.value, lister, now, es);
    }
  }

  lemma SeenAfter(votes: seq<Vote>, policy: string, ds: seq<Decision>, arts: seq<Artifact>)
    requires |ds| == |arts| && forall i :: 0 <= i < |ds| ==> ds[i].artifact == arts[i]
    ensures SeenKeys(votes + VotesOf(policy, ds)) == SeenKeys(votes) + Keys(arts)
  {
    var more := VotesOf(policy, ds);
    forall k ensures k in SeenKeys(votes + more) <==> k in SeenKeys(votes) + Keys(arts) {
      if k in SeenKeys(votes + more) {
        var i :| 0 <= i < |votes + more| && (votes + more)[i].key == k;
        if i < |votes| { assert votes[i].key == k; } else { assert Key(arts[i - |votes|]) == k; }
      }
      if k in SeenKeys(votes) {
        var i :| 0 <= i < |votes| && votes[i].key == k;
        assert (votes + more)[i].key == k;
      }
      if k in Keys(arts) {
        var a :| a in arts && Key(a) == k;
        var i :| 0 <= i < |arts| && arts[i] == a;
        assert (votes + more)[|votes| + i].key == k;
      }
    }
  }

  lemma {:induction false} FailuresPersist(lib: Library, policies: map<string, PolicyConfig>, names: seq<string>,
                                           lister: Lister, now: int, n: nat)
    requires LibraryOk(lib) && n <= |names| && forall i :: 0 <= i < |names| ==> names[i] in policies
    requires EvaluateAll(lib, policies, names[..n], lister, now).Err?
    ensures EvaluateAll(lib, policies, names, lister, now) == EvaluateAll(lib, policies, names[..n], lister, now)
  {
    if n < |names| {
      var init := names[..|names| - 1];
      assert init[..n] == names[..n];
      FailuresPersist(lib, policies, init, lister, now, n);
    } else {
      assert names[..n] == names;
    }
  }

  lemma NamesStep(lib: Library, policies: map<string, PolicyConfig>, names: seq<string>, lister: Lister, now: int,
                  n: nat, es: seq<Evaluation>)
    requires LibraryOk(lib) && n < |names| && forall i :: 0 <= i < |names| ==> names[i] in policies
    requires EvaluateAll(lib, policies, names[..n], lister, now) == Ok(es)
    ensures var next := PolicyResult(lib, policies, names[n], lister, now);
            && (next.Ok? ==> EvaluateAll(lib, policies, names[..n + 1], lister, now) == Ok(es + next.value))
            && (next.Err? ==> EvaluateAll(lib, policies, names, lister, now) == Err(next.error))
  {
    assert names[..n + 1][..n] == names[..n];
    if PolicyResult(lib, policies, names[n], lister, now).Err? {
      FailuresPersist(lib, policies, names, lister, now, n + 1);
    }
  }

  // The limit check.

  method CheckLimit(l: Limit, ghost e: Evaluation) returns (ok: bool)
    requires Describes(l, e)
    ensures ok <==> WithinLimits(e)
  {
    ok := Admits(l.rule, l.deletes, l.total);
    if !ok {
      assert !Admits(e.rule, Deleted(e.decisions, Everything), Total(e.decisions, Everything));
      return;
    }
    var todo := l.repositoryDeletes.Keys;
    while todo != {}
      invariant todo <= l.repositoryDeletes.Keys
      invariant forall r :: r in l.repositoryDeletes.Keys - todo ==>
                  Admits(e.rule, Deleted(e.decisions, Repository(r)), Total(e.decisions, Repository(r)))
      decreases todo
    {
      var r :| r in todo;
      assert Count(l.repositoryDeletes, r) == Deleted(e.decisions, Repository(r));
      assert Count(l.repositoryTotals, r) == Total(e.decisions, Repository(r));
      if !Admits(l.rule, l.repositoryDeletes[r], Count(l.repositoryTotals, r)) {
        return false;
      }
      todo := todo - {r};
    }
    forall scope ensures Admits(e.rule, Deleted(e.decisions, scope), Total(e.decisions, scope)) {
      if scope.Repository? && scope.name !in l.repositoryDeletes {
        assert Count(l.repositoryDeletes, scope.name) == Deleted(e.decisions, scope);
        NothingDeletedIsAdmitted(e.rule, l.deletes, l.total, Total(e.decisions, scope));
      }
    }
  }

  lemma PercentOfNothing(total: nat)
    ensures Percent(0, total) == 0.0
  {
    if total > 0 {
      assert 0.0 * 10000.0 / total as real == 0.0;
    }
  }

  lemma PercentNonNegative(part: nat, total: nat)
    ensures Percent(part, total) >= 0.0
  {
    if total > 0 {
      assert part as real * 10000.0 / total as real >= 0.0;
    }
  }

  lemma NothingDeletedIsAdmitted(rule: Rule, deletes: nat, total: nat, other: nat)
    requires Admits(rule, deletes, total)
    ensures Admits(rule, 0, other)
  {
    PercentOfNothing(other);
    PercentNonNegative(deletes, total);
  }

  method CheckLimits(limits: seq<Limit>, ghost es: seq<Evaluation>) returns (offender: Option<string>)
    requires |limits| == |es| && forall i :: 0 <= i < |es| ==> Describes(limits[i], es[i])
    ensures AllWithinLimits(es) ==> offender == None
    ensures !AllWithinLimits(es) ==> offender == Some(FirstOffender(es))
  {
    for i := 0 to |limits|
      invariant forall j :: 0 <= j < i ==> WithinLimits(es[j])
    {
      var ok := CheckLimit(limits[i], es[i]);
      if !ok {
        FirstOffenderAt(es, i);
        return Some(limits[i].policy);
      }
    }
    offender := None;
  }

  lemma {:induction false} FirstOffenderAt(es: seq<Evaluation>, i: nat)
    requires i < |es| && !WithinLimits(es[i]) && forall j :: 0 <= j < i ==> WithinLimits(es[j])
    ensures FirstOffender(es) == es[i].policy
  {
    if i > 0 {
      assert es[1..][i - 1] == es[i];
      FirstOffenderAt(es[1..], i - 1);
    }
  }

  // The whole of Plan.

  method Plan(lib: Library, policies: map<string, PolicyConfig>, fingerprint: string, lister: Lister, now: int)
    returns (r: Result<Engine.Plan, PlanError>)
    requires LibraryOk(lib)
    ensures r == PlanOf(lib, policies, fingerprint, lister, now)
  {
    var tally := new Tally();
    var names := SortedKeys(policies.Keys);
    AscendingIsUnique(names, Enumeration(policies.Keys));
    assert forall i :: 0 <= i < |names| ==> names[i] in names;
    ghost var es: seq<Evaluation> := [];
    for n := 0 to |names|
      invariant EvaluateAll(lib, policies, names[..n], lister, now) == Ok(es)
      invariant tally.Reflects(es)
    {
      ghost var next := PolicyResult(lib, policies, names[n], lister, now);
      NamesStep(lib, policies, names, lister, now, n, es);
      var error := tally.AddNamed(lib, policies, names[n], lister, now, es);
      if error.Some? {
        return Err(error.value);
      }
      es := es + next.value;
    }
    assert names[..|names|] == names;
    r := Finish(tally, fingerprint, now, es);
  }

  method Finish(tally: Tally, fingerprint: string, now: int, ghost es: seq<Evaluation>)
    returns (r: Result<Engine.Plan, PlanError>)
    requires tally.Reflects(es)
    modifies tally
    ensures r == Conclude(es, fingerprint, now)
  {
    SweepLeavesAgreed(AllVotes(es));
    var todo := tally.protected;
    assert tally.actions - (tally.protected - todo) == tally.actions;
    while todo != {}
      invariant todo <= tally.protected
      invariant tally.actions == LiveActions(AllVotes(es)) - (tally.protected - todo)
      invariant tally.protected == old(tally.protected)
      invariant tally.discovered == old(tally.discovered) && tally.limits == old(tally.limits)
      decreases todo
    {
      var key :| key in todo;
      tally.actions := tally.actions - {key};
      todo := todo - {key};
    }
    assert tally.protected - todo == tally.protected;
    var offender := CheckLimits(tally.limits, es);
    if offender.Some? {
      return Err(LimitExceeded(offender.value));
    }
    var actions := ActionsInKeyOrder(tally.actions);
    r := Ok(Engine.Plan(FORMAT_VERSION, now, now + HOUR, fingerprint, actions, |tally.discovered|, |tally.protected|));
  }

  method ActionsInKeyOrder(actions: map<string, Action>) returns (r: seq<Action>)
    ensures r == InKeyOrder(actions)
  {
    var names := SortedKeys(actions.Keys);
    AscendingIsUnique(names, Enumeration(actions.Keys));
    r := [];
    for i := 0 to |names|
      invariant |r| == i
      invariant forall j :: 0 <= j < i ==> names[j] in actions && r[j] == actions[names[j]]
    {
      assert names[i] in names;
      r := r + [actions[names[i]]];
    }
  }
}
