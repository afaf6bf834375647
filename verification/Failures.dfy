/** When planning fails, and with which error: the first thing that goes wrong in the order of the targets, and after
    all targets the first listing whose deletions exceed its limits. */
module Failures {
  import opened Artifacts
  import opened Orders
  import opened Policy
  import opened Config
  import opened Engine
  import opened Limits
  import opened Listings

  /** The listing of this target is there, is not empty and can be parsed. */
  ghost predicate TargetWorks(policies: map<string, PolicyConfig>, lister: Lister, a: Site)
    requires Configured(policies, a)
  {
    var parser := policies[a.policy].tags.parser;
    && lister(a.policy, a.target).Some? && Listing(lister, a) != []
    && (parser == "calendar" || parser == "custom_regex"
        || forall raw :: raw in Listing(lister, a) ==> raw.tags == [])
  }

  /** The error of a target whose listing is not. */
  function TargetError(policies: map<string, PolicyConfig>, lister: Lister, a: Site): PlanError
    requires Configured(policies, a)
  {
    var registry := policies[a.policy].targets[a.target].registry;
    if lister(a.policy, a.target).None? then DiscoveryFailed(a.policy, registry)
    else if Listing(lister, a) == [] then NothingDiscovered(a.policy, registry)
    else BadParser(a.policy)
  }

  /** The protected patterns of a policy compile. */
  ghost predicate Compiles(lib: Library, p: PolicyConfig) {
    forall expression :: expression in p.tagPatterns ==> lib.compile(expression).Some?
  }

  ghost predicate PolicyWorks(lib: Library, policies: map<string, PolicyConfig>, lister: Lister, name: string)
    requires name in policies
  {
    && Compiles(lib, policies[name])
    && forall t: nat :: t < |policies[name].targets| ==> TargetWorks(policies, lister, Site(name, t))
  }

  /** This target is the first of its policy that does not work. */
  ghost predicate FirstToFail(policies: map<string, PolicyConfig>, lister: Lister, name: string, t: nat)
    requires name in policies && t < |policies[name].targets|
  {
    && !TargetWorks(policies, lister, Site(name, t))
    && forall u: nat :: u < t ==> TargetWorks(policies, lister, Site(name, u))
  }

  ghost predicate PolicyFailsWith(lib: Library, policies: map<string, PolicyConfig>, lister: Lister, name: string,
                                  e: PlanError)
    requires name in policies
  {
    if !Compiles(lib, policies[name]) then e == BadRule(name)
    else
      exists t: nat :: t < |policies[name].targets| && FirstToFail(policies, lister, name, t)
                       && e == TargetError(policies, lister, Site(name, t))
  }

  /** The policies before this one work, and this one fails with the error. */
  ghost predicate RunFailsWith(lib: Library, policies: map<string, PolicyConfig>, lister: Lister, e: PlanError) {
    exists name :: name in policies && PolicyFailsWith(lib, policies, lister, name, e)
                   && forall n :: n in policies && Less(n, name) ==> PolicyWorks(lib, policies, lister, n)
  }

  // Targets, policies and runs.

  lemma TargetOutcome(lib: Library, policies: map<string, PolicyConfig>, lister: Lister, now: int, a: Site, rule: Rule)
    requires LibraryOk(lib) && Configured(policies, a)
    ensures var p := policies[a.policy];
            var r := EvaluateTarget(lib, a.policy, p, rule, p.targets[a.target], lister(a.policy, a.target), now);
            && (r.Ok? <==> TargetWorks(policies, lister, a))
            && (r.Err? ==> r.error == TargetError(policies, lister, a))
  {
    var arts, tags := Listing(lister, a), policies[a.policy].tags;
    var results := ParseResults(lib, arts, tags);
    SequenceIff(results);
    if !KnownParser(tags) {
      forall raw | raw in arts ensures Sequence(results).Ok? ==> raw.tags == [] {
        var i :| 0 <= i < |arts| && arts[i] == raw;
        assert results[i].Ok? <==> raw.tags == [];
      }
    }
  }

  lemma {:induction false} FirstError<T, E>(rs: seq<Result<T, E>>) returns (n: nat)
    requires Sequence(rs).Err?
    ensures n < |rs| && rs[n] == Err(Sequence(rs).error) && forall i :: 0 <= i < n ==> rs[i].Ok?
  {
    var init := rs[..|rs| - 1];
    if Sequence(init).Err? {
      n := FirstError(init);
    } else {
      n := |rs| - 1;
      SequenceIff(init);
      assert forall i :: 0 <= i < n ==> init[i] == rs[i];
    }
  }

  lemma CompilesIff(lib: Library, p: PolicyConfig)
    ensures RuleOf(lib, p).Some? <==> Compiles(lib, p)
  {
    RuleCarries(lib, p);
    forall expression | expression in p.tagPatterns && RuleOf(lib, p).Some? ensures lib.compile(expression).Some? {
      var i :| 0 <= i < |p.tagPatterns| && p.tagPatterns[i] == expression;
    }
  }

  lemma TargetOutcomes(lib: Library, policies: map<string, PolicyConfig>, lister: Lister, now: int, name: string,
                       rule: Rule)
    requires LibraryOk(lib) && name in policies
    ensures var results := TargetResults(lib, name, policies[name], rule, lister, now);
            && |results| == |policies[name].targets|
            && (forall t: nat :: t < |results| ==> (results[t].Ok? <==> TargetWorks(policies, lister, Site(name, t))))
            && (forall t: nat :: t < |results| && results[t].Err? ==>
                  results[t].error == TargetError(policies, lister, Site(name, t)))
  {
    var results := TargetResults(lib, name, policies[name], rule, lister, now);
    forall t: nat | t < |results|
      ensures results[t].Ok? <==> TargetWorks(policies, lister, Site(name, t))
      ensures results[t].Err? ==> results[t].error == TargetError(policies, lister, Site(name, t))
    {
      TargetOutcome(lib, policies, lister, now, Site(name, t), rule);
    }
  }

  lemma PolicyOutcome(lib: Library, policies: map<string, PolicyConfig>, lister: Lister, now: int, name: string)
    requires LibraryOk(lib) && name in policies
    ensures var r := PolicyResult(lib, policies, name, lister, now);
            && (r.Ok? <==> PolicyWorks(lib, policies, lister, name))
            && (r.Err? ==> PolicyFailsWith(lib, policies, lister, name, r.error))
  {
    CompilesIff(lib, policies[name]);
    if Compiles(lib, policies[name]) {
      var rule := RuleOf(lib, policies[name]).value;
      var results := TargetResults(lib, name, policies[name], rule, lister, now);
      TargetOutcomes(lib, policies, lister, now, name, rule);
      SequenceIff(results);
      if Sequence(results).Err? {
        var t := FirstError(results);
        assert FirstToFail(policies, lister, name, t);
      }
    }
  }

  /** A policy fails with at most one error, and only when it does not work. */
  lemma OneError(lib: Library, policies: map<string, PolicyConfig>, lister: Lister, name: string, e: PlanError,
                 f: PlanError)
    requires name in policies
    requires PolicyFailsWith(lib, policies, lister, name, e) && PolicyFailsWith(lib, policies, lister, name, f)
    ensures e == f && !PolicyWorks(lib, policies, lister, name)
  {
    if Compiles(lib, policies[name]) {
      var t: nat :| t < |policies[name].targets| && FirstToFail(policies, lister, name, t)
                    && e == TargetError(policies, lister, Site(name, t));
      var u: nat :| u < |policies[name].targets| && FirstToFail(policies, lister, name, u)
                    && f == TargetError(policies, lister, Site(name, u));
      assert t == u;
    }
  }

  /** The policies before the `n`th work, and that one fails with the error. */
  ghost predicate FailsAt(lib: Library, policies: map<string, PolicyConfig>, lister: Lister, names: seq<string>, n: nat,
                          e: PlanError)
    requires forall i :: 0 <= i < |names| ==> names[i] in policies
  {
    && n < |names| && PolicyFailsWith(lib, policies, lister, names[n], e)
    && forall i :: 0 <= i < n ==> PolicyWorks(lib, policies, lister, names[i])
  }

  lemma {:induction false} RunOutcome(lib: Library, policies: map<string, PolicyConfig>, names: seq<string>,
                                      lister: Lister, now: int)
    requires LibraryOk(lib) && forall i :: 0 <= i < |names| ==> names[i] in policies
    ensures Expected(lib, policies, lister, names, EvaluateAll(lib, policies, names, lister, now))
  {
    if |names| > 0 {
      var init, name := names[..|names| - 1], names[|names| - 1];
      RunOutcome(lib, policies, init, lister, now);
      PolicyOutcome(lib, policies, lister, now, name);
      ExpectedNext(lib, policies, lister, names, EvaluateAll(lib, policies, init, lister, now),
                   PolicyResult(lib, policies, name, lister, now), EvaluateAll(lib, policies, names, lister, now));
    }
  }

  type Outcome = Result<seq<Evaluation>, PlanError>

  /** What the evaluation of some policies comes to. */
  ghost predicate Expected(lib: Library, policies: map<string, PolicyConfig>, lister: Lister, names: seq<string>,
                           r: Outcome)
    requires forall i :: 0 <= i < |names| ==> names[i] in policies
  {
    && (r.Ok? ==> forall i :: 0 <= i < |names| ==> PolicyWorks(lib, policies, lister, names[i]))
    && (r.Err? ==> exists n: nat :: FailsAt(lib, policies, lister, names, n, r.error))
  }

  lemma ExpectedNext(lib: Library, policies: map<string, PolicyConfig>, lister: Lister, names: seq<string>,
                     before: Outcome, last: Outcome, r: Outcome)
    requires |names| > 0 && forall i :: 0 <= i < |names| ==> names[i] in policies
    requires Expected(lib, policies, lister, names[..|names| - 1], before)
    requires last.Ok? <==> PolicyWorks(lib, policies, lister, names[|names| - 1])
    requires last.Err? ==> PolicyFailsWith(lib, policies, lister, names[|names| - 1], last.error)
    requires if before.Err? then r == before else if last.Err? then r == last else r.Ok?
    ensures Expected(lib, policies, lister, names, r)
  {
    assert forall i :: 0 <= i < |names| - 1 ==> names[..|names| - 1][i] == names[i];
    if before.Err? {
      var n: nat :| FailsAt(lib, policies, lister, names[..|names| - 1], n, r.error);
      FailsLater(lib, policies, lister, names, n, r.error);
    } else if r.Err? {
      assert FailsAt(lib, policies, lister, names, |names| - 1, r.error);
    }
  }

  lemma FailsLater(lib: Library, policies: map<string, PolicyConfig>, lister: Lister, names: seq<string>, n: nat,
                   e: PlanError)
    requires |names| > 0 && forall i :: 0 <= i < |names| ==> names[i] in policies
    requires FailsAt(lib, policies, lister, names[..|names| - 1], n, e)
    ensures FailsAt(lib, policies, lister, names, n, e)
  {
    assert forall i :: 0 <= i <= n ==> names[..|names| - 1][i] == names[i];
  }

  lemma FirstPolicy(lib: Library, policies: map<string, PolicyConfig>, lister: Lister, e: PlanError, f: PlanError)
    requires RunFailsWith(lib, policies, lister, e) && RunFailsWith(lib, policies, lister, f)
    ensures e == f
    ensures exists name :: name in policies && !PolicyWorks(lib, policies, lister, name)
  {
    var name :| name in policies && PolicyFailsWith(lib, policies, lister, name, e)
                && forall n :: n in policies && Less(n, name) ==> PolicyWorks(lib, policies, lister, n);
    var other :| other in policies && PolicyFailsWith(lib, policies, lister, other, f)
                 && forall n :: n in policies && Less(n, other) ==> PolicyWorks(lib, policies, lister, n);
    OneError(lib, policies, lister, name, e, e);
    OneError(lib, policies, lister, other, f, f);
    LessTotal(name, other);
    OneError(lib, policies, lister, name, e, f);
  }

  /** The targets are evaluated, unless a policy fails; then the error is that of the first policy by name that does,
      and there of its rule or of the first target that does. */
  lemma EvaluationFailsIff(lib: Library, policies: map<string, PolicyConfig>, lister: Lister, now: int)
    requires LibraryOk(lib)
    ensures Evaluations(lib, policies, lister, now).Ok?
            <==> forall name :: name in policies ==> PolicyWorks(lib, policies, lister, name)
    ensures forall e :: Evaluations(lib, policies, lister, now) == Err(e) <==> RunFailsWith(lib, policies, lister, e)
  {
    var names := Enumeration(policies.Keys);
    assert forall i :: 0 <= i < |names| ==> names[i] in names;
    RunOutcome(lib, policies, names, lister, now);
    assert forall name :: name in policies <==> name in names;
    var r := EvaluateAll(lib, policies, names, lister, now);
    if r.Err? {
      var n: nat :| FailsAt(lib, policies, lister, names, n, r.error);
      EarlierPolicies(names, n);
      assert RunFailsWith(lib, policies, lister, r.error);
      forall e | RunFailsWith(lib, policies, lister, e) ensures e == r.error {
        FirstPolicy(lib, policies, lister, e, r.error);
      }
      OneError(lib, policies, lister, names[n], r.error, r.error);
    } else {
      forall e ensures !RunFailsWith(lib, policies, lister, e) {
        if RunFailsWith(lib, policies, lister, e) { FirstPolicy(lib, policies, lister, e, e); }
      }
    }
  }

  lemma EarlierPolicies(names: seq<string>, n: nat)
    requires Ascending(names) && n < |names|
    ensures forall name :: name in names && Less(name, names[n]) ==> exists i :: 0 <= i < n && names[i] == name
  {
    forall name | name in names && Less(name, names[n]) ensures exists i :: 0 <= i < n && names[i] == name {
      var i :| 0 <= i < |names| && names[i] == name;
      LessLaws();
    }
  }

  // Limits.

  /** The entries of a listing, or of one repository in it. */
  ghost function Entries(ds: seq<Decision>, repository: Option<string>): set<nat> {
    set i: nat | 0 <= i < |ds| && (repository.None? || ds[i].artifact.repository == repository.value)
  }

  ghost function VotedEntries(ds: seq<Decision>, repository: Option<string>): set<nat> {
    set i | i in Entries(ds, repository) && ds[i].delete
  }

  /** So many deletions of so many entries pass: the count limit, and the percentage rounded to two decimals. */
  predicate Passes(p: PolicyConfig, deletes: nat, total: nat) {
    && deletes <= p.maxDeleteCount
    && if total == 0 then 0.0 <= p.maxDeletePercent
       else Share(deletes, total) * 100.0 < (p.maxDeletePercent * 100.0).Floor as real + 0.5
  }

  /** The deletions a target votes for pass, on the whole of its listing and on every repository. */
  ghost predicate StaysWithin(lib: Library, policies: map<string, PolicyConfig>, lister: Lister, now: int, a: Site)
    requires LibraryOk(lib) && Configured(policies, a)
  {
    var ds := Judged(lib, policies, lister, now, a);
    forall repository :: Passes(policies[a.policy], |VotedEntries(ds, repository)|, |Entries(ds, repository)|)
  }

  lemma PassesIff(p: PolicyConfig, rule: Rule, deletes: nat, total: nat)
    requires rule.maxDeleteCount == p.maxDeleteCount && rule.maxDeletePercent == p.maxDeletePercent
    ensures Admits(rule, deletes, total) <==> Passes(p, deletes, total)
  {
    if total > 0 { PercentPassesIff(deletes, total, p.maxDeletePercent); }
  }

  function AsScope(repository: Option<string>): Scope {
    if repository.None? then Everything else Repository(repository.value)
  }

  lemma {:induction false} CountsAreEntries(ds: seq<Decision>, repository: Option<string>)
    ensures Total(ds, AsScope(repository)) == |Entries(ds, repository)|
    ensures Deleted(ds, AsScope(repository)) == |VotedEntries(ds, repository)|
  {
    if |ds| == 0 {
      assert Entries(ds, repository) == {} && VotedEntries(ds, repository) == {};
    } else {
      var init, last := ds[..|ds| - 1], |ds| - 1;
      CountsAreEntries(init, repository);
      EntriesStep(ds, repository);
    }
  }

  lemma EntriesStep(ds: seq<Decision>, repository: Option<string>)
    requires |ds| > 0
    ensures var init, last := ds[..|ds| - 1], |ds| - 1;
            var counted := repository.None? || ds[last].artifact.repository == repository.value;
            && Entries(ds, repository) == Entries(init, repository) + (if counted then {last} else {})
            && VotedEntries(ds, repository)
               == VotedEntries(init, repository) + (if counted && ds[last].delete then {last} else {})
  {
    var init := ds[..|ds| - 1];
    assert forall i :: 0 <= i < |init| ==> init[i] == ds[i];
  }

  lemma WithinIff(lib: Library, policies: map<string, PolicyConfig>, lister: Lister, now: int, a: Site, e: Evaluation)
    requires LibraryOk(lib) && EvaluatedAt(lib, policies, lister, now, a, e)
    ensures WithinLimits(e) <==> StaysWithin(lib, policies, lister, now, a)
  {
    var p, ds := policies[a.policy], e.decisions;
    RuleCarries(lib, p);
    forall repository
      ensures Admits(e.rule, Deleted(ds, AsScope(repository)), Total(ds, AsScope(repository)))
              <==> Passes(p, |VotedEntries(ds, repository)|, |Entries(ds, repository)|)
    {
      CountsAreEntries(ds, repository);
      PassesIff(p, e.rule, |VotedEntries(ds, repository)|, |Entries(ds, repository)|);
    }
    if StaysWithin(lib, policies, lister, now, a) {
      forall scope ensures Admits(e.rule, Deleted(ds, scope), Total(ds, scope)) {
        assert scope == AsScope(if scope.Everything? then None else Some(scope.name));
      }
    }
  }

  /** The first target, in the order of the policies, whose deletions do not pass. */
  ghost predicate FirstToExceed(lib: Library, policies: map<string, PolicyConfig>, lister: Lister, now: int, a: Site)
    requires LibraryOk(lib)
  {
    && Configured(policies, a) && !StaysWithin(lib, policies, lister, now, a)
    && forall b :: Configured(policies, b) && Earlier(b, a) ==> StaysWithin(lib, policies, lister, now, b)
  }

  lemma {:induction false} OffenderIsFirst(es: seq<Evaluation>) returns (x: nat)
    requires !AllWithinLimits(es)
    ensures x < |es| && !WithinLimits(es[x]) && es[x].policy == FirstOffender(es)
    ensures forall y :: 0 <= y < x ==> WithinLimits(es[y])
  {
    if !WithinLimits(es[0]) {
      x := 0;
    } else {
      assert !AllWithinLimits(es[1..]) by {
        var i :| 0 <= i < |es| && !WithinLimits(es[i]);
        assert es[1..][i - 1] == es[i];
      }
      x := OffenderIsFirst(es[1..]);
      x := x + 1;
      assert forall y :: 0 < y < x ==> es[y] == es[1..][y - 1];
    }
  }

  lemma LimitsFail(lib: Library, policies: map<string, PolicyConfig>, fingerprint: string, lister: Lister, now: int)
    requires LibraryOk(lib) && Evaluations(lib, policies, lister, now).Ok?
    ensures var r := PlanOf(lib, policies, fingerprint, lister, now);
            && (r.Ok? <==> forall a :: Configured(policies, a) ==> StaysWithin(lib, policies, lister, now, a))
            && (r.Err? ==>
                  exists a :: FirstToExceed(lib, policies, lister, now, a) && r.error == LimitExceeded(a.policy))
  {
    var es := Evaluations(lib, policies, lister, now).value;
    var sites := EvaluationsInTurn(lib, policies, lister, now);
    AllWithinIff(lib, policies, lister, now, sites, es);
    if !AllWithinLimits(es) {
      var x := OffenderExceeds(lib, policies, lister, now, sites, es);
    }
  }

  lemma AllWithinIff(lib: Library, policies: map<string, PolicyConfig>, lister: Lister, now: int, sites: seq<Site>,
                     es: seq<Evaluation>)
    requires LibraryOk(lib) && EvaluatedInTurn(lib, policies, lister, now, sites, es)
    requires forall a :: a in sites <==> Configured(policies, a)
    ensures AllWithinLimits(es) <==> forall a :: Configured(policies, a) ==> StaysWithin(lib, policies, lister, now, a)
  {
    forall x | 0 <= x < |es|
      ensures sites[x] in sites && (WithinLimits(es[x]) <==> StaysWithin(lib, policies, lister, now, sites[x]))
    {
      assert sites[x] in sites;
      WithinIff(lib, policies, lister, now, sites[x], es[x]);
    }
    if AllWithinLimits(es) {
      forall a | Configured(policies, a) ensures StaysWithin(lib, policies, lister, now, a) {
        var x :| 0 <= x < |sites| && sites[x] == a;
      }
    }
  }

  lemma OffenderExceeds(lib: Library, policies: map<string, PolicyConfig>, lister: Lister, now: int, sites: seq<Site>,
                        es: seq<Evaluation>) returns (x: nat)
    requires LibraryOk(lib) && EvaluatedInTurn(lib, policies, lister, now, sites, es) && InOrder(sites)
    requires (forall a :: a in sites <==> Configured(policies, a)) && !AllWithinLimits(es)
    ensures x < |es| && FirstToExceed(lib, policies, lister, now, sites[x]) && sites[x].policy == FirstOffender(es)
  {
    x := OffenderIsFirst(es);
    WithinIff(lib, policies, lister, now, sites[x], es[x]);
    assert sites[x] in sites;
    forall b | Configured(policies, b) && Earlier(b, sites[x]) ensures StaysWithin(lib, policies, lister, now, b) {
      var y :| 0 <= y < |sites| && sites[y] == b;
      EarlierIsBefore(sites, x, y);
      WithinIff(lib, policies, lister, now, b, es[y]);
    }
  }

  lemma EarlierIsBefore(sites: seq<Site>, x: nat, y: nat)
    requires InOrder(sites) && x < |sites| && y < |sites| && Earlier(sites[y], sites[x])
    ensures y < x
  {
    LessLaws();
  }

  lemma OneFirst(lib: Library, policies: map<string, PolicyConfig>, lister: Lister, now: int, a: Site, b: Site)
    requires LibraryOk(lib)
    requires FirstToExceed(lib, policies, lister, now, a) && FirstToExceed(lib, policies, lister, now, b)
    ensures a == b
  {
    LessTotal(a.policy, b.policy);
    assert a == b || Earlier(a, b) || Earlier(b, a);
  }

  /** Planning succeeds exactly when all policies work and all targets stay within their limits, and otherwise fails
      with exactly this error: that of the first policy and target that do not work, or when all work, the one naming
      the policy of the first target that exceeds a limit. */
  lemma PlanFailsIff(lib: Library, policies: map<string, PolicyConfig>, fingerprint: string, lister: Lister, now: int,
                     e: PlanError)
    requires LibraryOk(lib)
    ensures var works := forall name :: name in policies ==> PolicyWorks(lib, policies, lister, name);
            && (PlanOf(lib, policies, fingerprint, lister, now).Ok?
                <==> works && forall a :: Configured(policies, a) ==> StaysWithin(lib, policies, lister, now, a))
            && (PlanOf(lib, policies, fingerprint, lister, now) == Err(e)
                <==> || RunFailsWith(lib, policies, lister, e)
                     || (&& works
                         && exists a :: FirstToExceed(lib, policies, lister, now, a) && e == LimitExceeded(a.policy)))
  {
    EvaluationFailsIff(lib, policies, lister, now);
    if Evaluations(lib, policies, lister, now).Ok? {
      LimitsFail(lib, policies, fingerprint, lister, now);
      assert !RunFailsWith(lib, policies, lister, e);
      forall a, b | FirstToExceed(lib, policies, lister, now, a) && FirstToExceed(lib, policies, lister, now, b)
        ensures a == b
      {
        OneFirst(lib, policies, lister, now, a, b);
      }
    }
  }
}
