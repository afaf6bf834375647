/** The safety limits bind each target of a policy: a policy keeps its own limit in every plan exactly when it has one
    target, and with several targets it can use the limit up once for each of them. */
module PerTarget {
  import opened Artifacts
  import opened Orders
  import opened Policy
  import opened Config
  import opened Engine
  import opened Coherence
  import opened Planner
  import opened Planning
  import opened Limits

  /** As many names as needed. */
  function Name(k: nat): string { seq(k, _ => '1') }

  function Untagged(t: nat, i: nat): Artifact {
    Artifact("registry", Name(t), Name(i), "", [], 0, ZERO_TIME, [], [])
  }

  /** One artifact more than may be deleted. */
  function Listing(t: nat, limit: nat): seq<Artifact> {
    seq(limit + 1, i requires 0 <= i <= limit => Untagged(t, i))
  }

  function Lists(limit: nat): Lister {
    (name: string, t: nat) => Some(Listing(t, limit))
  }

  /** A policy over `n` repositories, keeping one artifact in each. */
  function Crowded(n: nat, limit: nat): PolicyConfig {
    PolicyConfig(seq(n, t requires 0 <= t < n => Target("registry", [Name(t)], [])), Tags("calendar", [], ""),
                 0, 1, 0, 1, "", [], [], [], Some(false), limit, 100.0, Some(false))
  }

  lemma KeysOfUntagged(t: nat, i: nat, u: nat, j: nat)
    ensures Key(Untagged(t, i)) == Key(Untagged(u, j)) <==> t == u && i == j
  {
    KeysIdentify(Untagged(t, i), Untagged(u, j));
    assert |Name(t)| == t && |Name(u)| == u && |Name(i)| == i && |Name(j)| == j;
  }

  /** The evaluation of one of the repositories: all but one artifact are voted out. */
  ghost predicate Thinned(e: Evaluation, t: nat, limit: nat) {
    && e.policy == "p" && e.rule.maxDeleteCount == limit && e.rule.maxDeletePercent == 100.0
    && ArtifactsOf(e.decisions) == Listing(t, limit)
    && exists first :: 0 <= first <= limit && AllBut(e.decisions, first)
  }

  ghost predicate AllBut(ds: seq<Decision>, first: nat) {
    forall i :: 0 <= i < |ds| ==> (ds[i].delete <==> i != first)
  }

  lemma AllButTheNewest(lib: Library, t: nat, n: nat, limit: nat) returns (first: nat)
    requires LibraryOk(lib)
    ensures first <= limit
    ensures AllBut(Decisions(lib.stableSort, Listing(t, limit), RuleWith(Crowded(n, limit), []), 10), first)
  {
    var sort, arts, rule := lib.stableSort, Listing(t, limit), RuleWith(Crowded(n, limit), []);
    var ds := Decisions(sort, arts, rule, 10);
    first := RankedFirst(sort, arts, false);
    forall i: nat | i <= limit ensures ds[i].delete <==> i != first {
      if i != first { RanksDiffer(sort, arts, false, i, first); }
      assert Standing(arts[i], rule) == [];
      RankDecides(arts[i], rule, 10, Rank(sort, arts, false, i));
    }
  }

  lemma UntaggedStaysUntagged(lib: Library, t: nat, i: nat, tags: Tags)
    requires LibraryOk(lib)
    ensures Parsed(lib, Untagged(t, i), tags) == Ok(Untagged(t, i))
  {
    var sorted := lib.versionSort([]);
    assert |sorted| == |multiset(sorted)| == 0;
  }

  lemma TargetIsThinned(lib: Library, n: nat, limit: nat, t: nat)
    requires LibraryOk(lib) && t < n
    ensures var p := Crowded(n, limit);
            var e := EvaluateTarget(lib, "p", p, RuleWith(p, []), p.targets[t], Lists(limit)("p", t), 10);
            e.Ok? && Thinned(e.value, t, limit)
  {
    var p, arts := Crowded(n, limit), Listing(t, limit);
    forall i: nat | i <= limit ensures Parsed(lib, arts[i], p.tags) == Ok(arts[i]) {
      UntaggedStaysUntagged(lib, t, i, p.tags);
    }
    SequenceOf(ParseResults(lib, arts, p.tags), arts);
    var first := AllButTheNewest(lib, t, n, limit);
  }

  lemma CrowdedEvaluations(lib: Library, n: nat, limit: nat) returns (es: seq<Evaluation>)
    requires LibraryOk(lib)
    ensures Evaluations(lib, map["p" := Crowded(n, limit)], Lists(limit), 10) == Ok(es)
    ensures |es| == n && forall t :: 0 <= t < n ==> Thinned(es[t], t, limit)
  {
    var p, rule := Crowded(n, limit), RuleWith(Crowded(n, limit), []);
    var results := TargetResults(lib, "p", p, rule, Lists(limit), 10);
    forall t: nat | t < n ensures results[t].Ok? && Thinned(results[t].value, t, limit) {
      TargetIsThinned(lib, n, limit, t);
    }
    es := seq(n, t requires 0 <= t < n => results[t].value);
    SequenceOf(results, es);
    OnlyPolicy(lib, "p", p, Lists(limit), 10);
    assert RuleOf(lib, p) == Some(rule);
  }

  // The limits admit every evaluation.

  lemma {:induction false} CountsOf(ds: seq<Decision>, first: nat, t: nat, scope: Scope)
    requires AllBut(ds, first) && forall i :: 0 <= i < |ds| ==> ds[i].artifact.repository == Name(t)
    ensures var inside := scope == Everything || scope == Repository(Name(t));
            && Total(ds, scope) == (if inside then |ds| else 0)
            && Deleted(ds, scope) == (if inside then |ds| - (if first < |ds| then 1 else 0) else 0)
  {
    if |ds| > 0 {
      CountsOf(ds[..|ds| - 1], first, t, scope);
    }
  }

  lemma ThinnedIsAdmitted(e: Evaluation, t: nat, limit: nat)
    requires Thinned(e, t, limit)
    ensures WithinLimits(e)
  {
    var first :| 0 <= first <= limit && AllBut(e.decisions, first);
    forall i | 0 <= i < |e.decisions| ensures e.decisions[i].artifact.repository == Name(t) {
      assert ArtifactsOf(e.decisions)[i] == Untagged(t, i);
    }
    forall scope ensures Admits(e.rule, Deleted(e.decisions, scope), Total(e.decisions, scope)) {
      CountsOf(e.decisions, first, t, scope);
      AtMostAHundred(Deleted(e.decisions, scope), Total(e.decisions, scope));
    }
  }

  // How many keys are seen and protected.

  lemma KeysOfListing(t: nat, limit: nat)
    ensures |Keys(Listing(t, limit))| == limit + 1
    ensures forall k :: k in Keys(Listing(t, limit)) <==> exists i: nat :: i <= limit && Key(Untagged(t, i)) == k
  {
    var arts := Listing(t, limit);
    var keys := seq(limit + 1, i requires 0 <= i <= limit => Key(Untagged(t, i)));
    forall i, j | 0 <= i < j < |keys| ensures keys[i] != keys[j] { KeysOfUntagged(t, i, t, j); }
    DistinctCardinality(keys);
    forall k ensures k in Keys(arts) <==> k in keys {
      if k in Keys(arts) {
        var a :| a in arts && Key(a) == k;
        var i :| 0 <= i < |arts| && arts[i] == a;
        assert keys[i] == k;
      }
      if k in keys {
        var i :| 0 <= i < |keys| && keys[i] == k;
        assert arts[i] in arts;
      }
    }
    assert Keys(arts) == Elements(keys);
    forall k | k in keys ensures exists i: nat :: i <= limit && Key(Untagged(t, i)) == k {
      var i :| 0 <= i < |keys| && keys[i] == k;
    }
    forall i: nat | i <= limit ensures Key(Untagged(t, i)) in keys { assert keys[i] == Key(Untagged(t, i)); }
  }

  /** The keys belong to the first repositories. */
  ghost predicate FromFirst(keys: set<string>, n: nat) {
    forall k :: k in keys ==> exists t: nat, i: nat :: t < n && Key(Untagged(t, i)) == k
  }

  lemma NextKeysAreNew(seen: set<string>, t: nat, limit: nat)
    requires FromFirst(seen, t)
    ensures seen !! Keys(Listing(t, limit)) && FromFirst(seen + Keys(Listing(t, limit)), t + 1)
  {
    KeysOfListing(t, limit);
    forall k | k in seen ensures k !in Keys(Listing(t, limit)) {
      var u: nat, j: nat :| u < t && Key(Untagged(u, j)) == k;
      if i: nat :| i <= limit && Key(Untagged(t, i)) == k { KeysOfUntagged(u, j, t, i); }
    }
  }

  lemma SeenStep(es: seq<Evaluation>, limit: nat)
    requires |es| > 0 && Thinned(es[|es| - 1], |es| - 1, limit)
    requires FromFirst(SeenKeys(AllVotes(es[..|es| - 1])), |es| - 1)
    ensures |SeenKeys(AllVotes(es))| == |SeenKeys(AllVotes(es[..|es| - 1]))| + (limit + 1)
    ensures FromFirst(SeenKeys(AllVotes(es)), |es|)
  {
    var t, e, before := |es| - 1, es[|es| - 1], AllVotes(es[..|es| - 1]);
    SeenAfter(before, e.policy, e.decisions, ArtifactsOf(e.decisions));
    NextKeysAreNew(SeenKeys(before), t, limit);
    KeysOfListing(t, limit);
  }

  lemma {:induction false} SeenCount(es: seq<Evaluation>, limit: nat)
    requires forall t :: 0 <= t < |es| ==> Thinned(es[t], t, limit)
    ensures |SeenKeys(AllVotes(es))| == |es| * (limit + 1)
    ensures FromFirst(SeenKeys(AllVotes(es)), |es|)
  {
    if |es| == 0 {
      assert SeenKeys(AllVotes(es)) == {};
    } else {
      SeenCount(es[..|es| - 1], limit);
      SeenStep(es, limit);
      Distribute(|es| - 1, limit + 1);
    }
  }

  lemma Distribute(n: nat, m: nat)
    ensures (n + 1) * m == n * m + m
  {
  }

  lemma OneMoreEach(n: nat, m: nat)
    ensures n * (m + 1) == n * m + n
  {
  }

  lemma SeveralTimes(n: nat, m: nat)
    requires n > 1 && m > 0
    ensures n * m > m
  {
    Distribute(n - 1, m);
  }

  lemma {:induction false} ProtectedAtMost(es: seq<Evaluation>, limit: nat)
    requires forall t :: 0 <= t < |es| ==> Thinned(es[t], t, limit)
    ensures |ProtectedKeys(AllVotes(es))| <= |es|
  {
    if |es| == 0 {
      assert ProtectedKeys(AllVotes(es)) == {};
    } else {
      var init, e := es[..|es| - 1], es[|es| - 1];
      ProtectedAtMost(init, limit);
      var first :| 0 <= first <= limit && AllBut(e.decisions, first);
      assert |ArtifactsOf(e.decisions)| == limit + 1;
      OneProtected(AllVotes(init), e.policy, e.decisions, first);
      UnionCardinality(ProtectedKeys(AllVotes(es)), ProtectedKeys(AllVotes(init)), {Key(e.decisions[first].artifact)});
    }
  }

  lemma OneProtected(votes: seq<Vote>, policy: string, ds: seq<Decision>, first: nat)
    requires AllBut(ds, first) && first < |ds|
    ensures ProtectedKeys(votes + VotesOf(policy, ds)) <= ProtectedKeys(votes) + {Key(ds[first].artifact)}
  {
    var more := VotesOf(policy, ds);
    forall k | k in ProtectedKeys(votes + more) ensures k in ProtectedKeys(votes) + {Key(ds[first].artifact)} {
      var i :| 0 <= i < |votes + more| && !(votes + more)[i].delete && (votes + more)[i].key == k;
      if i < |votes| { assert votes[i] == (votes + more)[i]; } else { assert more[i - |votes|] == (votes + more)[i]; }
    }
  }

  lemma {:induction false} AllAttributed(actions: seq<Action>, policy: string)
    requires forall i :: 0 <= i < |actions| ==> actions[i].policy == policy
    ensures Attributed(actions, policy) == |actions|
  {
    if |actions| > 0 {
      AllAttributed(actions[..|actions| - 1], policy);
    }
  }

  lemma CrowdedPlan(es: seq<Evaluation>, limit: nat, fingerprint: string)
    requires forall t :: 0 <= t < |es| ==> Thinned(es[t], t, limit)
    ensures var plan := Conclude(es, fingerprint, 10);
            plan.Ok? && Attributed(plan.value.actions, "p") == |plan.value.actions| >= |es| * limit
  {
    forall t | 0 <= t < |es| ensures WithinLimits(es[t]) { ThinnedIsAdmitted(es[t], t, limit); }
    assert AllWithinLimits(es);
    var actions := Conclude(es, fingerprint, 10).value.actions;
    PlanIsTheVote(es, fingerprint, 10);
    forall i | 0 <= i < |actions| ensures actions[i].policy == "p" { assert FromLastDecision(es, actions[i]); }
    AllAttributed(actions, "p");
    SeenCount(es, limit);
    ProtectedAtMost(es, limit);
    PlanConserves(es, fingerprint, 10);
    OneMoreEach(|es|, limit);
  }

  /** The bound of |targets| times max_delete_count is reached, whatever the number of targets and the limit. */
  lemma PolicyBoundIsTight(lib: Library, n: nat, limit: nat, fingerprint: string)
    requires LibraryOk(lib) && n > 0 && limit > 0
    ensures Validated(lib, {"registry"}, map["p" := Crowded(n, limit)])
    ensures var plan := PlanOf(lib, map["p" := Crowded(n, limit)], fingerprint, Lists(limit), 10);
            plan.Ok? && Attributed(plan.value.actions, "p") == n * limit == PolicyLimit(Crowded(n, limit))
  {
    var es := CrowdedEvaluations(lib, n, limit);
    CrowdedPlan(es, limit, fingerprint);
    PolicyIsBounded(lib, map["p" := Crowded(n, limit)], fingerprint, Lists(limit), 10, "p");
  }

  /** A plan, if there is one, attributes to the policy at most its own max_delete_count. */
  ghost predicate Keeps(lib: Library, policies: map<string, PolicyConfig>, fingerprint: string, lister: Lister,
                        now: int, name: string)
    requires LibraryOk(lib) && name in policies
  {
    var plan := PlanOf(lib, policies, fingerprint, lister, now);
    plan.Ok? ==> Attributed(plan.value.actions, name) <= policies[name].maxDeleteCount
  }

  /** Every policy with `n` targets and this limit keeps it in every plan. */
  ghost predicate AlwaysKept(lib: Library, n: nat, limit: nat)
    requires LibraryOk(lib)
  {
    forall registries, policies: map<string, PolicyConfig>, fingerprint, lister, now, name ::
      && Validated(lib, registries, policies) && name in policies
      && |policies[name].targets| == n && policies[name].maxDeleteCount == limit
      ==> Keeps(lib, policies, fingerprint, lister, now, name)
  }

  lemma OneTargetKeeps(lib: Library, policies: map<string, PolicyConfig>, fingerprint: string, lister: Lister,
                       now: int, name: string)
    requires LibraryOk(lib) && name in policies && |policies[name].targets| == 1
    ensures Keeps(lib, policies, fingerprint, lister, now, name)
  {
    if PlanOf(lib, policies, fingerprint, lister, now).Ok? {
      PolicyIsBounded(lib, policies, fingerprint, lister, now, name);
    }
  }

  lemma SeveralTargetsExceed(lib: Library, n: nat, limit: nat)
    requires LibraryOk(lib) && n > 1 && limit > 0
    ensures Validated(lib, {"registry"}, map["p" := Crowded(n, limit)])
    ensures !Keeps(lib, map["p" := Crowded(n, limit)], "", Lists(limit), 10, "p")
  {
    PolicyBoundIsTight(lib, n, limit, "");
    SeveralTimes(n, limit);
  }

  /** A policy keeps its own limit in every plan exactly when it has one target. */
  lemma AlwaysKeptIff(lib: Library, n: nat, limit: nat)
    requires LibraryOk(lib) && n > 0 && limit > 0
    ensures AlwaysKept(lib, n, limit) <==> n == 1
  {
    if n == 1 {
      forall registries, policies: map<string, PolicyConfig>, fingerprint, lister, now, name |
        && Validated(lib, registries, policies) && name in policies
        && |policies[name].targets| == n && policies[name].maxDeleteCount == limit
        ensures Keeps(lib, policies, fingerprint, lister, now, name)
      {
        OneTargetKeeps(lib, policies, fingerprint, lister, now, name);
      }
    } else {
      SeveralTargetsExceed(lib, n, limit);
      assert map["p" := Crowded(n, limit)]["p"] == Crowded(n, limit);
    }
  }
}
