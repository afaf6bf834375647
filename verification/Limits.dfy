/** How much a successful plan can delete, rounding included. */
module Limits {
  import opened Artifacts
  import opened Orders
  import opened Policy
  import opened Config
  import opened Engine
  import opened Planning

  /** The exact share, in percent. */
  function Share(part: nat, total: nat): real
    requires total > 0
  {
    part as real * 100.0 / total as real
  }

  /** The rounded percentage passes a limit exactly when the exact share lies below the limit cut to two
      decimals plus half a hundredth. */
  lemma PercentPassesIff(part: nat, total: nat, limit: real)
    requires total > 0
    ensures Percent(part, total) <= limit <==> Share(part, total) * 100.0 < (limit * 100.0).Floor as real + 0.5
  {
    var x := part as real * 10000.0 / total as real;
    assert x >= 0.0;
    assert x == Share(part, total) * 100.0;
    var r, f := Round(x), (limit * 100.0).Floor;
    assert Percent(part, total) <= limit <==> r as real <= limit * 100.0;
    assert r as real <= limit * 100.0 <==> r <= f;
  }

  /** A share can exceed its limit and pass: one deletion out of three against 33.33 percent. */
  lemma RoundingAdmitsAnExcess()
    ensures Percent(1, 3) <= 33.33 && Share(1, 3) > 33.33
  {
    PercentPassesIff(1, 3, 33.33);
    assert 1.0 * 100.0 / 3.0 * 100.0 < 3333.5;
    assert (33.33 * 100.0).Floor == 3333;
  }

  lemma {:induction false} HitsWereVotedOut(ds: seq<Decision>, scope: Scope, gone: set<string>)
    requires VotedOut(ds, gone)
    ensures Hits(ds, scope, gone) <= Deleted(ds, scope) <= Total(ds, scope)
  {
    if |ds| > 0 {
      var init := ds[..|ds| - 1];
      assert forall i :: 0 <= i < |init| ==> init[i] == ds[i];
      HitsWereVotedOut(init, scope, gone);
    }
  }

  ghost predicate SafeFor(e: Evaluation, scope: Scope, gone: set<string>) {
    && Hits(e.decisions, scope, gone) <= e.rule.maxDeleteCount
    && (Total(e.decisions, scope) > 0 ==>
          Share(Hits(e.decisions, scope, gone), Total(e.decisions, scope)) < e.rule.maxDeletePercent + 0.005)
  }

  /** For the whole of every listing and every repository in it, what a successful plan deletes stays within
      the count limit and its exact share stays below the percentage limit plus half a hundredth. */
  lemma DeletionIsBounded(es: seq<Evaluation>, fingerprint: string, now: int, x: nat, scope: Scope)
    requires Conclude(es, fingerprint, now).Ok? && x < |es|
    ensures SafeFor(es[x], scope, PlannedKeys(Conclude(es, fingerprint, now).value))
  {
    var e, gone := es[x], PlannedKeys(Conclude(es, fingerprint, now).value);
    PlannedWereVotedOut(es, fingerprint, now, x, gone);
    HitsWereVotedOut(e.decisions, scope, gone);
    assert WithinLimits(e);
    var hits, deleted, total := Hits(e.decisions, scope, gone), Deleted(e.decisions, scope), Total(e.decisions, scope);
    assert Admits(e.rule, deleted, total);
    if total > 0 {
      PercentPassesIff(deleted, total, e.rule.maxDeletePercent);
      ShareMonotone(hits, deleted, total);
    }
  }

  lemma ShareMonotone(a: nat, b: nat, total: nat)
    requires a <= b && total > 0
    ensures Share(a, total) <= Share(b, total)
  {
    assert a as real * 100.0 <= b as real * 100.0;
  }

  lemma AtMostAHundred(part: nat, total: nat)
    requires part <= total
    ensures Percent(part, total) <= 100.0
  {
    if total > 0 {
      ShareAtMostAHundred(part, total);
      PercentPassesIff(part, total, 100.0);
      assert (100.0 * 100.0).Floor == 10000;
    }
  }

  lemma ShareAtMostAHundred(part: nat, total: nat)
    requires part <= total && total > 0
    ensures Share(part, total) <= 100.0
  {
    ShareMonotone(part, total, total);
    WholeShare(total as real);
  }

  lemma WholeShare(whole: real)
    requires whole > 0.0
    ensures whole * 100.0 / whole == 100.0
  {
  }

  // How many actions a plan has, and how many of them belong to one policy.

  ghost function SumOfLimits(es: seq<Evaluation>): int {
    if |es| == 0 then 0 else SumOfLimits(es[..|es| - 1]) + es[|es| - 1].rule.maxDeleteCount
  }

  ghost function DeleteKeys(votes: seq<Vote>): set<string> {
    set i | 0 <= i < |votes| && votes[i].delete :: votes[i].key
  }

  lemma UnionCardinality<T>(c: set<T>, a: set<T>, b: set<T>)
    requires c <= a + b
    ensures |c| <= |a| + |b|
  {
    assert |a + b| == |a| + |b - a| by { assert a + b == a + (b - a); }
    assert |b - a| <= |b| by { assert b == (b - a) + (b * a); }
    assert |(a + b) - c| == |a + b| - |c|;
  }

  lemma DeleteKeysConcat(a: seq<Vote>, b: seq<Vote>)
    ensures DeleteKeys(a + b) == DeleteKeys(a) + DeleteKeys(b)
  {
    forall k | k in DeleteKeys(a + b) ensures k in DeleteKeys(a) + DeleteKeys(b) {
      var i :| 0 <= i < |a + b| && (a + b)[i].delete && (a + b)[i].key == k;
      if i < |a| { assert a[i] == (a + b)[i]; } else { assert b[i - |a|] == (a + b)[i]; }
    }
    forall k | k in DeleteKeys(a) ensures k in DeleteKeys(a + b) {
      var i :| 0 <= i < |a| && a[i].delete && a[i].key == k;
      assert (a + b)[i] == a[i];
    }
    forall k | k in DeleteKeys(b) ensures k in DeleteKeys(a + b) {
      var i :| 0 <= i < |b| && b[i].delete && b[i].key == k;
      assert (a + b)[|a| + i] == b[i];
    }
  }

  lemma {:induction false} DeleteKeysOf(policy: string, ds: seq<Decision>)
    ensures |DeleteKeys(VotesOf(policy, ds))| <= Deleted(ds, Everything)
  {
    if |ds| == 0 {
      assert DeleteKeys(VotesOf(policy, ds)) == {};
    } else {
      var init, last := ds[..|ds| - 1], ds[|ds| - 1];
      DeleteKeysOf(policy, init);
      var one := [VoteOf(policy, last)];
      assert VotesOf(policy, ds) == VotesOf(policy, init) + one;
      DeleteKeysConcat(VotesOf(policy, init), one);
      var added := if last.delete then {Key(last.artifact)} else {};
      assert DeleteKeys(one) <= added;
      UnionCardinality(DeleteKeys(VotesOf(policy, ds)), DeleteKeys(VotesOf(policy, init)), added);
    }
  }

  lemma {:induction false} DeleteKeysBounded(es: seq<Evaluation>)
    requires forall x :: 0 <= x < |es| ==> Deleted(es[x].decisions, Everything) <= es[x].rule.maxDeleteCount
    ensures |DeleteKeys(AllVotes(es))| <= SumOfLimits(es)
  {
    if |es| == 0 {
      assert DeleteKeys(AllVotes(es)) == {};
    } else {
      var init, e := es[..|es| - 1], es[|es| - 1];
      assert forall x :: 0 <= x < |init| ==> init[x] == es[x];
      DeleteKeysBounded(init);
      DeleteKeysOf(e.policy, e.decisions);
      DeleteKeysConcat(AllVotes(init), VotesOf(e.policy, e.decisions));
      var rest, added := DeleteKeys(AllVotes(init)), DeleteKeys(VotesOf(e.policy, e.decisions));
      UnionCardinality(DeleteKeys(AllVotes(es)), rest, added);
    }
  }

  /** The evaluations of one policy. */
  ghost function OnlyOf(es: seq<Evaluation>, policy: string): seq<Evaluation> {
    if |es| == 0 then []
    else
      var init := OnlyOf(es[..|es| - 1], policy);
      if es[|es| - 1].policy == policy then init + [es[|es| - 1]] else init
  }

  lemma {:induction false} OnlyOfMembers(es: seq<Evaluation>, policy: string)
    ensures forall e :: e in OnlyOf(es, policy) <==> e in es && e.policy == policy
  {
    if |es| > 0 {
      OnlyOfMembers(es[..|es| - 1], policy);
      assert es == es[..|es| - 1] + [es[|es| - 1]];
    }
  }

  lemma {:induction false} OnlyOfConcat(a: seq<Evaluation>, b: seq<Evaluation>, policy: string)
    ensures OnlyOf(a + b, policy) == OnlyOf(a, policy) + OnlyOf(b, policy)
  {
    if |b| == 0 {
      assert a + b == a;
    } else {
      assert (a + b)[..|a + b| - 1] == a + b[..|b| - 1];
      OnlyOfConcat(a, b[..|b| - 1], policy);
    }
  }

  lemma {:induction false} OnlyOfUniform(es: seq<Evaluation>, name: string, policy: string)
    requires forall e :: e in es ==> e.policy == name
    ensures OnlyOf(es, policy) == if name == policy then es else []
  {
    if |es| > 0 {
      OnlyOfUniform(es[..|es| - 1], name, policy);
      assert es[|es| - 1] in es && es == es[..|es| - 1] + [es[|es| - 1]];
    }
  }

  lemma {:induction false} SumOfLimitsConcat(a: seq<Evaluation>, b: seq<Evaluation>)
    ensures SumOfLimits(a + b) == SumOfLimits(a) + SumOfLimits(b)
  {
    if |b| == 0 {
      assert a + b == a;
    } else {
      assert (a + b)[..|a + b| - 1] == a + b[..|b| - 1];
      SumOfLimitsConcat(a, b[..|b| - 1]);
    }
  }

  lemma {:induction false} SumOfEqualLimits(es: seq<Evaluation>, limit: int)
    requires forall e :: e in es ==> e.rule.maxDeleteCount == limit
    ensures SumOfLimits(es) == |es| * limit
  {
    if |es| > 0 {
      assert es[|es| - 1] in es;
      SumOfEqualLimits(es[..|es| - 1], limit);
    }
  }

  /** A policy is evaluated once per target, under its own limits. */
  lemma OncePerTarget(lib: Library, policies: map<string, PolicyConfig>, name: string, lister: Lister, now: int)
    requires LibraryOk(lib) && name in policies && PolicyResult(lib, policies, name, lister, now).Ok?
    ensures var es := PolicyResult(lib, policies, name, lister, now).value;
            && |es| == |policies[name].targets|
            && forall e :: e in es ==>
                 && e.policy == name && e.rule.maxDeleteCount == policies[name].maxDeleteCount
                 && e.rule.maxDeletePercent == policies[name].maxDeletePercent
  {
    var p := policies[name];
    var results := TargetResults(lib, name, p, RuleOf(lib, p).value, lister, now);
    var es := PolicyResult(lib, policies, name, lister, now).value;
    assert RuleOf(lib, p).value == RuleWith(p, CompileAll(lib, p.tagPatterns).value);
    SequenceIff(results);
    forall e | e in es ensures e.policy == name && e.rule.maxDeleteCount == p.maxDeleteCount
                               && e.rule.maxDeletePercent == p.maxDeletePercent
    {
      var t :| 0 <= t < |es| && es[t] == e;
      assert EvaluateTarget(lib, name, p, RuleOf(lib, p).value, p.targets[t], lister(name, t), now) == results[t];
      assert results[t] == Ok(e);
    }
  }

  /** |targets| times max_delete_count, for one policy and for several. */
  function PolicyLimit(p: PolicyConfig): int { |p.targets| * p.maxDeleteCount }

  function PolicyLimits(policies: map<string, PolicyConfig>, names: seq<string>): int
    requires forall i :: 0 <= i < |names| ==> names[i] in policies
  {
    if |names| == 0 then 0 else PolicyLimits(policies, names[..|names| - 1]) + PolicyLimit(policies[names[|names| - 1]])
  }

  lemma {:induction false} LimitsAddUp(lib: Library, policies: map<string, PolicyConfig>, names: seq<string>,
                                       lister: Lister, now: int)
    requires LibraryOk(lib) && forall i :: 0 <= i < |names| ==> names[i] in policies
    requires EvaluateAll(lib, policies, names, lister, now).Ok?
    ensures SumOfLimits(EvaluateAll(lib, policies, names, lister, now).value) == PolicyLimits(policies, names)
  {
    if |names| > 0 {
      var init, last := names[..|names| - 1], names[|names| - 1];
      EvaluateAllStep(lib, policies, names, lister, now);
      LimitsAddUp(lib, policies, init, lister, now);
      OncePerTarget(lib, policies, last, lister, now);
      var es := EvaluateAll(lib, policies, init, lister, now).value;
      var more := PolicyResult(lib, policies, last, lister, now).value;
      SumOfLimitsConcat(es, more);
      SumOfEqualLimits(more, policies[last].maxDeleteCount);
    }
  }

  lemma EvaluateAllStep(lib: Library, policies: map<string, PolicyConfig>, names: seq<string>, lister: Lister, now: int)
    requires LibraryOk(lib) && |names| > 0 && forall i :: 0 <= i < |names| ==> names[i] in policies
    requires EvaluateAll(lib, policies, names, lister, now).Ok?
    ensures var init, last := names[..|names| - 1], names[|names| - 1];
            && EvaluateAll(lib, policies, init, lister, now).Ok? && PolicyResult(lib, policies, last, lister, now).Ok?
            && EvaluateAll(lib, policies, names, lister, now).value
               == EvaluateAll(lib, policies, init, lister, now).value
                  + PolicyResult(lib, policies, last, lister, now).value
  {
  }

  /** One more policy adds its own evaluations. */
  lemma OnlyOfStep(lib: Library, policies: map<string, PolicyConfig>, names: seq<string>, lister: Lister, now: int,
                   name: string)
    requires LibraryOk(lib) && |names| > 0 && forall i :: 0 <= i < |names| ==> names[i] in policies
    requires EvaluateAll(lib, policies, names, lister, now).Ok?
    ensures var init, last := names[..|names| - 1], names[|names| - 1];
            && EvaluateAll(lib, policies, init, lister, now).Ok? && PolicyResult(lib, policies, last, lister, now).Ok?
            && OnlyOf(EvaluateAll(lib, policies, names, lister, now).value, name)
               == OnlyOf(EvaluateAll(lib, policies, init, lister, now).value, name)
                  + (if last == name then PolicyResult(lib, policies, last, lister, now).value else [])
  {
    var last := names[|names| - 1];
    EvaluateAllStep(lib, policies, names, lister, now);
    OncePerTarget(lib, policies, last, lister, now);
    var es := EvaluateAll(lib, policies, names[..|names| - 1], lister, now).value;
    var more := PolicyResult(lib, policies, last, lister, now).value;
    OnlyOfConcat(es, more, name);
    OnlyOfUniform(more, last, name);
  }

  /** The evaluations of a policy in a whole run are those of its targets. */
  lemma {:induction false} PolicyIsEvaluatedOnce(lib: Library, policies: map<string, PolicyConfig>, names: seq<string>,
                                                 lister: Lister, now: int, name: string)
    requires LibraryOk(lib) && forall i :: 0 <= i < |names| ==> names[i] in policies
    requires EvaluateAll(lib, policies, names, lister, now).Ok? && Distinct(names)
    ensures name !in names ==> OnlyOf(EvaluateAll(lib, policies, names, lister, now).value, name) == []
    ensures name in names ==>
              && PolicyResult(lib, policies, name, lister, now).Ok?
              && OnlyOf(EvaluateAll(lib, policies, names, lister, now).value, name)
                 == PolicyResult(lib, policies, name, lister, now).value
  {
    if |names| > 0 {
      var init, last := names[..|names| - 1], names[|names| - 1];
      OnlyOfStep(lib, policies, names, lister, now, name);
      PolicyIsEvaluatedOnce(lib, policies, init, lister, now, name);
      assert name in names <==> name in init || name == last;
      assert last !in init;
    }
  }

  /** The actions a plan attributes to one policy. */
  function Attributed(actions: seq<Action>, policy: string): nat {
    if |actions| == 0 then 0
    else Attributed(actions[..|actions| - 1], policy) + (if actions[|actions| - 1].policy == policy then 1 else 0)
  }

  ghost function AttributedKeys(actions: seq<Action>, policy: string): set<string> {
    set i | 0 <= i < |actions| && actions[i].policy == policy :: ActionKeys(actions)[i]
  }

  lemma AttributedStep(actions: seq<Action>, policy: string)
    requires |actions| > 0
    ensures var init, last := actions[..|actions| - 1], actions[|actions| - 1];
            AttributedKeys(actions, policy)
            == AttributedKeys(init, policy) + (if last.policy == policy then {Key(last.artifact)} else {})
  {
    var n := |actions| - 1;
    var init, last := actions[..n], actions[n];
    forall k | k in AttributedKeys(init, policy) ensures k in AttributedKeys(actions, policy) {
      var i :| 0 <= i < n && init[i].policy == policy && ActionKeys(init)[i] == k;
      assert actions[i] == init[i] && ActionKeys(actions)[i] == k;
    }
    forall k | k in AttributedKeys(actions, policy)
      ensures k in AttributedKeys(init, policy) + (if last.policy == policy then {Key(last.artifact)} else {})
    {
      var i :| 0 <= i <= n && actions[i].policy == policy && ActionKeys(actions)[i] == k;
      if i < n { assert init[i] == actions[i] && ActionKeys(init)[i] == k; }
    }
    if last.policy == policy { assert ActionKeys(actions)[n] == Key(last.artifact); }
  }

  lemma LastIsNew(actions: seq<Action>, policy: string)
    requires |actions| > 0 && Distinct(ActionKeys(actions))
    ensures var init := actions[..|actions| - 1];
            && Distinct(ActionKeys(init))
            && Key(actions[|actions| - 1].artifact) !in AttributedKeys(init, policy)
  {
    var n := |actions| - 1;
    var init, keys := actions[..n], ActionKeys(actions);
    assert ActionKeys(init) == keys[..n];
    forall k | k in AttributedKeys(init, policy) ensures k != keys[n] {
      var i :| 0 <= i < n && init[i].policy == policy && ActionKeys(init)[i] == k;
      assert keys[i] == k;
    }
  }

  lemma {:induction false} AttributedCardinality(actions: seq<Action>, policy: string)
    requires Distinct(ActionKeys(actions))
    ensures |AttributedKeys(actions, policy)| == Attributed(actions, policy)
  {
    if |actions| > 0 {
      LastIsNew(actions, policy);
      AttributedCardinality(actions[..|actions| - 1], policy);
      AttributedStep(actions, policy);
    }
  }

  lemma AttributedIsDeleted(es: seq<Evaluation>, fingerprint: string, now: int, n: nat)
    requires Conclude(es, fingerprint, now).Ok? && n < |Conclude(es, fingerprint, now).value.actions|
    ensures var action := Conclude(es, fingerprint, now).value.actions[n];
            Key(action.artifact) in DeleteKeys(AllVotes(OnlyOf(es, action.policy)))
  {
    var actions := Conclude(es, fingerprint, now).value.actions;
    var action := actions[n];
    var k, only := Key(action.artifact), OnlyOf(es, action.policy);
    PlanIsTheVote(es, fingerprint, now);
    assert FromLastDecision(es, action) && ActionKeys(actions)[n] == k;
    var x: nat, i: nat :| LastDecision(es, k, x, i) && ActionOf(es, x, i) == action;
    assert k in ActionKeys(actions) && NeverProtected(es, k);
    OnlyOfMembers(es, action.policy);
    assert es[x] in only;
    var y :| 0 <= y < |only| && only[y] == es[x];
    VoteAt(only, y, i);
  }

  lemma AttributedAreDeleted(es: seq<Evaluation>, fingerprint: string, now: int, policy: string)
    requires Conclude(es, fingerprint, now).Ok?
    ensures AttributedKeys(Conclude(es, fingerprint, now).value.actions, policy)
            <= DeleteKeys(AllVotes(OnlyOf(es, policy)))
  {
    var actions := Conclude(es, fingerprint, now).value.actions;
    forall k | k in AttributedKeys(actions, policy) ensures k in DeleteKeys(AllVotes(OnlyOf(es, policy))) {
      var n :| 0 <= n < |actions| && actions[n].policy == policy && ActionKeys(actions)[n] == k;
      AttributedIsDeleted(es, fingerprint, now, n);
    }
  }

  lemma PolicyStaysWithin(es: seq<Evaluation>, fingerprint: string, now: int, policy: string)
    requires Conclude(es, fingerprint, now).Ok?
    ensures Attributed(Conclude(es, fingerprint, now).value.actions, policy) <= SumOfLimits(OnlyOf(es, policy))
  {
    var actions, only := Conclude(es, fingerprint, now).value.actions, OnlyOf(es, policy);
    PlanIsTheVote(es, fingerprint, now);
    AscendingIsDistinct(ActionKeys(actions));
    AttributedCardinality(actions, policy);
    AttributedAreDeleted(es, fingerprint, now, policy);
    OnlyOfMembers(es, policy);
    forall x | 0 <= x < |only| ensures Deleted(only[x].decisions, Everything) <= only[x].rule.maxDeleteCount {
      assert only[x] in es;
      var y :| 0 <= y < |es| && es[y] == only[x];
      assert WithinLimits(es[y]);
      assert Admits(es[y].rule, Deleted(es[y].decisions, Everything), Total(es[y].decisions, Everything));
    }
    DeleteKeysBounded(only);
    UnionCardinality(AttributedKeys(actions, policy), DeleteKeys(AllVotes(only)), {});
  }

  /** In a whole run a policy is evaluated once per target, under its own limits. */
  lemma TargetsOf(lib: Library, policies: map<string, PolicyConfig>, lister: Lister, now: int, name: string)
    requires LibraryOk(lib) && name in policies && Evaluations(lib, policies, lister, now).Ok?
    ensures var only := OnlyOf(Evaluations(lib, policies, lister, now).value, name);
            && |only| == |policies[name].targets|
            && forall e :: e in only ==>
                 && e.rule.maxDeleteCount == policies[name].maxDeleteCount
                 && e.rule.maxDeletePercent == policies[name].maxDeletePercent
  {
    var names := Enumeration(policies.Keys);
    assert forall i :: 0 <= i < |names| ==> names[i] in names;
    AscendingIsDistinct(names);
    PolicyIsEvaluatedOnce(lib, policies, names, lister, now, name);
    OncePerTarget(lib, policies, name, lister, now);
  }

  /** A plan attributes to a policy at most |targets| times max_delete_count actions: with one target, no more than
      the policy's own limit. */
  lemma PolicyIsBounded(lib: Library, policies: map<string, PolicyConfig>, fingerprint: string, lister: Lister,
                        now: int, name: string)
    requires LibraryOk(lib) && name in policies && PlanOf(lib, policies, fingerprint, lister, now).Ok?
    ensures var actions := PlanOf(lib, policies, fingerprint, lister, now).value.actions;
            && Attributed(actions, name) <= PolicyLimit(policies[name])
            && (|policies[name].targets| == 1 ==> Attributed(actions, name) <= policies[name].maxDeleteCount)
  {
    TargetsOf(lib, policies, lister, now, name);
    var es := Evaluations(lib, policies, lister, now).value;
    SumOfEqualLimits(OnlyOf(es, name), policies[name].maxDeleteCount);
    PolicyStaysWithin(es, fingerprint, now, name);
  }

  // The percentage over all targets of a policy.

  ghost function HitsOfAll(es: seq<Evaluation>, scope: Scope, gone: set<string>): nat {
    if |es| == 0 then 0
    else HitsOfAll(es[..|es| - 1], scope, gone) + Hits(es[|es| - 1].decisions, scope, gone)
  }

  function TotalOfAll(es: seq<Evaluation>, scope: Scope): nat {
    if |es| == 0 then 0 else TotalOfAll(es[..|es| - 1], scope) + Total(es[|es| - 1].decisions, scope)
  }

  /** Without a division: the share is below the bound, or there is nothing to share. */
  ghost predicate Below(part: nat, total: nat, bound: real) {
    if total > 0 then part as real * 100.0 < bound * total as real else part == 0
  }

  lemma BelowIff(part: nat, total: nat, bound: real)
    requires total > 0
    ensures Below(part, total, bound) <==> Share(part, total) < bound
  {
    var share, whole := Share(part, total), total as real;
    assert share * whole == part as real * 100.0;
    if share < bound {
      assert share * whole < bound * whole;
    } else {
      assert bound * whole <= share * whole;
    }
  }

  /** The share of two parts together lies between their shares. */
  lemma Mediant(part: nat, total: nat, more: nat, wider: nat, bound: real)
    requires Below(part, total, bound) && Below(more, wider, bound)
    ensures Below(part + more, total + wider, bound)
  {
    assert bound * (total + wider) as real == bound * total as real + bound * wider as real;
    assert (part + more) as real * 100.0 == part as real * 100.0 + more as real * 100.0;
  }

  lemma SafeIsBelow(e: Evaluation, scope: Scope, gone: set<string>)
    requires SafeFor(e, scope, gone) && VotedOut(e.decisions, gone)
    ensures Below(Hits(e.decisions, scope, gone), Total(e.decisions, scope), e.rule.maxDeletePercent + 0.005)
  {
    HitsWereVotedOut(e.decisions, scope, gone);
    if Total(e.decisions, scope) > 0 {
      BelowIff(Hits(e.decisions, scope, gone), Total(e.decisions, scope), e.rule.maxDeletePercent + 0.005);
    }
  }

  ghost predicate EntryBelow(e: Evaluation, scope: Scope, gone: set<string>, bound: real) {
    Below(Hits(e.decisions, scope, gone), Total(e.decisions, scope), bound)
  }

  ghost predicate EachBelow(es: seq<Evaluation>, scope: Scope, gone: set<string>, bound: real) {
    forall e :: e in es ==> EntryBelow(e, scope, gone, bound)
  }

  lemma {:induction false} AllBelow(es: seq<Evaluation>, scope: Scope, gone: set<string>, bound: real)
    requires EachBelow(es, scope, gone, bound)
    ensures Below(HitsOfAll(es, scope, gone), TotalOfAll(es, scope), bound)
  {
    if |es| > 0 {
      var init, e := es[..|es| - 1], es[|es| - 1];
      assert EntryBelow(e, scope, gone, bound);
      AllBelow(init, scope, gone, bound);
      Mediant(HitsOfAll(init, scope, gone), TotalOfAll(init, scope),
              Hits(e.decisions, scope, gone), Total(e.decisions, scope), bound);
    }
  }

  lemma EvaluationIsBelow(es: seq<Evaluation>, fingerprint: string, now: int, e: Evaluation, scope: Scope, bound: real)
    requires Conclude(es, fingerprint, now).Ok? && e in es && bound == e.rule.maxDeletePercent + 0.005
    ensures EntryBelow(e, scope, PlannedKeys(Conclude(es, fingerprint, now).value), bound)
  {
    var x :| 0 <= x < |es| && es[x] == e;
    DeletionIsBounded(es, fingerprint, now, x, scope);
    PlannedWereVotedOut(es, fingerprint, now, x, PlannedKeys(Conclude(es, fingerprint, now).value));
    SafeIsBelow(e, scope, PlannedKeys(Conclude(es, fingerprint, now).value));
  }

  lemma PolicyIsBelow(es: seq<Evaluation>, fingerprint: string, now: int, name: string, scope: Scope, percent: real)
    requires Conclude(es, fingerprint, now).Ok?
    requires forall e :: e in OnlyOf(es, name) ==> e.rule.maxDeletePercent == percent
    ensures EachBelow(OnlyOf(es, name), scope, PlannedKeys(Conclude(es, fingerprint, now).value), percent + 0.005)
  {
    OnlyOfMembers(es, name);
    forall e | e in OnlyOf(es, name)
      ensures EntryBelow(e, scope, PlannedKeys(Conclude(es, fingerprint, now).value), percent + 0.005)
    {
      EvaluationIsBelow(es, fingerprint, now, e, scope, percent + 0.005);
    }
  }

  /** Of everything the evaluations list in the scope, the exact share with these keys is below the bound. */
  ghost predicate ShareBelow(es: seq<Evaluation>, scope: Scope, gone: set<string>, bound: real) {
    var hits, total := HitsOfAll(es, scope, gone), TotalOfAll(es, scope);
    hits <= total && (total > 0 ==> Share(hits, total) < bound)
  }

  lemma EachBelowAddsUp(es: seq<Evaluation>, scope: Scope, gone: set<string>, bound: real)
    requires EachBelow(es, scope, gone, bound)
    ensures ShareBelow(es, scope, gone, bound)
  {
    AllBelow(es, scope, gone, bound);
    HitsAreListed(es, scope, gone);
    if TotalOfAll(es, scope) > 0 {
      BelowIff(HitsOfAll(es, scope, gone), TotalOfAll(es, scope), bound);
    }
  }

  lemma PolicyShare(es: seq<Evaluation>, fingerprint: string, now: int, p: Engine.Plan, name: string, scope: Scope,
                    percent: real)
    requires Conclude(es, fingerprint, now) == Ok(p)
    requires forall e :: e in OnlyOf(es, name) ==> e.rule.maxDeletePercent == percent
    ensures ShareBelow(OnlyOf(es, name), scope, PlannedKeys(p), percent + 0.005)
  {
    PolicyIsBelow(es, fingerprint, now, name, scope, percent);
    EachBelowAddsUp(OnlyOf(es, name), scope, PlannedKeys(p), percent + 0.005);
  }

  /** Unlike the count, the percentage limit holds over all targets of a policy together: of everything they listed,
      and of everything they listed in one repository, the exact share a plan deletes stays below the limit plus half
      a hundredth. */
  lemma PolicyShareIsBounded(lib: Library, policies: map<string, PolicyConfig>, fingerprint: string, lister: Lister,
                             now: int, p: Engine.Plan, name: string, scope: Scope)
    requires LibraryOk(lib) && name in policies && PlanOf(lib, policies, fingerprint, lister, now) == Ok(p)
    ensures var listed := OnlyOf(Evaluations(lib, policies, lister, now).value, name);
            && |listed| == |policies[name].targets|
            && ShareBelow(listed, scope, PlannedKeys(p), policies[name].maxDeletePercent + 0.005)
  {
    TargetsOf(lib, policies, lister, now, name);
    var es := Evaluations(lib, policies, lister, now).value;
    PolicyShare(es, fingerprint, now, p, name, scope, policies[name].maxDeletePercent);
  }

  lemma {:induction false} HitsWithin(ds: seq<Decision>, scope: Scope, gone: set<string>)
    ensures Hits(ds, scope, gone) <= Total(ds, scope)
  {
    if |ds| > 0 {
      HitsWithin(ds[..|ds| - 1], scope, gone);
    }
  }

  lemma {:induction false} HitsAreListed(es: seq<Evaluation>, scope: Scope, gone: set<string>)
    ensures HitsOfAll(es, scope, gone) <= TotalOfAll(es, scope)
  {
    if |es| > 0 {
      HitsAreListed(es[..|es| - 1], scope, gone);
      HitsWithin(es[|es| - 1].decisions, scope, gone);
    }
  }

  lemma ActionsWithinLimits(es: seq<Evaluation>, fingerprint: string, now: int)
    requires Conclude(es, fingerprint, now).Ok?
    ensures |Conclude(es, fingerprint, now).value.actions| <= SumOfLimits(es)
  {
    var p, votes := Conclude(es, fingerprint, now).value, AllVotes(es);
    forall x | 0 <= x < |es| ensures Deleted(es[x].decisions, Everything) <= es[x].rule.maxDeleteCount {
      assert WithinLimits(es[x]);
      assert Admits(es[x].rule, Deleted(es[x].decisions, Everything), Total(es[x].decisions, Everything));
    }
    DeleteKeysBounded(es);
    PlanActions(es, fingerprint, now);
    AscendingIsDistinct(ActionKeys(p.actions));
    DistinctCardinality(ActionKeys(p.actions));
    forall k | k in PlannedKeys(p) ensures k in DeleteKeys(votes) {
      assert k in UnanimousKeys(votes);
      var i :| 0 <= i < |votes| && votes[i].key == k;
      assert votes[i].delete;
    }
    UnionCardinality(PlannedKeys(p), DeleteKeys(votes), {});
  }

  /** All actions of a plan together number at most the sum over all policies of |targets| times max_delete_count. */
  lemma TotalIsBounded(lib: Library, policies: map<string, PolicyConfig>, fingerprint: string, lister: Lister, now: int)
    requires LibraryOk(lib) && PlanOf(lib, policies, fingerprint, lister, now).Ok?
    ensures var names := Enumeration(policies.Keys);
            && (forall i :: 0 <= i < |names| ==> names[i] in policies)
            && |PlanOf(lib, policies, fingerprint, lister, now).value.actions| <= PolicyLimits(policies, names)
  {
    var names := Enumeration(policies.Keys);
    assert forall i :: 0 <= i < |names| ==> names[i] in names;
    LimitsAddUp(lib, policies, names, lister, now);
    ActionsWithinLimits(Evaluations(lib, policies, lister, now).value, fingerprint, now);
  }
}
