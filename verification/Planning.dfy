/** What a successful plan promises about all policies together. */
module Planning {
  import opened Artifacts
  import opened Orders
  import opened Policy
  import opened Config
  import opened Engine
  import opened Retention

  function ActionKeys(actions: seq<Action>): seq<string> {
    seq(|actions|, i requires 0 <= i < |actions| => Key(actions[i].artifact))
  }

  ghost function PlannedKeys(p: Engine.Plan): set<string> { Elements(ActionKeys(p.actions)) }

  // Votes and the decisions they come from.

  ghost predicate Decided(es: seq<Evaluation>, x: nat, i: nat) {
    x < |es| && i < |es[x].decisions|
  }

  ghost function KeyAt(es: seq<Evaluation>, x: nat, i: nat): string
    requires Decided(es, x, i)
  {
    Key(es[x].decisions[i].artifact)
  }

  /** The place of a decision among all votes. */
  ghost function Place(es: seq<Evaluation>, x: nat, i: nat): nat
    requires x <= |es|
  {
    |AllVotes(es[..x])| + i
  }

  lemma {:induction false} VoteAt(es: seq<Evaluation>, x: nat, i: nat)
    requires Decided(es, x, i)
    ensures Place(es, x, i) < |AllVotes(es)|
    ensures AllVotes(es)[Place(es, x, i)] == VoteOf(es[x].policy, es[x].decisions[i])
  {
    var init := es[..|es| - 1];
    if x == |init| {
      assert es[..x] == init;
    } else {
      VoteAt(init, x, i);
      assert init[..x] == es[..x];
    }
  }

  lemma {:induction false} VoteComesFrom(es: seq<Evaluation>, j: nat) returns (x: nat, i: nat)
    requires j < |AllVotes(es)|
    ensures Decided(es, x, i) && Place(es, x, i) == j
    ensures AllVotes(es)[j] == VoteOf(es[x].policy, es[x].decisions[i])
  {
    var init := es[..|es| - 1];
    if j < |AllVotes(init)| {
      x, i := VoteComesFrom(init, j);
      assert init[..x] == es[..x];
    } else {
      x, i := |init|, j - |AllVotes(init)|;
      assert es[..x] == init;
    }
  }

  lemma {:induction false} PlacesAscend(es: seq<Evaluation>, x: nat, y: nat)
    requires x < y <= |es|
    ensures |AllVotes(es[..x])| + |es[x].decisions| <= |AllVotes(es[..y])|
  {
    assert es[..y][..y - 1] == es[..y - 1];
    if x < y - 1 {
      PlacesAscend(es, x, y - 1);
    }
  }

  /** The key was seen by some evaluation. */
  ghost predicate Seen(es: seq<Evaluation>, k: string) {
    exists x: nat, i: nat :: Decided(es, x, i) && KeyAt(es, x, i) == k
  }

  /** No evaluation that saw the key protects it. */
  ghost predicate NeverProtected(es: seq<Evaluation>, k: string) {
    forall x: nat, i: nat :: Decided(es, x, i) && KeyAt(es, x, i) == k ==> es[x].decisions[i].delete
  }

  lemma SeenIff(es: seq<Evaluation>, k: string)
    ensures k in SeenKeys(AllVotes(es)) <==> Seen(es, k)
  {
    var votes := AllVotes(es);
    if k in SeenKeys(votes) {
      var j :| 0 <= j < |votes| && votes[j].key == k;
      var x, i := VoteComesFrom(es, j);
      assert KeyAt(es, x, i) == k;
    }
    if Seen(es, k) {
      var x: nat, i: nat :| Decided(es, x, i) && KeyAt(es, x, i) == k;
      VoteAt(es, x, i);
      assert votes[Place(es, x, i)].key == k;
    }
  }

  lemma UnanimousIff(es: seq<Evaluation>, k: string)
    ensures k in UnanimousKeys(AllVotes(es)) <==> Seen(es, k) && NeverProtected(es, k)
  {
    var votes := AllVotes(es);
    SeenIff(es, k);
    if k in UnanimousKeys(votes) {
      forall x: nat, i: nat | Decided(es, x, i) && KeyAt(es, x, i) == k ensures es[x].decisions[i].delete {
        VoteAt(es, x, i);
        assert votes[Place(es, x, i)].key == k;
      }
    }
    if Seen(es, k) && NeverProtected(es, k) {
      forall j | 0 <= j < |votes| && votes[j].key == k ensures votes[j].delete {
        var x, i := VoteComesFrom(es, j);
        assert KeyAt(es, x, i) == k;
      }
    }
  }

  lemma {:induction false} LastVoteIsLast(votes: seq<Vote>, k: string) returns (j: nat)
    requires k in SeenKeys(votes)
    ensures j < |votes| && votes[j] == LastVote(votes, k) && votes[j].key == k
    ensures forall h :: j < h < |votes| ==> votes[h].key != k
  {
    j := |votes| - 1;
    if votes[j].key != k {
      SeenEarlier(votes, k);
      j := LastVoteIsLast(votes[..|votes| - 1], k);
    }
  }

  /** `(x, i)` is the last decision on the key, by policy name, target and listing position. */
  ghost predicate LastDecision(es: seq<Evaluation>, k: string, x: nat, i: nat) {
    && Decided(es, x, i) && KeyAt(es, x, i) == k
    && forall y: nat, j: nat :: Decided(es, y, j) && KeyAt(es, y, j) == k ==> y < x || (y == x && j <= i)
  }

  ghost function ActionOf(es: seq<Evaluation>, x: nat, i: nat): Action
    requires Decided(es, x, i)
  {
    Action(es[x].policy, es[x].decisions[i].reasons, es[x].decisions[i].artifact)
  }

  /** The action carries the policy, reasons and artifact of the last decision on its key. */
  ghost predicate FromLastDecision(es: seq<Evaluation>, a: Action) {
    exists x: nat, i: nat :: LastDecision(es, Key(a.artifact), x, i) && ActionOf(es, x, i) == a
  }

  lemma LastDecisionExists(es: seq<Evaluation>, k: string) returns (x: nat, i: nat)
    requires k in SeenKeys(AllVotes(es))
    ensures LastDecision(es, k, x, i)
    ensures LastVote(AllVotes(es), k) == VoteOf(es[x].policy, es[x].decisions[i])
  {
    var h := LastVoteIsLast(AllVotes(es), k);
    x, i := VoteComesFrom(es, h);
    forall y: nat, j: nat | Decided(es, y, j) && KeyAt(es, y, j) == k ensures y < x || (y == x && j <= i) {
      VoteAt(es, y, j);
      assert Place(es, y, j) <= h;
      if x < y { PlacesAscend(es, x, y); }
    }
  }

  lemma PlanActions(es: seq<Evaluation>, fingerprint: string, now: int)
    requires Conclude(es, fingerprint, now).Ok?
    ensures var p := Conclude(es, fingerprint, now).value; var agreed := Agreed(AllVotes(es));
            && ActionKeys(p.actions) == Enumeration(agreed.Keys)
            && forall n :: 0 <= n < |p.actions| ==>
                 ActionKeys(p.actions)[n] in agreed && p.actions[n] == agreed[ActionKeys(p.actions)[n]]
  {
    var votes := AllVotes(es);
    var names := Enumeration(Agreed(votes).Keys);
    var p := Conclude(es, fingerprint, now).value;
    forall n | 0 <= n < |names|
      ensures names[n] in Agreed(votes) && Key(p.actions[n].artifact) == names[n]
                && p.actions[n] == Agreed(votes)[names[n]]
    {
      assert names[n] in names;
      var x, i := LastDecisionExists(es, names[n]);
    }
  }

  /** The plan is the declarative vote: its keys are unique and sorted, a key is in it exactly when some
      evaluation saw it and none protects it, and its action is that of the last evaluation to see it. */
  lemma PlanIsTheVote(es: seq<Evaluation>, fingerprint: string, now: int)
    requires Conclude(es, fingerprint, now).Ok?
    ensures var p := Conclude(es, fingerprint, now).value;
            && Ascending(ActionKeys(p.actions))
            && (forall k :: k in ActionKeys(p.actions) <==> Seen(es, k) && NeverProtected(es, k))
            && forall n :: 0 <= n < |p.actions| ==> FromLastDecision(es, p.actions[n])
  {
    var p := Conclude(es, fingerprint, now).value;
    PlanActions(es, fingerprint, now);
    forall k ensures k in ActionKeys(p.actions) <==> Seen(es, k) && NeverProtected(es, k) {
      UnanimousIff(es, k);
    }
    forall n | 0 <= n < |p.actions| ensures FromLastDecision(es, p.actions[n]) {
      var x, i := LastDecisionExists(es, ActionKeys(p.actions)[n]);
      assert ActionOf(es, x, i) == p.actions[n];
    }
  }

  lemma SeenKeysSplit(votes: seq<Vote>)
    ensures ProtectedKeys(votes) <= SeenKeys(votes) && UnanimousKeys(votes) == SeenKeys(votes) - ProtectedKeys(votes)
  {
  }

  /** Discovered keys are the disjoint union of the protected keys and the planned ones. */
  lemma PlanConserves(es: seq<Evaluation>, fingerprint: string, now: int)
    requires Conclude(es, fingerprint, now).Ok?
    ensures var p := Conclude(es, fingerprint, now).value; var votes := AllVotes(es);
            && PlannedKeys(p) !! ProtectedKeys(votes)
            && PlannedKeys(p) + ProtectedKeys(votes) == SeenKeys(votes)
            && p.discovered == p.protected + |p.actions|
  {
    var p, votes := Conclude(es, fingerprint, now).value, AllVotes(es);
    PlanActions(es, fingerprint, now);
    AscendingIsDistinct(ActionKeys(p.actions));
    DistinctCardinality(ActionKeys(p.actions));
    assert PlannedKeys(p) == UnanimousKeys(votes);
    SeenKeysSplit(votes);
  }

  /** Every entry whose key is in `gone` was voted for deletion. */
  ghost predicate VotedOut(ds: seq<Decision>, gone: set<string>) {
    forall i :: 0 <= i < |ds| && Key(ds[i].artifact) in gone ==> ds[i].delete
  }

  /** Entries of a scope whose key is in `gone`. */
  ghost function Hits(ds: seq<Decision>, scope: Scope, gone: set<string>): nat {
    if |ds| == 0 then 0
    else
      var last := ds[|ds| - 1].artifact;
      Hits(ds[..|ds| - 1], scope, gone) + (if Key(last) in gone && InScope(last, scope) then 1 else 0)
  }

  lemma PlannedWereVotedOut(es: seq<Evaluation>, fingerprint: string, now: int, x: nat, gone: set<string>)
    requires Conclude(es, fingerprint, now).Ok? && x < |es|
    requires gone <= PlannedKeys(Conclude(es, fingerprint, now).value)
    ensures VotedOut(es[x].decisions, gone)
  {
    PlanIsTheVote(es, fingerprint, now);
    forall i: nat | 0 <= i < |es[x].decisions| && Key(es[x].decisions[i].artifact) in gone
      ensures es[x].decisions[i].delete
    {
      assert Decided(es, x, i) && KeyAt(es, x, i) == Key(es[x].decisions[i].artifact);
      assert KeyAt(es, x, i) in PlannedKeys(Conclude(es, fingerprint, now).value);
      assert NeverProtected(es, KeyAt(es, x, i));
    }
  }

  // Every evaluation is an evaluation of its own artifacts.

  ghost function ArtifactsOf(ds: seq<Decision>): seq<Artifact> {
    seq(|ds|, i requires 0 <= i < |ds| => ds[i].artifact)
  }

  /** What an evaluation in a planning run is. */
  ghost predicate Genuine(lib: Library, policies: map<string, PolicyConfig>, e: Evaluation, now: int)
    requires LibraryOk(lib)
  {
    && e.policy in policies && RuleOf(lib, policies[e.policy]) == Some(e.rule)
    && |e.decisions| > 0
    && e.decisions == Decisions(lib.stableSort, ArtifactsOf(e.decisions), e.rule, now)
  }

  lemma TargetIsGenuine(lib: Library, policies: map<string, PolicyConfig>, name: string, rule: Rule, target: Target,
                        listing: Option<seq<Artifact>>, now: int)
    requires LibraryOk(lib) && name in policies && RuleOf(lib, policies[name]) == Some(rule)
    requires EvaluateTarget(lib, name, policies[name], rule, target, listing, now).Ok?
    ensures Genuine(lib, policies, EvaluateTarget(lib, name, policies[name], rule, target, listing, now).value, now)
  {
    var e := EvaluateTarget(lib, name, policies[name], rule, target, listing, now).value;
    SequenceIff(ParseResults(lib, listing.value, policies[name].tags));
    var parsed := Sequence(ParseResults(lib, listing.value, policies[name].tags)).value;
    assert ArtifactsOf(e.decisions) == parsed;
  }

  lemma PolicyIsGenuine(lib: Library, policies: map<string, PolicyConfig>, name: string, rule: Rule,
                        lister: Lister, now: int)
    requires LibraryOk(lib) && name in policies && RuleOf(lib, policies[name]) == Some(rule)
    requires EvaluatePolicy(lib, name, policies[name], rule, lister, now).Ok?
    ensures forall e :: e in EvaluatePolicy(lib, name, policies[name], rule, lister, now).value ==>
              Genuine(lib, policies, e, now)
  {
    var results := TargetResults(lib, name, policies[name], rule, lister, now);
    SequenceIff(results);
    var es := Sequence(results).value;
    forall e | e in es ensures Genuine(lib, policies, e, now) {
      var t :| 0 <= t < |es| && es[t] == e;
      TargetIsGenuine(lib, policies, name, rule, policies[name].targets[t], lister(name, t), now);
    }
  }

  lemma {:induction false} AllAreGenuine(lib: Library, policies: map<string, PolicyConfig>, names: seq<string>,
                                         lister: Lister, now: int)
    requires LibraryOk(lib) && forall i :: 0 <= i < |names| ==> names[i] in policies
    requires EvaluateAll(lib, policies, names, lister, now).Ok?
    ensures forall e :: e in EvaluateAll(lib, policies, names, lister, now).value ==> Genuine(lib, policies, e, now)
  {
    if |names| > 0 {
      var name := names[|names| - 1];
      AllAreGenuine(lib, policies, names[..|names| - 1], lister, now);
      PolicyIsGenuine(lib, policies, name, RuleOf(lib, policies[name]).value, lister, now);
    }
  }

  lemma EvaluationsAreGenuine(lib: Library, policies: map<string, PolicyConfig>, lister: Lister, now: int)
    requires LibraryOk(lib) && Evaluations(lib, policies, lister, now).Ok?
    ensures forall e :: e in Evaluations(lib, policies, lister, now).value ==> Genuine(lib, policies, e, now)
  {
    var names := Enumeration(policies.Keys);
    assert forall i :: 0 <= i < |names| ==> names[i] in names;
    AllAreGenuine(lib, policies, names, lister, now);
  }

  // When planning succeeds.

  /** Every target of the policy was listed and has artifacts. */
  ghost predicate Discovered(name: string, p: PolicyConfig, lister: Lister) {
    forall t :: 0 <= t < |p.targets| ==> lister(name, t).Some? && lister(name, t).value != []
  }

  lemma PolicySucceedsIff(lib: Library, registries: set<string>, policies: map<string, PolicyConfig>, name: string,
                          lister: Lister, now: int)
    requires LibraryOk(lib) && Validated(lib, registries, policies) && name in policies
    ensures PolicyResult(lib, policies, name, lister, now).Ok? <==> Discovered(name, policies[name], lister)
  {
    var p := policies[name];
    forall i | 0 <= i < |p.tagPatterns| ensures lib.compile(p.tagPatterns[i]).Some? {
      assert !Breaks(lib, registries, p, InvalidTagPattern(p.tagPatterns[i]));
    }
    var rule := RuleOf(lib, p).value;
    assert KnownParser(p.tags) by { assert !Breaks(lib, registries, p, UnknownParser); }
    var results := TargetResults(lib, name, p, rule, lister, now);
    forall t: nat | t < |p.targets| ensures results[t].Ok? <==> lister(name, t).Some? && lister(name, t).value != [] {
      if lister(name, t).Some? {
        SequenceIff(ParseResults(lib, lister(name, t).value, p.tags));
      }
    }
    SequenceIff(results);
  }

  lemma SucceedsStep(lib: Library, policies: map<string, PolicyConfig>, names: seq<string>, lister: Lister, now: int)
    requires LibraryOk(lib) && |names| > 0 && forall i :: 0 <= i < |names| ==> names[i] in policies
    ensures EvaluateAll(lib, policies, names, lister, now).Ok?
            <==> && EvaluateAll(lib, policies, names[..|names| - 1], lister, now).Ok?
                 && PolicyResult(lib, policies, names[|names| - 1], lister, now).Ok?
  {
  }

  lemma {:induction false} AllSucceedIff(lib: Library, registries: set<string>,
                                         policies: map<string, PolicyConfig>, names: seq<string>,
                                         lister: Lister, now: int)
    requires LibraryOk(lib) && Validated(lib, registries, policies)
    requires forall i :: 0 <= i < |names| ==> names[i] in policies
    ensures EvaluateAll(lib, policies, names, lister, now).Ok?
            <==> forall name :: name in names ==> Discovered(name, policies[name], lister)
  {
    if |names| > 0 {
      var init, last := names[..|names| - 1], names[|names| - 1];
      AllSucceedIff(lib, registries, policies, init, lister, now);
      PolicySucceedsIff(lib, registries, policies, last, lister, now);
      SucceedsStep(lib, policies, names, lister, now);
      assert names == init + [last];
    }
  }

  /** With a validated configuration planning fails for no other reason than a listing that is missing or
      empty, or a limit that is exceeded. */
  lemma PlanSucceedsIff(lib: Library, registries: set<string>, policies: map<string, PolicyConfig>, fingerprint: string,
                        lister: Lister, now: int)
    requires LibraryOk(lib) && Validated(lib, registries, policies)
    ensures Evaluations(lib, policies, lister, now).Ok?
            <==> forall name :: name in policies ==> Discovered(name, policies[name], lister)
    ensures PlanOf(lib, policies, fingerprint, lister, now).Ok?
            <==> && (forall name :: name in policies ==> Discovered(name, policies[name], lister))
                 && AllWithinLimits(Evaluations(lib, policies, lister, now).value)
  {
    var names := Enumeration(policies.Keys);
    assert forall i :: 0 <= i < |names| ==> names[i] in names;
    AllSucceedIff(lib, registries, policies, names, lister, now);
  }

  /** With a single policy a run is the run of that policy. */
  lemma OnlyPolicy(lib: Library, name: string, p: PolicyConfig, lister: Lister, now: int)
    requires LibraryOk(lib)
    ensures Evaluations(lib, map[name := p], lister, now) == PolicyResult(lib, map[name := p], name, lister, now)
  {
    var policies := map[name := p];
    AscendingIsUnique(Enumeration(policies.Keys), [name]);
    assert EvaluateAll(lib, policies, [], lister, now) == Ok([]);
    assert [name][..0] == [];
    if PolicyResult(lib, policies, name, lister, now).Ok? {
      var es := PolicyResult(lib, policies, name, lister, now).value;
      assert [] + es == es;
    }
  }

  // Minimum retention.

  /** The entries of a group that are left once a plan has been carried out. */
  ghost function LeftInGroup(e: Evaluation, g: string, gone: set<string>): set<nat> {
    set i: nat | 0 <= i < |e.decisions| && e.decisions[i].group == g && Key(e.decisions[i].artifact) !in gone
  }

  ghost function GroupSize(e: Evaluation, g: string): nat {
    |set i: nat | 0 <= i < |e.decisions| && e.decisions[i].group == g|
  }

  /** Carrying out a whole plan leaves every group of every evaluation its reserve, or all of it when it is
      smaller, whatever the sort did and whatever the other policies voted. */
  lemma MinimumRetention(lib: Library, policies: map<string, PolicyConfig>, fingerprint: string, lister: Lister,
                         now: int, x: nat, g: string)
    requires LibraryOk(lib) && PlanOf(lib, policies, fingerprint, lister, now).Ok?
    requires x < |Evaluations(lib, policies, lister, now).value|
    ensures var p := PlanOf(lib, policies, fingerprint, lister, now).value;
            var e := Evaluations(lib, policies, lister, now).value[x];
            |LeftInGroup(e, g, PlannedKeys(p))| >= Min(GroupSize(e, g), Reserve(e.rule))
  {
    var p := PlanOf(lib, policies, fingerprint, lister, now).value;
    var es := Evaluations(lib, policies, lister, now).value;
    var e := es[x];
    EvaluationsAreGenuine(lib, policies, lister, now);
    assert e in es && Genuine(lib, policies, e, now);
    var arts, byApp := ArtifactsOf(e.decisions), e.rule.groupByApp;
    GroupsMatch(lib, policies, e, now);
    MinimumIsKept(lib.stableSort, arts, e.rule, now, g);
    var kept := KeptIndices(e.decisions, arts, byApp, g);
    forall i | i in kept ensures i in LeftInGroup(e, g, PlannedKeys(p)) {
      KeptIsNotPlanned(es, fingerprint, now, x, i);
    }
    SubsetCardinality(kept, LeftInGroup(e, g, PlannedKeys(p)));
    assert GroupIndices(arts, byApp, g) == set i: nat | 0 <= i < |e.decisions| && e.decisions[i].group == g;
  }

  lemma GroupsMatch(lib: Library, policies: map<string, PolicyConfig>, e: Evaluation, now: int)
    requires LibraryOk(lib) && Genuine(lib, policies, e, now)
    ensures forall i :: 0 <= i < |e.decisions| ==>
              e.decisions[i].group == GroupOf(e.decisions[i].artifact, e.rule.groupByApp)
  {
    var arts := ArtifactsOf(e.decisions);
    forall i | 0 <= i < |e.decisions| ensures e.decisions[i].group == GroupOf(arts[i], e.rule.groupByApp) {
      assert e.decisions[i] == Decide(arts[i], e.rule, now, Rank(lib.stableSort, arts, e.rule.groupByApp, i));
    }
  }

  lemma KeptIsNotPlanned(es: seq<Evaluation>, fingerprint: string, now: int, x: nat, i: nat)
    requires Conclude(es, fingerprint, now).Ok? && Decided(es, x, i) && !es[x].decisions[i].delete
    ensures KeyAt(es, x, i) !in PlannedKeys(Conclude(es, fingerprint, now).value)
  {
    PlanIsTheVote(es, fingerprint, now);
    assert !NeverProtected(es, KeyAt(es, x, i));
  }

  /** The entries of a group have different keys. */
  ghost predicate GroupKeysDiffer(e: Evaluation, g: string) {
    forall i, j :: 0 <= i < j < |e.decisions| && e.decisions[i].group == g && e.decisions[j].group == g
      ==> Key(e.decisions[i].artifact) != Key(e.decisions[j].artifact)
  }

  /** In particular a group whose entries have distinct keys keeps that many distinct artifacts. */
  lemma DistinctKeysRemain(e: Evaluation, g: string, gone: set<string>)
    requires GroupKeysDiffer(e, g)
    ensures |set i | i in LeftInGroup(e, g, gone) :: Key(e.decisions[i].artifact)| == |LeftInGroup(e, g, gone)|
  {
    var left, ds := LeftInGroup(e, g, gone), e.decisions;
    var key := (i: nat) => if i < |ds| then Key(ds[i].artifact) else "";
    forall i, j | i in left && j in left && key(i) == key(j) ensures i == j {
      if i < j {} else {}
    }
    InjectiveImage(left, key, set i | i in left :: Key(e.decisions[i].artifact));
  }
}
