/** A plan in terms of the listings it was made from: every target of every policy in turn, policies by name. */
module Listings {
  import opened Artifacts
  import opened Orders
  import opened Policy
  import opened Config
  import opened Engine
  import opened Planning

  /** A target of a policy. */
  datatype Site = Site(policy: string, target: nat)

  /** Policies go by name and their targets as configured. */
  predicate Earlier(a: Site, b: Site) { Less(a.policy, b.policy) || (a.policy == b.policy && a.target < b.target) }

  predicate Configured(policies: map<string, PolicyConfig>, a: Site) {
    a.policy in policies && a.target < |policies[a.policy].targets|
  }

  /** An artifact with its versions. */
  function Versioned(lib: Library, a: Artifact, tags: Tags): Artifact {
    match Parsed(lib, a, tags)
    case Ok(parsed) => parsed
    case Err(_) => a
  }

  function AllVersioned(lib: Library, arts: seq<Artifact>, tags: Tags): seq<Artifact> {
    seq(|arts|, i requires 0 <= i < |arts| => Versioned(lib, arts[i], tags))
  }

  /** What a target lists. */
  function Listing(lister: Lister, a: Site): seq<Artifact> {
    match lister(a.policy, a.target)
    case None => []
    case Some(arts) => arts
  }

  /** The decisions on what a target lists under the rule of its policy. */
  ghost function Judged(lib: Library, policies: map<string, PolicyConfig>, lister: Lister, now: int, a: Site)
    : (ds: seq<Decision>)
    requires LibraryOk(lib)
  {
    if !Configured(policies, a) then []
    else
      match RuleOf(lib, policies[a.policy])
      case None => []
      case Some(rule) =>
        Decisions(lib.stableSort, AllVersioned(lib, Listing(lister, a), policies[a.policy].tags), rule, now)
  }

  /** The evaluation is that of this target. */
  ghost predicate EvaluatedAt(lib: Library, policies: map<string, PolicyConfig>, lister: Lister, now: int, a: Site,
                              e: Evaluation)
    requires LibraryOk(lib)
  {
    && Configured(policies, a) && e.policy == a.policy && RuleOf(lib, policies[a.policy]) == Some(e.rule)
    && lister(a.policy, a.target).Some? && Listing(lister, a) != []
    && |e.decisions| == |Listing(lister, a)| && e.decisions == Judged(lib, policies, lister, now, a)
  }

  lemma TargetIsJudged(lib: Library, policies: map<string, PolicyConfig>, lister: Lister, now: int, a: Site, rule: Rule,
                       e: Evaluation)
    requires LibraryOk(lib) && Configured(policies, a) && RuleOf(lib, policies[a.policy]) == Some(rule)
    requires EvaluateTarget(lib, a.policy, policies[a.policy], rule, policies[a.policy].targets[a.target],
                            lister(a.policy, a.target), now) == Ok(e)
    ensures EvaluatedAt(lib, policies, lister, now, a, e)
  {
    var arts, tags := Listing(lister, a), policies[a.policy].tags;
    SequenceIff(ParseResults(lib, arts, tags));
    var parsed := Sequence(ParseResults(lib, arts, tags)).value;
    forall i | 0 <= i < |arts| ensures parsed[i] == Versioned(lib, arts[i], tags) {
      assert ParseResults(lib, arts, tags)[i] == Ok(parsed[i]);
    }
    assert parsed == AllVersioned(lib, arts, tags);
  }

  /** The targets of some policies, policy by policy. */
  function Sites(policies: map<string, PolicyConfig>, names: seq<string>): seq<Site>
    requires forall i :: 0 <= i < |names| ==> names[i] in policies
  {
    if |names| == 0 then []
    else
      var name := names[|names| - 1];
      Sites(policies, names[..|names| - 1])
      + seq(|policies[name].targets|, t requires 0 <= t < |policies[name].targets| => Site(name, t))
  }

  lemma {:induction false} SitesAre(policies: map<string, PolicyConfig>, names: seq<string>)
    requires forall i :: 0 <= i < |names| ==> names[i] in policies
    ensures forall a :: a in Sites(policies, names) <==> a.policy in names && Configured(policies, a)
  {
    if |names| > 0 {
      var init, name := names[..|names| - 1], names[|names| - 1];
      SitesAre(policies, init);
      var more := seq(|policies[name].targets|, t requires 0 <= t < |policies[name].targets| => Site(name, t));
      assert names == init + [name];
      assert Sites(policies, names) == Sites(policies, init) + more;
      forall a: Site ensures a in more <==> a.policy == name && Configured(policies, a) {
        if a.policy == name && Configured(policies, a) { assert more[a.target] == a; }
      }
    }
  }

  ghost predicate InOrder(sites: seq<Site>) {
    forall x, y :: 0 <= x < y < |sites| ==> Earlier(sites[x], sites[y])
  }

  lemma {:induction false} SitesInTurn(policies: map<string, PolicyConfig>, names: seq<string>)
    requires Ascending(names) && forall i :: 0 <= i < |names| ==> names[i] in policies
    ensures InOrder(Sites(policies, names))
  {
    if |names| > 0 {
      var init, name := names[..|names| - 1], names[|names| - 1];
      SitesInTurn(policies, init);
      SitesAre(policies, init);
      var before := Sites(policies, init);
      forall a | a in before ensures Less(a.policy, name) {
        var i :| 0 <= i < |init| && init[i] == a.policy;
        assert Less(names[i], names[|names| - 1]);
      }
      assert forall x :: 0 <= x < |before| ==> before[x] in before;
    }
  }

  /** Evaluation by evaluation. */
  ghost predicate EvaluatedInTurn(lib: Library, policies: map<string, PolicyConfig>, lister: Lister, now: int,
                                  sites: seq<Site>, es: seq<Evaluation>)
    requires LibraryOk(lib)
  {
    |sites| == |es| && forall x :: 0 <= x < |es| ==> EvaluatedAt(lib, policies, lister, now, sites[x], es[x])
  }

  lemma PolicySites(lib: Library, policies: map<string, PolicyConfig>, name: string, lister: Lister, now: int,
                    sites: seq<Site>)
    requires LibraryOk(lib) && name in policies && PolicyResult(lib, policies, name, lister, now).Ok?
    requires |sites| == |policies[name].targets| && forall t :: 0 <= t < |sites| ==> sites[t] == Site(name, t)
    ensures EvaluatedInTurn(lib, policies, lister, now, sites, PolicyResult(lib, policies, name, lister, now).value)
  {
    var rule := RuleOf(lib, policies[name]).value;
    var results := TargetResults(lib, name, policies[name], rule, lister, now);
    SequenceIff(results);
    var es := Sequence(results).value;
    forall t | 0 <= t < |es| ensures EvaluatedAt(lib, policies, lister, now, sites[t], es[t]) {
      assert results[t] == Ok(es[t]);
      TargetIsJudged(lib, policies, lister, now, sites[t], rule, es[t]);
    }
  }

  lemma TurnsConcat(lib: Library, policies: map<string, PolicyConfig>, lister: Lister, now: int,
                    a: seq<Site>, b: seq<Site>, es: seq<Evaluation>, more: seq<Evaluation>)
    requires LibraryOk(lib) && EvaluatedInTurn(lib, policies, lister, now, a, es)
    requires EvaluatedInTurn(lib, policies, lister, now, b, more)
    ensures EvaluatedInTurn(lib, policies, lister, now, a + b, es + more)
  {
    forall x | 0 <= x < |a + b| ensures EvaluatedAt(lib, policies, lister, now, (a + b)[x], (es + more)[x]) {
      if x < |a| {
        assert (a + b)[x] == a[x] && (es + more)[x] == es[x];
      } else {
        assert (a + b)[x] == b[x - |a|] && (es + more)[x] == more[x - |a|];
      }
    }
  }

  lemma {:induction false} AllInTurn(lib: Library, policies: map<string, PolicyConfig>, names: seq<string>,
                                     lister: Lister, now: int)
    requires LibraryOk(lib) && forall i :: 0 <= i < |names| ==> names[i] in policies
    requires EvaluateAll(lib, policies, names, lister, now).Ok?
    ensures EvaluatedInTurn(lib, policies, lister, now, Sites(policies, names),
                            EvaluateAll(lib, policies, names, lister, now).value)
  {
    if |names| > 0 {
      var init, name := names[..|names| - 1], names[|names| - 1];
      AllInTurn(lib, policies, init, lister, now);
      var more := seq(|policies[name].targets|, t requires 0 <= t < |policies[name].targets| => Site(name, t));
      PolicySites(lib, policies, name, lister, now, more);
      TurnsConcat(lib, policies, lister, now, Sites(policies, init), more,
                  EvaluateAll(lib, policies, init, lister, now).value,
                  PolicyResult(lib, policies, name, lister, now).value);
    }
  }

  /** The evaluations of a run are those of all targets of all policies, each once: policies in the order of their
      names, and the targets of a policy as configured. */
  lemma EvaluationsInTurn(lib: Library, policies: map<string, PolicyConfig>, lister: Lister, now: int)
    returns (sites: seq<Site>)
    requires LibraryOk(lib) && Evaluations(lib, policies, lister, now).Ok?
    ensures EvaluatedInTurn(lib, policies, lister, now, sites, Evaluations(lib, policies, lister, now).value)
    ensures InOrder(sites) && forall a :: a in sites <==> Configured(policies, a)
  {
    var names := Enumeration(policies.Keys);
    assert forall i :: 0 <= i < |names| ==> names[i] in names;
    sites := Sites(policies, names);
    AllInTurn(lib, policies, names, lister, now);
    SitesInTurn(policies, names);
    SitesAre(policies, names);
  }

  // The plan.

  /** The target lists an artifact of this key at this position. */
  ghost predicate Lists(policies: map<string, PolicyConfig>, lister: Lister, a: Site, i: nat, k: string) {
    Configured(policies, a) && i < |Listing(lister, a)| && Key(Listing(lister, a)[i]) == k
  }

  /** The target votes to delete what it lists there. */
  ghost predicate VotesToDelete(lib: Library, policies: map<string, PolicyConfig>, lister: Lister, now: int, a: Site,
                                i: nat)
    requires LibraryOk(lib)
  {
    i < |Judged(lib, policies, lister, now, a)| && Judged(lib, policies, lister, now, a)[i].delete
  }

  /** The key is listed, and every target that lists it votes to delete it, wherever it does. */
  ghost predicate VotedOutEverywhere(lib: Library, policies: map<string, PolicyConfig>, lister: Lister, now: int,
                                     k: string)
    requires LibraryOk(lib)
  {
    && (exists a, i: nat :: Lists(policies, lister, a, i, k))
    && forall a, i: nat :: Lists(policies, lister, a, i, k) ==> VotesToDelete(lib, policies, lister, now, a, i)
  }

  /** The greatest policy name, then the last target, then the last position that lists the key. */
  ghost predicate ListsLast(policies: map<string, PolicyConfig>, lister: Lister, a: Site, i: nat, k: string) {
    && Lists(policies, lister, a, i, k)
    && forall b, j: nat :: Lists(policies, lister, b, j, k) ==> Earlier(b, a) || (b == a && j <= i)
  }

  lemma JudgedArtifacts(lib: Library, policies: map<string, PolicyConfig>, lister: Lister, now: int, a: Site,
                        e: Evaluation, i: nat)
    requires LibraryOk(lib) && EvaluatedAt(lib, policies, lister, now, a, e) && i < |e.decisions|
    ensures e.decisions[i].artifact == Versioned(lib, Listing(lister, a)[i], policies[a.policy].tags)
    ensures Key(e.decisions[i].artifact) == Key(Listing(lister, a)[i])
    ensures e.decisions[i].delete ==> e.decisions[i].reasons == [Old]
  {
  }

  /** A decision at the position of its target. */
  ghost predicate At(sites: seq<Site>, es: seq<Evaluation>, k: string, a: Site, x: nat, i: nat) {
    |sites| == |es| && x < |sites| && sites[x] == a && Decided(es, x, i) && KeyAt(es, x, i) == k
  }

  lemma DecidedIsListed(lib: Library, policies: map<string, PolicyConfig>, lister: Lister, now: int,
                        sites: seq<Site>, es: seq<Evaluation>, k: string, x: nat, i: nat)
    requires LibraryOk(lib) && EvaluatedInTurn(lib, policies, lister, now, sites, es)
    requires Decided(es, x, i) && KeyAt(es, x, i) == k
    ensures Lists(policies, lister, sites[x], i, k)
    ensures VotesToDelete(lib, policies, lister, now, sites[x], i) <==> es[x].decisions[i].delete
  {
    JudgedArtifacts(lib, policies, lister, now, sites[x], es[x], i);
  }

  lemma ListedIsDecided(lib: Library, policies: map<string, PolicyConfig>, lister: Lister, now: int,
                        sites: seq<Site>, es: seq<Evaluation>, k: string, a: Site, i: nat) returns (x: nat)
    requires LibraryOk(lib) && EvaluatedInTurn(lib, policies, lister, now, sites, es) && a in sites
    requires Lists(policies, lister, a, i, k)
    ensures At(sites, es, k, a, x, i)
    ensures VotesToDelete(lib, policies, lister, now, a, i) <==> es[x].decisions[i].delete
  {
    x :| 0 <= x < |sites| && sites[x] == a;
    JudgedArtifacts(lib, policies, lister, now, a, es[x], i);
  }

  lemma VotedOutIff(lib: Library, policies: map<string, PolicyConfig>, lister: Lister, now: int, sites: seq<Site>,
                    es: seq<Evaluation>, k: string)
    requires LibraryOk(lib) && EvaluatedInTurn(lib, policies, lister, now, sites, es)
    requires forall a :: a in sites <==> Configured(policies, a)
    ensures Seen(es, k) <==> exists a, i: nat :: Lists(policies, lister, a, i, k)
    ensures NeverProtected(es, k)
            <==> forall a, i: nat :: Lists(policies, lister, a, i, k) ==>
                   VotesToDelete(lib, policies, lister, now, a, i)
  {
    forall a, i: nat | Lists(policies, lister, a, i, k)
      ensures Seen(es, k) && (NeverProtected(es, k) ==> VotesToDelete(lib, policies, lister, now, a, i))
    {
      var x := ListedIsDecided(lib, policies, lister, now, sites, es, k, a, i);
    }
    forall x: nat, i: nat | Decided(es, x, i) && KeyAt(es, x, i) == k
      ensures Lists(policies, lister, sites[x], i, k)
              && (VotesToDelete(lib, policies, lister, now, sites[x], i) <==> es[x].decisions[i].delete)
    {
      DecidedIsListed(lib, policies, lister, now, sites, es, k, x, i);
    }
  }

  /** A key is planned exactly when some target lists it and every target that lists it votes to delete it. */
  lemma PlannedIff(lib: Library, policies: map<string, PolicyConfig>, fingerprint: string, lister: Lister, now: int,
                   k: string)
    requires LibraryOk(lib) && PlanOf(lib, policies, fingerprint, lister, now).Ok?
    ensures k in PlannedKeys(PlanOf(lib, policies, fingerprint, lister, now).value)
            <==> VotedOutEverywhere(lib, policies, lister, now, k)
  {
    var es := Evaluations(lib, policies, lister, now).value;
    var sites := EvaluationsInTurn(lib, policies, lister, now);
    PlanIsTheVote(es, fingerprint, now);
    VotedOutIff(lib, policies, lister, now, sites, es, k);
  }

  /** The action is that of the last listing of its key: its policy, and its artifact with the versions this policy
      recognises, deleted for its age. */
  ghost predicate Attributes(lib: Library, policies: map<string, PolicyConfig>, lister: Lister, action: Action, a: Site,
                             i: nat)
  {
    && ListsLast(policies, lister, a, i, Key(action.artifact))
    && action.policy == a.policy && action.reasons == [Old]
    && action.artifact == Versioned(lib, Listing(lister, a)[i], policies[a.policy].tags)
  }

  /** Whose action it is. */
  lemma ActionsAreAttributed(lib: Library, policies: map<string, PolicyConfig>, fingerprint: string, lister: Lister,
                             now: int, n: nat)
    returns (a: Site, i: nat)
    requires LibraryOk(lib) && PlanOf(lib, policies, fingerprint, lister, now).Ok?
    requires n < |PlanOf(lib, policies, fingerprint, lister, now).value.actions|
    ensures Attributes(lib, policies, lister, PlanOf(lib, policies, fingerprint, lister, now).value.actions[n], a, i)
  {
    var es := Evaluations(lib, policies, lister, now).value;
    var sites := EvaluationsInTurn(lib, policies, lister, now);
    var action := PlanOf(lib, policies, fingerprint, lister, now).value.actions[n];
    PlanIsTheVote(es, fingerprint, now);
    assert FromLastDecision(es, action);
    var k := Key(action.artifact);
    var x: nat, j: nat :| LastDecision(es, k, x, j) && ActionOf(es, x, j) == action;
    a, i := sites[x], j;
    JudgedArtifacts(lib, policies, lister, now, a, es[x], i);
    assert NeverProtected(es, k) by {
      assert ActionKeys(PlanOf(lib, policies, fingerprint, lister, now).value.actions)[n] == k;
    }
    LastIsListedLast(lib, policies, lister, now, sites, es, k, x, i);
  }

  lemma LastIsListedLast(lib: Library, policies: map<string, PolicyConfig>, lister: Lister, now: int, sites: seq<Site>,
                         es: seq<Evaluation>, k: string, x: nat, i: nat)
    requires LibraryOk(lib) && EvaluatedInTurn(lib, policies, lister, now, sites, es) && InOrder(sites)
    requires forall a :: a in sites <==> Configured(policies, a)
    requires LastDecision(es, k, x, i)
    ensures ListsLast(policies, lister, sites[x], i, k)
  {
    DecidedIsListed(lib, policies, lister, now, sites, es, k, x, i);
    forall b, j: nat | Lists(policies, lister, b, j, k) ensures NotLater(sites[x], i, b, j) {
      var y := ListedIsDecided(lib, policies, lister, now, sites, es, k, b, j);
      LastInOrder(sites, es, k, x, i, b, y, j);
    }
  }

  predicate NotLater(a: Site, i: nat, b: Site, j: nat) { Earlier(b, a) || (b == a && j <= i) }

  lemma LastInOrder(sites: seq<Site>, es: seq<Evaluation>, k: string, x: nat, i: nat, b: Site, y: nat, j: nat)
    requires |sites| == |es| && InOrder(sites) && LastDecision(es, k, x, i) && At(sites, es, k, b, y, j)
    ensures NotLater(sites[x], i, b, j)
  {
  }

  /** The rest of the plan: its header, its keys in ascending order, and its two counts. */
  lemma PlanHeader(lib: Library, policies: map<string, PolicyConfig>, fingerprint: string, lister: Lister, now: int,
                   listed: set<string>, kept: set<string>)
    requires LibraryOk(lib) && PlanOf(lib, policies, fingerprint, lister, now).Ok?
    requires forall k :: k in listed <==> exists a, i: nat :: Lists(policies, lister, a, i, k)
    requires forall k :: k in kept <==> k in listed && !VotedOutEverywhere(lib, policies, lister, now, k)
    ensures var p := PlanOf(lib, policies, fingerprint, lister, now).value;
            && p.version == "v1" && p.createdAt == now && p.expiresAt == now + 3_600_000_000_000
            && p.fingerprint == fingerprint && Ascending(ActionKeys(p.actions))
            && p.discovered == |listed| && p.protected == |kept|
  {
    var es := Evaluations(lib, policies, lister, now).value;
    PlanIsTheVote(es, fingerprint, now);
    ListedAreSeen(lib, policies, lister, now, listed);
    KeptAreProtected(lib, policies, fingerprint, lister, now, listed, kept);
  }

  lemma ListedAreSeen(lib: Library, policies: map<string, PolicyConfig>, lister: Lister, now: int, listed: set<string>)
    requires LibraryOk(lib) && Evaluations(lib, policies, lister, now).Ok?
    requires forall k :: k in listed <==> exists a, i: nat :: Lists(policies, lister, a, i, k)
    ensures listed == SeenKeys(AllVotes(Evaluations(lib, policies, lister, now).value))
  {
    var es := Evaluations(lib, policies, lister, now).value;
    var sites := EvaluationsInTurn(lib, policies, lister, now);
    forall k ensures k in listed <==> k in SeenKeys(AllVotes(es)) {
      VotedOutIff(lib, policies, lister, now, sites, es, k);
      SeenIff(es, k);
    }
  }

  lemma KeptAreProtected(lib: Library, policies: map<string, PolicyConfig>, fingerprint: string, lister: Lister,
                         now: int, listed: set<string>, kept: set<string>)
    requires LibraryOk(lib) && PlanOf(lib, policies, fingerprint, lister, now).Ok?
    requires listed == SeenKeys(AllVotes(Evaluations(lib, policies, lister, now).value))
    requires forall k :: k in kept <==> k in listed && !VotedOutEverywhere(lib, policies, lister, now, k)
    ensures kept == ProtectedKeys(AllVotes(Evaluations(lib, policies, lister, now).value))
  {
    var es := Evaluations(lib, policies, lister, now).value;
    PlanConserves(es, fingerprint, now);
    forall k ensures k in kept <==> k in ProtectedKeys(AllVotes(es)) {
      PlannedIff(lib, policies, fingerprint, lister, now, k);
    }
  }
}
