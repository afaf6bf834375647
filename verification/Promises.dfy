/** What a policy promises of the artifacts it lists, in terms of the listing and the configuration alone. */
module Promises {
  import opened Artifacts
  import opened Calendar
  import opened Policy
  import opened Config
  import opened Engine
  import opened Planning
  import opened Retention
  import opened Ranking
  import opened Recognition
  import opened Listings
  import opened Failures

  /** Some tag of the artifact is recognised. */
  ghost predicate HasVersion(lib: Library, tags: Tags, raw: Artifact) {
    exists t, v :: t in raw.tags && RecognisedAs(lib, tags, t, v)
  }

  predicate OldEnough(q: PolicyConfig, age: int) {
    age >= q.deleteOlderThan && (q.keepNewerThan > 0 ==> age >= q.keepNewerThan)
  }

  /** No protection that the policy configures applies to the artifact. */
  ghost predicate Unprotected(lib: Library, q: PolicyConfig, raw: Artifact) {
    && (raw.tags == [] ==> q.requireTagged == Some(false))
    && (!HasVersion(lib, q.tags, raw) ==> q.unparsedTags == Some(false))
    && (forall t :: t in raw.tags ==> t !in q.protectTags)
    && (forall t, e :: t in raw.tags && e in q.tagPatterns ==> !Matches(lib, e, t))
    && (raw.digest == "" || raw.digest !in q.digests)
    && raw.referrers == []
  }

  /** The expression compiles and matches the tag. */
  predicate Matches(lib: Library, expression: string, tag: string) {
    match lib.compile(expression)
    case None => false
    case Some(matches) => matches(tag)
  }

  /** Every recognised tag names the same app. */
  ghost predicate OneApp(lib: Library, q: PolicyConfig, raw: Artifact) {
    forall t, u, v, w :: t in raw.tags && u in raw.tags ==>
      RecognisedAs(lib, q.tags, t, v) && RecognisedAs(lib, q.tags, u, w) ==> SameApp(v.app, w.app)
  }

  /** Every recognised tag is old enough, or without one the last update, or without that the creation. */
  ghost predicate Aged(lib: Library, q: PolicyConfig, raw: Artifact, now: int) {
    && (forall t, v :: t in raw.tags && RecognisedAs(lib, q.tags, t, v) ==> OldEnough(q, Sub(now, v.date)))
    && (!HasVersion(lib, q.tags, raw) ==>
          OldEnough(q, Sub(now, if raw.updatedAt == ZERO_TIME then raw.createdAt else raw.updatedAt)))
  }

  // The versions of a listed artifact.

  /** The artifact is the listed one with its recognised versions, newest first. */
  ghost predicate Holds(lib: Library, tags: Tags, raw: Artifact, a: Artifact) {
    && a == raw.(versions := a.versions) && Descend(a.versions)
    && (forall t, v :: t in raw.tags && RecognisedAs(lib, tags, t, v) ==> v in a.versions)
    && (forall v :: v in a.versions ==> v.tag in raw.tags && RecognisedAs(lib, tags, v.tag, v))
    && (a.versions == [] <==> !HasVersion(lib, tags, raw))
  }

  lemma VersionedHolds(lib: Library, tags: Tags, raw: Artifact)
    requires LibraryOk(lib) && Parsed(lib, raw, tags).Ok?
    ensures Holds(lib, tags, raw, Versioned(lib, raw, tags))
  {
    var a := Versioned(lib, raw, tags);
    VersionsAre(lib, raw, tags);
    forall v: Version ensures v in a.versions <==> v.tag in raw.tags && RecognisedAs(lib, tags, v.tag, v) {
      VersionIn(lib, raw, tags, v);
    }
    SomeVersion(lib, tags, raw, a.versions);
  }

  lemma SomeVersion(lib: Library, tags: Tags, raw: Artifact, versions: seq<Version>)
    requires forall v: Version :: v in versions <==> v.tag in raw.tags && RecognisedAs(lib, tags, v.tag, v)
    ensures forall t, v :: t in raw.tags && RecognisedAs(lib, tags, t, v) ==> v in versions
    ensures versions == [] <==> !HasVersion(lib, tags, raw)
  {
    forall t, v | t in raw.tags && RecognisedAs(lib, tags, t, v) ensures v in versions {
      RecognisedKeepsTag(lib, tags, t, v);
    }
    if versions != [] {
      assert versions[0] in versions;
    }
  }

  lemma PatternsMatch(lib: Library, q: PolicyConfig, rule: Rule, raw: Artifact)
    requires Carries(lib, q, rule)
    ensures (forall t, f :: t in raw.tags && f in rule.protectedPatterns ==> !f(t))
            <==> forall t, e :: t in raw.tags && e in q.tagPatterns ==> !Matches(lib, e, t)
  {
    forall t, f | t in raw.tags && f in rule.protectedPatterns
      ensures exists e :: e in q.tagPatterns && Matches(lib, e, t) == f(t)
    {
      var i :| 0 <= i < |rule.protectedPatterns| && rule.protectedPatterns[i] == f;
      assert q.tagPatterns[i] in q.tagPatterns && lib.compile(q.tagPatterns[i]) == Some(f);
      assert Matches(lib, q.tagPatterns[i], t) == f(t);
    }
    forall t, e | t in raw.tags && e in q.tagPatterns
      ensures exists f :: f in rule.protectedPatterns && Matches(lib, e, t) == f(t)
    {
      var i :| 0 <= i < |q.tagPatterns| && q.tagPatterns[i] == e;
      assert rule.protectedPatterns[i] in rule.protectedPatterns;
      assert lib.compile(e) == Some(rule.protectedPatterns[i]);
    }
  }

  lemma OneAppIff(lib: Library, q: PolicyConfig, raw: Artifact, a: Artifact)
    requires Holds(lib, q.tags, raw, a)
    ensures OneApp(lib, q, raw) <==> forall v, w :: v in a.versions && w in a.versions ==> SameApp(v.app, w.app)
  {
  }

  lemma UnprotectedIff(lib: Library, q: PolicyConfig, rule: Rule, raw: Artifact, a: Artifact)
    requires Carries(lib, q, rule) && Holds(lib, q.tags, raw, a)
    ensures Unshielded(a, rule) <==> Unprotected(lib, q, raw) && OneApp(lib, q, raw)
  {
    PatternsMatch(lib, q, rule, raw);
    OneAppIff(lib, q, raw, a);
    assert q.requireTagged != Some(false) <==> rule.requireTagged;
  }

  /** The newest recognised tag is old enough exactly when all are. */
  lemma AgedIff(lib: Library, q: PolicyConfig, raw: Artifact, a: Artifact, now: int)
    requires Holds(lib, q.tags, raw, a)
    ensures Aged(lib, q, raw, now) <==> OldEnough(q, Sub(now, Dated(a)))
  {
    if a.versions != [] {
      assert a.versions[0] in a.versions;
      forall v | v in a.versions ensures Sub(now, v.date) >= Sub(now, a.versions[0].date) {
        var i :| 0 <= i < |a.versions| && a.versions[i] == v;
        assert a.versions[0].date >= v.date;
      }
    }
  }

  // The vote.

  /** The position of a listed artifact in its group. */
  ghost function RankAt(lib: Library, policies: map<string, PolicyConfig>, lister: Lister, a: Site, i: nat): nat
    requires LibraryOk(lib) && Configured(policies, a) && i < |Listing(lister, a)|
  {
    var q := policies[a.policy];
    Rank(lib.stableSort, AllVersioned(lib, Listing(lister, a), q.tags), q.groupBy == "app", i)
  }

  /** Everything the policy demands of a deletion, besides the rank. */
  ghost predicate Expendable(lib: Library, q: PolicyConfig, raw: Artifact, now: int) {
    q.deleteOlderThan > 0 && Unprotected(lib, q, raw) && OneApp(lib, q, raw) && Aged(lib, q, raw, now)
  }

  lemma ExpendableIff(lib: Library, q: PolicyConfig, rule: Rule, raw: Artifact, a: Artifact, now: int)
    requires Carries(lib, q, rule) && Holds(lib, q.tags, raw, a)
    ensures Expendable(lib, q, raw, now)
            <==> q.deleteOlderThan > 0 && Unshielded(a, rule) && OldEnough(q, Sub(now, Dated(a)))
  {
    UnprotectedIff(lib, q, rule, raw, a);
    AgedIff(lib, q, raw, a, now);
  }

  lemma ListingIsParsed(lib: Library, policies: map<string, PolicyConfig>, lister: Lister, now: int, a: Site, i: nat)
    requires LibraryOk(lib) && Evaluations(lib, policies, lister, now).Ok?
    requires Configured(policies, a) && i < |Listing(lister, a)|
    ensures RuleOf(lib, policies[a.policy]).Some? && Parsed(lib, Listing(lister, a)[i], policies[a.policy].tags).Ok?
  {
    EvaluationFailsIff(lib, policies, lister, now);
    CompilesIff(lib, policies[a.policy]);
    assert PolicyWorks(lib, policies, lister, a.policy);
    assert a == Site(a.policy, a.target) && TargetWorks(policies, lister, a);
    assert Listing(lister, a)[i] in Listing(lister, a);
  }

  /** A target votes to delete an artifact exactly when the artifact is expendable and at least keep_latest and at least
      keep_at_least artifacts of its group rank before it. */
  lemma VoteIff(lib: Library, policies: map<string, PolicyConfig>, lister: Lister, now: int, a: Site, i: nat)
    requires LibraryOk(lib) && Evaluations(lib, policies, lister, now).Ok?
    requires Configured(policies, a) && i < |Listing(lister, a)|
    ensures var q, rank := policies[a.policy], RankAt(lib, policies, lister, a, i);
            VotesToDelete(lib, policies, lister, now, a, i)
            <==> && Expendable(lib, q, Listing(lister, a)[i], now)
                 && rank >= q.keepLatest && rank >= q.keepAtLeast
  {
    ListingIsParsed(lib, policies, lister, now, a, i);
    var raw, q := Listing(lister, a)[i], policies[a.policy];
    var arts, rule := AllVersioned(lib, Listing(lister, a), q.tags), RuleOf(lib, q).value;
    RuleCarries(lib, q);
    VersionedHolds(lib, q.tags, raw);
    ExpendableIff(lib, q, rule, raw, arts[i], now);
    DeletedIff(lib.stableSort, arts, rule, now, i);
  }

  /** An artifact is planned exactly when it is listed and every policy that lists it demands nothing that keeps it. */
  lemma PlannedAreExpendable(lib: Library, policies: map<string, PolicyConfig>, fingerprint: string, lister: Lister,
                             now: int, k: string)
    requires LibraryOk(lib) && PlanOf(lib, policies, fingerprint, lister, now).Ok?
    ensures k in PlannedKeys(PlanOf(lib, policies, fingerprint, lister, now).value)
            <==> && (exists a, i: nat :: Lists(policies, lister, a, i, k))
                 && forall a, i: nat :: Lists(policies, lister, a, i, k) ==>
                      && Expendable(lib, policies[a.policy], Listing(lister, a)[i], now)
                      && RankAt(lib, policies, lister, a, i) >= policies[a.policy].keepLatest
                      && RankAt(lib, policies, lister, a, i) >= policies[a.policy].keepAtLeast
  {
    PlannedIff(lib, policies, fingerprint, lister, now, k);
    forall a, i: nat | Lists(policies, lister, a, i, k)
      ensures VotesToDelete(lib, policies, lister, now, a, i)
              <==> && Expendable(lib, policies[a.policy], Listing(lister, a)[i], now)
                   && RankAt(lib, policies, lister, a, i) >= policies[a.policy].keepLatest
                   && RankAt(lib, policies, lister, a, i) >= policies[a.policy].keepAtLeast
    {
      VoteIff(lib, policies, lister, now, a, i);
    }
  }

  /** Unless a policy says unparsed_tags false, nothing it lists without a recognised tag is ever planned, and unless it
      says require_tagged false, nothing it lists without tags is. */
  lemma UnparsedAreKept(lib: Library, policies: map<string, PolicyConfig>, fingerprint: string, lister: Lister,
                        now: int, a: Site, i: nat)
    requires LibraryOk(lib) && PlanOf(lib, policies, fingerprint, lister, now).Ok?
    requires Configured(policies, a) && i < |Listing(lister, a)|
    requires var q, raw := policies[a.policy], Listing(lister, a)[i];
             || (q.unparsedTags != Some(false) && !HasVersion(lib, q.tags, raw))
             || (q.requireTagged != Some(false) && raw.tags == [])
    ensures Key(Listing(lister, a)[i]) !in PlannedKeys(PlanOf(lib, policies, fingerprint, lister, now).value)
  {
    PlannedAreExpendable(lib, policies, fingerprint, lister, now, Key(Listing(lister, a)[i]));
    assert Lists(policies, lister, a, i, Key(Listing(lister, a)[i]));
  }

  /** What a planned artifact ranks behind: among the artifacts of its group, when all of them have recognised tags or
      none has, at least keep_latest and at least keep_at_least are ahead of it by date, sequence, tag and ID. */
  lemma PlannedHaveMatesAhead(lib: Library, policies: map<string, PolicyConfig>, fingerprint: string, lister: Lister,
                              now: int, a: Site, i: nat)
    requires LibraryOk(lib) && PlanOf(lib, policies, fingerprint, lister, now).Ok?
    requires Configured(policies, a) && i < |Listing(lister, a)|
    requires Key(Listing(lister, a)[i]) in PlannedKeys(PlanOf(lib, policies, fingerprint, lister, now).value)
    requires var q := policies[a.policy];
             PureGroup(AllVersioned(lib, Listing(lister, a), q.tags), q.groupBy == "app", i)
    ensures var q := policies[a.policy];
            var ahead := AllAhead(AllVersioned(lib, Listing(lister, a), q.tags), q.groupBy == "app", i);
            |ahead| >= q.keepLatest && |ahead| >= q.keepAtLeast
  {
    PlannedAreExpendable(lib, policies, fingerprint, lister, now, Key(Listing(lister, a)[i]));
    assert Lists(policies, lister, a, i, Key(Listing(lister, a)[i]));
    var q := policies[a.policy];
    RankIsTheNumberAhead(lib.stableSort, AllVersioned(lib, Listing(lister, a), q.tags), q.groupBy == "app", i);
  }
}
